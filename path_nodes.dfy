/** Search nodes and the order the frontier heap keeps them in. */
module PathNodes {
  import opened Grid

  datatype Option<+T> = None | Some(value: T)

  /** One visited or frontier state: its cell, its `f` and `g` costs and the
      node it was reached from. Nodes are never updated; the parent chain is
      an immutable, acyclic tree rooted at the start node. The `f32` costs are
      taken as exact reals. */
  datatype PathNode = PathNode(pos: Position, f: real, g: real, parent: Option<PathNode>)

  /** `partial_cmp` on two costs. */
  function CompareCosts(a: real, b: real): Ordering {
    if a < b then Less else if a > b then Greater else Equal
  }

  /** The equality of nodes: cell, `f` and `g`; the parent is not compared. */
  predicate Eq(a: PathNode, b: PathNode) {
    a.pos == b.pos && a.f == b.f && a.g == b.g
  }

  /** The order of nodes: reversed on `f` (so that the max-heap pops the
      cheapest node), then by cell. A node is greater than another exactly
      when it is cheaper, or equally cheap and at a later cell. */
  function Cmp(a: PathNode, b: PathNode): (o: Ordering)
    ensures o == Greater <==> a.f < b.f || (a.f == b.f && PosLess(b.pos, a.pos))
    ensures o == Less <==> a.f > b.f || (a.f == b.f && PosLess(a.pos, b.pos))
    ensures o == Equal <==> a.f == b.f && a.pos == b.pos
  {
    var byCost := CompareCosts(b.f, a.f);
    if byCost != Equal then byCost else ComparePositions(a.pos, b.pos)
  }

  /** `Cmp` is a total preorder: swapping the arguments flips the outcome,
      and "not greater" is transitive. */
  lemma CmpIsTotalPreorder(a: PathNode, b: PathNode, c: PathNode)
    ensures Cmp(b, a) == Cmp(a, b).Flip()
    ensures Cmp(a, b) != Greater && Cmp(b, c) != Greater ==> Cmp(a, c) != Greater
  {
  }

  /** Nodes that are equal are also equal under the order. */
  lemma EqImpliesCmpEqual(a: PathNode, b: PathNode)
    requires Eq(a, b)
    ensures Cmp(a, b) == Equal
  {
  }

  /** The converse fails: two nodes at the same cell with the same `f` but
      different `g` compare Equal while not being equal, which breaks the
      requirement that an order agree with its equality. */
  lemma CmpEqualWithoutEq()
    ensures var a := PathNode(Position(0, 0), 1.0, 0.0, None);
            var b := PathNode(Position(0, 0), 1.0, 1.0, None);
            Cmp(a, b) == Equal && !Eq(a, b)
  {
  }

  /** An equality that agrees with `Cmp`: cell and `f` only. */
  predicate EqByRank(a: PathNode, b: PathNode)
    ensures EqByRank(a, b) <==> Cmp(a, b) == Equal
    ensures Eq(a, b) ==> EqByRank(a, b)
  {
    a.pos == b.pos && a.f == b.f
  }
}
