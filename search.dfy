/** The A* search itself: expanding a node into its neighbours and the main
    loop that pops, expands, admits and finally reconstructs the path. */
module Search {
  import opened Grid
  import opened PathNodes
  import opened Frontier
  import opened Backtrace

  /** The distance function the caller supplies; it is both the step cost
      and, doubled, the estimate of the remaining cost. */
  type Distance = (Position, Position) -> real

  /** The outcome of a search. `NotFound` is the source's `None`; `OutOfFuel`
      means the search was cut off after `fuel` expansions, which the source,
      running without bound, never does. */
  datatype SearchResult = Found(path: seq<Position>) | NotFound | OutOfFuel

  /** The node the search starts from: no parent, and both costs zero. */
  function StartNode(start: Position): PathNode {
    PathNode(start, 0.0, 0.0, None)
  }

  /** `c` is the candidate the expansion of `q` generates for `c`'s cell:
      a neighbour of `q`, with `q` as parent, the step cost added to `g`, and
      twice the distance to the goal added to `g` to give `f`. */
  predicate Generated(c: PathNode, q: PathNode, end: Position, m: Map, dist: Distance)
    requires m.Valid()
  {
    && IsNeighbour(m, q.pos, c.pos)
    && c.parent == Some(q)
    && c.g == q.g + dist(c.pos, q.pos)
    && c.f == c.g + dist(c.pos, end) * 2.0
  }

  /** Every link of `n`'s parent chain is a generated candidate, and the chain
      ends at the start node. */
  ghost predicate WellFormed(n: PathNode, start: Position, end: Position, m: Map, dist: Distance)
    requires m.Valid()
    decreases n
  {
    match n.parent
    case None => n == StartNode(start)
    case Some(q) => Generated(n, q, end, m, dist) && WellFormed(q, start, end, m, dist)
  }

  /** The cells of a well-formed node's chain form a walk from the start. */
  lemma {:induction false} ChainIsWalk(n: PathNode, start: Position, end: Position, m: Map, dist: Distance)
    requires m.Valid() && WellFormed(n, start, end, m, dist)
    ensures Root(n) == StartNode(start)
    ensures IsWalk(m, PathTo(n))
    decreases n
  {
    match n.parent
    case None =>
    case Some(q) =>
      ChainIsWalk(q, start, end, m, dist);
      WalkExtend(m, PathTo(q), n.pos);
  }

  /** The two nested loops over the offsets -1..=1 that generate the
      candidates of `q`: one per neighbour cell, each with its costs and `q`
      as parent, in increasing cell order (column by column). */
  method ExpandNeighbours(q: PathNode, end: Position, m: Map, dist: Distance) returns (next: seq<PathNode>)
    requires m.Valid()
    ensures |next| <= 8
    ensures forall i :: 0 <= i < |next| ==> Generated(next[i], q, end, m, dist)
    ensures forall p :: IsNeighbour(m, q.pos, p) ==> HasPosition(next, p)
    ensures forall i, j :: 0 <= i < j < |next| ==> PosLess(next[i].pos, next[j].pos)
  {
    next := [];
    for dx := -1 to 2
      invariant |next| <= 3 * (dx + 1) - (if dx >= 1 then 1 else 0)
      invariant forall i :: 0 <= i < |next| ==> Generated(next[i], q, end, m, dist) && next[i].pos.x < q.pos.x + dx
      invariant forall p :: IsNeighbour(m, q.pos, p) && p.x < q.pos.x + dx ==> HasPosition(next, p)
      invariant forall i, j :: 0 <= i < j < |next| ==> PosLess(next[i].pos, next[j].pos)
    {
      if (q.pos.x == 0 && dx == -1) || q.pos.x + dx >= m.width {
        continue;
      }
      var nx: nat := q.pos.x + dx;
      ghost var before := |next|;
      for dy := -1 to 2
        invariant |next| <= before + (dy + 1) - (if dx == 0 && dy >= 1 then 1 else 0)
        invariant forall i :: 0 <= i < |next| ==>
                    Generated(next[i], q, end, m, dist) &&
                    (next[i].pos.x < nx || (next[i].pos.x == nx && next[i].pos.y < q.pos.y + dy))
        invariant forall p :: IsNeighbour(m, q.pos, p) && (p.x < nx || (p.x == nx && p.y < q.pos.y + dy)) ==>
                    HasPosition(next, p)
        invariant forall i, j :: 0 <= i < j < |next| ==> PosLess(next[i].pos, next[j].pos)
      {
        if (q.pos.y == 0 && dy == -1) || q.pos.y + dy >= m.height {
          continue;
        }
        if dx == 0 && dy == 0 {
          continue;
        }
        var ny: nat := q.pos.y + dy;
        if m.IsBlocked(Position(nx, ny)) {
          continue;
        }
        var nPos := Position(nx, ny);
        var g := q.g + dist(nPos, q.pos);
        var h := dist(nPos, end) * 2.0;
        var c := PathNode(nPos, g + h, g, Some(q));
        forall p | IsNeighbour(m, q.pos, p) && (p.x < nx || (p.x == nx && p.y < q.pos.y + dy + 1))
          ensures HasPosition(next + [c], p)
        {
          HasPositionConcat(next, [c], p);
          if p == nPos {
            assert [c][0].pos == p;
          }
        }
        next := next + [c];
      }
    }
  }

  /** Every neighbour of an expanded node is other than the goal and is the
      cell of a node in the heap or of an expanded node. */
  ghost predicate NeighboursCovered(m: Map, end: Position, heap: multiset<PathNode>, cameFrom: seq<PathNode>)
    requires m.Valid()
  {
    forall i, p :: 0 <= i < |cameFrom| && IsNeighbour(m, cameFrom[i].pos, p) ==>
      p != end && Covered(heap, cameFrom, p)
  }

  /** Every node of the heap is well formed. */
  ghost predicate HeapWellFormed(start: Position, end: Position, m: Map, dist: Distance, heap: multiset<PathNode>)
    requires m.Valid()
  {
    forall n :: n in heap ==> WellFormed(n, start, end, m, dist)
  }

  /** Every expanded node is well formed. */
  ghost predicate ExpandedWellFormed(start: Position, end: Position, m: Map, dist: Distance, cameFrom: seq<PathNode>)
    requires m.Valid()
  {
    forall i :: 0 <= i < |cameFrom| ==> WellFormed(cameFrom[i], start, end, m, dist)
  }

  /** What the main loop keeps true from one iteration to the next:
      the map of the frontier is consistent with its heap; every node in the
      heap and every expanded node is well formed; the start cell is in the
      heap or expanded; no expanded node has the goal as a neighbour, and
      every neighbour of an expanded node is in the heap or expanded. */
  ghost predicate SearchInvariant(start: Position, end: Position, m: Map, dist: Distance,
                                  open: OpenSet, cameFrom: seq<PathNode>)
    requires m.Valid()
  {
    && open.Valid()
    && HeapWellFormed(start, end, m, dist, open.heap)
    && ExpandedWellFormed(start, end, m, dist, cameFrom)
    && Covered(open.heap, cameFrom, start)
    && NeighboursCovered(m, end, open.heap, cameFrom)
  }

  lemma CoveredAfterExpansion(heap: multiset<PathNode>, heap': multiset<PathNode>,
                              cameFrom: seq<PathNode>, q: PathNode, p: Position)
    requires q in heap && heap - multiset{q} <= heap' && Covered(heap, cameFrom, p)
    ensures Covered(heap', cameFrom + [q], p)
  {
    HasPositionConcat(cameFrom, [q], p);
    if !HasPosition(cameFrom, p) {
      var n :| n in heap && n.pos == p;
      if n == q {
        assert [q][0].pos == p;
      } else {
        assert n in heap - multiset{q};
      }
    }
  }

  /** Popping `q` and dropping the map entry at its cell keeps the map
      consistent with the heap. */
  lemma PopKeepsOpenSet(open: OpenSet, q: PathNode)
    requires open.Valid()
    ensures OpenSet(open.heap - multiset{q}, open.contains - {q.pos}).Valid()
  {
    var popped := OpenSet(open.heap - multiset{q}, open.contains - {q.pos});
    forall p | p in popped.contains
      ensures popped.contains[p].pos == p && popped.contains[p] in popped.heap
    {
      assert open.contains[p] != q;
    }
  }

  /** The well-formedness half of one iteration. */
  lemma {:induction false} ExpansionKeepsWellFormed(start: Position, end: Position, m: Map, dist: Distance,
                                                    heap: multiset<PathNode>, heap': multiset<PathNode>,
                                                    cameFrom: seq<PathNode>, q: PathNode, next: seq<PathNode>)
    requires m.Valid()
    requires HeapWellFormed(start, end, m, dist, heap) && ExpandedWellFormed(start, end, m, dist, cameFrom)
    requires q in heap
    requires forall i :: 0 <= i < |next| ==> Generated(next[i], q, end, m, dist)
    requires forall n :: n in heap' ==> n in heap - multiset{q} || n in next
    ensures HeapWellFormed(start, end, m, dist, heap')
    ensures ExpandedWellFormed(start, end, m, dist, cameFrom + [q])
  {
    assert WellFormed(q, start, end, m, dist);
    forall n | n in heap'
      ensures WellFormed(n, start, end, m, dist)
    {
      if n !in heap - multiset{q} {
        var i :| 0 <= i < |next| && next[i] == n;
      }
    }
    forall i | 0 <= i < |cameFrom + [q]|
      ensures WellFormed((cameFrom + [q])[i], start, end, m, dist)
    {
      if i < |cameFrom| {
        assert (cameFrom + [q])[i] == cameFrom[i];
      }
    }
  }

  /** The coverage half of one iteration. */
  lemma ExpansionKeepsCoverage(m: Map, start: Position, end: Position,
                               heap: multiset<PathNode>, heap': multiset<PathNode>,
                               cameFrom: seq<PathNode>, q: PathNode, next: seq<PathNode>)
    requires m.Valid()
    requires Covered(heap, cameFrom, start) && NeighboursCovered(m, end, heap, cameFrom)
    requires q in heap && heap - multiset{q} <= heap'
    requires forall p :: IsNeighbour(m, q.pos, p) ==> HasPosition(next, p)
    requires !HasPosition(next, end)
    requires forall i :: 0 <= i < |next| ==> Covered(heap', cameFrom, next[i].pos)
    ensures Covered(heap', cameFrom + [q], start)
    ensures NeighboursCovered(m, end, heap', cameFrom + [q])
  {
    CoveredAfterExpansion(heap, heap', cameFrom, q, start);
    forall i, p {:trigger IsNeighbour(m, (cameFrom + [q])[i].pos, p)}
      | 0 <= i < |cameFrom + [q]| && IsNeighbour(m, (cameFrom + [q])[i].pos, p)
      ensures p != end && Covered(heap', cameFrom + [q], p)
    {
      if i < |cameFrom| {
        assert (cameFrom + [q])[i] == cameFrom[i];
        CoveredAfterExpansion(heap, heap', cameFrom, q, p);
      } else {
        assert (cameFrom + [q])[i] == q;
        assert HasPosition(next, p);
        var j :| 0 <= j < |next| && next[j].pos == p;
        assert Covered(heap', cameFrom, p);
        HasPositionConcat(cameFrom, [q], p);
      }
    }
  }

  /** One iteration that does not reach the goal keeps the invariant: pop
      `q`, drop its map entry, admit its candidates, append it to the
      expanded list. */
  lemma {:induction false} ExpansionKeepsInvariant(start: Position, end: Position, m: Map, dist: Distance,
                                                   open: OpenSet, cameFrom: seq<PathNode>,
                                                   q: PathNode, next: seq<PathNode>)
    requires m.Valid()
    requires SearchInvariant(start, end, m, dist, open, cameFrom)
    requires q in open.heap
    requires forall i :: 0 <= i < |next| ==> Generated(next[i], q, end, m, dist)
    requires forall p :: IsNeighbour(m, q.pos, p) ==> HasPosition(next, p)
    requires !HasPosition(next, end)
    ensures var popped := OpenSet(open.heap - multiset{q}, open.contains - {q.pos});
            SearchInvariant(start, end, m, dist, Admission(next, end, popped, cameFrom), cameFrom + [q])
  {
    var popped := OpenSet(open.heap - multiset{q}, open.contains - {q.pos});
    PopKeepsOpenSet(open, q);
    AdmissionKeepsOpenSet(next, end, popped, cameFrom);
    var open' := Admission(next, end, popped, cameFrom);
    ExpansionKeepsWellFormed(start, end, m, dist, open.heap, open'.heap, cameFrom, q, next);
    ExpansionKeepsCoverage(m, start, end, open.heap, open'.heap, cameFrom, q, next);
  }

  /** Every neighbour of an expanded node is other than the goal and expanded
      itself. */
  ghost predicate ExpandedClosed(m: Map, end: Position, cameFrom: seq<PathNode>)
    requires m.Valid()
  {
    forall i, p :: 0 <= i < |cameFrom| && IsNeighbour(m, cameFrom[i].pos, p) ==>
      p != end && HasPosition(cameFrom, p)
  }

  /** In a closed set of expanded cells, every walk from an expanded cell
      stays among them and never reaches the goal. */
  lemma {:induction false} WalkStaysExpanded(m: Map, end: Position, cameFrom: seq<PathNode>,
                                             w: seq<Position>, k: nat)
    requires m.Valid()
    requires IsWalk(m, w) && |w| >= 1 && HasPosition(cameFrom, w[0])
    requires ExpandedClosed(m, end, cameFrom)
    requires k < |w|
    ensures HasPosition(cameFrom, w[k]) && (k > 0 ==> w[k] != end)
    decreases k
  {
    if k > 0 {
      WalkStaysExpanded(m, end, cameFrom, w, k - 1);
      var i :| 0 <= i < |cameFrom| && cameFrom[i].pos == w[k - 1];
      assert IsNeighbour(m, w[k - 1], w[k]);
    }
  }

  /** With the heap empty, coverage says the expanded cells are closed. */
  lemma ClosedWhenExhausted(m: Map, end: Position, heap: multiset<PathNode>, cameFrom: seq<PathNode>)
    requires m.Valid() && heap == multiset{} && NeighboursCovered(m, end, heap, cameFrom)
    ensures ExpandedClosed(m, end, cameFrom)
  {
    forall i, p {:trigger IsNeighbour(m, cameFrom[i].pos, p)}
      | 0 <= i < |cameFrom| && IsNeighbour(m, cameFrom[i].pos, p)
      ensures p != end && HasPosition(cameFrom, p)
    {
      assert Covered(heap, cameFrom, p);
    }
  }

  /** An exhausted frontier means the goal cannot be reached from the start
      in one or more steps. */
  lemma ExhaustedMeansUnreachable(start: Position, end: Position, m: Map,
                                  heap: multiset<PathNode>, cameFrom: seq<PathNode>)
    requires m.Valid()
    requires Covered(heap, cameFrom, start) && NeighboursCovered(m, end, heap, cameFrom)
    requires heap == multiset{}
    ensures forall w :: IsWalk(m, w) && |w| >= 2 && w[0] == start ==> w[|w| - 1] != end
  {
    ClosedWhenExhausted(m, end, heap, cameFrom);
    forall w | IsWalk(m, w) && |w| >= 2 && w[0] == start
      ensures w[|w| - 1] != end
    {
      WalkStaysExpanded(m, end, cameFrom, w, |w| - 1);
    }
  }

  /** The path read back from the terminal node that follows a goal-adjacent
      well-formed node: from the start, a walk, ending at the goal. */
  lemma {:induction false} TerminalPath(q: PathNode, start: Position, end: Position, m: Map, dist: Distance)
    requires m.Valid() && WellFormed(q, start, end, m, dist) && IsNeighbour(m, q.pos, end)
    ensures var t := PathNode(end, 0.0, 0.0, Some(q));
            Root(t).pos == start && PathTo(t)[0] == start && IsWalk(m, PathTo(t))
  {
    ChainIsWalk(q, start, end, m, dist);
    var t := PathNode(end, 0.0, 0.0, Some(q));
    assert PathTo(t) == PathTo(q) + [end];
    WalkExtend(m, PathTo(q), end);
  }

  /** On a 1x1 grid no walk of one or more steps starts at the only cell, so
      by the postcondition of `AStar` the search never returns `Found` there,
      not even when the start is the goal. */
  lemma SingleCellHasNoWalk(m: Map)
    requires m.Valid() && m.width == 1 && m.height == 1
    ensures forall w :: IsWalk(m, w) && |w| >= 2 ==> w[0] != Position(0, 0)
  {
    forall w | IsWalk(m, w) && |w| >= 2
      ensures w[0] != Position(0, 0)
    {
      assert IsNeighbour(m, w[0], w[1]);
    }
  }

  /** `a_star`. On success the path starts at `start` (twice: the root is
      emitted twice), ends at `end`, and every step after the first goes to
      an in-bounds, unblocked, 8-adjacent cell. `NotFound` is returned only
      when the frontier runs empty, and then no walk of one or more steps
      leads from `start` to `end`. */
  method AStar(start: Position, end: Position, m: Map, dist: Distance, fuel: nat) returns (r: SearchResult)
    requires m.Valid()
    ensures r.Found? ==> |r.path| >= 3 && r.path[0] == start && r.path[1] == start &&
                         r.path[|r.path| - 1] == end && IsWalk(m, r.path[1..])
    ensures r.NotFound? ==> forall w :: IsWalk(m, w) && |w| >= 2 && w[0] == start ==> w[|w| - 1] != end
  {
    var startNode := PathNode(start, 0.0, 0.0, None);
    var open := OpenSet(multiset{startNode}, map[start := startNode]);
    var cameFrom: seq<PathNode> := [];
    var expansions := 0;
    assert Covered(open.heap, cameFrom, start) by {
      assert startNode in open.heap;
    }
    while true
      invariant expansions <= fuel
      invariant SearchInvariant(start, end, m, dist, open, cameFrom)
      decreases fuel - expansions
    {
      if |open.heap| == 0 {
        ExhaustedMeansUnreachable(start, end, m, open.heap, cameFrom);
        return NotFound;
      }
      if expansions == fuel {
        return OutOfFuel;
      }
      var q, heap := Pop(open.heap);
      ghost var before := open;
      open := OpenSet(heap, open.contains - {q.pos});
      var next := ExpandNeighbours(q, end, m, dist);
      var hitEnd;
      open, hitEnd := AdmitCandidates(next, end, open, cameFrom);
      if hitEnd {
        var j :| 0 <= j < |next| && next[j].pos == end;
        assert WellFormed(q, start, end, m, dist);
        TerminalPath(q, start, end, m, dist);
        cameFrom := cameFrom + [q];
        cameFrom := cameFrom + [PathNode(end, 0.0, 0.0, Some(cameFrom[|cameFrom| - 1]))];
        var path := BacktracePath(cameFrom);
        return Found(path);
      }
      ExpansionKeepsInvariant(start, end, m, dist, before, cameFrom, q, next);
      cameFrom := cameFrom + [q];
      expansions := expansions + 1;
    }
  }
}
