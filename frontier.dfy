/** The frontier of the search and the bookkeeping around it: the heap
    `open_set`, the map `open_set_contains`, the linear-scan minimum over that
    map, the lookup in the expanded list `came_from`, and the admission of
    freshly generated candidates. */
module Frontier {
  import opened Grid
  import opened PathNodes

  /** `q` is a greatest element of `heap` under `Cmp`: a node the max-heap
      may hand out next. */
  predicate IsTop(q: PathNode, heap: multiset<PathNode>) {
    q in heap && forall n :: n in heap ==> Cmp(n, q) != Greater
  }

  /** Every non-empty heap has a greatest element. */
  lemma {:induction false} TopExists(heap: multiset<PathNode>)
    requires heap != multiset{}
    ensures exists q :: IsTop(q, heap)
    decreases |heap|
  {
    var x :| x in heap;
    var rest := heap - multiset{x};
    assert heap == rest + multiset{x};
    if rest == multiset{} {
      assert heap == multiset{x};
      assert IsTop(x, heap);
    } else {
      TopExists(rest);
      var t :| IsTop(t, rest);
      if Cmp(x, t) == Greater {
        forall n | n in heap
          ensures Cmp(n, x) != Greater
        {
          if n != x {
            assert n in rest;
            CmpIsTotalPreorder(n, t, x);
          }
        }
        assert IsTop(x, heap);
      } else {
        forall n | n in heap
          ensures Cmp(n, t) != Greater
        {
          if n != x {
            assert n in rest;
          }
        }
        assert IsTop(t, heap);
      }
    }
  }

  /** `BinaryHeap::pop` on a non-empty heap: the node handed out has the
      smallest `f` of the heap and, among the nodes of that `f`, the latest
      cell; exactly one copy of it leaves the heap. Which of several nodes
      that compare Equal is handed out is left open. */
  method Pop(heap: multiset<PathNode>) returns (q: PathNode, rest: multiset<PathNode>)
    requires heap != multiset{}
    ensures q in heap && rest == heap - multiset{q}
    ensures forall n :: n in heap ==> q.f <= n.f
    ensures forall n :: n in heap && n.f == q.f ==> n.pos == q.pos || PosLess(n.pos, q.pos)
  {
    TopExists(heap);
    q :| q in heap && IsTop(q, heap);
    rest := heap - multiset{q};
  }

  /** The frontier: the heap `open_set` and the map `open_set_contains`
      from a cell to the latest node admitted there. */
  datatype OpenSet = OpenSet(heap: multiset<PathNode>, contains: map<Position, PathNode>) {
    /** Every entry of the map is keyed by its own cell and is in the heap. */
    ghost predicate Valid() {
      forall p :: p in contains ==> contains[p].pos == p && contains[p] in heap
    }
  }

  /** A key of `nodes` whose node has the least `f`; `None` stands for the
      panic on an empty map. Which minimal key is returned depends on the
      map's iteration order and is left open. */
  ghost function FindSmallestF(nodes: map<Position, PathNode>): (r: Option<Position>)
    ensures r.None? <==> nodes == map[]
    ensures r.Some? ==> r.value in nodes && forall p :: p in nodes ==> nodes[r.value].f <= nodes[p].f
    decreases nodes.Keys
  {
    if nodes == map[] then None
    else
      var k :| k in nodes;
      var rest := FindSmallestF(nodes - {k});
      assert forall p :: p in nodes ==> p == k || p in nodes - {k};
      if rest.None? || nodes[k].f <= nodes[rest.value].f then Some(k) else rest
  }

  /** Some node of `ns` is at cell `p`. */
  predicate HasPosition(ns: seq<PathNode>, p: Position) {
    exists i :: 0 <= i < |ns| && ns[i].pos == p
  }

  lemma HasPositionConcat(ns: seq<PathNode>, extra: seq<PathNode>, p: Position)
    ensures HasPosition(ns + extra, p) <==> HasPosition(ns, p) || HasPosition(extra, p)
  {
    if HasPosition(ns, p) {
      var i :| 0 <= i < |ns| && ns[i].pos == p;
      assert (ns + extra)[i] == ns[i];
    }
    if HasPosition(extra, p) {
      var i :| 0 <= i < |extra| && extra[i].pos == p;
      assert (ns + extra)[|ns| + i] == extra[i];
    }
    if HasPosition(ns + extra, p) {
      var i :| 0 <= i < |ns + extra| && (ns + extra)[i].pos == p;
      if i < |ns| {
        assert ns[i] == (ns + extra)[i];
      } else {
        assert extra[i - |ns|] == (ns + extra)[i];
      }
    }
  }

  /** The first node of the expanded list at cell `p`, if any. */
  function FirstAt(ns: seq<PathNode>, p: Position): (r: Option<PathNode>)
    ensures r.None? <==> !HasPosition(ns, p)
    ensures r.Some? ==> exists i :: 0 <= i < |ns| && ns[i] == r.value && r.value.pos == p &&
                                    forall j :: 0 <= j < i ==> ns[j].pos != p
  {
    if ns == [] then None
    else if ns[0].pos == p then Some(ns[0])
    else
      var r := FirstAt(ns[1..], p);
      assert HasPosition(ns, p) <==> HasPosition(ns[1..], p) by {
        assert ns == [ns[0]] + ns[1..];
        HasPositionConcat([ns[0]], ns[1..], p);
      }
      assert r.Some? ==> exists i :: 0 <= i < |ns| && ns[i] == r.value && r.value.pos == p &&
                                    forall j :: 0 <= j < i ==> ns[j].pos != p by {
        if r.Some? {
          var i :| 0 <= i < |ns[1..]| && ns[1..][i] == r.value && r.value.pos == p &&
                   forall j :: 0 <= j < i ==> ns[1..][j].pos != p;
          assert ns[i + 1] == r.value;
          forall j | 0 <= j < i + 1
            ensures ns[j].pos != p
          {
            if j > 0 {
              assert ns[j] == ns[1..][j - 1];
            }
          }
        }
      }
      r
  }

  /** A candidate is admitted unless the map already holds a node at its
      cell with strictly smaller `f`, or the first expanded node at its cell
      has strictly smaller `f`. */
  predicate Admissible(c: PathNode, open: OpenSet, cameFrom: seq<PathNode>) {
    && !(c.pos in open.contains && open.contains[c.pos].f < c.f)
    && !(FirstAt(cameFrom, c.pos).Some? && FirstAt(cameFrom, c.pos).value.f < c.f)
  }

  /** One candidate's turn: an admitted candidate is written into the map
      and pushed on the heap; a skipped one changes nothing. */
  function Admit(c: PathNode, open: OpenSet, cameFrom: seq<PathNode>): OpenSet {
    if Admissible(c, open, cameFrom) then
      OpenSet(open.heap + multiset{c}, open.contains[c.pos := c])
    else
      open
  }

  /** The frontier after the candidates `next` have been taken from the back,
      one at a time, until the goal's cell turns up or none is left. */
  function Admission(next: seq<PathNode>, end: Position, open: OpenSet, cameFrom: seq<PathNode>): OpenSet
    decreases |next|
  {
    if next == [] then open
    else
      var c := next[|next| - 1];
      if c.pos == end then open
      else Admission(next[..|next| - 1], end, Admit(c, open, cameFrom), cameFrom)
  }

  /** `p` is the cell of a node in the heap or of an expanded node. */
  ghost predicate Covered(heap: multiset<PathNode>, cameFrom: seq<PathNode>, p: Position) {
    (exists n :: n in heap && n.pos == p) || HasPosition(cameFrom, p)
  }

  lemma CoveredGrows(heap: multiset<PathNode>, heap': multiset<PathNode>, cameFrom: seq<PathNode>, p: Position)
    requires heap <= heap' && Covered(heap, cameFrom, p)
    ensures Covered(heap', cameFrom, p)
  {
    if !HasPosition(cameFrom, p) {
      var n :| n in heap && n.pos == p;
      assert n in heap';
    }
  }

  /** Admission keeps the map consistent with the heap, only adds to the
      heap, adds nothing but candidates, and, when the goal is not among
      them, leaves every candidate's cell in the heap or among the expanded
      nodes: a candidate is either pushed or beaten by a node that is. */
  lemma {:induction false} AdmissionKeepsOpenSet(next: seq<PathNode>, end: Position, open: OpenSet, cameFrom: seq<PathNode>)
    requires open.Valid()
    ensures var r := Admission(next, end, open, cameFrom);
      && r.Valid()
      && open.heap <= r.heap
      && (forall n :: n in r.heap ==> n in open.heap || n in next)
      && (!HasPosition(next, end) ==> forall i :: 0 <= i < |next| ==> Covered(r.heap, cameFrom, next[i].pos))
    decreases |next|
  {
    if next != [] && next[|next| - 1].pos != end {
      var c := next[|next| - 1];
      var front := next[..|next| - 1];
      var open1 := Admit(c, open, cameFrom);
      assert open1.Valid();
      assert Covered(open1.heap, cameFrom, c.pos) by {
        if Admissible(c, open, cameFrom) {
          assert c in open1.heap;
        } else if c.pos in open.contains && open.contains[c.pos].f < c.f {
          assert open.contains[c.pos] in open1.heap;
        } else {
          assert HasPosition(cameFrom, c.pos);
        }
      }
      AdmissionKeepsOpenSet(front, end, open1, cameFrom);
      var r := Admission(front, end, open1, cameFrom);
      assert r == Admission(next, end, open, cameFrom);
      assert next == front + [c];
      forall n | n in r.heap
        ensures n in open.heap || n in next
      {
        if n !in open1.heap {
          assert n in front;
        }
      }
      if !HasPosition(next, end) {
        HasPositionConcat(front, [c], end);
        forall i | 0 <= i < |next|
          ensures Covered(r.heap, cameFrom, next[i].pos)
        {
          if i == |next| - 1 {
            CoveredGrows(open1.heap, r.heap, cameFrom, c.pos);
          } else {
            assert next[i] == front[i];
          }
        }
      }
    }
  }

  /** The `while let` loop over one expansion's candidates: they are taken
      from the back; the goal's cell stops the loop and drops the remaining
      candidates, every other candidate goes through the admission test. */
  method AdmitCandidates(next: seq<PathNode>, end: Position, open: OpenSet, cameFrom: seq<PathNode>)
    returns (result: OpenSet, hitEnd: bool)
    ensures hitEnd <==> HasPosition(next, end)
    ensures result == Admission(next, end, open, cameFrom)
  {
    var pending := next;
    result := open;
    hitEnd := false;
    while pending != []
      invariant pending == next[..|pending|]
      invariant Admission(next, end, open, cameFrom) == Admission(pending, end, result, cameFrom)
      invariant !HasPosition(next[|pending|..], end)
      invariant !hitEnd
      decreases |pending|
    {
      var c := pending[|pending| - 1];
      ghost var done := next[|pending|..];
      pending := pending[..|pending| - 1];
      assert c == next[|pending|];
      assert next[|pending|..] == [c] + done;
      if c.pos == end {
        hitEnd := true;
        assert next[|pending|].pos == end;
        break;
      }
      HasPositionConcat([c], done, end);
      if c.pos in result.contains && result.contains[c.pos].f < c.f {
        continue;
      }
      var visited := FirstAt(cameFrom, c.pos);
      if visited.Some? && visited.value.f < c.f {
        continue;
      }
      result := OpenSet(result.heap + multiset{c}, result.contains[c.pos := c]);
    }
    if !hitEnd {
      assert next[|pending|..] == next;
    }
  }
}
