/** Path reconstruction: walking a node's parent chain back to the start. */
module Backtrace {
  import opened Grid
  import opened PathNodes

  /** The node at the top of `n`'s parent chain. */
  function Root(n: PathNode): (r: PathNode)
    ensures r.parent.None?
    decreases n
  {
    match n.parent
    case None => n
    case Some(p) => Root(p)
  }

  /** The cells of `n`'s parent chain in travel order: root first, `n` last. */
  function PathTo(n: PathNode): (ps: seq<Position>)
    ensures |ps| >= 1 && ps[0] == Root(n).pos && ps[|ps| - 1] == n.pos
    decreases n
  {
    match n.parent
    case None => [n.pos]
    case Some(p) => PathTo(p) + [n.pos]
  }

  /** The cells of `n`'s parent chain as the chain is followed: `n` first,
      root last. */
  function Lineage(n: PathNode): seq<Position>
    decreases n
  {
    match n.parent
    case None => [n.pos]
    case Some(p) => [n.pos] + Lineage(p)
  }

  function Reversed<T>(s: seq<T>): seq<T> {
    if s == [] then [] else Reversed(s[1..]) + [s[0]]
  }

  lemma {:induction false} ReversedConcat<T>(a: seq<T>, b: seq<T>)
    ensures Reversed(a + b) == Reversed(b) + Reversed(a)
    decreases |a|
  {
    if a == [] {
      assert a + b == b;
    } else {
      assert (a + b)[1..] == a[1..] + b;
      assert (a + b)[0] == a[0];
      ReversedConcat(a[1..], b);
    }
  }

  /** Following the chain and reversing gives the travel order. */
  lemma {:induction false} LineageReversed(n: PathNode)
    ensures Reversed(Lineage(n)) == PathTo(n)
    decreases n
  {
    match n.parent
    case None =>
      assert Reversed([n.pos]) == Reversed([n.pos][1..]) + [n.pos];
    case Some(p) =>
      LineageReversed(p);
      ReversedConcat([n.pos], Lineage(p));
      assert Reversed([n.pos]) == Reversed([n.pos][1..]) + [n.pos];
  }

  /** The reversed chain with the root's cell appended once more is the
      travel order with the root's cell in front. */
  lemma {:induction false} RootTwice(last: PathNode)
    ensures Reversed(Lineage(last) + [Root(last).pos]) == [Root(last).pos] + PathTo(last)
  {
    ReversedConcat(Lineage(last), [Root(last).pos]);
    assert Reversed([Root(last).pos]) == Reversed([Root(last).pos][1..]) + [Root(last).pos];
    LineageReversed(last);
  }

  /** Positions from the start to the last node of `path`, following parent
      links. The root's cell is emitted twice: once inside the loop and once
      more after it. */
  method BacktracePath(path: seq<PathNode>) returns (out: seq<Position>)
    ensures path == [] ==> out == []
    ensures path != [] ==> out == [Root(path[|path| - 1]).pos] + PathTo(path[|path| - 1])
    ensures path != [] ==> |out| >= 2 && out[0] == out[1] == Root(path[|path| - 1]).pos
    ensures path != [] ==> out[|out| - 1] == path[|path| - 1].pos
  {
    if path == [] {
      return [];
    }
    ghost var last := path[|path| - 1];
    var node := path[|path| - 1];
    out := [];
    while true
      invariant out + Lineage(node) == Lineage(last)
      invariant Root(node) == Root(last)
      decreases node
    {
      out := out + [node.pos];
      match node.parent {
        case Some(x) =>
          assert Lineage(node) == [node.pos] + Lineage(x);
          node := x;
        case None =>
          break;
      }
    }
    out := out + [node.pos];
    assert out == Lineage(last) + [Root(last).pos];
    out := Reversed(out);
    RootTwice(last);
  }
}
