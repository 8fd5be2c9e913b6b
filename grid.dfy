/** The occupancy grid the search runs on: positions, the row-major tile
    vector, and the 8-neighbourhood the search expands into. */
module Grid {

  /** A cell of the grid, `(x, y)`. */
  datatype Position = Position(x: nat, y: nat)

  /** The three outcomes of a comparison. */
  datatype Ordering = Less | Equal | Greater {
    /** The outcome of the same comparison with its arguments swapped. */
    function Flip(): Ordering {
      match this
      case Less => Greater
      case Equal => Equal
      case Greater => Less
    }
  }

  /** Lexicographic strict order on positions: first `x`, then `y`. */
  predicate PosLess(a: Position, b: Position) {
    a.x < b.x || (a.x == b.x && a.y < b.y)
  }

  /** The derived `Ord` of the coordinate tuple: `x` first, then `y`. */
  function ComparePositions(a: Position, b: Position): (o: Ordering)
    ensures o == Less <==> PosLess(a, b)
    ensures o == Greater <==> PosLess(b, a)
    ensures o == Equal <==> a == b
  {
    if a.x < b.x then Less
    else if a.x > b.x then Greater
    else if a.y < b.y then Less
    else if a.y > b.y then Greater
    else Equal
  }

  /** Row-major occupancy grid; `tiles[x + y * width]` is true when the cell is blocked. */
  datatype Map = Map(width: nat, height: nat, tiles: seq<bool>) {

    /** The tile vector holds exactly one entry per cell. */
    predicate Valid() {
      |tiles| == width * height
    }

    predicate InBounds(p: Position) {
      p.x < width && p.y < height
    }

    /** Where the cell `p` lives in the tile vector. */
    function CellIndex(p: Position): (i: nat)
      requires Valid() && InBounds(p)
      ensures i < |tiles|
    {
      RowMajorBound(p.x, p.y, width, height);
      p.x + p.y * width
    }

    /** Which cell the `i`-th entry of the tile vector describes. */
    function CellAt(i: nat): (p: Position)
      requires Valid() && i < |tiles|
      ensures InBounds(p)
    {
      assert width > 0;
      QuotientBound(i, width, height);
      Position(i % width, i / width)
    }

    /** The occupancy bit of an in-bounds cell; `true` means impassable. */
    function IsBlocked(p: Position): bool
      requires Valid() && InBounds(p)
    {
      tiles[CellIndex(p)]
    }
  }

  /** `b` is one of the up to eight cells around `a` that the search may step to:
      inside the grid, not blocked, not `a` itself, and at most one step away
      along each axis. */
  predicate IsNeighbour(m: Map, a: Position, b: Position)
    requires m.Valid()
  {
    && m.InBounds(b)
    && !m.IsBlocked(b)
    && b != a
    && -1 <= b.x - a.x <= 1
    && -1 <= b.y - a.y <= 1
  }

  /** A sequence of cells in which every cell is a neighbour of the one before. */
  predicate IsWalk(m: Map, w: seq<Position>)
    requires m.Valid()
  {
    forall i :: 0 <= i < |w| - 1 ==> IsNeighbour(m, w[i], w[i + 1])
  }

  lemma WalkExtend(m: Map, w: seq<Position>, b: Position)
    requires m.Valid()
    requires IsWalk(m, w) && |w| >= 1 && IsNeighbour(m, w[|w| - 1], b)
    ensures IsWalk(m, w + [b])
  {
    forall i | 0 <= i < |w + [b]| - 1
      ensures IsNeighbour(m, (w + [b])[i], (w + [b])[i + 1])
    {
      if i < |w| - 1 {
        assert (w + [b])[i] == w[i] && (w + [b])[i + 1] == w[i + 1];
      }
    }
  }

  lemma MulLeft(a: nat, b: nat, c: nat)
    requires a <= b
    ensures a * c <= b * c
  {
  }

  lemma RowMajorBound(x: nat, y: nat, w: nat, h: nat)
    requires x < w && y < h
    ensures x + y * w < w * h
  {
    MulLeft(y, h - 1, w);
    assert (h - 1) * w == h * w - w;
  }

  lemma QuotientBound(i: nat, w: nat, h: nat)
    requires w > 0 && i < w * h
    ensures i / w < h
  {
    if i / w >= h {
      MulLeft(h, i / w, w);
      assert false;
    }
  }

  /** Division by a positive width recovers the row and the column of a
      row-major index. */
  lemma DivModUnique(i: nat, w: nat, x: nat, y: nat)
    requires w > 0 && x < w && i == x + y * w
    ensures i / w == y && i % w == x
  {
    var q, r := i / w, i % w;
    assert i == q * w + r && 0 <= r < w;
    if q > y {
      MulLeft(y + 1, q, w);
      assert false;
    } else if q < y {
      MulLeft(q + 1, y, w);
      assert false;
    }
  }

  /** Every in-bounds cell has its own entry of the tile vector, and back. */
  lemma {:induction false} CellIndexRoundTrip(m: Map, p: Position)
    requires m.Valid() && m.InBounds(p)
    ensures m.CellAt(m.CellIndex(p)) == p
  {
    DivModUnique(m.CellIndex(p), m.width, p.x, p.y);
  }

  /** Every entry of the tile vector describes exactly one cell. */
  lemma {:induction false} CellAtRoundTrip(m: Map, i: nat)
    requires m.Valid() && i < |m.tiles|
    ensures m.CellIndex(m.CellAt(i)) == i
  {
    assert m.width > 0;
    assert (i / m.width) * m.width + i % m.width == i;
  }
}
