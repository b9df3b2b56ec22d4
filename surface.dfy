/** The geometry shared by every surface: integer positions, the row-major
    mapping of a position to a flat pixel index, and a value view of a
    surface's pixel storage used to specify the operations on it. */
module Surface {
  import opened Colors

  /** A 2D integer vector (position or size); y grows downward. */
  datatype IVec2 = IVec2(x: int, y: int) {
    function Add(o: IVec2): IVec2 { IVec2(x + o.x, y + o.y) }
    function Sub(o: IVec2): IVec2 { IVec2(x - o.x, y - o.y) }
  }

  const Zero: IVec2 := IVec2(0, 0)

  /** Position `p` lies on a surface of size `size`. */
  predicate InBounds(p: IVec2, size: IVec2) {
    0 <= p.x < size.x && 0 <= p.y < size.y
  }

  /** The canonical row-major storage index of a position. A position whose
      column is within the width lands in its row's block of `width`
      consecutive indices, which starts at `row * width`. */
  function Index(pos: IVec2, width: int): (i: int)
    ensures 0 <= pos.x < width ==> pos.y * width <= i < (pos.y + 1) * width
  {
    pos.y * width + pos.x
  }

  /** The position stored at flat index `i` of a surface `width` wide: the
      inverse of `Index` on the first row-major coordinates. */
  function PosOf(i: int, width: int): (p: IVec2)
    requires 0 <= i && 0 < width
    ensures Index(p, width) == i
    ensures 0 <= p.x < width && 0 <= p.y
  {
    IVec2(i % width, i / width)
  }

  /** An in-bounds position indexes inside the `width * height` storage. */
  lemma IndexInRange(p: IVec2, size: IVec2)
    requires InBounds(p, size)
    ensures 0 <= Index(p, size.x) < size.x * size.y
  {
    calc {
      Index(p, size.x);
    <  p.y * size.x + size.x;
    == (p.y + 1) * size.x;
    <= { MulMonotone(p.y + 1, size.y, size.x); } size.y * size.x;
    }
  }

  lemma MulMonotone(a: int, b: int, c: nat)
    requires a <= b
    ensures a * c <= b * c
  {
  }

  /** Every flat index below `width * height` stores an in-bounds position. */
  lemma PosOfInBounds(i: int, size: IVec2)
    requires 0 <= i < size.x * size.y && 0 < size.x
    ensures InBounds(PosOf(i, size.x), size)
  {
    var p := PosOf(i, size.x);
    if p.y >= size.y {
      MulMonotone(size.y, p.y, size.x);
      assert false;
    }
  }

  /** `PosOf` inverts `Index` on in-bounds positions. */
  lemma PosOfIndex(p: IVec2, width: int)
    requires 0 <= p.x < width && 0 <= p.y
    ensures PosOf(Index(p, width), width) == p
  {
    var q := PosOf(Index(p, width), width);
    DivModUnique(p.y, p.x, q.y, q.x, width);
  }

  lemma DivModUnique(a: int, b: int, a': int, b': int, w: int)
    requires 0 <= b < w && 0 <= b' < w && 0 <= a && 0 <= a'
    requires a * w + b == a' * w + b'
    ensures a == a' && b == b'
  {
    if a < a' {
      MulMonotone(a + 1, a', w);
      assert false;
    } else if a' < a {
      MulMonotone(a' + 1, a, w);
      assert false;
    }
  }

  /** Two in-bounds positions share a storage index only if they are equal. */
  lemma IndexInjective(p: IVec2, q: IVec2, size: IVec2)
    requires InBounds(p, size) && InBounds(q, size)
    requires Index(p, size.x) == Index(q, size.x)
    ensures p == q
  {
    DivModUnique(p.y, p.x, q.y, q.x, size.x);
  }

  /** Offset `p` has been visited by a row-major scan of the columns from 0
      that is now at column `col` of row `row`: it lies in an earlier row,
      or in this row at a column in [0, col). */
  predicate ScannedBefore(p: IVec2, row: int, col: int) {
    p.y < row || (p.y == row && 0 <= p.x < col)
  }

  /** The value of a surface's pixel storage: its size and its flat,
      row-major array of packed colours. */
  datatype Grid = Grid(size: IVec2, cells: seq<bv32>) {

    /** The storage holds exactly one word per position. */
    predicate Valid() {
      0 <= size.x && 0 <= size.y && |cells| == size.x * size.y
    }

    /** The colour at an in-bounds position. */
    function Get(p: IVec2): Color
      requires Valid() && InBounds(p, size)
    {
      IndexInRange(p, size);
      FromU32(cells[Index(p, size.x)])
    }

    /** The position held at storage index `i`. */
    function PosAt(i: int): (p: IVec2)
      requires Valid() && 0 <= i < |cells|
      ensures InBounds(p, size) && Index(p, size.x) == i
    {
      PosOfInBounds(i, size);
      PosOf(i, size.x)
    }

    /** The storage with the pixel at `p` set to `c`. */
    function Set(p: IVec2, c: Color): (g: Grid)
      requires Valid() && InBounds(p, size)
      ensures g.Valid() && g.size == size
    {
      IndexInRange(p, size);
      Grid(size, cells[Index(p, size.x) := c.AsU32()])
    }

    /** The storage with every pixel set to `c`. */
    function Fill(c: Color): (g: Grid)
      requires Valid()
      ensures g.Valid() && g.size == size
    {
      Grid(size, seq(|cells|, _ => c.AsU32()))
    }
  }

  /** Reading back a pixel just written gives the written colour. */
  lemma GetSetSame(g: Grid, p: IVec2, c: Color)
    requires g.Valid() && InBounds(p, g.size)
    ensures g.Set(p, c).Get(p) == c
  {
    var k := Index(p, g.size.x);
    IndexInRange(p, g.size);
    assert g.Set(p, c).cells[k] == c.AsU32();
  }

  /** Writing one pixel leaves every other pixel as it was. */
  lemma GetSetOther(g: Grid, p: IVec2, q: IVec2, c: Color)
    requires g.Valid() && InBounds(p, g.size) && InBounds(q, g.size) && p != q
    ensures g.Set(p, c).Get(q) == g.Get(q)
  {
    var k, j := Index(p, g.size.x), Index(q, g.size.x);
    IndexInRange(p, g.size);
    IndexInRange(q, g.size);
    if k == j {
      IndexInjective(p, q, g.size);
    }
    assert g.Set(p, c).cells[j] == g.cells[j];
  }

  /** After a fill every pixel has the fill colour. */
  lemma FillGet(g: Grid, c: Color, q: IVec2)
    requires g.Valid() && InBounds(q, g.size)
    ensures g.Fill(c).Get(q) == c
  {
    IndexInRange(q, g.size);
  }

  /** Two storages of one size are equal when they agree at every in-bounds
      position: the positions cover the whole flat array. */
  lemma GridExtensional(g: Grid, h: Grid)
    requires g.Valid() && h.Valid() && g.size == h.size
    requires forall q | InBounds(q, g.size) :: g.Get(q) == h.Get(q)
    ensures g == h
  {
    forall i | 0 <= i < |g.cells|
      ensures g.cells[i] == h.cells[i]
    {
      var q := g.PosAt(i);
      assert g.Get(q) == h.Get(q);
    }
  }

  // ---------------------------------------------------------------------
  // Row-major scans: the loops that visit a rectangle of offsets from an
  // origin row by row and write some pixels of a surface on the way.

  /** The storage `cur` part-way through a scan from `start` towards `final`:
      pixels whose offset from `origin` precedes scan position (`row`,
      `col`) hold their final word, the others their starting word. */
  ghost predicate ScanProgress(cur: seq<bv32>, start: Grid, final: Grid, origin: IVec2, row: int, col: int)
    requires start.Valid() && final.Valid() && final.size == start.size
  {
    |cur| == |start.cells| &&
    forall i | 0 <= i < |cur| ::
      cur[i] == if ScannedBefore(start.PosAt(i).Sub(origin), row, col) then final.cells[i] else start.cells[i]
  }

  /** Passing over the scanned pixel without writing advances the scan by
      one column, provided that pixel (when it is on the surface) keeps its
      colour. */
  lemma ScanSkip(cur: seq<bv32>, start: Grid, final: Grid, origin: IVec2, row: int, col: int)
    requires start.Valid() && final.Valid() && final.size == start.size
    requires ScanProgress(cur, start, final, origin, row, col) && 0 <= col
    requires InBounds(origin.Add(IVec2(col, row)), start.size) ==>
               final.Get(origin.Add(IVec2(col, row))) == start.Get(origin.Add(IVec2(col, row)))
    ensures ScanProgress(cur, start, final, origin, row, col + 1)
  {
    var p := origin.Add(IVec2(col, row));
    forall i | 0 <= i < |cur|
      ensures cur[i] == if ScannedBefore(start.PosAt(i).Sub(origin), row, col + 1) then final.cells[i] else start.cells[i]
    {
      var q := start.PosAt(i);
      if q == p {
        assert final.Get(q) == start.Get(q);
      }
    }
  }

  /** Leaving row `row` at column `col` moves the scan to the next row,
      provided the rest of the row keeps its colours. */
  lemma ScanNextRow(cur: seq<bv32>, start: Grid, final: Grid, origin: IVec2, row: int, col: int)
    requires start.Valid() && final.Valid() && final.size == start.size
    requires ScanProgress(cur, start, final, origin, row, col)
    requires forall q | InBounds(q, start.size) && q.y - origin.y == row && !(0 <= q.x - origin.x < col) ::
               final.Get(q) == start.Get(q)
    ensures ScanProgress(cur, start, final, origin, row + 1, 0)
  {
    forall i | 0 <= i < |cur|
      ensures cur[i] == if ScannedBefore(start.PosAt(i).Sub(origin), row + 1, 0) then final.cells[i] else start.cells[i]
    {
      var q := start.PosAt(i);
      if q.y - origin.y == row && !(0 <= q.x - origin.x < col) {
        assert final.Get(q) == start.Get(q);
      }
    }
  }

  /** Writing its final colour at the scanned pixel advances the scan by one
      column. */
  lemma ScanWrite(cur: seq<bv32>, start: Grid, final: Grid, origin: IVec2, row: int, col: int, c: Color)
    requires start.Valid() && final.Valid() && final.size == start.size
    requires ScanProgress(cur, start, final, origin, row, col) && 0 <= col
    requires InBounds(origin.Add(IVec2(col, row)), start.size)
    requires final.Get(origin.Add(IVec2(col, row))) == c
    ensures 0 <= Index(origin.Add(IVec2(col, row)), start.size.x) < |cur|
    ensures ScanProgress(cur[Index(origin.Add(IVec2(col, row)), start.size.x) := c.AsU32()],
                         start, final, origin, row, col + 1)
  {
    var p := origin.Add(IVec2(col, row));
    var k := Index(p, start.size.x);
    IndexInRange(p, start.size);
    PosOfIndex(p, start.size.x);
    var cur' := cur[k := c.AsU32()];
    forall i | 0 <= i < |cur'|
      ensures cur'[i] == if ScannedBefore(start.PosAt(i).Sub(origin), row, col + 1) then final.cells[i] else start.cells[i]
    {
      if i == k {
        assert start.PosAt(i) == p;
      } else {
        assert start.PosAt(i) != p;
      }
    }
  }

  /** Once every pixel not yet scanned keeps its colour in `final`, the
      storage is `final`. */
  lemma ScanComplete(cur: seq<bv32>, start: Grid, final: Grid, origin: IVec2, row: int, col: int)
    requires start.Valid() && final.Valid() && final.size == start.size
    requires ScanProgress(cur, start, final, origin, row, col)
    requires forall q | InBounds(q, start.size) && !ScannedBefore(q.Sub(origin), row, col) ::
               final.Get(q) == start.Get(q)
    ensures cur == final.cells
  {
    forall i | 0 <= i < |cur|
      ensures cur[i] == final.cells[i]
    {
      var q := start.PosAt(i);
      if !ScannedBefore(q.Sub(origin), row, col) {
        assert final.Get(q) == start.Get(q);
      }
    }
  }
}
