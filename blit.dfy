/** The blit engine: a clipped 1:1 copy and a destination-clipped
    floor-sampled scaled copy from a source surface into a destination
    surface, both skipping source pixels whose alpha is exactly 0. */
module BlitEngine {
  import opened Colors
  import opened Surface
  import opened Images

  // ---------------------------------------------------------------------
  // Same-size copy

  /** blit_same_size copies a source pixel into destination position `q`:
      the offset of `q` from `dstPos` lies in the copied rectangle, `q` is on
      the destination, the matching source position is on the source and
      the source pixel there is not fully transparent. */
  predicate SameSizeCopies(dstSize: IVec2, src: Grid, srcPos: IVec2, dstPos: IVec2, size: IVec2, q: IVec2)
    requires src.Valid()
  {
    var off := q.Sub(dstPos);
    0 <= off.x < size.x && 0 <= off.y < size.y
    && InBounds(q, dstSize)
    && InBounds(srcPos.Add(off), src.size)
    && src.Get(srcPos.Add(off)).A() != 0
  }

  /** The colour blit_same_size leaves at destination position `q`. */
  function SameSizePixel(dst: Grid, src: Grid, srcPos: IVec2, dstPos: IVec2, size: IVec2, q: IVec2): Color
    requires dst.Valid() && src.Valid() && InBounds(q, dst.size)
  {
    if SameSizeCopies(dst.size, src, srcPos, dstPos, size, q)
    then src.Get(srcPos.Add(q.Sub(dstPos)))
    else dst.Get(q)
  }

  /** The destination storage after blit_same_size. */
  function SameSize(dst: Grid, src: Grid, srcPos: IVec2, dstPos: IVec2, size: IVec2): (r: Grid)
    requires dst.Valid() && src.Valid()
    ensures r.Valid() && r.size == dst.size
  {
    Grid(dst.size, seq(|dst.cells|, i requires 0 <= i < |dst.cells| =>
      SameSizePixel(dst, src, srcPos, dstPos, size, dst.PosAt(i)).AsU32()))
  }

  /** What blit_same_size does to each destination pixel: it becomes the
      source pixel at the same offset exactly when that offset is inside the
      rectangle, both positions are on their surfaces and the source alpha
      is not 0; otherwise it keeps its old colour. */
  lemma SameSizeGet(dst: Grid, src: Grid, srcPos: IVec2, dstPos: IVec2, size: IVec2, q: IVec2)
    requires dst.Valid() && src.Valid() && InBounds(q, dst.size)
    ensures var off := q.Sub(dstPos);
            var from := srcPos.Add(off);
            SameSize(dst, src, srcPos, dstPos, size).Get(q) ==
              if 0 <= off.x < size.x && 0 <= off.y < size.y
                 && InBounds(from, src.size) && src.Get(from).A() != 0
              then src.Get(from)
              else dst.Get(q)
  {
    PosOfIndex(q, dst.size.x);
    IndexInRange(q, dst.size);
  }

  /** A rectangle with no rows or no columns changes nothing. */
  lemma SameSizeEmptyIsNoOp(dst: Grid, src: Grid, srcPos: IVec2, dstPos: IVec2, size: IVec2)
    requires dst.Valid() && src.Valid()
    requires size.x <= 0 || size.y <= 0
    ensures SameSize(dst, src, srcPos, dstPos, size) == dst
  {
    var r := SameSize(dst, src, srcPos, dstPos, size);
    forall q | InBounds(q, dst.size)
      ensures r.Get(q) == dst.Get(q)
    {
      SameSizeGet(dst, src, srcPos, dstPos, size, q);
    }
    GridExtensional(r, dst);
  }

  /** Copying a whole surface onto one of the same size at the origin puts
      every non-transparent source pixel at the same position and keeps the
      destination where the source is transparent. */
  lemma SameSizeIdentity(dst: Grid, src: Grid, q: IVec2)
    requires dst.Valid() && src.Valid() && src.size == dst.size
    requires InBounds(q, dst.size)
    ensures SameSize(dst, src, Zero, Zero, src.size).Get(q) ==
            if src.Get(q).A() != 0 then src.Get(q) else dst.Get(q)
  {
    SameSizeGet(dst, src, Zero, Zero, src.size, q);
    assert Zero.Add(q.Sub(Zero)) == q;
  }

  /** With a source that has no fully transparent pixel, the identity copy
      reproduces the source exactly. */
  lemma SameSizeIdentityOpaque(dst: Grid, src: Grid)
    requires dst.Valid() && src.Valid() && src.size == dst.size
    requires forall q | InBounds(q, src.size) :: src.Get(q).A() != 0
    ensures SameSize(dst, src, Zero, Zero, src.size) == src
  {
    var r := SameSize(dst, src, Zero, Zero, src.size);
    forall q | InBounds(q, src.size)
      ensures r.Get(q) == src.Get(q)
    {
      SameSizeIdentity(dst, src, q);
    }
    GridExtensional(r, src);
  }

  /** An opaque 10x10 source placed at (-5, -5) on a 10x10 destination lands
      only on the destination's 5x5 top-left quadrant, which receives the
      source's bottom-right quadrant; every other pixel is untouched. */
  lemma SameSizeClipExample(dst: Grid, src: Grid, q: IVec2)
    requires dst.Valid() && src.Valid()
    requires dst.size == IVec2(10, 10) && src.size == IVec2(10, 10)
    requires forall p | InBounds(p, src.size) :: src.Get(p).A() != 0
    requires InBounds(q, dst.size)
    ensures SameSize(dst, src, Zero, IVec2(-5, -5), IVec2(10, 10)).Get(q) ==
            if q.x < 5 && q.y < 5 then src.Get(IVec2(q.x + 5, q.y + 5)) else dst.Get(q)
  {
    SameSizeGet(dst, src, Zero, IVec2(-5, -5), IVec2(10, 10), q);
  }

  /** Copies the `size` rectangle at `srcPos` of `src` to `dstPos` of `dst`,
      row by row, clipping rows on y and pixels on x against both surfaces,
      and skipping source pixels whose alpha is 0. */
  method BlitSameSize(dst: Image, src: Image, srcPos: IVec2, dstPos: IVec2, size: IVec2)
    requires dst.Valid() && src.Valid() && dst.pixels != src.pixels
    modifies dst.pixels
    ensures dst.View() == SameSize(old(dst.View()), src.View(), srcPos, dstPos, size)
  {
    ghost var before := dst.View();
    ghost var source := src.View();
    ghost var after := SameSize(before, source, srcPos, dstPos, size);
    var dstSize := dst.Size();
    var srcSize := src.Size();
    var rows := if size.y > 0 then size.y else 0;
    var cols := if size.x > 0 then size.x else 0;
    for y := 0 to rows
      invariant src.View() == source
      invariant ScanProgress(dst.pixels[..], before, after, dstPos, y, 0)
    {
      var dstOffsetY := dstPos.y + y;
      if dstOffsetY < 0 || dstOffsetY >= dstSize.y {
        ScanNextRow(dst.pixels[..], before, after, dstPos, y, 0);
        continue;
      }
      var srcOffsetY := srcPos.y + y;
      if srcOffsetY < 0 || srcOffsetY >= srcSize.y {
        SameSizeKeepsRow(before, source, srcPos, dstPos, size, y);
        ScanNextRow(dst.pixels[..], before, after, dstPos, y, 0);
        continue;
      }
      for x := 0 to cols
        invariant src.View() == source
        invariant ScanProgress(dst.pixels[..], before, after, dstPos, y, x)
      {
        var dstOffsetX := dstPos.x + x;
        if dstOffsetX < 0 || dstOffsetX >= dstSize.x {
          ScanSkip(dst.pixels[..], before, after, dstPos, y, x);
          continue;
        }
        var to := IVec2(dstOffsetX, dstOffsetY);
        assert to == dstPos.Add(IVec2(x, y));
        SameSizeGet(before, source, srcPos, dstPos, size, to);
        var srcOffsetX := srcPos.x + x;
        if srcOffsetX < 0 || srcOffsetX >= srcSize.x {
          ScanSkip(dst.pixels[..], before, after, dstPos, y, x);
          continue;
        }
        var from := IVec2(srcOffsetX, srcOffsetY);
        IndexInRange(from, srcSize);
        var srcColor := src.GetPixel(from);
        if srcColor.A() != 0 {
          ScanWrite(dst.pixels[..], before, after, dstPos, y, x, srcColor);
          dst.SetPixel(to, srcColor);
        } else {
          ScanSkip(dst.pixels[..], before, after, dstPos, y, x);
        }
      }
      SameSizeKeepsRowTail(before, source, srcPos, dstPos, size, y, cols);
      ScanNextRow(dst.pixels[..], before, after, dstPos, y, cols);
    }
    SameSizeKeepsRest(before, source, srcPos, dstPos, size, rows);
    ScanComplete(dst.pixels[..], before, after, dstPos, rows, 0);
  }

  /** When source row `srcPos.y + row` is off the source, destination row
      `dstPos.y + row` is left alone. */
  lemma SameSizeKeepsRow(dst: Grid, src: Grid, srcPos: IVec2, dstPos: IVec2, size: IVec2, row: int)
    requires dst.Valid() && src.Valid()
    requires srcPos.y + row < 0 || srcPos.y + row >= src.size.y
    ensures forall q | InBounds(q, dst.size) && q.y - dstPos.y == row ::
              SameSize(dst, src, srcPos, dstPos, size).Get(q) == dst.Get(q)
  {
    forall q | InBounds(q, dst.size) && q.y - dstPos.y == row
      ensures SameSize(dst, src, srcPos, dstPos, size).Get(q) == dst.Get(q)
    {
      SameSizeGet(dst, src, srcPos, dstPos, size, q);
    }
  }

  /** Destination pixels in row `dstPos.y + row` at column offsets outside
      [0, cols), where `cols` covers the rectangle's width, are left alone. */
  lemma SameSizeKeepsRowTail(dst: Grid, src: Grid, srcPos: IVec2, dstPos: IVec2, size: IVec2, row: int, cols: int)
    requires dst.Valid() && src.Valid()
    requires cols >= 0 && cols >= size.x
    ensures forall q | InBounds(q, dst.size) && q.y - dstPos.y == row && !(0 <= q.x - dstPos.x < cols) ::
              SameSize(dst, src, srcPos, dstPos, size).Get(q) == dst.Get(q)
  {
    forall q | InBounds(q, dst.size) && q.y - dstPos.y == row && !(0 <= q.x - dstPos.x < cols)
      ensures SameSize(dst, src, srcPos, dstPos, size).Get(q) == dst.Get(q)
    {
      SameSizeGet(dst, src, srcPos, dstPos, size, q);
    }
  }

  /** Destination pixels at row offsets from `rows` (the number of rows
      scanned) on, or at negative row offsets, are left alone. */
  lemma SameSizeKeepsRest(dst: Grid, src: Grid, srcPos: IVec2, dstPos: IVec2, size: IVec2, rows: int)
    requires dst.Valid() && src.Valid()
    requires rows >= 0 && rows >= size.y
    ensures forall q | InBounds(q, dst.size) && !ScannedBefore(q.Sub(dstPos), rows, 0) ::
              SameSize(dst, src, srcPos, dstPos, size).Get(q) == dst.Get(q)
  {
    forall q | InBounds(q, dst.size) && !ScannedBefore(q.Sub(dstPos), rows, 0)
      ensures SameSize(dst, src, srcPos, dstPos, size).Get(q) == dst.Get(q)
    {
      SameSizeGet(dst, src, srcPos, dstPos, size, q);
    }
  }

  // ---------------------------------------------------------------------
  // Scaled copy

  /** Integer division rounding toward zero, as a float-to-integer cast does. */
  function TruncDiv(n: int, d: int): int
    requires d > 0
  {
    if n >= 0 then n / d else -((-n) / d)
  }

  /** The source offset sampled for destination offset `o` when `s` source
      pixels are stretched over `d` destination pixels: `o * (s / d)`
      truncated, computed exactly rather than in single-precision floats. */
  function Sample(o: int, s: int, d: int): int
    requires d > 0
  {
    TruncDiv(o * s, d)
  }

  /** The source position blit_scale reads for destination offset `off`. */
  function SamplePos(srcPos: IVec2, srcSize: IVec2, dstSize: IVec2, off: IVec2): IVec2
    requires dstSize.x > 0 && dstSize.y > 0
  {
    IVec2(srcPos.x + Sample(off.x, srcSize.x, dstSize.x), srcPos.y + Sample(off.y, srcSize.y, dstSize.y))
  }

  /** The offsets blit_scale reads the source for: inside the requested
      destination rectangle and on the destination surface. */
  predicate ScaleVisits(surface: IVec2, dstPos: IVec2, dstSize: IVec2, off: IVec2) {
    0 <= off.x < dstSize.x && 0 <= off.y < dstSize.y && InBounds(dstPos.Add(off), surface)
  }

  /** blit_scale does not clip against the source, so every source position
      it reads must be on the source surface. */
  ghost predicate ScaleReadsInBounds(surface: IVec2, srcSurface: IVec2, srcPos: IVec2, srcSize: IVec2, dstPos: IVec2, dstSize: IVec2) {
    forall x, y | ScaleVisits(surface, dstPos, dstSize, IVec2(x, y)) ::
      InBounds(SamplePos(srcPos, srcSize, dstSize, IVec2(x, y)), srcSurface)
  }

  /** blit_scale writes destination position `q`: it is visited and the
      sampled source pixel is not fully transparent. */
  predicate ScaleCopies(dstSurface: IVec2, src: Grid, srcPos: IVec2, srcSize: IVec2, dstPos: IVec2, dstSize: IVec2, q: IVec2)
    requires src.Valid() && ScaleReadsInBounds(dstSurface, src.size, srcPos, srcSize, dstPos, dstSize)
  {
    var off := q.Sub(dstPos);
    assert dstPos.Add(off) == q;
    ScaleVisits(dstSurface, dstPos, dstSize, off)
    && src.Get(SamplePos(srcPos, srcSize, dstSize, off)).A() != 0
  }

  /** The colour blit_scale leaves at destination position `q`. */
  function ScalePixel(dst: Grid, src: Grid, srcPos: IVec2, srcSize: IVec2, dstPos: IVec2, dstSize: IVec2, q: IVec2): Color
    requires dst.Valid() && src.Valid() && InBounds(q, dst.size)
    requires ScaleReadsInBounds(dst.size, src.size, srcPos, srcSize, dstPos, dstSize)
  {
    if ScaleCopies(dst.size, src, srcPos, srcSize, dstPos, dstSize, q)
    then src.Get(SamplePos(srcPos, srcSize, dstSize, q.Sub(dstPos)))
    else dst.Get(q)
  }

  /** The destination storage after blit_scale. */
  function Scale(dst: Grid, src: Grid, srcPos: IVec2, srcSize: IVec2, dstPos: IVec2, dstSize: IVec2): (r: Grid)
    requires dst.Valid() && src.Valid()
    requires ScaleReadsInBounds(dst.size, src.size, srcPos, srcSize, dstPos, dstSize)
    ensures r.Valid() && r.size == dst.size
  {
    Grid(dst.size, seq(|dst.cells|, i requires 0 <= i < |dst.cells| =>
      ScalePixel(dst, src, srcPos, srcSize, dstPos, dstSize, dst.PosAt(i)).AsU32()))
  }

  /** What blit_scale does to each destination pixel: inside the requested
      destination rectangle it becomes the source pixel at `srcPos` plus the
      truncated proportional offset, unless that pixel's alpha is 0;
      everywhere else it keeps its old colour. */
  lemma ScaleGet(dst: Grid, src: Grid, srcPos: IVec2, srcSize: IVec2, dstPos: IVec2, dstSize: IVec2, q: IVec2)
    requires dst.Valid() && src.Valid() && InBounds(q, dst.size)
    requires ScaleReadsInBounds(dst.size, src.size, srcPos, srcSize, dstPos, dstSize)
    ensures var off := q.Sub(dstPos);
            var r := Scale(dst, src, srcPos, srcSize, dstPos, dstSize);
            if 0 <= off.x < dstSize.x && 0 <= off.y < dstSize.y then
              var from := SamplePos(srcPos, srcSize, dstSize, off);
              InBounds(from, src.size) &&
              r.Get(q) == if src.Get(from).A() != 0 then src.Get(from) else dst.Get(q)
            else
              r.Get(q) == dst.Get(q)
  {
    PosOfIndex(q, dst.size.x);
    IndexInRange(q, dst.size);
    var off := q.Sub(dstPos);
    assert dstPos.Add(off) == q;
    if 0 <= off.x < dstSize.x && 0 <= off.y < dstSize.y {
      assert ScaleVisits(dst.size, dstPos, dstSize, off);
    }
  }

  /** Stretches the `srcSize` rectangle at `srcPos` of `src` over the
      `dstSize` rectangle at `dstPos` of `dst` by truncated proportional
      sampling, clipping only against the destination surface and skipping
      source pixels whose alpha is 0. */
  method BlitScale(dst: Image, src: Image, srcPos: IVec2, srcSize: IVec2, dstPos: IVec2, dstSize: IVec2)
    requires dst.Valid() && src.Valid() && dst.pixels != src.pixels
    requires ScaleReadsInBounds(dst.size, src.size, srcPos, srcSize, dstPos, dstSize)
    modifies dst.pixels
    ensures dst.View() == Scale(old(dst.View()), src.View(), srcPos, srcSize, dstPos, dstSize)
  {
    ghost var before := dst.View();
    ghost var source := src.View();
    ghost var after := Scale(before, source, srcPos, srcSize, dstPos, dstSize);
    var baseSize := dst.Size();
    var rows := if dstSize.y > 0 then dstSize.y else 0;
    var cols := if dstSize.x > 0 then dstSize.x else 0;
    for y := 0 to rows
      invariant src.View() == source
      invariant ScanProgress(dst.pixels[..], before, after, dstPos, y, 0)
    {
      var dstOffsetY := dstPos.y + y;
      if dstOffsetY < 0 || dstOffsetY >= baseSize.y {
        ScanNextRow(dst.pixels[..], before, after, dstPos, y, 0);
        continue;
      }
      var srcOffsetY := srcPos.y + Sample(y, srcSize.y, dstSize.y);
      for x := 0 to cols
        invariant src.View() == source
        invariant ScanProgress(dst.pixels[..], before, after, dstPos, y, x)
      {
        var dstOffsetX := dstPos.x + x;
        if dstOffsetX < 0 || dstOffsetX >= baseSize.x {
          ScanSkip(dst.pixels[..], before, after, dstPos, y, x);
          continue;
        }
        var to := IVec2(dstOffsetX, dstOffsetY);
        assert to == dstPos.Add(IVec2(x, y));
        ScaleGet(before, source, srcPos, srcSize, dstPos, dstSize, to);
        var srcOffsetX := srcPos.x + Sample(x, srcSize.x, dstSize.x);
        var from := IVec2(srcOffsetX, srcOffsetY);
        assert from == SamplePos(srcPos, srcSize, dstSize, IVec2(x, y));
        IndexInRange(from, src.size);
        var srcColor := src.GetPixel(from);
        if srcColor.A() != 0 {
          ScanWrite(dst.pixels[..], before, after, dstPos, y, x, srcColor);
          dst.SetPixel(to, srcColor);
        } else {
          ScanSkip(dst.pixels[..], before, after, dstPos, y, x);
        }
      }
      ScaleKeepsOutside(before, source, srcPos, srcSize, dstPos, dstSize);
      ScanNextRow(dst.pixels[..], before, after, dstPos, y, cols);
    }
    ScaleKeepsOutside(before, source, srcPos, srcSize, dstPos, dstSize);
    ScanComplete(dst.pixels[..], before, after, dstPos, rows, 0);
  }

  /** Destination pixels outside the requested destination rectangle are left
      alone by blit_scale. */
  lemma ScaleKeepsOutside(dst: Grid, src: Grid, srcPos: IVec2, srcSize: IVec2, dstPos: IVec2, dstSize: IVec2)
    requires dst.Valid() && src.Valid()
    requires ScaleReadsInBounds(dst.size, src.size, srcPos, srcSize, dstPos, dstSize)
    ensures forall q | InBounds(q, dst.size) && !(0 <= q.x - dstPos.x < dstSize.x && 0 <= q.y - dstPos.y < dstSize.y) ::
              Scale(dst, src, srcPos, srcSize, dstPos, dstSize).Get(q) == dst.Get(q)
  {
    forall q | InBounds(q, dst.size) && !(0 <= q.x - dstPos.x < dstSize.x && 0 <= q.y - dstPos.y < dstSize.y)
      ensures Scale(dst, src, srcPos, srcSize, dstPos, dstSize).Get(q) == dst.Get(q)
    {
      ScaleGet(dst, src, srcPos, srcSize, dstPos, dstSize, q);
    }
  }

  lemma DivBelow(n: int, d: int, s: int)
    requires 0 <= n < d * s && d > 0
    ensures n / d < s
  {
    if n / d >= s {
      MulMonotone(s, n / d, d);
      assert false;
    }
  }

  lemma DivMonotone(a: int, b: int, d: int)
    requires 0 <= a <= b && d > 0
    ensures a / d <= b / d
  {
    assert b < d * (b / d + 1);
    DivBelow(a, d, b / d + 1);
  }

  /** For a destination offset inside a `d`-pixel row and a non-empty
      `s`-pixel source row, the sampled source offset lies in [0, s). */
  lemma SampleInRange(o: int, s: int, d: int)
    requires 0 <= o < d && 0 < s
    ensures 0 <= Sample(o, s, d) < s
  {
    MulMonotone(o, d - 1, s);
    assert o * s < d * s;
    DivBelow(o * s, d, s);
  }

  /** Sampling is monotone: a later destination pixel never samples an
      earlier source pixel. */
  lemma SampleMonotone(o1: int, o2: int, s: int, d: int)
    requires 0 <= o1 <= o2 && 0 <= s && d > 0
    ensures Sample(o1, s, d) <= Sample(o2, s, d)
  {
    MulMonotone(o1, o2, s);
    DivMonotone(o1 * s, o2 * s, d);
  }

  /** With equal source and destination extents sampling is the identity. */
  lemma SampleIdentity(o: int, s: int)
    requires 0 <= o && 0 < s
    ensures Sample(o, s, s) == o
  {
    DivModUnique(o, 0, (o * s) / s, (o * s) % s, s);
  }

  /** Stretching 2 pixels over 4 samples [0, 0, 1, 1]; squeezing 4 over 2
      samples [0, 2]. */
  lemma SampleExamples()
    ensures seq(4, o => Sample(o, 2, 4)) == [0, 0, 1, 1]
    ensures seq(2, o => Sample(o, 4, 2)) == [0, 2]
  {
  }

  /** A source rectangle that starts at a non-negative position, is not
      empty and ends within the source surface makes every read of
      blit_scale land on the source. */
  lemma ScaleReadsInBoundsWhenInside(surface: IVec2, srcSurface: IVec2, srcPos: IVec2, srcSize: IVec2, dstPos: IVec2, dstSize: IVec2)
    requires 0 <= srcPos.x && 0 < srcSize.x && srcPos.x + srcSize.x <= srcSurface.x
    requires 0 <= srcPos.y && 0 < srcSize.y && srcPos.y + srcSize.y <= srcSurface.y
    ensures ScaleReadsInBounds(surface, srcSurface, srcPos, srcSize, dstPos, dstSize)
  {
    forall x, y | ScaleVisits(surface, dstPos, dstSize, IVec2(x, y))
      ensures InBounds(SamplePos(srcPos, srcSize, dstSize, IVec2(x, y)), srcSurface)
    {
      SampleInRange(x, srcSize.x, dstSize.x);
      SampleInRange(y, srcSize.y, dstSize.y);
    }
  }

  /** With equal source and destination rectangles the scaled copy writes
      exactly what the same-size copy writes: every read lands on the source,
      so the source clip of the same-size copy never fires. */
  lemma ScaleEqualSizeIsSameSize(dst: Grid, src: Grid, srcPos: IVec2, dstPos: IVec2, size: IVec2)
    requires dst.Valid() && src.Valid()
    requires ScaleReadsInBounds(dst.size, src.size, srcPos, size, dstPos, size)
    ensures Scale(dst, src, srcPos, size, dstPos, size) == SameSize(dst, src, srcPos, dstPos, size)
  {
    var a := Scale(dst, src, srcPos, size, dstPos, size);
    var b := SameSize(dst, src, srcPos, dstPos, size);
    forall q | InBounds(q, dst.size)
      ensures a.Get(q) == b.Get(q)
    {
      ScaleGet(dst, src, srcPos, size, dstPos, size, q);
      SameSizeGet(dst, src, srcPos, dstPos, size, q);
      var off := q.Sub(dstPos);
      if 0 <= off.x < size.x && 0 <= off.y < size.y {
        SampleIdentity(off.x, size.x);
        SampleIdentity(off.y, size.y);
      }
    }
    GridExtensional(a, b);
  }
}
