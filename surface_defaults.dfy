/** The operations every surface gets from its three primitives: the
    default `clear`, built from per-pixel writes, and `blit`, the single
    compositing entry point that fills in missing arguments and chooses
    between the two copy algorithms. */
module SurfaceDefaults {
  import opened Colors
  import opened Surface
  import opened Images
  import opened BlitEngine

  datatype Option<T> = None | Some(value: T) {
    function UnwrapOr(default: T): T {
      match this
      case Some(v) => v
      case None => default
    }
  }

  /** The default `clear`: writes `color` to every position, row by row,
      through the pixel primitive. It has the same effect as the bulk fill
      an image uses instead. */
  method Clear(dst: Image, color: Color)
    requires dst.Valid()
    modifies dst.pixels
    ensures dst.View() == old(dst.View()).Fill(color)
  {
    ghost var before := dst.View();
    ghost var after := before.Fill(color);
    var size := dst.Size();
    for y := 0 to size.y
      invariant ScanProgress(dst.pixels[..], before, after, Zero, y, 0)
    {
      for x := 0 to size.x
        invariant ScanProgress(dst.pixels[..], before, after, Zero, y, x)
      {
        var p := IVec2(x, y);
        assert p == Zero.Add(IVec2(x, y));
        FillGet(before, color, p);
        ScanWrite(dst.pixels[..], before, after, Zero, y, x, color);
        IndexInRange(p, size);
        dst.SetPixel(p, color);
      }
      ScanNextRow(dst.pixels[..], before, after, Zero, y, size.x);
    }
    ScanComplete(dst.pixels[..], before, after, Zero, size.y, 0);
  }

  /** The size of the source rectangle `blit` copies from, for a source of
      dimensions `srcDims`: the whole source when no size is given. */
  function ResolvedSrcSize(srcDims: IVec2, srcSize: Option<IVec2>): (r: IVec2)
    ensures srcSize.None? ==> r == srcDims
    ensures srcSize.Some? ==> r == srcSize.value
  {
    srcSize.UnwrapOr(srcDims)
  }

  /** `blit` needs every source read to be on the source only when it
      dispatches to the scaled copy. */
  ghost predicate BlitReadsInBounds(dst: Image, src: Image, srcPos: Option<IVec2>, srcSize: Option<IVec2>,
                                    dstPos: Option<IVec2>, dstSize: Option<IVec2>)
  {
    var sp := srcPos.UnwrapOr(Zero);
    var ss := ResolvedSrcSize(src.size, srcSize);
    var dp := dstPos.UnwrapOr(Zero);
    dstSize.Some? && dstSize.value != ss ==>
      ScaleReadsInBounds(dst.size, src.size, sp, ss, dp, dstSize.value)
  }

  /** Composites `src` onto `dst`. A missing source position or destination
      position is the origin, a missing source size is the whole source.
      Without a destination size, or with one equal to the source size, the
      rectangle is copied 1:1; otherwise it is scaled to the destination
      size. */
  method Blit(dst: Image, src: Image, srcPos: Option<IVec2>, srcSize: Option<IVec2>,
              dstPos: Option<IVec2>, dstSize: Option<IVec2>)
    requires dst.Valid() && src.Valid() && dst.pixels != src.pixels
    requires BlitReadsInBounds(dst, src, srcPos, srcSize, dstPos, dstSize)
    modifies dst.pixels
    ensures var sp := srcPos.UnwrapOr(Zero);
            var ss := ResolvedSrcSize(src.size, srcSize);
            var dp := dstPos.UnwrapOr(Zero);
            if dstSize.None? || dstSize.value == ss then
              dst.View() == SameSize(old(dst.View()), src.View(), sp, dp, ss)
            else
              ScaleReadsInBounds(dst.size, src.size, sp, ss, dp, dstSize.value) &&
              dst.View() == Scale(old(dst.View()), src.View(), sp, ss, dp, dstSize.value)
  {
    var sp := srcPos.UnwrapOr(Zero);
    var ss := ResolvedSrcSize(src.Size(), srcSize);
    var dp := dstPos.UnwrapOr(Zero);
    if dstSize.Some? {
      var ds := dstSize.value;
      if ds == ss {
        BlitSameSize(dst, src, sp, dp, ds);
      } else {
        BlitScale(dst, src, sp, ss, dp, ds);
      }
    } else {
      BlitSameSize(dst, src, sp, dp, ss);
    }
  }
}
