/** The concrete surface: an image owning a flat, row-major pixel buffer. */
module Images {
  import opened Colors
  import opened Surface

  class Image {
    /** The pixel buffer, `width * height` packed colours; its contents
        change, the buffer itself is never replaced. */
    const pixels: array<bv32>
    /** The dimensions given at construction. */
    const size: IVec2

    /** The buffer holds exactly one word per position. */
    predicate Valid() {
      0 <= size.x && 0 <= size.y && pixels.Length == size.x * size.y
    }

    /** The current pixel storage as a value. */
    ghost function View(): (g: Grid)
      reads pixels
      ensures Valid() ==> g.Valid()
    {
      Grid(size, pixels[..])
    }

    /** A `width` by `height` image with every pixel set to `color`. */
    constructor (width: nat, height: nat, color: Color)
      ensures Valid() && fresh(pixels)
      ensures Size() == IVec2(width, height)
      ensures View() == Grid(IVec2(width, height), seq(width * height, _ => color.AsU32()))
    {
      pixels := new bv32[width * height](_ => color.AsU32());
      size := IVec2(width, height);
    }

    /** The dimensions given at construction; a const field, so no write
        changes them. A valid image holds one word per position. */
    function Size(): (s: IVec2)
      ensures Valid() ==> 0 <= s.x && 0 <= s.y && pixels.Length == s.x * s.y
    {
      size
    }

    /** Reads the pixel at `pos`; the buffer lookup only needs the flat index
        to fall inside the buffer. On an in-bounds position it is the
        colour the storage view holds there. */
    function GetPixel(pos: IVec2): (c: Color)
      reads pixels
      requires 0 <= Index(pos, size.x) < pixels.Length
      ensures Valid() && InBounds(pos, size) ==> c == View().Get(pos)
    {
      FromU32(pixels[Index(pos, size.x)])
    }

    /** Writes the pixel at `pos`, under the same requirement as `GetPixel`. */
    method SetPixel(pos: IVec2, color: Color)
      requires 0 <= Index(pos, size.x) < pixels.Length
      modifies pixels
      ensures pixels[..] == old(pixels[..])[Index(pos, size.x) := color.AsU32()]
      ensures Valid() && InBounds(pos, size) ==> View() == old(View()).Set(pos, color)
    {
      pixels[Index(pos, size.x)] := color.AsU32();
    }

    /** Overwrites every pixel with `color` in one bulk fill. */
    method Clear(color: Color)
      requires Valid()
      modifies pixels
      ensures View() == old(View()).Fill(color)
    {
      forall i | 0 <= i < pixels.Length {
        pixels[i] := color.AsU32();
      }
    }
  }
}
