/** Packed 32-bit ARGB colours: alpha in bits 24..31, red in 16..23,
    green in 8..15 and blue in 0..7. */
module Colors {

  /** A colour is a single 32-bit word; the datatype wrapper mirrors the
      one-field newtype of the library. */
  datatype Color = Color(bits: bv32) {

    /** The packed word; wrapping it again gives the same colour. */
    function AsU32(): (v: bv32)
      ensures Color(v) == this
    {
      bits
    }

    /** The alpha channel: the top byte of the word. It is 0, the value the
        blit engine skips, exactly when the word is below 2^24. */
    function A(): (a: bv8)
      ensures a == ByteAt(AsU32(), 24)
      ensures a == 0 <==> AsU32() < 0x0100_0000
    {
      (bits >> 24) as bv8
    }
  }

  /** The byte of `v` that starts at bit `shift` (used to state channel layout). */
  function ByteAt(v: bv32, shift: bv32): bv8
    requires shift <= 24
  {
    ((v >> shift) & 0xFF) as bv8
  }

  /** The colour whose packed word is `v`; no word is lost. */
  function FromU32(v: bv32): (c: Color)
    ensures c.AsU32() == v
  {
    Color(v)
  }

  /** Packs four channels; each lands in its own byte of the word. */
  function FromRgba(r: bv8, g: bv8, b: bv8, a: bv8): (c: Color)
    ensures c.A() == a
    ensures ByteAt(c.AsU32(), 24) == a
    ensures ByteAt(c.AsU32(), 16) == r
    ensures ByteAt(c.AsU32(), 8) == g
    ensures ByteAt(c.AsU32(), 0) == b
  {
    Color(((a as bv32) << 24) | ((r as bv32) << 16) | ((g as bv32) << 8) | (b as bv32))
  }

  /** An opaque colour. */
  function FromRgb(r: bv8, g: bv8, b: bv8): (c: Color)
    ensures c.A() == 0xFF
    ensures ByteAt(c.AsU32(), 16) == r && ByteAt(c.AsU32(), 8) == g && ByteAt(c.AsU32(), 0) == b
  {
    FromRgba(r, g, b, 0xFF)
  }

  /** Converting to and from the packed word loses nothing, in either order. */
  lemma U32RoundTrip(c: Color, v: bv32)
    ensures FromU32(c.AsU32()) == c
    ensures FromU32(v).AsU32() == v
  {
  }

  /** Unpacking a packed colour gives back its four channels. */
  lemma RgbaRoundTrip(r: bv8, g: bv8, b: bv8, a: bv8)
    ensures var w := FromU32(FromRgba(r, g, b, a).AsU32()).AsU32();
            ByteAt(w, 24) == a && ByteAt(w, 16) == r && ByteAt(w, 8) == g && ByteAt(w, 0) == b
  {
  }

  /** Distinct channel tuples give distinct colours. */
  lemma FromRgbaInjective(r: bv8, g: bv8, b: bv8, a: bv8, r': bv8, g': bv8, b': bv8, a': bv8)
    requires FromRgba(r, g, b, a) == FromRgba(r', g', b', a')
    ensures r == r' && g == g' && b == b' && a == a'
  {
  }

  /** An opaque colour is the explicit-alpha colour with alpha 0xFF. */
  lemma FromRgbIsOpaqueRgba(r: bv8, g: bv8, b: bv8)
    ensures FromRgb(r, g, b) == FromRgba(r, g, b, 0xFF)
    ensures FromRgb(r, g, b).A() == 0xFF
  {
  }

  const Black: Color := FromRgb(0x00, 0x00, 0x00)
  const White: Color := FromRgb(0xFF, 0xFF, 0xFF)
  const Red: Color := FromRgb(0xFF, 0x00, 0x00)
  const Green: Color := FromRgb(0x00, 0xFF, 0x00)
  const Blue: Color := FromRgb(0x00, 0x00, 0xFF)

  const Yellow: Color := FromRgb(0xFF, 0xFF, 0x00)
  const Cyan: Color := FromRgb(0x00, 0xFF, 0xFF)
  const Magenta: Color := FromRgb(0xFF, 0x00, 0xFF)

  const Gray: Color := FromRgb(0x80, 0x80, 0x80)
  const LightGray: Color := FromRgb(0xC0, 0xC0, 0xC0)
  const DarkGray: Color := FromRgb(0x40, 0x40, 0x40)

  const Orange: Color := FromRgb(0xFF, 0xA5, 0x00)
  const Brown: Color := FromRgb(0xA5, 0x2A, 0x2A)
  const Pink: Color := FromRgb(0xFF, 0xC0, 0xCB)
  const Purple: Color := FromRgb(0x80, 0x00, 0x80)

  /** Every named constant of the palette. */
  const Palette: seq<Color> :=
    [Black, White, Red, Green, Blue, Yellow, Cyan, Magenta,
     Gray, LightGray, DarkGray, Orange, Brown, Pink, Purple]

  /** The named constants are all opaque, so the blit alpha-key never skips
      them, and they pack to the expected words. */
  lemma PaletteOpaque()
    ensures forall i | 0 <= i < |Palette| :: Palette[i].A() == 0xFF
    ensures Black.AsU32() == 0xFF00_0000 && White.AsU32() == 0xFFFF_FFFF
    ensures Red.AsU32() == 0xFFFF_0000 && Green.AsU32() == 0xFF00_FF00 && Blue.AsU32() == 0xFF00_00FF
    ensures Orange.AsU32() == 0xFFFF_A500 && Pink.AsU32() == 0xFFFF_C0CB
  {
  }
}
