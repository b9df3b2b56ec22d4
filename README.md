# soft2d pixel compositing, modelled in Dafny

This project models the pixel-compositing core of soft2d, a small software
2D rasteriser. It has four parts:

- **Colours** (`colors.dfy`, module `Colors`): a packed 32-bit ARGB word
  (`a<<24 | r<<16 | g<<8 | b`). It has the `from_rgb`, `from_rgba`,
  `as_u32`, `from_u32` and `a` accessors and the named palette. Bytes are
  `bv8` and the word is `bv32`.
- **Surface geometry** (`surface.dfy`, module `Surface`): positions and
  sizes (`IVec2`), and the canonical row-major storage index
  `index(pos, w) = pos.y * w + pos.x` with its inverse `PosOf`. `Grid` is a
  value view of a surface's storage (its size and its flat array of words).
  The operations are specified against it. The module also holds the
  scan-progress lemmas shared by every row-by-row pixel loop.
- **Image** (`image.dfy`, module `Images`): the concrete surface. It is a
  class with a fixed pixel buffer `array<bv32>` of length `width * height`
  and its dimensions. It provides `GetPixel`, `SetPixel`, `Size` and the
  bulk-fill `Clear`.
- **Blit engine** (`blit.dfy`, module `BlitEngine`):
  - `BlitSameSize` is the 1:1 copy. It clips rows on y and pixels on x,
    against both surfaces.
  - `BlitScale` is the scaled copy. It samples by truncating the
    proportional offset and clips only against the destination surface.
  - Both skip source pixels whose alpha is exactly 0. Both are `for` loops
    with `continue`, as in the source, and both write the destination in
    place.
  - Each method is proved against a specification function (`SameSize`,
    `Scale`) of the old destination storage and the source storage. The
    lemmas then state what these functions mean pixel by pixel.
- **Surface defaults** (`surface_defaults.dfy`, module `SurfaceDefaults`):
  the trait's default `clear`, built from per-pixel writes, and `blit`.
  `blit` resolves missing arguments and dispatches to one of the two
  algorithms.

The generic `A: Surface` / `B: Surface` parameters of the blit functions
become two `Image` objects whose pixel buffers are distinct. In the source
this is guaranteed by `&mut` versus `&` borrowing. Every read and write of
`BlitSameSize`, and every destination write of `BlitScale`, is proved to
be at an in-bounds position for any positions, including negative ones.
`BlitScale`'s source reads are in bounds by its precondition, which
`ScaleReadsInBoundsWhenInside` discharges for a source rectangle inside
the source.

## Model

| member | source | states |
|---|---|---|
| Colors.FromRgba | src/core/color.rs:9-11 | each channel lands in its own byte: alpha is bits 24..31 (and is what `a()` returns), red 16..23, green 8..15, blue 0..7 |
| Colors.FromRgb | src/core/color.rs:5-7 | an RGB colour is opaque (alpha 0xFF) and keeps its red, green and blue bytes |
| Colors.Color.AsU32 | src/core/color.rs:13-15 | the word is the colour's whole content: wrapping it again gives the same colour |
| Colors.FromU32 | src/core/color.rs:17-19 | the colour made from a word packs exactly that word |
| Colors.Color.A | src/core/color.rs:21-23 | the top byte of the word; it is 0 exactly when the word is below 2^24 |
| Colors.U32RoundTrip | src/core/color.rs:13-19 | `from_u32(as_u32(c)) == c` and `as_u32(from_u32(v)) == v` |
| Colors.RgbaRoundTrip | src/core/color.rs:9-23 | packing four channels, converting to the word and back, and unpacking returns the same four channels |
| Colors.FromRgbaInjective | src/core/color.rs:9-11 | equal packed colours come from equal channel tuples |
| Colors.FromRgbIsOpaqueRgba | src/core/color.rs:5-7 | `from_rgb(r,g,b) == from_rgba(r,g,b,0xFF)`, so its alpha is 0xFF |
| Colors.PaletteOpaque | src/core/color.rs:25-42 | every named constant has alpha 0xFF, so the alpha-key never skips it; BLACK is 0xFF000000, WHITE 0xFFFFFFFF, and so on |
| Surface.Index | src/core/surface.rs:8-10 | `y*w + x` over unbounded int; a position whose column is in `[0, w)` lands in its row's block `[y*w, (y+1)*w)` |
| Surface.PosOf | src/core/surface.rs:8-10 | the position stored at a flat index: `index` of it gives the index back, and its column is within the width |
| Surface.IndexInRange | src/core/surface.rs:8-10 | for `0<=x<w` and `0<=y<h` the index lies in `[0, w*h)` |
| Surface.PosOfInBounds | src/core/surface.rs:8-10 | every index in `[0, w*h)` stores an in-bounds position, so positions cover the whole buffer |
| Surface.PosOfIndex | src/core/surface.rs:8-10 | `PosOf` inverts `index` on in-bounds positions |
| Surface.IndexInjective | src/core/surface.rs:8-10 | two in-bounds positions with the same index are equal |
| Surface.GridExtensional | src/core/surface.rs:8-10 | two storages of one size that agree at every in-bounds position are equal |
| Surface.GetSetSame | src/image.rs:34-40 | after `set_pixel(p, c)` at an in-bounds `p`, `get_pixel(p) == c` |
| Surface.GetSetOther | src/image.rs:34-40 | `set_pixel(p, c)` leaves `get_pixel(q)` unchanged for every other in-bounds `q` |
| Surface.FillGet | src/image.rs:46-48 | after a fill, every in-bounds pixel has the fill colour |
| Images.Image.constructor | src/image.rs:9-15 | `Image::new(w, h, c)` has size `(w, h)` and a fresh buffer of `w*h` words, each `c.as_u32()` |
| Images.Image.Size | src/image.rs:42-44 | the constructor's dimensions, a const field, so `SetPixel` and `Clear` keep it; a valid image's buffer holds `w*h` words |
| Images.Image.GetPixel | src/image.rs:34-36 | reads the buffer at `index(pos, width)`, which only has to fall inside the buffer; at an in-bounds position it is the colour stored there |
| Images.Image.SetPixel | src/image.rs:38-40 | writes `color.as_u32()` at `index(pos, width)` and nothing else; at an in-bounds position this is `Set` on the storage view |
| Images.Image.Clear | src/image.rs:46-48 | the bulk fill makes every pixel `color`; the size is unchanged |
| BlitEngine.SameSize | src/core/blit.rs:3-34 | the destination after `blit_same_size` keeps its size and storage shape |
| BlitEngine.SameSizeGet | src/core/blit.rs:10-31 | destination pixel `q` becomes the source pixel at `src_pos + (q - dst_pos)` exactly when that offset is in `[0,size)`, the source position is on the source and its alpha is not 0; otherwise it keeps its old colour |
| BlitEngine.SameSizeEmptyIsNoOp | src/core/blit.rs:10-19 | if `size.x <= 0` or `size.y <= 0`, nothing changes |
| BlitEngine.SameSizeIdentity | src/core/blit.rs:10-31 | copying a whole source onto an equal-size destination at the origin puts each non-transparent source pixel at the same position and keeps the destination where the source alpha is 0 |
| BlitEngine.SameSizeIdentityOpaque | src/core/blit.rs:10-31 | with no fully transparent source pixel, the identity copy reproduces the source exactly |
| BlitEngine.SameSizeClipExample | src/core/blit.rs:11-27 | an opaque 10x10 source at (-5,-5) on a 10x10 destination writes only the destination's 5x5 top-left quadrant (from the source's bottom-right quadrant) |
| BlitEngine.BlitSameSize | src/core/blit.rs:3-34 | the row/column loop with its four clips and alpha-key leaves the destination equal to `SameSize` of its old storage; every read and write is in bounds |
| BlitEngine.Scale | src/core/blit.rs:36-68 | the destination after `blit_scale` keeps its size and storage shape |
| BlitEngine.ScaleGet | src/core/blit.rs:47-65 | inside the requested destination rectangle, pixel `q` becomes the source pixel at `src_pos + trunc(off * src_size / dst_size)`, which is on the source, unless its alpha is 0; outside the rectangle it is unchanged |
| BlitEngine.BlitScale | src/core/blit.rs:36-68 | the destination-clipped sampling loop leaves the destination equal to `Scale` of its old storage; destination accesses are clipped; every source read is in bounds by precondition |
| BlitEngine.SampleInRange | src/core/blit.rs:48-61 | for `0 <= x < d` and `s > 0`, the sampled offset `trunc(x*s/d)` lies in `[0, s)` |
| BlitEngine.SampleMonotone | src/core/blit.rs:55-61 | sampling is monotone in the destination offset |
| BlitEngine.SampleIdentity | src/core/blit.rs:48-61 | with `s == d`, sampling is the identity |
| BlitEngine.SampleExamples | src/core/blit.rs:48-61 | a 2 to 4 scale samples `[0,0,1,1]`; a 4 to 2 scale samples `[0,2]` |
| BlitEngine.ScaleReadsInBoundsWhenInside | src/core/blit.rs:55-62 | if `0 <= src_pos`, `src_size > 0` and `src_pos + src_size <= source size`, every read of `blit_scale` is on the source |
| BlitEngine.ScaleEqualSizeIsSameSize | src/core/surface.rs:35-39 | with equal source and destination rectangles and in-bounds reads, the scaled copy equals the same-size copy, so the dispatch shortcut changes no pixel |
| SurfaceDefaults.Clear | src/core/surface.rs:12-19 | the default row-by-row `clear` makes every pixel `color`, the same effect as the image's bulk fill; the size is unchanged |
| SurfaceDefaults.ResolvedSrcSize | src/core/surface.rs:33 | a missing source size is the whole source; a given one is used as is |
| SurfaceDefaults.Blit | src/core/surface.rs:21-44 | `src_pos` and `dst_pos` default to the origin and `src_size` to the source size; with no `dst_size`, or one equal to `src_size`, the result is the same-size copy of `src_size`; otherwise it is the scaled copy |

## Left out

- The windowing layer (`src/window.rs`) is not part of this model. It covers window creation, the event loop, presenting, key tracking and frame pacing. Its `Buffer` surface wraps a platform buffer; `Image` has the same flat-array semantics.
- `Image::open` (PNG decoding through an external crate) and the `examples/character.rs` demo are not part of this model.
- Single-precision float arithmetic in `blit_scale`: the sampled offset `(x as f32 * (s as f32 / d as f32)) as i32` is modelled as the exact rational value truncated toward zero (`TruncDiv(x * s, d)`). The two differ already at small sizes: when `x*s/d` is an exact integer and `s/d` is not exactly representable in `f32`, the float product can fall just below that integer and truncate one lower (for `s = 2, d = 82, x = 41` the float product is 0.99999994, so the program samples 0 where the model samples 1; for `s = 48, d = 74, x = 37` it samples 23 where the model samples 24). At such points the program reads the source pixel one before the one `ScaleGet` and `SampleExamples` describe.
- Fixed-width integers: coordinates are unbounded `int`. Overflow of `i32` in `dst_pos + y`, and of `u32` in `width * height`, is not modelled.
- Generic dispatch over arbitrary surface types: there are no traits here. The defaults and the blit engine operate on `Image` only.
- `IVec2` comes from the external `glam` crate; only its constructor and `x`/`y` fields are used by the core, which adds the components as plain integers. `IVec2.Add` and `IVec2.Sub` are the model's own helpers for stating offsets.
- BlitEngine.BlitScale: it requires every sampled source position to be on the source, which is the Surface contract for `get_pixel`. An `Image` would tolerate an off-surface position whose flat index still falls inside the buffer (it reads a pixel of a neighbouring row); the model does not cover that case.
