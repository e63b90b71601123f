/**
 * The green-phosphor character maps (video/src/charmap_surface.rs): one
 * 8×12 glyph per character, one RGB24 pixel per bitmap bit, drawn in
 * green only. The drawing is the 1×1 layout of the font textures with a
 * shade whose lit colour is pure green at the attribute's intensity and
 * whose unlit colour is black.
 */
module CharmapSurface {
  import opened CharmapTextures
  import Buffers

  /** Bytes of one glyph in a surface: three per pixel, 8 by 12 pixels. */
  const GLYPH_BYTES: nat := 288

  /** `intensity`: full green, or half green under `ATTR_DIM`. */
  function Intensity(attrs: bv8): (i: bv8)
    ensures i == 0xff <==> attrs & Buffers.ATTR_DIM == 0
    ensures i == 0x80 <==> attrs & Buffers.ATTR_DIM != 0
  {
    if attrs & Buffers.ATTR_DIM == 0 then 0xff else 0x80
  }

  /** The two colours `set_pixels` draws with: green at the intensity, and black. */
  function SurfaceShade(attrs: bv8): Shade {
    Shade((Intensity(attrs) as bv32) << 8, (Intensity(attrs) as bv32) << 8, 0)
  }

  /** The green byte the loop stores for the bit under `mask`: tested on the bit, or on its complement under `ATTR_REVERSE`. */
  function GreenByte(attrs: bv8, byte: bv8, mask: bv8, intensity: bv8): bv8 {
    if attrs & Buffers.ATTR_REVERSE != 0 then
      if byte & mask == 0 then intensity else 0
    else
      if byte & mask != 0 then intensity else 0
  }

  /** Under a single-bit mask, flipping every bit of the byte flips the test. */
  lemma FlipTest(byte: bv8, k: nat)
    requires k < 8
    ensures (byte ^ 0xff) & Mask(k) != 0 <==> byte & Mask(k) == 0
  {
    match k
    case 0 => case 1 => case 2 => case 3 =>
    case 4 => case 5 => case 6 => case 7 =>
  }

  /** Bit `k` is lit when it is set, or when it is clear under `ATTR_REVERSE`. */
  lemma LitUnderAttrs(attrs: bv8, byte: bv8, k: nat)
    requires k < 8
    ensures Lit(byte, XorMask(attrs), k) <==> ((attrs & Buffers.ATTR_REVERSE != 0) != (byte & Mask(k) != 0))
  {
    FlipTest(byte, k);
    assert byte ^ 0 == byte;
  }

  /** The green byte is `intensity` exactly when bit `k` is lit under the attribute's mask, and 0 otherwise. */
  lemma GreenByteIsLit(attrs: bv8, byte: bv8, k: nat, intensity: bv8)
    requires k < 8
    ensures GreenByte(attrs, byte, Mask(k), intensity)
         == if Lit(byte, XorMask(attrs), k) then intensity else 0
  {
    LitUnderAttrs(attrs, byte, k);
  }

  /** The colours as bytes: the lit colour is `[0, intensity, 0]` and the unlit one black. */
  lemma SurfaceColours(attrs: bv8)
    ensures Rgb(SurfaceShade(attrs).lit) == [0, Intensity(attrs), 0]
    ensures Rgb(SurfaceShade(attrs).unlit) == [0, 0, 0]
  {
  }

  /** The pixel of bit `k` is red 0, the green byte the loop computes, blue 0. */
  lemma GreenRun(attrs: bv8, byte: bv8, mask: bv8, intensity: bv8, k: nat)
    requires k < 8 && mask == Mask(k) && intensity == Intensity(attrs)
    ensures Runs(byte, XorMask(attrs), SurfaceShade(attrs), 1, 0)[k] == [0, GreenByte(attrs, byte, mask, intensity), 0]
  {
    var sh := SurfaceShade(attrs);
    var on := Lit(byte, XorMask(attrs), k);
    assert Runs(byte, XorMask(attrs), sh, 1, 0)[k] == Rgb(if on then sh.lit else sh.unlit) by {
      Run1x1(on, sh);
    }
    assert Rgb(if on then sh.lit else sh.unlit) == [0, GreenByte(attrs, byte, mask, intensity), 0] by {
      GreenByteIsLit(attrs, byte, k, intensity);
      SurfaceColours(attrs);
    }
  }

  /** One pass of the mask loop: red 0, the green byte, blue 0. */
  method PutGreen(pixels: array<bv8>, offset: nat, attrs: bv8, byte: bv8, mask: bv8, intensity: bv8, ghost k: nat)
    requires k < 8 && mask == Mask(k) && intensity == Intensity(attrs)
    requires offset + 3 <= pixels.Length
    modifies pixels
    ensures Overwritten(pixels[..], old(pixels[..]), offset, Runs(byte, XorMask(attrs), SurfaceShade(attrs), 1, 0)[k])
  {
    pixels[offset] := 0;
    pixels[offset + 1] := GreenByte(attrs, byte, mask, intensity);
    pixels[offset + 2] := 0;
    GreenRun(attrs, byte, mask, intensity, k);
  }

  /** The `while mask != 0` loop for one bitmap byte: eight pixels, brightest bit first. */
  method PutByte(pixels: array<bv8>, off: nat, attrs: bv8, byte: bv8, intensity: bv8)
    requires intensity == Intensity(attrs) && off + 24 <= pixels.Length
    modifies pixels
    ensures Overwritten(pixels[..], old(pixels[..]), off, Block(byte, XorMask(attrs), SurfaceShade(attrs), 1))
  {
    ghost var pieces := Runs(byte, XorMask(attrs), SurfaceShade(attrs), 1, 0);
    LineLength(byte, XorMask(attrs), SurfaceShade(attrs), 1, 0);
    var offset := off;
    var mask: bv8 := 0x80;
    ghost var k: nat := 0;
    while mask != 0
      invariant k <= 8 && mask == Mask(k)
      invariant Overwritten(pixels[..], old(pixels[..]), off, Concat(pieces[..k]))
      invariant offset == off + |Concat(pieces[..k])| == off + 3 * k
      decreases 8 - k
    {
      MaskStep(k);
      ghost var mid := pixels[..];
      PutGreen(pixels, offset, attrs, byte, mask, intensity, k);
      PieceWritten(old(pixels[..]), mid, pixels[..], off, pieces, k);
      offset := offset + BYTES_PER_PIXEL;
      mask := mask >> 1;
      k := k + 1;
    }
    MaskStep(k);
    assert pieces[..k] == pieces;
    Block1x1(byte, XorMask(attrs), SurfaceShade(attrs));
  }

  /** One pass of the `for byte in bitmap` loop: the next 24 bytes of the surface. */
  method PutNextByte(pixels: array<bv8>, ghost orig: seq<bv8>, ghost base: nat, ghost pieces: seq<seq<bv8>>,
                     i: nat, offset: nat, attrs: bv8, byte: bv8, intensity: bv8)
    requires i < |pieces| && pieces[i] == Block(byte, XorMask(attrs), SurfaceShade(attrs), 1)
    requires intensity == Intensity(attrs) && base + |Concat(pieces)| <= pixels.Length
    requires Overwritten(pixels[..], orig, base, Concat(pieces[..i]))
    requires offset == base + |Concat(pieces[..i])|
    modifies pixels
    ensures Overwritten(pixels[..], orig, base, Concat(pieces[..i + 1]))
    ensures offset + 24 == base + |Concat(pieces[..i + 1])|
  {
    assert |pieces[i]| == 24 by {
      BlockLength(byte, XorMask(attrs), SurfaceShade(attrs), 1);
    }
    ConcatRoom(pieces, i);
    ghost var mid := pixels[..];
    PutByte(pixels, offset, attrs, byte, intensity);
    PieceWritten(orig, mid, pixels[..], base, pieces, i);
  }

  /**
   * `set_pixels`: the glyphs of `bitmap` drawn into a surface of
   * `characters` glyphs from glyph `first` on, 24 bytes per bitmap byte;
   * nothing outside those bytes changes. A surface of the wrong size, or
   * bytes running past its end, make the source panic.
   */
  method SetPixels(pixels: array<bv8>, bitmap: seq<bv8>, first: nat, attrs: bv8, characters: nat)
    requires pixels.Length == characters * GLYPH_BYTES
    requires first * GLYPH_BYTES + 24 * |bitmap| <= pixels.Length
    modifies pixels
    ensures Overwritten(pixels[..], old(pixels[..]), first * GLYPH_BYTES, Rendered(bitmap, XorMask(attrs), SurfaceShade(attrs), 1))
  {
    var offset := first * BYTES_PER_PIXEL * CHAR_CELL_WIDTH * CHAR_CELL_HEIGHT;
    ghost var base := first * GLYPH_BYTES;
    assert offset == base;
    var intensity: bv8 := if attrs & Buffers.ATTR_DIM == 0 then 0xff else 0x80;
    ghost var xm, sh := XorMask(attrs), SurfaceShade(attrs);
    ghost var pieces := Blocks(bitmap, xm, sh, 1);
    assert base + |Concat(pieces)| <= pixels.Length by {
      RenderedLength(bitmap, xm, sh, 1);
    }
    var i := 0;
    while i < |bitmap|
      invariant i <= |bitmap|
      invariant Overwritten(pixels[..], old(pixels[..]), base, Concat(pieces[..i]))
      invariant offset == base + |Concat(pieces[..i])|
    {
      PutNextByte(pixels, old(pixels[..]), base, pieces, i, offset, attrs, bitmap[i], intensity);
      offset := offset + 24;
      i := i + 1;
    }
    assert pieces[..i] == pieces;
  }

  /**
   * The bytes `set_pixels` leaves for bit `k` of bitmap byte `j`: red and
   * blue 0; green the intensity when the bit is set, or when it is clear
   * under `ATTR_REVERSE`, and 0 otherwise.
   */
  lemma SurfacePixel(bitmap: seq<bv8>, attrs: bv8, j: nat, k: nat, t: nat)
    requires j < |bitmap| && k < 8 && t < 3
    ensures 24 * j + 3 * k + t < |Rendered(bitmap, XorMask(attrs), SurfaceShade(attrs), 1)|
    ensures Rendered(bitmap, XorMask(attrs), SurfaceShade(attrs), 1)[24 * j + 3 * k + t]
         == if t == 1 && (attrs & Buffers.ATTR_REVERSE != 0) != (bitmap[j] & Mask(k) != 0) then Intensity(attrs) else 0
  {
    Pixel1x1(bitmap, XorMask(attrs), SurfaceShade(attrs), j, k, t);
  }
}
