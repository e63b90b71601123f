/**
 * The glyph rasteriser of the video crate (video/src/charmap_textures.rs):
 * a font bitmap, one byte per 8-pixel row, is turned into RGB texture
 * bytes at a scale of 1 to 4, each bitmap bit becoming a scale×scale block
 * of pixels. Reverse video flips the bits, dim halves the foreground, and
 * at scales above 1 some sub-pixels of a lit block are drawn in a colour
 * halfway to the background.
 *
 * The bytes one call writes are specified by `Rendered`, built from the
 * per-bit `Run`, per-row `Line` and per-byte `Block`; every writer below
 * is proved to splice exactly those bytes into the pixel array at its
 * offset and to leave every other byte alone.
 */
module CharmapTextures {
  import Arithmetic
  import Buffers

  const FONT_SIZE: nat := 256
  const BYTES_PER_PIXEL: nat := 3
  const CHAR_CELL_WIDTH: nat := 8
  const CHAR_CELL_HEIGHT: nat := 12

  /** The screen's background colour (charmaps/mod.rs). */
  const CRT_BACKGROUND: bv32 := 0x252919

  /** The glyph every character shows until its font is loaded: a small square outline. */
  const EMPTY_CHAR_CELL: seq<bv8> := [0x00, 0x00, 0x00, 0x00, 0x3C, 0x24, 0x24, 0x3C, 0x00, 0x00, 0x00, 0x00]

  // ---------------------------------------------------------------- colours

  /** `red`: bits 16 to 23 of the colour. */
  function Red(c: bv32): bv8 {
    ((c >> 16) & 0xff) as bv8
  }

  /** `green`: bits 8 to 15 of the colour. */
  function Green(c: bv32): bv8 {
    ((c >> 8) & 0xff) as bv8
  }

  /** `blue`: bits 0 to 7 of the colour. */
  function Blue(c: bv32): bv8 {
    (c & 0xff) as bv8
  }

  /** The three channels together give back the colour's low 24 bits. */
  lemma ChannelsRecompose(c: bv32)
    ensures ((Red(c) as bv32) << 16) | ((Green(c) as bv32) << 8) | (Blue(c) as bv32) == c & 0xffffff
  {
  }

  /** `dim`: each channel doubled and then quartered, which halves it. */
  function Dim(c: bv32): (d: bv32)
    ensures Red(d) == Red(c) / 2 && Green(d) == Green(c) / 2 && Blue(d) == Blue(c) / 2
    ensures d & 0xff000000 == 0
  {
    var red := (((c >> 16) & 0xff) * 2) / 4;
    var green := (((c >> 8) & 0xff) * 2) / 4;
    var blue := ((c & 0xff) * 2) / 4;
    (red << 16) | (green << 8) | blue
  }

  /** `between`: per channel, the mean of the two halved channels. */
  function Between(c1: bv32, c2: bv32): (m: bv32)
    ensures m & 0xff000000 == 0
  {
    var red1 := (((c1 >> 16) & 0xff) * 2) / 4;
    var green1 := (((c1 >> 8) & 0xff) * 2) / 4;
    var blue1 := ((c1 & 0xff) * 2) / 4;
    var red2 := (((c2 >> 16) & 0xff) * 2) / 4;
    var green2 := (((c2 >> 8) & 0xff) * 2) / 4;
    var blue2 := ((c2 & 0xff) * 2) / 4;
    var red := (red1 + red2) / 2;
    var green := (green1 + green2) / 2;
    var blue := (blue1 + blue2) / 2;
    (red << 16) | (green << 8) | blue
  }

  /** Each channel of `between` is the mean of the two halved channels. */
  lemma BetweenRed(c1: bv32, c2: bv32)
    ensures Red(Between(c1, c2)) == (Red(c1) / 2 + Red(c2) / 2) / 2
  {
  }

  lemma BetweenGreen(c1: bv32, c2: bv32)
    ensures Green(Between(c1, c2)) == (Green(c1) / 2 + Green(c2) / 2) / 2
  {
  }

  lemma BetweenBlue(c1: bv32, c2: bv32)
    ensures Blue(Between(c1, c2)) == (Blue(c1) / 2 + Blue(c2) / 2) / 2
  {
  }

  // ---------------------------------------------------------------- what a glyph becomes

  /** The RGB bytes of one pixel. */
  function Rgb(c: bv32): seq<bv8> {
    [Red(c), Green(c), Blue(c)]
  }

  /** The mask of bitmap bit `k`, counting from the most significant: 0x80 shifted right `k` times. */
  function Mask(k: nat): bv8
    requires k <= 8
  {
    match k
    case 0 => 0x80 case 1 => 0x40 case 2 => 0x20 case 3 => 0x10
    case 4 => 0x08 case 5 => 0x04 case 6 => 0x02 case 7 => 0x01
    case _ => 0x00
  }

  /** The table is the source's shift: bit `k` is `0x80 >> k`. */
  lemma MaskIsShift(k: nat)
    requires k <= 8
    ensures Mask(k) == (0x80 as bv8) >> k
  {
    match k
    case 0 => case 1 => case 2 => case 3 => case 4 =>
    case 5 => case 6 => case 7 => case 8 =>
  }

  /** The mask walk of the rasteriser loops: eight non-zero masks, then zero. */
  lemma MaskStep(k: nat)
    requires k <= 8
    ensures Mask(k) != 0 <==> k < 8
    ensures k < 8 ==> Mask(k) >> 1 == Mask(k + 1)
  {
  }

  /** Whether bit `k` of a bitmap byte is lit once the reverse-video mask is applied. */
  predicate Lit(b: bv8, xorMask: bv8, k: nat)
    requires k < 8
  {
    (b ^ xorMask) & Mask(k) != 0
  }

  /**
   * The three colours one writer draws with: a lit sub-pixel, a lit
   * sub-pixel on the edge of its block, and an unlit sub-pixel.
   */
  datatype Shade = Shade(lit: bv32, edge: bv32, unlit: bv32)

  /** `set_pixels_NxN`: the foreground, halfway to the background on edges, and the CRT background. */
  function TextureShade(fg: bv32): Shade {
    Shade(fg, Between(fg, CRT_BACKGROUND), CRT_BACKGROUND)
  }

  /** `set_pixels_empty`: red at 0x80 when lit, black otherwise. */
  const EMPTY_SHADE: Shade := Shade(0x800000, 0x800000, 0)

  /**
   * The sub-pixels of a lit block that `set_pixels_NxN` draws halfway to
   * the background: none at 1×1, the bottom-right one at 2×2, and the
   * last row and column at 3×3 and 4×4.
   */
  predicate Edge(s: nat, r: nat, c: nat) {
    if s == 2 then r == 1 && c == 1
    else if s >= 3 then r == s - 1 || c == s - 1
    else false
  }

  /** The colour of sub-pixel (r, c) of a block whose bit is `on`. */
  function ColorOf(sh: Shade, s: nat, on: bool, r: nat, c: nat): bv32 {
    if !on then sh.unlit else if Edge(s, r, c) then sh.edge else sh.lit
  }

  // ---------------------------------------------------------------- layout

  /** The pieces one after the other. */
  function Concat(ps: seq<seq<bv8>>): seq<bv8> {
    if ps == [] then [] else Concat(ps[..|ps| - 1]) + ps[|ps| - 1]
  }

  /** Every piece is `g` bytes long. */
  predicate Uniform(ps: seq<seq<bv8>>, g: nat) {
    forall j :: 0 <= j < |ps| ==> |ps[j]| == g
  }

  /** The sub-pixels of a bit on sub-row `r`, left to right, one pixel each. */
  function Pixels(on: bool, sh: Shade, s: nat, r: nat): seq<seq<bv8>> {
    seq(s, c requires 0 <= c < s => Rgb(ColorOf(sh, s, on, r, c)))
  }

  /** What one bit becomes on sub-row `r`: `s` pixels. */
  function Run(on: bool, sh: Shade, s: nat, r: nat): seq<bv8> {
    Concat(Pixels(on, sh, s, r))
  }

  /** The runs of sub-row `r` for the eight bits of `b`, most significant first. */
  function Runs(b: bv8, xorMask: bv8, sh: Shade, s: nat, r: nat): seq<seq<bv8>> {
    seq(8, k requires 0 <= k < 8 => Run(Lit(b, xorMask, k), sh, s, r))
  }

  /** Sub-row `r` of a byte's block. */
  function Line(b: bv8, xorMask: bv8, sh: Shade, s: nat, r: nat): seq<bv8> {
    Concat(Runs(b, xorMask, sh, s, r))
  }

  /** The `s` sub-rows of a byte's block, top to bottom. */
  function Lines(b: bv8, xorMask: bv8, sh: Shade, s: nat): seq<seq<bv8>> {
    seq(s, r requires 0 <= r < s => Line(b, xorMask, sh, s, r))
  }

  /** The block one bitmap byte becomes: `s` lines of `8·s` pixels. */
  function Block(b: bv8, xorMask: bv8, sh: Shade, s: nat): seq<bv8> {
    Concat(Lines(b, xorMask, sh, s))
  }

  /** The blocks of a bitmap's bytes, in order. */
  function Blocks(bs: seq<bv8>, xorMask: bv8, sh: Shade, s: nat): seq<seq<bv8>> {
    seq(|bs|, j requires 0 <= j < |bs| => Block(bs[j], xorMask, sh, s))
  }

  /** All the bytes a bitmap becomes at scale `s`: one full block per bitmap byte, in order. */
  function Rendered(bs: seq<bv8>, xorMask: bv8, sh: Shade, s: nat): seq<bv8> {
    Concat(Blocks(bs, xorMask, sh, s))
  }

  // ---------------------------------------------------------------- concatenation lemmas

  /** One more piece goes on the end. */
  lemma ConcatStep(ps: seq<seq<bv8>>, i: nat)
    requires i < |ps|
    ensures Concat(ps[..i + 1]) == Concat(ps[..i]) + ps[i]
  {
    assert ps[..i + 1][..i] == ps[..i];
  }

  lemma {:induction false} ConcatAppend(p: seq<seq<bv8>>, q: seq<seq<bv8>>)
    ensures Concat(p + q) == Concat(p) + Concat(q)
    decreases |q|
  {
    if q == [] {
      assert p + q == p;
    } else {
      var pq := p + q;
      assert pq[..|pq| - 1] == p + q[..|q| - 1];
      assert pq[|pq| - 1] == q[|q| - 1];
      ConcatAppend(p, q[..|q| - 1]);
    }
  }

  lemma ConcatSingle(p: seq<bv8>)
    ensures Concat([p]) == p
  {
    assert [p][..0] == [];
  }

  /** `n` pieces of `g` bytes are `g·n` bytes. */
  lemma {:induction false} ConcatLength(ps: seq<seq<bv8>>, g: nat)
    requires Uniform(ps, g)
    ensures |Concat(ps)| == g * |ps|
    decreases |ps|
  {
    if ps != [] {
      var init := ps[..|ps| - 1];
      assert Uniform(init, g) by {
        forall j | 0 <= j < |init| ensures |init[j]| == g {
          assert init[j] == ps[j];
        }
      }
      ConcatLength(init, g);
      Distrib(g, |init|, 1);
    }
  }

  /** The pieces before piece `i`, and piece `i` itself, lie within the whole. */
  lemma ConcatRoom(ps: seq<seq<bv8>>, i: nat)
    requires i < |ps|
    ensures |Concat(ps[..i])| + |ps[i]| <= |Concat(ps)|
  {
    ConcatStep(ps, i);
    ConcatAppend(ps[..i + 1], ps[i + 1..]);
    assert ps[..i + 1] + ps[i + 1..] == ps;
  }

  /** Byte `q` of piece `j` follows the pieces before it. */
  lemma ConcatAt(ps: seq<seq<bv8>>, j: nat, q: nat)
    requires j < |ps| && q < |ps[j]|
    ensures |Concat(ps[..j])| + q < |Concat(ps)|
    ensures Concat(ps)[|Concat(ps[..j])| + q] == ps[j][q]
  {
    ConcatStep(ps, j);
    ConcatAppend(ps[..j + 1], ps[j + 1..]);
    assert ps[..j + 1] + ps[j + 1..] == ps;
  }

  /** With pieces of `g` bytes, byte `q` of piece `j` is byte `g·j + q` of the whole. */
  lemma ConcatUniformAt(ps: seq<seq<bv8>>, g: nat, j: nat, q: nat)
    requires Uniform(ps, g) && j < |ps| && q < g
    ensures g * j + q < |Concat(ps)|
    ensures Concat(ps)[g * j + q] == ps[j][q]
  {
    assert Uniform(ps[..j], g) by {
      forall i | 0 <= i < j ensures |ps[..j][i]| == g {
        assert ps[..j][i] == ps[i];
      }
    }
    ConcatLength(ps[..j], g);
    ConcatAt(ps, j, q);
  }

  // ---------------------------------------------------------------- arithmetic

  lemma Distrib(g: nat, a: nat, b: nat)
    ensures g * (a + b) == g * a + g * b
  {
  }

  /** Slot `j` of `n` slots of `g` bytes, and a byte `q < g` into it, lie within the `n` slots. */
  lemma SlotFits(g: nat, j: nat, n: nat, q: nat)
    requires j < n && q < g
    ensures g * j + q < g * n
  {
    assert n == (j + 1) + (n - j - 1);
    Distrib(g, j + 1, n - j - 1);
    Distrib(g, j, 1);
    Arithmetic.MulNonneg(g, n - j - 1);
  }

  // ---------------------------------------------------------------- sizes and pixel layout

  lemma RunLength(on: bool, sh: Shade, s: nat, r: nat)
    ensures |Run(on, sh, s, r)| == 3 * s
  {
    ConcatLength(Pixels(on, sh, s, r), 3);
  }

  lemma LineLength(b: bv8, xorMask: bv8, sh: Shade, s: nat, r: nat)
    ensures Uniform(Runs(b, xorMask, sh, s, r), 3 * s)
    ensures |Line(b, xorMask, sh, s, r)| == 24 * s
  {
    forall k | 0 <= k < 8 ensures |Runs(b, xorMask, sh, s, r)[k]| == 3 * s {
      RunLength(Lit(b, xorMask, k), sh, s, r);
    }
    ConcatLength(Runs(b, xorMask, sh, s, r), 3 * s);
  }

  lemma BlockLength(b: bv8, xorMask: bv8, sh: Shade, s: nat)
    ensures Uniform(Lines(b, xorMask, sh, s), 24 * s)
    ensures |Block(b, xorMask, sh, s)| == 24 * s * s
  {
    forall r | 0 <= r < s ensures |Lines(b, xorMask, sh, s)[r]| == 24 * s {
      LineLength(b, xorMask, sh, s, r);
    }
    ConcatLength(Lines(b, xorMask, sh, s), 24 * s);
  }

  lemma RenderedLength(bs: seq<bv8>, xorMask: bv8, sh: Shade, s: nat)
    ensures Uniform(Blocks(bs, xorMask, sh, s), 24 * s * s)
    ensures |Rendered(bs, xorMask, sh, s)| == 24 * s * s * |bs|
  {
    forall j | 0 <= j < |bs| ensures |Blocks(bs, xorMask, sh, s)[j]| == 24 * s * s {
      BlockLength(bs[j], xorMask, sh, s);
    }
    ConcatLength(Blocks(bs, xorMask, sh, s), 24 * s * s);
  }

  /** Rendering is one block per byte: the bytes of two bitmaps, one after the other. */
  lemma RenderedAppend(a: seq<bv8>, b: seq<bv8>, xorMask: bv8, sh: Shade, s: nat)
    ensures Rendered(a + b, xorMask, sh, s) == Rendered(a, xorMask, sh, s) + Rendered(b, xorMask, sh, s)
  {
    assert Blocks(a + b, xorMask, sh, s) == Blocks(a, xorMask, sh, s) + Blocks(b, xorMask, sh, s);
    ConcatAppend(Blocks(a, xorMask, sh, s), Blocks(b, xorMask, sh, s));
  }

  /** Byte `t` of sub-pixel `c` of a run. */
  lemma RunAt(on: bool, sh: Shade, s: nat, r: nat, c: nat, t: nat)
    requires c < s && t < 3
    ensures 3 * c + t < |Run(on, sh, s, r)|
    ensures Run(on, sh, s, r)[3 * c + t] == Rgb(ColorOf(sh, s, on, r, c))[t]
  {
    ConcatUniformAt(Pixels(on, sh, s, r), 3, c, t);
  }

  /** Where sub-pixel `c` of bit `k` starts in a line at scale `s`. */
  function LineOffset(s: nat, k: nat, c: nat): nat {
    3 * s * k + 3 * c
  }

  /** Where sub-pixel `c` of bit `k` on sub-row `r` starts in a block at scale `s`. */
  function BlockOffset(s: nat, r: nat, k: nat, c: nat): nat {
    24 * s * r + LineOffset(s, k, c)
  }

  /** Byte `t` of sub-pixel `c` of bit `k` of a line. */
  lemma LineAt(b: bv8, xorMask: bv8, sh: Shade, s: nat, r: nat, k: nat, c: nat, t: nat)
    requires k < 8 && c < s && t < 3
    ensures LineOffset(s, k, c) + t < |Line(b, xorMask, sh, s, r)|
    ensures Line(b, xorMask, sh, s, r)[LineOffset(s, k, c) + t] == Rgb(ColorOf(sh, s, Lit(b, xorMask, k), r, c))[t]
  {
    RunAt(Lit(b, xorMask, k), sh, s, r, c, t);
    RunLength(Lit(b, xorMask, k), sh, s, r);
    LineLength(b, xorMask, sh, s, r);
    ConcatUniformAt(Runs(b, xorMask, sh, s, r), 3 * s, k, 3 * c + t);
  }

  /** Byte `t` of sub-pixel `c` of bit `k` on sub-row `r` of a block. */
  lemma BlockAt(b: bv8, xorMask: bv8, sh: Shade, s: nat, r: nat, k: nat, c: nat, t: nat)
    requires r < s && k < 8 && c < s && t < 3
    ensures BlockOffset(s, r, k, c) + t < |Block(b, xorMask, sh, s)|
    ensures Block(b, xorMask, sh, s)[BlockOffset(s, r, k, c) + t] == Rgb(ColorOf(sh, s, Lit(b, xorMask, k), r, c))[t]
  {
    LineAt(b, xorMask, sh, s, r, k, c, t);
    SlotFits(3 * s, k, 8, 3 * c + t);
    BlockLength(b, xorMask, sh, s);
    ConcatUniformAt(Lines(b, xorMask, sh, s), 24 * s, r, LineOffset(s, k, c) + t);
  }

  /** The byte offset of bitmap byte `j`, sub-row `r`, bit `k`, sub-pixel `c` at scale `s`. */
  function PixelOffset(s: nat, j: nat, r: nat, k: nat, c: nat): nat {
    24 * s * s * j + BlockOffset(s, r, k, c)
  }

  /**
   * The pixel layout of a rendered bitmap: the pixel of byte `j`, sub-row
   * `r`, bit `k` (from the most significant) and sub-pixel `c` starts at
   * byte `24·s²·j + 24·s·r + 3·s·k + 3·c`, and its three bytes are the red,
   * green and blue of its colour.
   */
  lemma RenderedPixel(bs: seq<bv8>, xorMask: bv8, sh: Shade, s: nat, j: nat, r: nat, k: nat, c: nat, t: nat)
    requires j < |bs| && r < s && k < 8 && c < s && t < 3
    ensures PixelOffset(s, j, r, k, c) + t < |Rendered(bs, xorMask, sh, s)|
    ensures Rendered(bs, xorMask, sh, s)[PixelOffset(s, j, r, k, c) + t] == Rgb(ColorOf(sh, s, Lit(bs[j], xorMask, k), r, c))[t]
  {
    BlockAt(bs[j], xorMask, sh, s, r, k, c, t);
    SlotFits(24 * s, r, s, LineOffset(s, k, c) + t);
    RenderedLength(bs, xorMask, sh, s);
    ConcatUniformAt(Blocks(bs, xorMask, sh, s), 24 * s * s, j, BlockOffset(s, r, k, c) + t);
  }

  // ---------------------------------------------------------------- writes

  /**
   * `now` is `before` with `part` written over it from `start`: the bytes
   * of `part` there, and every other byte as it was.
   */
  predicate Overwritten(now: seq<bv8>, before: seq<bv8>, start: nat, part: seq<bv8>) {
    && |now| == |before|
    && start + |part| <= |before|
    && (forall i :: 0 <= i < |part| ==> now[start + i] == part[i])
    && (forall i :: 0 <= i < |now| && !(start <= i < start + |part|) ==> now[i] == before[i])
  }

  /** Writing `p` and then `q` right after it is writing `p + q`. */
  lemma OverwrittenExtend(base: seq<bv8>, mid: seq<bv8>, now: seq<bv8>, start: nat, p: seq<bv8>, q: seq<bv8>)
    requires Overwritten(mid, base, start, p) && Overwritten(now, mid, start + |p|, q)
    ensures Overwritten(now, base, start, p + q)
  {
    forall i | 0 <= i < |p + q|
      ensures now[start + i] == (p + q)[i]
    {
      if i < |p| {
        assert now[start + i] == mid[start + i];
      } else {
        assert now[(start + |p|) + (i - |p|)] == q[i - |p|];
      }
    }
  }

  /** Writing piece `i` right after pieces `0` to `i - 1` have been written writes pieces `0` to `i`. */
  lemma PieceWritten(base: seq<bv8>, mid: seq<bv8>, now: seq<bv8>, start: nat, ps: seq<seq<bv8>>, i: nat)
    requires i < |ps|
    requires Overwritten(mid, base, start, Concat(ps[..i]))
    requires Overwritten(now, mid, start + |Concat(ps[..i])|, ps[i])
    ensures Overwritten(now, base, start, Concat(ps[..i + 1]))
    ensures |Concat(ps[..i + 1])| == |Concat(ps[..i])| + |ps[i]|
  {
    ConcatStep(ps, i);
    OverwrittenExtend(base, mid, now, start, Concat(ps[..i]), ps[i]);
  }

  /** Writing over the whole of `before` leaves just what was written. */
  lemma OverwrittenWhole(now: seq<bv8>, before: seq<bv8>, part: seq<bv8>)
    requires Overwritten(now, before, 0, part) && |part| == |before|
    ensures now == part
  {
    forall i | 0 <= i < |now|
      ensures now[i] == part[i]
    {
      assert now[0 + i] == part[i];
    }
  }

  // ---------------------------------------------------------------- writers

  /** Three byte stores: the red, green and blue bytes of `color` at `off`. */
  method PutPixel(pixels: array<bv8>, off: nat, color: bv32)
    requires off + 3 <= pixels.Length
    modifies pixels
    ensures Overwritten(pixels[..], old(pixels[..]), off, Rgb(color))
  {
    pixels[off] := Red(color);
    pixels[off + 1] := Green(color);
    pixels[off + 2] := Blue(color);
  }

  /** The innermost `for c in 0..scale` loop: the `s` sub-pixels of the bit under `mask` on sub-row `r`. */
  method WriteRun(pixels: array<bv8>, off: nat, b: bv8, xorMask: bv8, mask: bv8, sh: Shade, s: nat, r: nat)
    requires off + 3 * s <= pixels.Length
    modifies pixels
    ensures Overwritten(pixels[..], old(pixels[..]), off, Run((b ^ xorMask) & mask != 0, sh, s, r))
  {
    ghost var pieces := Pixels((b ^ xorMask) & mask != 0, sh, s, r);
    RunLength((b ^ xorMask) & mask != 0, sh, s, r);
    var c: nat := 0;
    var offset := off;
    ghost var done: seq<bv8> := [];
    while c < s
      invariant c <= s && done == Concat(pieces[..c])
      invariant Overwritten(pixels[..], old(pixels[..]), off, done)
      invariant offset == off + |done|
    {
      var color := ColorOf(sh, s, (b ^ xorMask) & mask != 0, r, c);
      ConcatRoom(pieces, c);
      ConcatStep(pieces, c);
      ghost var mid := pixels[..];
      PutPixel(pixels, offset, color);
      OverwrittenExtend(old(pixels[..]), mid, pixels[..], off, done, Rgb(color));
      done := done + Rgb(color);
      offset := offset + 3;
      c := c + 1;
    }
    assert pieces[..c] == pieces;
  }

  /** The run of bit `k` is the run the loop's own mask test selects. */
  lemma RunOfMask(b: bv8, xorMask: bv8, mask: bv8, sh: Shade, s: nat, r: nat, k: nat)
    requires k < 8 && mask == Mask(k)
    ensures Runs(b, xorMask, sh, s, r)[k] == Run((b ^ xorMask) & mask != 0, sh, s, r)
  {
  }

  /** The `while mask != 0` loop: sub-row `r` of a byte's block, bit by bit. */
  method WriteLine(pixels: array<bv8>, off: nat, b: bv8, xorMask: bv8, sh: Shade, s: nat, r: nat)
    requires r < s && off + 24 * s <= pixels.Length
    modifies pixels
    ensures Overwritten(pixels[..], old(pixels[..]), off, Lines(b, xorMask, sh, s)[r])
  {
    ghost var pieces := Runs(b, xorMask, sh, s, r);
    LineLength(b, xorMask, sh, s, r);
    var mask: bv8 := 0x80;
    ghost var k: nat := 0;
    var offset := off;
    while mask != 0
      invariant k <= 8 && mask == Mask(k)
      invariant Overwritten(pixels[..], old(pixels[..]), off, Concat(pieces[..k]))
      invariant offset == off + |Concat(pieces[..k])|
      decreases 8 - k
    {
      MaskStep(k);
      ConcatRoom(pieces, k);
      RunOfMask(b, xorMask, mask, sh, s, r, k);
      ghost var mid := pixels[..];
      WriteRun(pixels, offset, b, xorMask, mask, sh, s, r);
      PieceWritten(old(pixels[..]), mid, pixels[..], off, pieces, k);
      offset := offset + 3 * s;
      mask := mask >> 1;
      k := k + 1;
    }
    MaskStep(k);
    assert pieces[..k] == pieces;
  }

  /** The `for r in 0..scale` loop: the whole block of one bitmap byte. */
  method WriteBlock(pixels: array<bv8>, off: nat, b: bv8, xorMask: bv8, sh: Shade, s: nat)
    requires off + 24 * s * s <= pixels.Length
    modifies pixels
    ensures Overwritten(pixels[..], old(pixels[..]), off, Block(b, xorMask, sh, s))
  {
    ghost var pieces := Lines(b, xorMask, sh, s);
    BlockLength(b, xorMask, sh, s);
    var r: nat := 0;
    var offset := off;
    while r < s
      invariant r <= s
      invariant Overwritten(pixels[..], old(pixels[..]), off, Concat(pieces[..r]))
      invariant offset == off + |Concat(pieces[..r])|
    {
      ConcatRoom(pieces, r);
      ghost var mid := pixels[..];
      WriteLine(pixels, offset, b, xorMask, sh, s, r);
      PieceWritten(old(pixels[..]), mid, pixels[..], off, pieces, r);
      offset := offset + 24 * s;
      r := r + 1;
    }
    assert pieces[..r] == pieces;
  }

  /**
   * `set_pixels_2x2`, `set_pixels_3x3` and `set_pixels_4x4`, one method
   * for every scale: each bitmap byte's block, in order, from `offset`.
   */
  method SetPixelsScaled(pixels: array<bv8>, bitmap: seq<bv8>, offset: nat, sh: Shade, xorMask: bv8, s: nat)
    requires offset + 24 * s * s * |bitmap| <= pixels.Length
    modifies pixels
    ensures Overwritten(pixels[..], old(pixels[..]), offset, Rendered(bitmap, xorMask, sh, s))
  {
    ghost var pieces := Blocks(bitmap, xorMask, sh, s);
    RenderedLength(bitmap, xorMask, sh, s);
    var i: nat := 0;
    var off := offset;
    while i < |bitmap|
      invariant i <= |bitmap|
      invariant Overwritten(pixels[..], old(pixels[..]), offset, Concat(pieces[..i]))
      invariant off == offset + |Concat(pieces[..i])|
    {
      ConcatRoom(pieces, i);
      ghost var mid := pixels[..];
      WriteBlock(pixels, off, bitmap[i], xorMask, sh, s);
      PieceWritten(old(pixels[..]), mid, pixels[..], offset, pieces, i);
      off := off + 24 * s * s;
      i := i + 1;
    }
    assert pieces[..i] == pieces;
  }

  /** At 1×1 a bit's run is its single pixel: the foreground when lit, the background otherwise. */
  lemma Run1x1(on: bool, sh: Shade)
    ensures Run(on, sh, 1, 0) == Rgb(if on then sh.lit else sh.unlit)
  {
    assert Pixels(on, sh, 1, 0) == [Rgb(if on then sh.lit else sh.unlit)];
    ConcatSingle(Rgb(if on then sh.lit else sh.unlit));
  }

  /** At 1×1 a byte's block is its single line. */
  lemma Block1x1(b: bv8, xorMask: bv8, sh: Shade)
    ensures Block(b, xorMask, sh, 1) == Line(b, xorMask, sh, 1, 0)
  {
    assert Lines(b, xorMask, sh, 1) == [Line(b, xorMask, sh, 1, 0)];
    ConcatSingle(Line(b, xorMask, sh, 1, 0));
  }

  /** `set_pixels_1x1`: one pixel per bit, foreground when lit and background otherwise. */
  method SetPixels1x1(pixels: array<bv8>, bitmap: seq<bv8>, offset: nat, sh: Shade, xorMask: bv8)
    requires offset + 24 * |bitmap| <= pixels.Length
    modifies pixels
    ensures Overwritten(pixels[..], old(pixels[..]), offset, Rendered(bitmap, xorMask, sh, 1))
  {
    ghost var pieces := Blocks(bitmap, xorMask, sh, 1);
    RenderedLength(bitmap, xorMask, sh, 1);
    var i: nat := 0;
    var off := offset;
    while i < |bitmap|
      invariant i <= |bitmap|
      invariant Overwritten(pixels[..], old(pixels[..]), offset, Concat(pieces[..i]))
      invariant off == offset + |Concat(pieces[..i])|
    {
      ConcatRoom(pieces, i);
      ghost var mid := pixels[..];
      WriteByte1x1(pixels, off, bitmap[i], sh, xorMask);
      PieceWritten(old(pixels[..]), mid, pixels[..], offset, pieces, i);
      off := off + 24;
      i := i + 1;
    }
    assert pieces[..i] == pieces;
  }

  /** One bit at 1×1: the lit or unlit colour, as three bytes, chosen by the loop's mask test. */
  method PutBit(pixels: array<bv8>, off: nat, byte: bv8, xorMask: bv8, mask: bv8, sh: Shade, ghost k: nat)
    requires k < 8 && mask == Mask(k) && off + 3 <= pixels.Length
    modifies pixels
    ensures Overwritten(pixels[..], old(pixels[..]), off, Runs(byte, xorMask, sh, 1, 0)[k])
  {
    var color := if (byte ^ xorMask) & mask != 0 then sh.lit else sh.unlit;
    RunOfMask(byte, xorMask, mask, sh, 1, 0, k);
    Run1x1((byte ^ xorMask) & mask != 0, sh);
    PutPixel(pixels, off, color);
  }

  /** The mask loop of `set_pixels_1x1` for one bitmap byte: eight pixels. */
  method WriteByte1x1(pixels: array<bv8>, off: nat, byte: bv8, sh: Shade, xorMask: bv8)
    requires off + 24 <= pixels.Length
    modifies pixels
    ensures Overwritten(pixels[..], old(pixels[..]), off, Block(byte, xorMask, sh, 1))
  {
    ghost var pieces := Runs(byte, xorMask, sh, 1, 0);
    LineLength(byte, xorMask, sh, 1, 0);
    var offset := off;
    var mask: bv8 := 0x80;
    ghost var k: nat := 0;
    while mask != 0
      invariant k <= 8 && mask == Mask(k)
      invariant Overwritten(pixels[..], old(pixels[..]), off, Concat(pieces[..k]))
      invariant offset == off + |Concat(pieces[..k])| == off + 3 * k
      decreases 8 - k
    {
      MaskStep(k);
      ghost var mid := pixels[..];
      PutBit(pixels, offset, byte, xorMask, mask, sh, k);
      PieceWritten(old(pixels[..]), mid, pixels[..], off, pieces, k);
      offset := offset + 3;
      mask := mask >> 1;
      k := k + 1;
    }
    MaskStep(k);
    assert pieces[..k] == pieces;
    Block1x1(byte, xorMask, sh);
  }

  // ---------------------------------------------------------------- set_pixels

  /** The bytes of one glyph's texture at scale `s`: three per pixel, `8·s` by `12·s` pixels. */
  function GlyphBytes(s: nat): nat {
    BYTES_PER_PIXEL * (CHAR_CELL_WIDTH * s) * (CHAR_CELL_HEIGHT * s)
  }

  /** A font texture: room for all 256 glyphs. */
  function TextureBytes(s: nat): nat {
    FONT_SIZE * GlyphBytes(s)
  }

  /** A glyph's twelve bitmap bytes become one glyph's worth of texture bytes. */
  lemma GlyphIsTwelveBlocks(s: nat)
    ensures GlyphBytes(s) == 24 * s * s * CHAR_CELL_HEIGHT
  {
  }

  /** Where glyph slot `first` begins when each glyph takes `g` bytes: after `first` glyphs. */
  function Slot(first: nat, g: nat): nat {
    if first == 0 then 0 else Slot(first - 1, g) + g
  }

  lemma {:induction false} SlotIsProduct(first: nat, g: nat)
    ensures Slot(first, g) == first * g
  {
    if first > 0 {
      SlotIsProduct(first - 1, g);
      Distrib(g, first - 1, 1);
    }
  }

  /**
   * Glyphs `first` to `first + n - 1`, drawn from `b == 12·n` bitmap bytes,
   * start at glyph `first`'s slot and end inside the texture.
   */
  lemma GlyphsFit(first: nat, n: nat, b: nat, s: nat)
    requires b == CHAR_CELL_HEIGHT * n && first + n <= FONT_SIZE
    ensures Slot(first, GlyphBytes(s)) + 24 * s * s * b == Slot(first + n, GlyphBytes(s))
    ensures Slot(first + n, GlyphBytes(s)) <= TextureBytes(s)
  {
    var g := GlyphBytes(s);
    SlotIsProduct(first, g);
    SlotIsProduct(first + n, g);
    GlyphIsTwelveBlocks(s);
    SlotsShift(g, 24 * s * s, first, n, b);
    SlotsWithin(g, first + n, FONT_SIZE);
  }

  /** No more than `total` slots of `g` bytes fit in `total · g` bytes. */
  lemma SlotsWithin(g: nat, j: nat, total: nat)
    requires j <= total
    ensures j * g <= total * g
  {
    Arithmetic.MulNonneg(g, total - j);
    Distrib(g, j, total - j);
  }

  /** The foreground `set_pixels` draws with: the colour, dimmed under `ATTR_DIM`. */
  function Foreground(attrs: bv8, color: bv32): bv32 {
    if attrs & Buffers.ATTR_DIM == 0 then color else Dim(color)
  }

  /** The byte mask `set_pixels` applies: every bit flipped under `ATTR_REVERSE`. */
  function XorMask(attrs: bv8): bv8 {
    if attrs & Buffers.ATTR_REVERSE == 0 then 0 else 0xff
  }

  /** Reverse video lights exactly the bits that are clear in the bitmap. */
  lemma ReverseFlips(b: bv8, k: nat)
    requires k < 8
    ensures Lit(b, 0xff, k) <==> !Lit(b, 0, k)
  {
  }

  /**
   * `set_pixels`: the glyphs of `bitmap`, twelve bytes each, drawn into
   * slots `first` onwards of a font texture at scales 1 to 4 with the
   * attribute's foreground and mask; any other scale draws nothing. A
   * bitmap that is not whole glyphs, a texture of the wrong size, or glyphs
   * running past slot 255 make the source panic.
   */
  method SetPixels(pixels: array<bv8>, bitmap: seq<bv8>, first: nat, attrs: bv8, scale: nat, color: bv32)
    requires |bitmap| % CHAR_CELL_HEIGHT == 0
    requires pixels.Length == TextureBytes(scale)
    requires 1 <= scale <= 4 ==> first + |bitmap| / CHAR_CELL_HEIGHT <= FONT_SIZE
    modifies pixels
    ensures 1 <= scale <= 4 ==>
      Overwritten(pixels[..], old(pixels[..]), Slot(first, GlyphBytes(scale)),
                  Rendered(bitmap, XorMask(attrs), TextureShade(Foreground(attrs, color)), scale))
    ensures !(1 <= scale <= 4) ==> pixels[..] == old(pixels[..])
  {
    var offset := first * GlyphBytes(scale);
    var fg := if attrs & Buffers.ATTR_DIM == 0 then color else Dim(color);
    var xorMask: bv8 := if attrs & Buffers.ATTR_REVERSE == 0 then 0 else 0xff;
    if 1 <= scale <= 4 {
      GlyphsFit(first, |bitmap| / CHAR_CELL_HEIGHT, |bitmap|, scale);
      SlotIsProduct(first, GlyphBytes(scale));
    }
    if scale == 1 {
      SetPixels1x1(pixels, bitmap, offset, TextureShade(fg), xorMask);
    } else if scale == 2 || scale == 3 || scale == 4 {
      SetPixelsScaled(pixels, bitmap, offset, TextureShade(fg), xorMask, scale);
    }
  }

  /**
   * At 1×1, pixel `k` of bitmap byte `j` is the three bytes from
   * `24·j + 3·k`: the lit colour when bit `k` (from the most significant)
   * of the masked byte is set and the unlit colour otherwise; for
   * `set_pixels` these are the foreground and the CRT background.
   */
  lemma Pixel1x1(bs: seq<bv8>, xorMask: bv8, sh: Shade, j: nat, k: nat, t: nat)
    requires j < |bs| && k < 8 && t < 3
    ensures 24 * j + 3 * k + t < |Rendered(bs, xorMask, sh, 1)|
    ensures Rendered(bs, xorMask, sh, 1)[24 * j + 3 * k + t]
         == Rgb(if (bs[j] ^ xorMask) & Mask(k) != 0 then sh.lit else sh.unlit)[t]
  {
    RenderedPixel(bs, xorMask, sh, 1, j, 0, k, 0, t);
    assert PixelOffset(1, j, 0, k, 0) == 24 * j + 3 * k;
    assert ColorOf(sh, 1, Lit(bs[j], xorMask, k), 0, 0) == if (bs[j] ^ xorMask) & Mask(k) != 0 then sh.lit else sh.unlit;
  }

  /** `set_pixels_2x2`: a set bit's bottom-right sub-pixel is halfway to the background. */
  lemma Shade2x2(fg: bv32, on: bool, r: nat, c: nat)
    requires r < 2 && c < 2
    ensures ColorOf(TextureShade(fg), 2, on, r, c)
         == if on then (if c == 1 && r == 1 then Between(fg, CRT_BACKGROUND) else fg) else CRT_BACKGROUND
  {
  }

  /** `set_pixels_3x3`: a set bit is the foreground on its first two rows and columns. */
  lemma Shade3x3(fg: bv32, on: bool, r: nat, c: nat)
    requires r < 3 && c < 3
    ensures ColorOf(TextureShade(fg), 3, on, r, c)
         == if on then (if r < 2 && c < 2 then fg else Between(fg, CRT_BACKGROUND)) else CRT_BACKGROUND
  {
  }

  /** `set_pixels_4x4`: a set bit is the foreground on its first three rows and columns. */
  lemma Shade4x4(fg: bv32, on: bool, r: nat, c: nat)
    requires r < 4 && c < 4
    ensures ColorOf(TextureShade(fg), 4, on, r, c)
         == if on then (if r < 3 && c < 3 then fg else Between(fg, CRT_BACKGROUND)) else CRT_BACKGROUND
  {
  }

  // ---------------------------------------------------------------- set_pixels_wide

  /** `(word >> 8) as u8`: the left half of a 16-pixel row. */
  function High(w: bv16): bv8 {
    (w >> 8) as bv8
  }

  /** `(word & 0xff) as u8`: the right half of a 16-pixel row. */
  function Low(w: bv16): bv8 {
    (w & 0xff) as bv8
  }

  /** The two halves give back the row. */
  lemma HighLow(w: bv16)
    ensures ((High(w) as bv16) << 8) | (Low(w) as bv16) == w
  {
  }

  /**
   * The four glyphs of a 16×24 character: the left and then the right
   * halves of rows 0 to 11, then the left and the right halves of rows 12
   * to 23.
   */
  function WideGlyphs(ws: seq<bv16>): seq<bv8>
    requires |ws| >= 2 * CHAR_CELL_HEIGHT
  {
    seq(12, i requires 0 <= i < 12 => High(ws[i])) + seq(12, i requires 0 <= i < 12 => Low(ws[i]))
    + seq(12, i requires 0 <= i < 12 => High(ws[12 + i])) + seq(12, i requires 0 <= i < 12 => Low(ws[12 + i]))
  }

  /** Row `i` of glyph `q` of a wide character. */
  lemma WideGlyphsAt(ws: seq<bv16>, q: nat, i: nat)
    requires |ws| >= 2 * CHAR_CELL_HEIGHT && q < 4 && i < 12
    ensures |WideGlyphs(ws)| == 4 * CHAR_CELL_HEIGHT
    ensures WideGlyphs(ws)[12 * q + i]
         == if q % 2 == 0 then High(ws[12 * (q / 2) + i]) else Low(ws[12 * (q / 2) + i])
  {
  }

  /** The four loops that fill `bitmap2` from the first 24 words of the wide bitmap. */
  method SplitWide(bitmap: seq<bv16>) returns (bitmap2: seq<bv8>)
    requires |bitmap| >= 2 * CHAR_CELL_HEIGHT
    ensures bitmap2 == WideGlyphs(bitmap)
  {
    ghost var want := WideGlyphs(bitmap);
    var b := new bv8[4 * CHAR_CELL_HEIGHT](_ => 0);
    var offset := 0;
    var i := 0;
    while i < CHAR_CELL_HEIGHT
      invariant i <= 12 && offset == i
      invariant forall j :: 0 <= j < offset ==> b[j] == want[j]
    {
      b[offset] := High(bitmap[i]);
      offset := offset + 1;
      i := i + 1;
    }
    i := 0;
    while i < CHAR_CELL_HEIGHT
      invariant i <= 12 && offset == 12 + i
      invariant forall j :: 0 <= j < offset ==> b[j] == want[j]
    {
      b[offset] := Low(bitmap[i]);
      offset := offset + 1;
      i := i + 1;
    }
    i := CHAR_CELL_HEIGHT;
    while i < 2 * CHAR_CELL_HEIGHT
      invariant 12 <= i <= 24 && offset == 12 + i
      invariant forall j :: 0 <= j < offset ==> b[j] == want[j]
    {
      b[offset] := High(bitmap[i]);
      offset := offset + 1;
      i := i + 1;
    }
    i := CHAR_CELL_HEIGHT;
    while i < 2 * CHAR_CELL_HEIGHT
      invariant 12 <= i <= 24 && offset == 24 + i
      invariant forall j :: 0 <= j < offset ==> b[j] == want[j]
    {
      b[offset] := Low(bitmap[i]);
      offset := offset + 1;
      i := i + 1;
    }
    bitmap2 := b[..];
  }

  /** The 48 narrow bitmap bytes of each 16×24 character of a wide bitmap, in order. */
  function WideChars(ws: seq<bv16>): seq<seq<bv8>> {
    seq(|ws| / (2 * CHAR_CELL_HEIGHT), g requires 0 <= g < |ws| / (2 * CHAR_CELL_HEIGHT) => WideGlyphs(ws[2 * CHAR_CELL_HEIGHT * g..]))
  }

  /** A wide bitmap as the narrow glyphs `set_pixels_wide` hands on, four per 24 words. */
  function WideBitmap(ws: seq<bv16>): seq<bv8> {
    Concat(WideChars(ws))
  }

  /** Every 24 words become 48 bytes: two bytes per word. */
  lemma WideBitmapLength(ws: seq<bv16>)
    requires |ws| % (2 * CHAR_CELL_HEIGHT) == 0
    ensures |WideBitmap(ws)| == 2 * |ws|
  {
    var chars := WideChars(ws);
    var n := |ws| / (2 * CHAR_CELL_HEIGHT);
    assert Uniform(chars, 4 * CHAR_CELL_HEIGHT) by {
      forall g | 0 <= g < |chars| ensures |chars[g]| == 48 {
        assert |WideGlyphs(ws[24 * g..])| == 48;
      }
    }
    ConcatLength(chars, 4 * CHAR_CELL_HEIGHT);
    assert |ws| == 24 * n;
  }

  /** After `m` characters the drawing has moved on by `4·m` glyph slots. */
  lemma WideOffset(first: nat, m: nat, d: nat, s: nat)
    requires d == 4 * CHAR_CELL_HEIGHT * m
    ensures Slot(first, GlyphBytes(s)) + 24 * s * s * d == Slot(first + 4 * m, GlyphBytes(s))
  {
    var g := GlyphBytes(s);
    SlotIsProduct(first, g);
    SlotIsProduct(first + 4 * m, g);
    GlyphIsTwelveBlocks(s);
    SlotsShift(g, 24 * s * s, first, 4 * m, d);
  }

  /** Moving `n` slots on covers `block · 12n` bytes when a slot is twelve blocks. */
  lemma SlotsShift(g: nat, block: nat, first: nat, n: nat, b: nat)
    requires g == block * CHAR_CELL_HEIGHT && b == CHAR_CELL_HEIGHT * n
    ensures first * g + block * b == (first + n) * g
  {
    assert block * b == g * n;
    Distrib(g, first, n);
  }

  /** Drawing the `m + 1`-th character's glyphs after the first `m` extends what has been drawn. */
  lemma WideStep(base: seq<bv8>, mid: seq<bv8>, now: seq<bv8>, first: nat, glyph: nat, m: nat, done: seq<bv8>, glyphs: seq<bv8>, x: bv8, sh: Shade, s: nat)
    requires |done| == 4 * CHAR_CELL_HEIGHT * m && glyph == first + 4 * m
    requires Overwritten(mid, base, Slot(first, GlyphBytes(s)), Rendered(done, x, sh, s))
    requires Overwritten(now, mid, Slot(glyph, GlyphBytes(s)), Rendered(glyphs, x, sh, s))
    ensures Overwritten(now, base, Slot(first, GlyphBytes(s)), Rendered(done + glyphs, x, sh, s))
  {
    var start, p, q := Slot(first, GlyphBytes(s)), Rendered(done, x, sh, s), Rendered(glyphs, x, sh, s);
    assert Slot(glyph, GlyphBytes(s)) == start + |p| by {
      RenderedLength(done, x, sh, s);
      WideOffset(first, m, |done|, s);
    }
    OverwrittenExtend(base, mid, now, start, p, q);
    RenderedAppend(done, glyphs, x, sh, s);
  }

  /**
   * `set_pixels_wide`: each 24 words of `bitmap` is one 16×24 character,
   * drawn as four glyphs in slots `first` to `first + 3`, and the next
   * character goes four slots on.
   */
  method SetPixelsWide(pixels: array<bv8>, bitmap: seq<bv16>, first: nat, attrs: bv8, scale: nat, color: bv32)
    requires |bitmap| % (2 * CHAR_CELL_HEIGHT) == 0
    requires pixels.Length == TextureBytes(scale)
    requires 1 <= scale <= 4 ==> first + 4 * (|bitmap| / (2 * CHAR_CELL_HEIGHT)) <= FONT_SIZE
    modifies pixels
    ensures 1 <= scale <= 4 ==>
      Overwritten(pixels[..], old(pixels[..]), Slot(first, GlyphBytes(scale)),
                  Rendered(WideBitmap(bitmap), XorMask(attrs), TextureShade(Foreground(attrs, color)), scale))
    ensures !(1 <= scale <= 4) ==> pixels[..] == old(pixels[..])
  {
    ghost var sh := TextureShade(Foreground(attrs, color));
    ghost var x := XorMask(attrs);
    ghost var chars := WideChars(bitmap);
    ghost var m: nat := 0;
    ghost var done: seq<bv8> := [];
    var rest := bitmap;
    var glyph := first;
    if 1 <= scale <= 4 {
      GlyphsFit(first, 0, 0, scale);
    }
    ghost var n := |chars|;
    assert |bitmap| == 24 * n;
    assert 1 <= scale <= 4 ==> first + 4 * n <= FONT_SIZE;
    while rest != []
      invariant m <= n && |rest| == 24 * (n - m) && rest == bitmap[2 * CHAR_CELL_HEIGHT * m..]
      invariant glyph == first + 4 * m && done == Concat(chars[..m]) && |done| == 48 * m
      invariant 1 <= scale <= 4 ==> Overwritten(pixels[..], old(pixels[..]), Slot(first, GlyphBytes(scale)), Rendered(done, x, sh, scale))
      invariant !(1 <= scale <= 4) ==> pixels[..] == old(pixels[..])
      decreases |rest|
    {
      var bitmap2 := SplitWide(rest);
      ConcatStep(chars, m);
      ghost var mid := pixels[..];
      assert |bitmap2| / CHAR_CELL_HEIGHT == 4;
      SetPixels(pixels, bitmap2, glyph, attrs, scale, color);
      if 1 <= scale <= 4 {
        WideStep(old(pixels[..]), mid, pixels[..], first, glyph, m, done, bitmap2, x, sh, scale);
      }
      done := done + bitmap2;
      assert rest[2 * CHAR_CELL_HEIGHT..] == bitmap[2 * CHAR_CELL_HEIGHT * (m + 1)..];
      rest := rest[2 * CHAR_CELL_HEIGHT..];
      glyph := glyph + 4;
      m := m + 1;
    }
    assert chars[..m] == chars;
  }

  // ---------------------------------------------------------------- set_pixels_empty

  /** `n` copies of a twelve-byte glyph bitmap, one after the other. */
  function Repeated(cell: seq<bv8>, n: nat): seq<bv8>
    requires |cell| == CHAR_CELL_HEIGHT
  {
    seq(CHAR_CELL_HEIGHT * n, i requires 0 <= i < CHAR_CELL_HEIGHT * n => cell[i % CHAR_CELL_HEIGHT])
  }

  /** One more copy goes on the end. */
  lemma RepeatedStep(cell: seq<bv8>, n: nat)
    requires |cell| == CHAR_CELL_HEIGHT
    ensures Repeated(cell, n + 1) == Repeated(cell, n) + cell
  {
    var a, b := Repeated(cell, n + 1), Repeated(cell, n) + cell;
    forall i | 0 <= i < |a|
      ensures a[i] == b[i]
    {
      if i >= 12 * n {
        assert i == (i - 12 * n) + n * 12;
        Arithmetic.ModPeriodic(i - 12 * n, n, 12);
        Arithmetic.ModSmall(i - 12 * n, 12);
      }
    }
  }

  /** Rendering `n` copies of a glyph is `n` copies of its rendering. */
  lemma {:induction false} RenderedRepeated(cell: seq<bv8>, n: nat, sh: Shade, s: nat)
    requires |cell| == CHAR_CELL_HEIGHT
    ensures Rendered(Repeated(cell, n), 0, sh, s) == Concat(seq(n, _ => Rendered(cell, 0, sh, s)))
  {
    var copies := seq(n, _ => Rendered(cell, 0, sh, s));
    if n == 0 {
      assert Repeated(cell, 0) == [];
    } else {
      RenderedRepeated(cell, n - 1, sh, s);
      RepeatedStep(cell, n - 1);
      RenderedAppend(Repeated(cell, n - 1), cell, 0, sh, s);
      assert copies[..n - 1] == seq(n - 1, _ => Rendered(cell, 0, sh, s));
    }
  }

  /** Filling slot `g` right after slots `0` to `g - 1` have been filled fills slots `0` to `g`. */
  lemma SlotFilled(base: seq<bv8>, mid: seq<bv8>, now: seq<bv8>, g: nat, size: nat, done: seq<bv8>, piece: seq<bv8>)
    requires |done| == Slot(g, size) && |piece| == size
    requires Overwritten(mid, base, 0, done) && Overwritten(now, mid, Slot(g, size), piece)
    ensures Overwritten(now, base, 0, done + piece) && |done + piece| == Slot(g + 1, size)
  {
    OverwrittenExtend(base, mid, now, 0, done, piece);
  }

  /**
   * The loops of `set_pixels_empty` for a glyph `cell` and the colours
   * `sh`: the glyph in every one of the 256 slots, from the start of the
   * texture.
   */
  method FillSlots(pixels: array<bv8>, cell: seq<bv8>, sh: Shade, scale: nat)
    requires |cell| == CHAR_CELL_HEIGHT && pixels.Length == TextureBytes(scale)
    modifies pixels
    ensures pixels[..] == Rendered(Repeated(cell, FONT_SIZE), 0, sh, scale)
  {
    ghost var pieces := seq(FONT_SIZE, _ => Rendered(cell, 0, sh, scale));
    RenderedLength(cell, 0, sh, scale);
    var offset := 0;
    var g := 0;
    ghost var done: seq<bv8> := [];
    while g < FONT_SIZE
      invariant g <= FONT_SIZE && done == Concat(pieces[..g])
      invariant Overwritten(pixels[..], old(pixels[..]), 0, done)
      invariant offset == |done| == Slot(g, GlyphBytes(scale))
    {
      GlyphsFit(g, 1, 12, scale);
      ConcatStep(pieces, g);
      ghost var mid := pixels[..];
      SetPixelsScaled(pixels, cell, offset, sh, 0, scale);
      SlotFilled(old(pixels[..]), mid, pixels[..], g, GlyphBytes(scale), done, pieces[g]);
      done := done + pieces[g];
      offset := offset + GlyphBytes(scale);
      g := g + 1;
    }
    SlotIsProduct(FONT_SIZE, GlyphBytes(scale));
    OverwrittenWhole(pixels[..], old(pixels[..]), done);
    assert pieces[..g] == pieces;
    RenderedRepeated(cell, FONT_SIZE, sh, scale);
  }

  /**
   * `set_pixels_empty`: every one of the 256 glyph slots gets the empty
   * glyph, lit bits in dark red and the rest black, whatever the scale.
   */
  method SetPixelsEmpty(pixels: array<bv8>, scale: nat)
    requires pixels.Length == TextureBytes(scale)
    modifies pixels
    ensures pixels[..] == Rendered(Repeated(EMPTY_CHAR_CELL, FONT_SIZE), 0, EMPTY_SHADE, scale)
  {
    FillSlots(pixels, EMPTY_CHAR_CELL, EMPTY_SHADE, scale);
  }

  /**
   * Every pixel of the empty texture: its red byte is 0x80 where the empty
   * glyph's bit is set and 0 elsewhere, and its green and blue bytes are 0.
   */
  lemma EmptyPixel(s: nat, j: nat, r: nat, k: nat, c: nat, t: nat)
    requires j < CHAR_CELL_HEIGHT * FONT_SIZE && r < s && k < 8 && c < s && t < 3
    ensures PixelOffset(s, j, r, k, c) + t < |Rendered(Repeated(EMPTY_CHAR_CELL, FONT_SIZE), 0, EMPTY_SHADE, s)|
    ensures Rendered(Repeated(EMPTY_CHAR_CELL, FONT_SIZE), 0, EMPTY_SHADE, s)[PixelOffset(s, j, r, k, c) + t]
         == if t == 0 && EMPTY_CHAR_CELL[j % CHAR_CELL_HEIGHT] & ((0x80 as bv8) >> k) != 0 then 0x80 else 0
  {
    RenderedPixel(Repeated(EMPTY_CHAR_CELL, FONT_SIZE), 0, EMPTY_SHADE, s, j, r, k, c, t);
    MaskIsShift(k);
    assert Rgb(0x800000) == [0x80, 0, 0];
    assert Rgb(0) == [0, 0, 0];
  }
}
