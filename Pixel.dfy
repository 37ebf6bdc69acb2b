// The pixel-buffer routines of src/graphics/Pixel.cpp that compute rather
// than draw: nearest-neighbour resampling, box downscaling and the PTi image
// format around its compressor. A pixel is an unsigned int 0xRRGGBB;
// Pixel.h, which defines PIXR/PIXG/PIXB/PIXRGB, is not part of this model,
// and that packing is the one assumed here.
module Pixel {
  import opened Wrappers
  import opened Bits

  function PixR(p: nat): (c: nat)
    ensures c < 0x100
  {
    (p / 0x1_0000) % 0x100
  }

  function PixG(p: nat): (c: nat)
    ensures c < 0x100
  {
    (p / 0x100) % 0x100
  }

  function PixB(p: nat): (c: nat)
    ensures c < 0x100
  {
    p % 0x100
  }

  /** PIXRGB for channels that fit a byte (the shifted fields do not
      overlap, so the bitwise or is a sum). */
  function PixRGB(r: nat, g: nat, b: nat): nat
    requires r < 0x100 && g < 0x100 && b < 0x100
  {
    r * 0x1_0000 + g * 0x100 + b
  }

  /** The channels of a packed pixel are the ones packed. */
  lemma {:induction false} PixRGBChannels(r: nat, g: nat, b: nat)
    requires r < 0x100 && g < 0x100 && b < 0x100
    ensures PixR(PixRGB(r, g, b)) == r && PixG(PixRGB(r, g, b)) == g && PixB(PixRGB(r, g, b)) == b
  {
    var v := PixRGB(r, g, b);
    assert v == (r * 0x100 + g) * 0x100 + b;
    DivModByte(r * 0x100 + g, b);
    DivModByte(r, g);
    assert v / 0x1_0000 == (v / 0x100) / 0x100;
  }

  /** Packing the channels of a 24-bit pixel gives it back. */
  lemma {:induction false} PixRGBOfChannels(p: nat)
    requires p < 0x100_0000
    ensures PixRGB(PixR(p), PixG(p), PixB(p)) == p
  {
    var hi := p / 0x100;
    assert p == hi * 0x100 + PixB(p);
    assert hi == (hi / 0x100) * 0x100 + PixG(p);
    assert p / 0x1_0000 == hi / 0x100;
    assert hi / 0x100 < 0x100;
  }

  // Index arithmetic for row-major buffers.

  /** Position x of row y in a buffer w wide. */
  lemma RowCol(w: int, y: int, x: int)
    requires 0 <= x < w && 0 <= y
    ensures (w * y + x) / w == y && (w * y + x) % w == x
  {
    DivUnique(w * y + x, w, y, x);
  }

  lemma {:induction false} IndexBelow(w: int, h: int, y: int, x: int)
    requires 0 <= x < w && 0 <= y < h
    ensures 0 <= w * y + x < w * h
  {
    assert w * y + x < w * y + w;
    assert w * (y + 1) <= w * h;
  }

  lemma {:induction false} RowBelow(w: int, h: int, k: int)
    requires 0 < w && 0 <= k < w * h
    ensures 0 <= k / w < h
  {
  }

  /** y * s / r < s whenever y < r: a scaled coordinate stays inside. */
  lemma {:induction false} ScaleBelow(y: int, s: int, r: int)
    requires 0 <= y < r && 1 <= s
    ensures 0 <= y * s / r < s
  {
    var q := y * s / r;
    assert q * r <= y * s;
    assert y * s < r * s;
  }

  /** y * s / s == y. */
  lemma MulDivCancel(y: int, s: int)
    requires 0 <= y && 1 <= s
    ensures y * s / s == y
  {
    DivUnique(y * s, s, y, 0);
  }

  // resample_img_nn

  /** The source position of output pixel (x, y): src[sw*(y*sh/rh) + x*sw/rw]. */
  function NearestIndex(sw: int, sh: int, rw: int, rh: int, y: int, x: int): (i: int)
    requires 1 <= sw && 1 <= sh && 0 <= y < rh && 0 <= x < rw
    ensures 0 <= i < sw * sh
  {
    ScaleBelow(y, sh, rh);
    ScaleBelow(x, sw, rw);
    IndexBelow(sw, sh, y * sh / rh, x * sw / rw);
    sw * (y * sh / rh) + x * sw / rw
  }

  /** The rw x rh image resample_img_nn returns. */
  function Resampled(src: seq<nat>, sw: int, sh: int, rw: int, rh: int): (q: seq<nat>)
    requires 1 <= sw && 1 <= sh && 0 <= rw && 0 <= rh && |src| == sw * sh
    ensures |q| == rw * rh
  {
    seq(rw * rh, k requires 0 <= k < rw * rh =>
      RowBelow(rw, rh, k);
      src[NearestIndex(sw, sh, rw, rh, k / rw, k % rw)])
  }

  /** Output pixel (x, y) sits at rw * y + x and copies its nearest source
      pixel. */
  lemma ResampledAt(src: seq<nat>, sw: int, sh: int, rw: int, rh: int, y: int, x: int)
    requires 1 <= sw && 1 <= sh && |src| == sw * sh && 0 <= y < rh && 0 <= x < rw
    ensures 0 <= rw * y + x < rw * rh
    ensures Resampled(src, sw, sh, rw, rh)[rw * y + x] == src[NearestIndex(sw, sh, rw, rh, y, x)]
  {
    IndexBelow(rw, rh, y, x);
    RowCol(rw, y, x);
  }

  /** Resampling to the same size is the identity. */
  lemma ResampleSameSize(src: seq<nat>, sw: int, sh: int)
    requires 1 <= sw && 1 <= sh && |src| == sw * sh
    ensures Resampled(src, sw, sh, sw, sh) == src
  {
    var q := Resampled(src, sw, sh, sw, sh);
    forall k | 0 <= k < sw * sh
      ensures q[k] == src[k]
    {
      RowBelow(sw, sh, k);
      var y, x := k / sw, k % sw;
      assert k == sw * y + x;
      ResampledAt(src, sw, sh, sw, sh, y, x);
      MulDivCancel(y, sh);
      MulDivCancel(x, sw);
      assert NearestIndex(sw, sh, sw, sh, y, x) == k;
    }
  }

  /** Every output pixel is a source pixel: nearest-neighbour resampling
      never blends. */
  lemma ResampleTakesSourcePixels(src: seq<nat>, sw: int, sh: int, rw: int, rh: int, k: int)
    requires 1 <= sw && 1 <= sh && 0 <= rw && 0 <= rh && |src| == sw * sh
    requires 0 <= k < rw * rh
    ensures exists i :: 0 <= i < |src| && Resampled(src, sw, sh, rw, rh)[k] == src[i]
  {
    RowBelow(rw, rh, k);
    var i := NearestIndex(sw, sh, rw, rh, k / rw, k % rw);
    assert Resampled(src, sw, sh, rw, rh)[k] == src[i];
  }

  /** The first n cells of q are those of want. */
  ghost predicate Filled(q: seq<nat>, want: seq<nat>, n: int)
  {
    |q| == |want| && 0 <= n <= |want| && forall k :: 0 <= k < n ==> q[k] == want[k]
  }

  lemma FilledStep(q: seq<nat>, want: seq<nat>, n: int, v: nat)
    requires Filled(q, want, n) && n < |want| && v == want[n]
    ensures Filled(q[n := v], want, n + 1)
  {
  }

  /** resample_img_nn: row by row, each output pixel copies its nearest
      source pixel. */
  method ResampleNN(src: array<nat>, sw: int, sh: int, rw: int, rh: int) returns (q: array<nat>)
    requires 1 <= sw && 1 <= sh && 0 <= rw && 0 <= rh && src.Length == sw * sh
    ensures fresh(q) && q[..] == Resampled(src[..], sw, sh, rw, rh)
  {
    q := new nat[rw * rh];
    ghost var want := Resampled(src[..], sw, sh, rw, rh);
    var y := 0;
    while y < rh
      invariant 0 <= y <= rh
      invariant Filled(q[..], want, rw * y)
    {
      var x := 0;
      while x < rw
        invariant 0 <= x <= rw
        invariant Filled(q[..], want, rw * y + x)
      {
        ResampledAt(src[..], sw, sh, rw, rh, y, x);
        var v := src[NearestIndex(sw, sh, rw, rh, y, x)];
        FilledStep(q[..], want, rw * y + x, v);
        q[rw * y + x] := v;
        x := x + 1;
      }
      assert rw * (y + 1) == rw * y + rw;
      y := y + 1;
    }
    assert Filled(q[..], want, rw * rh);
  }

  // rescale_img

  /** The sums of the red, green and blue channels of the non-zero pixels
      seen so far, and their count. */
  datatype Acc = Acc(r: nat, g: nat, b: nat, c: nat)

  /** The pixel at column px, row py; a cell beyond the image counts as
      black, which is skipped just as rescale_img skips it. */
  function CellAt(src: seq<nat>, sw: int, sh: int, px: nat, py: nat): nat
    requires 0 <= sw && 0 <= sh && |src| == sw * sh
  {
    if px < sw && py < sh then
      IndexBelow(sw, sh, py, px);
      src[sw * py + px]
    else 0
  }

  /** Adding one pixel to the sums, unless it is black. */
  function AddPixel(a: Acc, p: nat): (a': Acc)
    requires AccBounded(a)
    ensures AccBounded(a') && a'.c <= a.c + 1
  {
    if p != 0 then Acc(a.r + PixR(p), a.g + PixG(p), a.b + PixB(p), a.c + 1) else a
  }

  lemma MulNonneg(a: nat, b: nat)
    ensures a * b >= 0
  {
  }


  /** Bounds that hold of every partial sum: each channel sum is at most
      255 per counted pixel. */
  predicate AccBounded(a: Acc)
  {
    a.r <= 255 * a.c && a.g <= 255 * a.c && a.b <= 255 * a.c
  }

  /** a plus the first i cells of row j of block (x, y). */
  function RowAcc(src: seq<nat>, sw: int, sh: int, f: int, x: nat, y: nat, j: nat, i: nat, a: Acc): (a': Acc)
    requires 1 <= f && 0 <= sw && 0 <= sh && |src| == sw * sh && AccBounded(a)
    ensures AccBounded(a') && a'.c <= a.c + i
  {
    if i == 0 then a
    else
      MulNonneg(x, f);
      MulNonneg(y, f);
      AddPixel(RowAcc(src, sw, sh, f, x, y, j, i - 1, a), CellAt(src, sw, sh, x * f + i - 1, y * f + j))
  }

  /** The sums over the first j rows of block (x, y). */
  function BlockAcc(src: seq<nat>, sw: int, sh: int, f: int, x: nat, y: nat, j: nat): (a: Acc)
    requires 1 <= f && 0 <= sw && 0 <= sh && |src| == sw * sh
    ensures AccBounded(a)
  {
    if j == 0 then Acc(0, 0, 0, 0)
    else RowAcc(src, sw, sh, f, x, y, j - 1, f, BlockAcc(src, sw, sh, f, x, y, j - 1))
  }

  /** (s + c/2) / c for more than one pixel: the sum divided by the count,
      rounded to the nearest integer. */
  function RoundedMean(s: nat, c: nat): nat
  {
    if c > 1 then (s + c / 2) / c else s
  }

  /** The mean of bytes is a byte. */
  lemma {:induction false} RoundedMeanByte(s: nat, c: nat)
    requires s <= 255 * c
    ensures RoundedMean(s, c) <= 255
  {
    if c > 1 {
      var m := (s + c / 2) / c;
      assert c * m <= s + c / 2 < 256 * c;
    }
  }

  /** The rounded mean is within half a count of the true mean. */
  lemma {:induction false} RoundedMeanNearest(s: nat, c: nat)
    requires c >= 1
    ensures -(c / 2) <= s - c * RoundedMean(s, c) <= c / 2
  {
    if c > 1 {
      var m := (s + c / 2) / c;
      DivUnique(s + c / 2, c, m, (s + c / 2) % c);
    }
  }

  /** Output pixel (x, y) of rescale_img. */
  function RescaledPixel(src: seq<nat>, sw: int, sh: int, f: int, x: nat, y: nat): nat
    requires 1 <= f && 0 <= sw && 0 <= sh && |src| == sw * sh
  {
    var a := BlockAcc(src, sw, sh, f, x, y, f);
    RoundedMeanByte(a.r, a.c);
    RoundedMeanByte(a.g, a.c);
    RoundedMeanByte(a.b, a.c);
    PixRGB(RoundedMean(a.r, a.c), RoundedMean(a.g, a.c), RoundedMean(a.b, a.c))
  }

  lemma QuotNonneg(k: nat, f: int)
    requires f >= 1
    ensures k / f >= 0
  {
  }

  /** ceil(s / f), the output size in one dimension. */
  function CeilDiv(s: int, f: int): int
    requires 0 <= s && 1 <= f
  {
    (s + f - 1) / f
  }

  /** The output covers the image and not one block more. */
  lemma {:induction false} CeilDivCovers(s: int, f: int)
    requires 0 <= s && 1 <= f
    ensures f * CeilDiv(s, f) >= s && f * (CeilDiv(s, f) - 1) < s
  {
    var w := CeilDiv(s, f);
    DivUnique(s + f - 1, f, w, (s + f - 1) % f);
  }

  /** The w x h image rescale_img returns. */
  function Rescaled(src: seq<nat>, sw: int, sh: int, f: int): (q: seq<nat>)
    requires 1 <= f && 0 <= sw && 0 <= sh && |src| == sw * sh
    ensures |q| == CeilDiv(sw, f) * CeilDiv(sh, f)
  {
    var w, h := CeilDiv(sw, f), CeilDiv(sh, f);
    if w <= 0 then []
    else seq(w * h, k requires 0 <= k < w * h => QuotNonneg(k, w); RescaledPixel(src, sw, sh, f, k % w, k / w))
  }

  /** Each output pixel is the rounded mean of the non-zero pixels of its
      block, channel by channel, and black when the block has none. */
  lemma RescaledPixelMean(src: seq<nat>, sw: int, sh: int, f: int, x: nat, y: nat)
    requires 1 <= f && 0 <= sw && 0 <= sh && |src| == sw * sh
    ensures var a := BlockAcc(src, sw, sh, f, x, y, f);
      var p := RescaledPixel(src, sw, sh, f, x, y);
      PixR(p) == RoundedMean(a.r, a.c) && PixG(p) == RoundedMean(a.g, a.c) && PixB(p) == RoundedMean(a.b, a.c) &&
      (a.c == 0 ==> p == 0)
  {
    var a := BlockAcc(src, sw, sh, f, x, y, f);
    RoundedMeanByte(a.r, a.c);
    RoundedMeanByte(a.g, a.c);
    RoundedMeanByte(a.b, a.c);
    PixRGBChannels(RoundedMean(a.r, a.c), RoundedMean(a.g, a.c), RoundedMean(a.b, a.c));
  }

  /** With factor 1 every block is one pixel, and a 24-bit image comes back
      unchanged. */
  lemma RescaleByOne(src: seq<nat>, sw: int, sh: int)
    requires 0 <= sw && 0 <= sh && |src| == sw * sh
    requires forall i :: 0 <= i < |src| ==> src[i] < 0x100_0000
    ensures Rescaled(src, sw, sh, 1) == src
  {
    var q := Rescaled(src, sw, sh, 1);
    assert CeilDiv(sw, 1) == sw && CeilDiv(sh, 1) == sh;
    forall k | 0 <= k < sw * sh
      ensures q[k] == src[k]
    {
      var x, y := k % sw, k / sw;
      RowBelow(sw, sh, k);
      assert sw * y + x == k;
      var a0 := Acc(0, 0, 0, 0);
      var a := BlockAcc(src, sw, sh, 1, x, y, 1);
      assert BlockAcc(src, sw, sh, 1, x, y, 0) == a0;
      assert a == RowAcc(src, sw, sh, 1, x, y, 0, 1, a0);
      assert a == AddPixel(RowAcc(src, sw, sh, 1, x, y, 0, 0, a0), CellAt(src, sw, sh, x * 1 + 1 - 1, y * 1 + 0));
      assert a == AddPixel(a0, CellAt(src, sw, sh, x, y));
      var p := src[k];
      if p != 0 {
        assert a == Acc(PixR(p), PixG(p), PixB(p), 1);
        PixRGBOfChannels(p);
      }
    }
  }

  /** Output pixel (x, y) sits at w * y + x. */
  lemma RescaledAt(src: seq<nat>, sw: int, sh: int, f: int, y: int, x: int)
    requires 1 <= f && 0 <= sw && 0 <= sh && |src| == sw * sh
    requires 0 <= y < CeilDiv(sh, f) && 0 <= x < CeilDiv(sw, f)
    ensures 0 <= CeilDiv(sw, f) * y + x < CeilDiv(sw, f) * CeilDiv(sh, f)
    ensures Rescaled(src, sw, sh, f)[CeilDiv(sw, f) * y + x] == RescaledPixel(src, sw, sh, f, x, y)
  {
    var w, h := CeilDiv(sw, f), CeilDiv(sh, f);
    IndexBelow(w, h, y, x);
    RowCol(w, y, x);
  }

  /** The source's (py * sw + px) is the row-major index of cell (px, py). */
  lemma CellIndex(sw: int, sh: int, px: int, py: int)
    requires 0 <= px < sw && 0 <= py < sh
    ensures py * sw + px == sw * py + px && 0 <= sw * py + px < sw * sh
  {
    IndexBelow(sw, sh, py, px);
  }

  /** One row j of block (x, y): the innermost loop of rescale_img, adding
      each non-zero pixel of the row to the sums. */
  method SumBlockRow(src: array<nat>, sw: int, sh: int, f: int, x: nat, y: nat, j: nat, r0: nat, g0: nat, b0: nat, c0: nat)
    returns (r: nat, g: nat, b: nat, c: nat)
    requires 1 <= f && 0 <= sw && 0 <= sh && src.Length == sw * sh
    requires Acc(r0, g0, b0, c0) == BlockAcc(src[..], sw, sh, f, x, y, j)
    ensures Acc(r, g, b, c) == BlockAcc(src[..], sw, sh, f, x, y, j + 1)
  {
    MulNonneg(x, f);
    MulNonneg(y, f);
    ghost var a0 := Acc(r0, g0, b0, c0);
    r, g, b, c := r0, g0, b0, c0;
    var i := 0;
    while i < f
      invariant 0 <= i <= f
      invariant Acc(r, g, b, c) == RowAcc(src[..], sw, sh, f, x, y, j, i, a0)
    {
      if x * f + i < sw && y * f + j < sh {
        CellIndex(sw, sh, x * f + i, y * f + j);
        var px := src[(y * f + j) * sw + (x * f + i)];
        if px != 0 {
          r, g, b, c := r + PixR(px), g + PixG(px), b + PixB(px), c + 1;
        }
      }
      i := i + 1;
    }
  }

  /** The block loops of rescale_img for output pixel (x, y): sum the
      non-zero pixels of the block row by row, then take the rounded means. */
  method BlockAverage(src: array<nat>, sw: int, sh: int, f: int, x: nat, y: nat) returns (p: nat)
    requires 1 <= f && 0 <= sw && 0 <= sh && src.Length == sw * sh
    ensures p == RescaledPixel(src[..], sw, sh, f, x, y)
  {
    var r: nat, g: nat, b: nat, c: nat := 0, 0, 0, 0;
    var j := 0;
    while j < f
      invariant 0 <= j <= f
      invariant Acc(r, g, b, c) == BlockAcc(src[..], sw, sh, f, x, y, j)
    {
      r, g, b, c := SumBlockRow(src, sw, sh, f, x, y, j, r, g, b, c);
      j := j + 1;
    }
    ghost var a := Acc(r, g, b, c);
    RoundedMeanByte(r, c);
    RoundedMeanByte(g, c);
    RoundedMeanByte(b, c);
    if c > 1 {
      r, g, b := (r + c / 2) / c, (g + c / 2) / c, (b + c / 2) / c;
    }
    assert r == RoundedMean(a.r, a.c) && g == RoundedMean(a.g, a.c) && b == RoundedMean(a.b, a.c);
    p := PixRGB(r, g, b);
  }

  /** rescale_img: shrink by the factor f, each output pixel averaging one
      f x f block. */
  method RescaleImg(src: array<nat>, sw: int, sh: int, f: int) returns (q: array<nat>, qw: int, qh: int)
    requires 1 <= f && 0 <= sw && 0 <= sh && src.Length == sw * sh
    ensures qw == CeilDiv(sw, f) && qh == CeilDiv(sh, f)
    ensures fresh(q) && q[..] == Rescaled(src[..], sw, sh, f)
  {
    var w := (sw + f - 1) / f;
    var h := (sh + f - 1) / f;
    QuotNonneg(sw + f - 1, f);
    QuotNonneg(sh + f - 1, f);
    q := new nat[w * h];
    ghost var want := Rescaled(src[..], sw, sh, f);
    var y := 0;
    while y < h
      invariant 0 <= y <= h
      invariant Filled(q[..], want, w * y)
    {
      var x := 0;
      while x < w
        invariant 0 <= x <= w
        invariant Filled(q[..], want, w * y + x)
      {
        RescaledAt(src[..], sw, sh, f, y, x);
        var v := BlockAverage(src, sw, sh, f, x, y);
        FilledStep(q[..], want, w * y + x, v);
        q[y * w + x] := v;
        x := x + 1;
      }
      assert w * (y + 1) == w * y + w;
      y := y + 1;
    }
    assert Filled(q[..], want, w * h);
    qw, qh := w, h;
  }

  // ptif_pack and ptif_unpack: "PTi", a version byte, the width and height
  // as little-endian 16-bit numbers, then the bzip2-compressed red, green
  // and blue planes. The compressor and decompressor are parameters: a
  // function from the input bytes to the output bytes, None on failure.

  /** An image read back: its size and its pixels, row by row. */
  datatype Image = Image(w: int, h: int, pixels: seq<nat>)

  /** The eight header bytes ptif_pack writes: w and h are stored into
      unsigned chars, so only their low bytes survive. */
  function PtifHeader(w: int, h: int): (hd: seq<byte>)
    ensures |hd| == 8
  {
    ['P' as byte, 'T' as byte, 'i' as byte, 1, w % 0x100, (w / 0x100) % 0x100, h % 0x100, (h / 0x100) % 0x100]
  }

  /** ptif_unpack's reading of a 16-bit little-endian field. */
  function ReadU16(lo: byte, hi: byte): (v: int)
    ensures 0 <= v < 0x1_0000
  {
    lo + hi * 0x100
  }

  /** Channel c of a pixel: 0 red, 1 green, 2 blue. */
  function Channel(p: nat, c: int): byte
  {
    if c == 0 then PixR(p) else if c == 1 then PixG(p) else PixB(p)
  }

  /** Plane c of an image: channel c of each pixel. */
  function Plane(src: seq<nat>, c: int): (d: seq<byte>)
    ensures |d| == |src|
  {
    seq(|src|, k requires 0 <= k < |src| => Channel(src[k], c))
  }

  /** The three channel planes of an image, one after the other. */
  function Planes(src: seq<nat>): (d: seq<byte>)
    ensures |d| == 3 * |src|
  {
    Plane(src, 0) + Plane(src, 1) + Plane(src, 2)
  }

  /** Pixels from three planes of n bytes each. */
  function Interleave(u: seq<byte>, n: nat): (px: seq<nat>)
    requires |u| == 3 * n
    ensures |px| == n
  {
    seq(n, k requires 0 <= k < n => PixRGB(u[k], u[n + k], u[2 * n + k]))
  }

  /** The output room ptif_pack gives the compressor, (w*h)*3 - 8, passed
      as an unsigned int: for images of fewer than three pixels it wraps
      around to about four gigabytes. */
  function PackRoomAsWritten(n: int): int
  {
    (3 * n - 8) % 0x1_0000_0000
  }

  /** The room that fits the buffer: the 3 * n + 8 bytes allocated, less
      the eight-byte header, and never below zero. */
  function PackRoom(n: int): (room: int)
    ensures room >= 0 && room + 8 <= if n >= 0 then 3 * n + 8 else 8
  {
    if 3 * n >= 8 then 3 * n - 8 else 0
  }

  /** What ptif_pack returns: None (NULL) when compression fails or does not
      fit, else the header followed by the compressed planes. */
  function Packed(src: seq<nat>, w: int, h: int, compress: seq<byte> -> Option<seq<byte>>): Option<seq<byte>>
  {
    var c := compress(Planes(src));
    if c.None? || |c.value| > PackRoom(|src|) then None
    else Some(PtifHeader(w, h) + c.value)
  }

  /** What ptif_unpack returns. */
  function Unpacked(data: seq<byte>, decompress: seq<byte> -> Option<seq<byte>>): Result<Image>
  {
    if |data| < 16 then Err("Image empty")
    else if !(data[0] == 'P' as byte && data[1] == 'T' as byte && data[2] == 'i' as byte) then
      Err("Image header invalid")
    else
      var width, height := ReadU16(data[4], data[5]), ReadU16(data[6], data[7]);
      var n := width * height;
      match decompress(data[8..])
      case None => Err("Decompression failure")
      case Some(u) =>
        // an output longer than the buffer is itself a decompression error
        if |u| > 3 * n then Err("Decompression failure")
        else if |u| != 3 * n then Err("Result buffer size mismatch")
        else Ok(Image(width, height, Interleave(u, n)))
  }

  /** The loops of ptif_pack and ptif_unpack run over columns cx and, inside
      each, over rows cy: cell k has been visited once its column is done, or
      it lies in the current column above row cy. */
  ghost predicate Visited(k: int, w: int, cx: int, cy: int)
  {
    w > 0 && (k % w < cx || (k % w == cx && k / w < cy))
  }

  /** Visiting cell (cx, cy), at w * cy + cx, adds exactly that cell. */
  lemma VisitedStep(k: int, w: int, h: int, cx: int, cy: int)
    requires 0 <= cx < w && 0 <= cy < h && 0 <= k < w * h
    ensures Visited(k, w, cx, cy + 1) <==> Visited(k, w, cx, cy) || k == w * cy + cx
  {
    RowCol(w, cy, cx);
  }

  /** A finished column leads into the next one. */
  lemma VisitedColumn(k: int, w: int, h: int, cx: int)
    requires 0 <= cx < w && 0 <= k < w * h
    ensures Visited(k, w, cx, h) <==> Visited(k, w, cx + 1, 0)
  {
    RowBelow(w, h, k);
  }

  /** Once every column is done, every cell has been visited. */
  lemma VisitedAll(k: int, w: int, h: int)
    requires 0 <= k < w * h && 0 <= w
    ensures Visited(k, w, w, 0)
  {
  }

  /** The first loop of ptif_pack: each pixel's channels go to the red,
      green and blue planes, which are then laid end to end. */
  method SplitPlanes(src: array<nat>, w: int, h: int) returns (data: seq<byte>)
    requires 0 <= w && 0 <= h && src.Length == w * h
    ensures data == Planes(src[..])
  {
    var n := w * h;
    var red, green, blue := new byte[n], new byte[n], new byte[n];
    ghost var wantR, wantG, wantB := Plane(src[..], 0), Plane(src[..], 1), Plane(src[..], 2);
    var cx := 0;
    while cx < w
      invariant 0 <= cx <= w
      invariant forall k :: 0 <= k < n && Visited(k, w, cx, 0) ==>
        red[k] == wantR[k] && green[k] == wantG[k] && blue[k] == wantB[k]
    {
      var cy := 0;
      while cy < h
        invariant 0 <= cy <= h
        invariant forall k :: 0 <= k < n && Visited(k, w, cx, cy) ==>
          red[k] == wantR[k] && green[k] == wantG[k] && blue[k] == wantB[k]
      {
        IndexBelow(w, h, cy, cx);
        forall k | 0 <= k < n
          ensures Visited(k, w, cx, cy + 1) <==> Visited(k, w, cx, cy) || k == w * cy + cx
        {
          VisitedStep(k, w, h, cx, cy);
        }
        var k := w * cy + cx;
        red[k] := PixR(src[k]);
        green[k] := PixG(src[k]);
        blue[k] := PixB(src[k]);
        cy := cy + 1;
      }
      forall k | 0 <= k < n
        ensures Visited(k, w, cx, h) <==> Visited(k, w, cx + 1, 0)
      {
        VisitedColumn(k, w, h, cx);
      }
      cx := cx + 1;
    }
    forall k | 0 <= k < n
      ensures Visited(k, w, w, 0)
    {
      VisitedAll(k, w, h);
    }
    assert red[..] == wantR && green[..] == wantG && blue[..] == wantB;
    data := red[..] + green[..] + blue[..];
  }

  /** ptif_pack: split the pixels into three planes, compress them, and put
      the header in front. */
  method PtifPack(src: array<nat>, w: int, h: int, compress: seq<byte> -> Option<seq<byte>>) returns (r: Option<seq<byte>>)
    requires 0 <= w && 0 <= h && src.Length == w * h
    ensures r == Packed(src[..], w, h, compress)
  {
    var data := SplitPlanes(src, w, h);
    // A negative room is taken as none: see PackRoomAsWritten.
    var room := (w * h) * 3 - 8;
    if room < 0 {
      room := 0;
    }
    var c := compress(data);
    if c.None? || |c.value| > room {
      return None;
    }
    r := Some(PtifHeader(w, h) + c.value);
  }

  /** The last loop of ptif_unpack: pixel k takes its channels from byte k
      of each of the three planes (read in place at offsets 0, n and 2n). */
  method JoinPlanes(undata: seq<byte>, width: int, height: int) returns (pixels: seq<nat>)
    requires 0 <= width && 0 <= height && |undata| == 3 * (width * height)
    ensures pixels == Interleave(undata, width * height)
  {
    var n := width * height;
    var result := new nat[n];
    ghost var want := Interleave(undata, n);
    var cx := 0;
    while cx < width
      invariant 0 <= cx <= width
      invariant forall k :: 0 <= k < n && Visited(k, width, cx, 0) ==> result[k] == want[k]
    {
      var cy := 0;
      while cy < height
        invariant 0 <= cy <= height
        invariant forall k :: 0 <= k < n && Visited(k, width, cx, cy) ==> result[k] == want[k]
      {
        IndexBelow(width, height, cy, cx);
        forall k | 0 <= k < n
          ensures Visited(k, width, cx, cy + 1) <==> Visited(k, width, cx, cy) || k == width * cy + cx
        {
          VisitedStep(k, width, height, cx, cy);
        }
        var k := width * cy + cx;
        result[k] := PixRGB(undata[k], undata[n + k], undata[2 * n + k]);
        cy := cy + 1;
      }
      forall k | 0 <= k < n
        ensures Visited(k, width, cx, height) <==> Visited(k, width, cx + 1, 0)
      {
        VisitedColumn(k, width, height, cx);
      }
      cx := cx + 1;
    }
    forall k | 0 <= k < n
      ensures Visited(k, width, width, 0)
    {
      VisitedAll(k, width, height);
    }
    pixels := result[..];
  }

  /** ptif_unpack: check the size and the magic, read the dimensions,
      decompress, check the decompressed size, and interleave the planes. */
  method PtifUnpack(data: seq<byte>, decompress: seq<byte> -> Option<seq<byte>>) returns (r: Result<Image>)
    ensures r == Unpacked(data, decompress)
  {
    if |data| < 16 {
      return Err("Image empty");
    }
    if !(data[0] == 'P' as byte && data[1] == 'T' as byte && data[2] == 'i' as byte) {
      return Err("Image header invalid");
    }
    var width: int := data[4] as int + data[5] as int * 0x100;
    var height: int := data[6] as int + data[7] as int * 0x100;
    var i := (width * height) * 3;
    var res := decompress(data[8..]);
    if res.None? || |res.value| > i {
      return Err("Decompression failure");
    }
    if |res.value| != i {
      return Err("Result buffer size mismatch");
    }
    var pixels := JoinPlanes(res.value, width, height);
    r := Ok(Image(width, height, pixels));
  }

  /** The header stores w and h modulo 2^16: a size below 65536 reads back
      exactly, a larger one loses its high bits. */
  lemma {:induction false} HeaderSizes(w: int, h: int)
    ensures var hd := PtifHeader(w, h);
      hd[..3] == ['P' as byte, 'T' as byte, 'i' as byte] && hd[3] == 1 &&
      ReadU16(hd[4], hd[5]) == w % 0x1_0000 && ReadU16(hd[6], hd[7]) == h % 0x1_0000
  {
    U16Split(w);
    U16Split(h);
  }

  /** Low byte plus 256 times the next byte is the number modulo 2^16. */
  lemma {:induction false} U16Split(v: int)
    ensures v % 0x100 + ((v / 0x100) % 0x100) * 0x100 == v % 0x1_0000
  {
    var q, r := v / 0x100, v % 0x100;
    var lo := (q % 0x100) * 0x100 + r;
    assert v == 0x1_0000 * (q / 0x100) + lo;
    DivUnique(v, 0x1_0000, q / 0x100, lo);
  }

  /** Byte k of each plane is the channel of pixel k. */
  lemma PlanesAt(src: seq<nat>, k: int)
    requires 0 <= k < |src|
    ensures var n := |src|;
      Planes(src)[k] == PixR(src[k]) && Planes(src)[n + k] == PixG(src[k]) && Planes(src)[2 * n + k] == PixB(src[k])
  {
    var n := |src|;
    var a, b, c := Plane(src, 0), Plane(src, 1), Plane(src, 2);
    assert (a + b + c)[k] == a[k];
    assert (a + b + c)[n + k] == b[k];
    assert (a + b + c)[2 * n + k] == c[k];
  }

  /** Interleaving the planes of a 24-bit image gives it back. */
  lemma PlanesJoin(src: seq<nat>)
    requires forall k :: 0 <= k < |src| ==> src[k] < 0x100_0000
    ensures Interleave(Planes(src), |src|) == src
  {
    var n := |src|;
    forall k | 0 <= k < n
      ensures Interleave(Planes(src), n)[k] == src[k]
    {
      PlanesAt(src, k);
      PixRGBOfChannels(src[k]);
    }
  }

  /** Splitting interleaved planes gives the planes back. */
  lemma JoinPlanesSplit(u: seq<byte>, n: nat)
    requires |u| == 3 * n
    ensures Planes(Interleave(u, n)) == u
  {
    var px := Interleave(u, n);
    forall k | 0 <= k < 3 * n
      ensures Planes(px)[k] == u[k]
    {
      if k < n {
        JoinPlanesAt(u, n, k);
      } else if k < 2 * n {
        JoinPlanesAt(u, n, k - n);
      } else {
        JoinPlanesAt(u, n, k - 2 * n);
      }
    }
  }

  /** Pixel i of the interleaved planes splits back into the three bytes it
      was made of. */
  lemma JoinPlanesAt(u: seq<byte>, n: nat, i: int)
    requires |u| == 3 * n && 0 <= i < n
    ensures var d := Planes(Interleave(u, n));
      d[i] == u[i] && d[n + i] == u[n + i] && d[2 * n + i] == u[2 * n + i]
  {
    PlanesAt(Interleave(u, n), i);
    PixRGBChannels(u[i], u[n + i], u[2 * n + i]);
  }

  /** ptif_unpack reads back what ptif_pack wrote, for an image of at most
      65535 x 65535 24-bit pixels whose compressed planes fit the room and
      decompress to themselves. */
  lemma PackUnpackRoundTrip(src: seq<nat>, w: int, h: int, compress: seq<byte> -> Option<seq<byte>>, decompress: seq<byte> -> Option<seq<byte>>)
    requires 0 <= w < 0x1_0000 && 0 <= h < 0x1_0000 && |src| == w * h
    requires forall k :: 0 <= k < |src| ==> src[k] < 0x100_0000
    requires compress(Planes(src)).Some? && 8 <= |compress(Planes(src)).value| <= PackRoom(|src|)
    requires decompress(compress(Planes(src)).value) == Some(Planes(src))
    ensures Packed(src, w, h, compress).Some?
    ensures Unpacked(Packed(src, w, h, compress).value, decompress) == Ok(Image(w, h, src))
  {
    var c := compress(Planes(src)).value;
    var data := PtifHeader(w, h) + c;
    HeaderSizes(w, h);
    assert data[8..] == c;
    assert data[..3] == PtifHeader(w, h)[..3];
    PlanesJoin(src);
  }

  /** What an accepted image satisfies: at least 16 bytes, the magic, the
      sizes from bytes 4-7, and w * h pixels of 24 bits. */
  lemma UnpackedOk(data: seq<byte>, decompress: seq<byte> -> Option<seq<byte>>)
    requires Unpacked(data, decompress).Ok?
    ensures var img := Unpacked(data, decompress).value;
      |data| >= 16 && data[0] == 'P' as byte && data[1] == 'T' as byte && data[2] == 'i' as byte &&
      img.w == data[4] as int + 0x100 * data[5] as int && img.h == data[6] as int + 0x100 * data[7] as int &&
      |img.pixels| == img.w * img.h && forall k :: 0 <= k < |img.pixels| ==> img.pixels[k] < 0x100_0000
  {
    var img := Unpacked(data, decompress).value;
    var u := decompress(data[8..]).value;
    var n := img.w * img.h;
    forall k | 0 <= k < n
      ensures img.pixels[k] < 0x100_0000
    {
      PixRGBBelow(u[k], u[n + k], u[2 * n + k]);
    }
  }

  lemma PixRGBBelow(r: nat, g: nat, b: nat)
    requires r < 0x100 && g < 0x100 && b < 0x100
    ensures PixRGB(r, g, b) < 0x100_0000
  {
  }

  /** For an image of one pixel, ptif_pack as written offers the compressor
      0xFFFF_FFFB bytes where three remain: the room (1*1)*3 - 8 is negative
      and is read as an unsigned int. */
  lemma PackRoomWraps()
    ensures PackRoomAsWritten(1 * 1) == 0xFFFF_FFFB
    ensures PackRoomAsWritten(1 * 1) > 3 * (1 * 1)
  {
  }

  /** Whatever ptif_pack returns fits the 3 * n + 8 bytes it allocates. */
  lemma PackedFits(src: seq<nat>, w: int, h: int, compress: seq<byte> -> Option<seq<byte>>)
    requires Packed(src, w, h, compress).Some?
    ensures |Packed(src, w, h, compress).value| <= 3 * |src| + 8
  {
  }
}
