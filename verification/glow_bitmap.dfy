/**
  The glow bitmaps: each of the sixteen parts of a glow border is an alpha mask, and a glow
  bitmap of a colour is that mask with the colour's red, green and blue premultiplied by the
  mask's alpha, stored as BGRA bytes. The masks themselves are resources loaded from disk, so
  they are parameters here.
*/
module GlowBitmap {
  import opened Int32
  import opened Wrappers

  /** A WPF `Color`. Only red, green and blue are used when a bitmap is made. */
  datatype Color = Color(a: byte, r: byte, g: byte, b: byte)

  /** The sixteen `GlowBitmapPart`s, in declaration order. */
  datatype GlowBitmapPart =
    | CornerTopLeft | CornerTopRight | CornerBottomLeft | CornerBottomRight
    | TopLeft | Top | TopRight
    | LeftTop | Left | LeftBottom
    | BottomLeft | Bottom | BottomRight
    | RightTop | Right | RightBottom

  const GlowBitmapPartCount: nat := 16

  /** The enum value of a part, its index in a bitmap cache. */
  function PartIndex(p: GlowBitmapPart): (i: nat)
    ensures i < GlowBitmapPartCount
  {
    match p
    case CornerTopLeft => 0 case CornerTopRight => 1 case CornerBottomLeft => 2 case CornerBottomRight => 3
    case TopLeft => 4 case Top => 5 case TopRight => 6
    case LeftTop => 7 case Left => 8 case LeftBottom => 9
    case BottomLeft => 10 case Bottom => 11 case BottomRight => 12
    case RightTop => 13 case Right => 14 case RightBottom => 15
  }

  /** Distinct parts have distinct cache slots, so the sixteen slots are exactly the sixteen parts. */
  lemma PartIndexInjective(p: GlowBitmapPart, q: GlowBitmapPart)
    ensures PartIndex(p) == PartIndex(q) <==> p == q
  {
  }

  /**
    `PremultiplyAlpha`: `(byte)(channel * alpha / 255.0)`. The quotient lies in [0, 255] and the
    cast truncates it; a multiple of 1/255 that is not whole is at least 1/255 away from the next
    whole number, so truncating the double is exact integer division.
  */
  function PremultiplyAlpha(channel: byte, alpha: byte): (r: byte)
    ensures r <= channel && r <= alpha
  {
    PremultiplyBounds(channel, alpha);
    channel * alpha / 255
  }

  /** The premultiplied channel is `channel * alpha / 255` rounded down. */
  lemma PremultiplyAlphaTruncates(channel: byte, alpha: byte)
    ensures var r := PremultiplyAlpha(channel, alpha); r * 255 <= channel * alpha < r * 255 + 255
  {
    var n := channel * alpha;
    assert n == (n / 255) * 255 + n % 255;
  }

  lemma PremultiplyBounds(channel: byte, alpha: byte)
    ensures 0 <= channel * alpha / 255 <= channel
    ensures channel * alpha / 255 <= alpha
  {
    var q := channel * alpha / 255;
    assert q * 255 <= channel * alpha;
    assert channel * alpha <= channel * 255 by { ScaleMonotone(channel, alpha, 255); }
    assert channel * alpha <= 255 * alpha by { ScaleMonotone(alpha, channel, 255); }
  }

  lemma ScaleMonotone(k: nat, a: nat, b: nat)
    requires a <= b
    ensures k * a <= k * b
  {
  }

  /** A fully opaque mask pixel keeps the channel; a fully transparent one clears it. */
  lemma PremultiplyAlphaExtremes(channel: byte)
    ensures PremultiplyAlpha(channel, 255) == channel
    ensures PremultiplyAlpha(channel, 0) == 0
  {
  }

  /** More alpha never darkens a channel. */
  lemma {:induction false} PremultiplyAlphaMonotone(channel: byte, a1: byte, a2: byte)
    requires a1 <= a2
    ensures PremultiplyAlpha(channel, a1) <= PremultiplyAlpha(channel, a2)
  {
    ScaleMonotone(channel, a1, a2);
  }

  /** Byte `j` (0 blue, 1 green, 2 red, 3 alpha) of a glow pixel of `color` over mask alpha `alpha`. */
  function Channel(color: Color, alpha: byte, j: int): byte {
    if j == 0 then PremultiplyAlpha(color.b, alpha)
    else if j == 1 then PremultiplyAlpha(color.g, alpha)
    else if j == 2 then PremultiplyAlpha(color.r, alpha)
    else alpha
  }

  /** The alpha byte of the pixel that byte `k` belongs to. */
  function AlphaOffset(k: nat): (o: nat)
    ensures o % 4 == 3 && k <= o + 3 && o <= k + 3 && o / 4 == k / 4
  {
    k - k % 4 + 3
  }

  /**
    The evidently intended glow bitmap: every pixel premultiplied by its own mask alpha, and the
    alpha copied unchanged.
  */
  function Premultiplied(color: Color, mask: seq<byte>): (r: seq<byte>)
    requires |mask| % 4 == 0
    ensures |r| == |mask|
    ensures forall k :: 0 <= k < |r| && k % 4 == 3 ==> r[k] == mask[k]
  {
    seq(|mask|, k requires 0 <= k < |mask| => Channel(color, mask[AlphaOffset(k)], k % 4))
  }

  /** The glow bitmap as `Create` computes it: the alpha of the first pixel, read once, used for all. */
  function PremultipliedAsWritten(color: Color, mask: seq<byte>): (r: seq<byte>)
    requires |mask| % 4 == 0 && |mask| >= 4
    ensures |r| == |mask|
  {
    seq(|mask|, k requires 0 <= k < |mask| => Channel(color, mask[3], k % 4))
  }

  /** An alpha mask: `width * height` BGRA pixels. */
  datatype AlphaMask = AlphaMask(width: nat, height: nat, bits: seq<byte>) {
    predicate Valid() {
      |bits| == 4 * (width * height)
    }
  }

  /** `IndexOutOfRangeException`: the first pixel's alpha read from an empty mask. */
  datatype CreateError = IndexOutOfRange

  lemma ValidMaskBytes(mask: AlphaMask)
    requires mask.Valid()
    ensures |mask.bits| % 4 == 0
  {
    var n := mask.width * mask.height;
    assert |mask.bits| == 4 * n;
  }

  lemma FourStep(ofs: nat, j: nat)
    requires ofs % 4 == 0 && j < 4
    ensures (ofs + j) % 4 == j && AlphaOffset(ofs + j) == ofs + 3
  {
  }

  /** A pixel that starts before the end of a whole number of pixels ends within them. */
  lemma PixelFits(ofs: nat, n: nat)
    requires ofs % 4 == 0 && n % 4 == 0 && ofs < n
    ensures ofs + 4 <= n
  {
  }

  /** The four bytes of one pixel premultiplied by alpha `a`, in B, G, R, A order. */
  function Pixel(color: Color, a: byte): seq<byte> {
    [Channel(color, a, 0), Channel(color, a, 1), Channel(color, a, 2), Channel(color, a, 3)]
  }

  /** Byte `j` of a pixel is its channel `j`. */
  lemma PixelByte(color: Color, a: byte, j: nat)
    requires j < 4
    ensures Pixel(color, a)[j] == Channel(color, a, j)
  {
    if j == 0 {} else if j == 1 {} else if j == 2 {} else {}
  }

  /** A prefix four bytes longer is the shorter prefix followed by the next four bytes. */
  lemma PrefixStep(p: seq<byte>, ofs: nat)
    requires ofs + 4 <= |p|
    ensures p[..ofs + 4] == p[..ofs] + p[ofs..ofs + 4]
  {
  }

  lemma WholePrefix(p: seq<byte>)
    ensures p[..|p|] == p
  {
  }

  /** The intended bitmap grows pixel by pixel, each over its own alpha. */
  lemma PremultipliedStep(color: Color, mask: seq<byte>, ofs: nat)
    requires |mask| % 4 == 0 && ofs % 4 == 0 && ofs < |mask|
    ensures ofs + 4 <= |mask|
    ensures Premultiplied(color, mask)[..ofs + 4] == Premultiplied(color, mask)[..ofs] + Pixel(color, mask[ofs + 3])
  {
    PixelFits(ofs, |mask|);
    PremultipliedPixel(color, mask, ofs);
    PrefixStep(Premultiplied(color, mask), ofs);
  }

  /** The four bytes of the intended bitmap at `ofs` are the pixel over that pixel's own alpha. */
  lemma PremultipliedPixel(color: Color, mask: seq<byte>, ofs: nat)
    requires |mask| % 4 == 0 && ofs % 4 == 0 && ofs + 4 <= |mask|
    ensures Premultiplied(color, mask)[ofs..ofs + 4] == Pixel(color, mask[ofs + 3])
  {
    var q := Premultiplied(color, mask)[ofs..ofs + 4];
    var px := Pixel(color, mask[ofs + 3]);
    forall j | 0 <= j < 4
      ensures q[j] == px[j]
    {
      PremultipliedByte(color, mask, ofs, j);
      PixelByte(color, mask[ofs + 3], j);
    }
    assert q == px;
  }

  /** Byte `j` of the intended pixel at `ofs` is channel `j` over that pixel's own alpha. */
  lemma PremultipliedByte(color: Color, mask: seq<byte>, ofs: nat, j: nat)
    requires |mask| % 4 == 0 && ofs % 4 == 0 && ofs + 4 <= |mask| && j < 4
    ensures Premultiplied(color, mask)[ofs + j] == Channel(color, mask[ofs + 3], j)
  {
    FourStep(ofs, j);
  }

  /** The bitmap as written grows pixel by pixel, all over the first pixel's alpha. */
  lemma AsWrittenStep(color: Color, mask: seq<byte>, ofs: nat)
    requires |mask| % 4 == 0 && |mask| >= 4 && ofs % 4 == 0 && ofs < |mask|
    ensures ofs + 4 <= |mask|
    ensures PremultipliedAsWritten(color, mask)[..ofs + 4] == PremultipliedAsWritten(color, mask)[..ofs] + Pixel(color, mask[3])
  {
    PixelFits(ofs, |mask|);
    AsWrittenPixel(color, mask, ofs);
    PrefixStep(PremultipliedAsWritten(color, mask), ofs);
  }

  /** The four bytes of the bitmap as written at `ofs` are the pixel over the first pixel's alpha. */
  lemma AsWrittenPixel(color: Color, mask: seq<byte>, ofs: nat)
    requires |mask| % 4 == 0 && |mask| >= 4 && ofs % 4 == 0 && ofs + 4 <= |mask|
    ensures PremultipliedAsWritten(color, mask)[ofs..ofs + 4] == Pixel(color, mask[3])
  {
    var q := PremultipliedAsWritten(color, mask)[ofs..ofs + 4];
    var px := Pixel(color, mask[3]);
    forall j | 0 <= j < 4
      ensures q[j] == px[j]
    {
      FourStep(ofs, j);
      PixelByte(color, mask[3], j);
    }
    assert q == px;
  }

  /**
    `GlowBitmap.Create` as written: the mask alpha is read once, at byte 3, before the loop, so
    every pixel uses the first pixel's alpha; an empty mask fails on that read.
  */
  method CreateAsWritten(mask: AlphaMask, color: Color) returns (r: Result<seq<byte>, CreateError>)
    requires mask.Valid()
    ensures |mask.bits| == 0 <==> r.Err?
    ensures r.Ok? ==> |mask.bits| >= 4 && r.value == PremultipliedAsWritten(color, mask.bits)
  {
    ValidMaskBytes(mask);
    r := FillAsWritten(mask.bits, color);
  }

  method FillAsWritten(bits: seq<byte>, color: Color) returns (r: Result<seq<byte>, CreateError>)
    requires |bits| % 4 == 0
    ensures |bits| == 0 <==> r.Err?
    ensures r.Ok? ==> |bits| >= 4 && r.value == PremultipliedAsWritten(color, bits)
  {
    if |bits| < 4 {
      return Err(IndexOutOfRange);
    }
    var diBit := bits[3];
    var out: seq<byte> := [];
    var ofs := 0;
    while ofs < |bits|
      invariant ofs % 4 == 0 && ofs <= |bits|
      invariant out == PremultipliedAsWritten(color, bits)[..ofs]
    {
      AsWrittenStep(color, bits, ofs);
      out := out + Pixel(color, diBit);
      ofs := ofs + 4;
    }
    WholePrefix(PremultipliedAsWritten(color, bits));
    return Ok(out);
  }

  /** `GlowBitmap.Create` with each pixel's own alpha read inside the loop. */
  method Create(mask: AlphaMask, color: Color) returns (out: seq<byte>)
    requires mask.Valid()
    ensures out == Premultiplied(color, mask.bits)
  {
    ValidMaskBytes(mask);
    out := Fill(mask.bits, color);
  }

  method Fill(bits: seq<byte>, color: Color) returns (out: seq<byte>)
    requires |bits| % 4 == 0
    ensures out == Premultiplied(color, bits)
  {
    out := [];
    var ofs := 0;
    while ofs < |bits|
      invariant ofs % 4 == 0 && ofs <= |bits|
      invariant out == Premultiplied(color, bits)[..ofs]
    {
      PremultipliedStep(color, bits, ofs);
      var diBit := bits[ofs + 3];
      out := out + Pixel(color, diBit);
      ofs := ofs + 4;
    }
    WholePrefix(Premultiplied(color, bits));
  }

  /**
    The bitmap as written equals the intended one exactly when every pixel of the mask has the
    first pixel's alpha.
  */
  lemma AsWrittenAgreesIffUniformAlpha(color: Color, mask: seq<byte>)
    requires |mask| % 4 == 0 && |mask| >= 4
    ensures PremultipliedAsWritten(color, mask) == Premultiplied(color, mask) <==>
      forall k :: 0 <= k < |mask| && k % 4 == 3 ==> mask[k] == mask[3]
  {
    if forall k :: 0 <= k < |mask| && k % 4 == 3 ==> mask[k] == mask[3] {
      UniformAlphaAgrees(color, mask);
    } else {
      var k :| 0 <= k < |mask| && k % 4 == 3 && mask[k] != mask[3];
      AsWrittenDiffersAt(color, mask, k);
    }
  }

  /** With one alpha throughout, reading it once gives every byte of the intended bitmap. */
  lemma UniformAlphaAgrees(color: Color, mask: seq<byte>)
    requires |mask| % 4 == 0 && |mask| >= 4
    requires forall k :: 0 <= k < |mask| && k % 4 == 3 ==> mask[k] == mask[3]
    ensures PremultipliedAsWritten(color, mask) == Premultiplied(color, mask)
  {
    var w := PremultipliedAsWritten(color, mask);
    var p := Premultiplied(color, mask);
    forall k | 0 <= k < |mask|
      ensures w[k] == p[k]
    {
      assert mask[AlphaOffset(k)] == mask[3];
    }
    assert w == p;
  }

  /** An alpha byte that differs from the first pixel's is copied wrong as written. */
  lemma AsWrittenDiffersAt(color: Color, mask: seq<byte>, k: nat)
    requires |mask| % 4 == 0 && |mask| >= 4
    requires k < |mask| && k % 4 == 3 && mask[k] != mask[3]
    ensures PremultipliedAsWritten(color, mask)[k] != Premultiplied(color, mask)[k]
  {
  }

  /**
    A two-pixel mask, opaque then transparent, tinted white: the second pixel comes out opaque
    white as written, but should be fully transparent.
  */
  lemma AsWrittenSecondPixelWrong()
    ensures var mask := [0, 0, 0, 255, 0, 0, 0, 0];
      var white := Color(255, 255, 255, 255);
      && PremultipliedAsWritten(white, mask)[4..8] == [255, 255, 255, 255]
      && Premultiplied(white, mask)[4..8] == [0, 0, 0, 0]
  {
    var mask := [0, 0, 0, 255, 0, 0, 0, 0];
    var white := Color(255, 255, 255, 255);
    PremultiplyAlphaExtremes(255);
    assert AlphaOffset(4) == 7 && AlphaOffset(5) == 7 && AlphaOffset(6) == 7 && AlphaOffset(7) == 7;
  }
}
