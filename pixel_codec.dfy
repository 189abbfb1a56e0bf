/**
 The pixel format read back by the measure pass.

 A picked pixel is a 32-bit QRgb value: alpha in bits 24-31, then red, green
 and blue. The coordinate shader packs one signed coordinate, in micrometres,
 into the 24 bits of red, green and blue, biased by 2^23 so that it is never
 negative. The decoder masks the alpha channel away, converts micrometres to
 millimetres and removes the bias.
 */
module PixelCodec {

  /** A QRgb value: an unsigned 32-bit integer. */
  type Pixel = x: int | 0 <= x < 0x1_0000_0000

  /** One 8-bit colour channel. */
  type Channel = x: int | 0 <= x < 0x100

  /** The mask that drops the alpha channel. */
  const RgbMask: nat := 0x00FF_FFFF

  /** 2^23 micrometres: the bias that makes negative coordinates representable. */
  const Bias: int := 0x80_0000

  /** The bias as the decoder subtracts it, in millimetres. */
  const BiasMillimetres: real := 8388.608

  /** The smallest and the largest coordinate the 24-bit encoding can carry, in millimetres. */
  const MinMillimetres: real := -8388.608
  const MaxMillimetres: real := 8388.607

  function Pow2(k: nat): (r: nat)
    ensures r >= 1
  {
    if k == 0 then 1 else 2 * Pow2(k - 1)
  }

  lemma Pow2At24()
    ensures Pow2(24) == 0x100_0000
  {
    assert Pow2(8) == 0x100;
    assert Pow2(16) == 0x1_0000;
  }

  /** Bitwise AND of two non-negative integers, one bit at a time from the least significant. */
  function BitAnd(a: nat, b: nat): nat
    decreases a
  {
    if a == 0 || b == 0 then 0
    else 2 * BitAnd(a / 2, b / 2) + (if a % 2 == 1 && b % 2 == 1 then 1 else 0)
  }

  /** A positive multiple of a positive number is at least that number. */
  lemma {:induction false} MulAtLeast(d: int, e: int)
    requires d > 0 && e >= 1
    ensures d * e >= d
  {
  }

  /** Euclidean division has one quotient and one remainder. */
  lemma DivModUnique(p: int, d: int, s: int, x: int)
    requires d > 0 && 0 <= x < d && p == d * s + x
    ensures p / d == s && p % d == x
  {
    var q, r := p / d, p % d;
    assert d * q + r == d * s + x;
    assert d * (q - s) == x - r;
    if q - s >= 1 {
      MulAtLeast(d, q - s);
    } else if s - q >= 1 {
      MulAtLeast(d, s - q);
    }
  }

  /** Taking the remainder by 2m is taking the last bit, then the remainder by m of the rest. */
  lemma ModDouble(p: nat, m: nat)
    requires m > 0
    ensures p % (2 * m) == 2 * ((p / 2) % m) + p % 2
  {
    var q, r := p / 2, p % 2;
    var s, t := q / m, q % m;
    assert p == (2 * m) * s + (2 * t + r);
    DivModUnique(p, 2 * m, s, 2 * t + r);
  }

  /** Masking with an odd mask 2m - 1 keeps the last bit and masks the rest with m - 1. */
  lemma BitAndOddMask(p: nat, m: nat)
    requires p > 0 && m > 0
    ensures BitAnd(p, 2 * m - 1) == 2 * BitAnd(p / 2, m - 1) + p % 2
  {
  }

  /** Masking with 2^k - 1 keeps exactly the remainder by 2^k. */
  lemma {:induction false} BitAndLowMask(p: nat, k: nat)
    ensures BitAnd(p, Pow2(k) - 1) == p % Pow2(k)
  {
    if k == 0 {
      assert Pow2(k) - 1 == 0;
    } else if p == 0 {
    } else {
      var m := Pow2(k - 1);
      assert Pow2(k) == 2 * m;
      BitAndOddMask(p, m);
      BitAndLowMask(p / 2, k - 1);
      ModDouble(p, m);
      assert BitAnd(p, 2 * m - 1) == p % (2 * m);
    }
  }

  /** The red, green and blue bits of a pixel: the low 24 bits. */
  function Rgb(p: Pixel): (r: nat)
    ensures r < 0x100_0000
  {
    p % 0x100_0000
  }

  /** The low 24 bits are what `value & 0x00ffffff` keeps. */
  lemma RgbIsMask(p: Pixel)
    ensures Rgb(p) == BitAnd(p, RgbMask)
  {
    BitAndLowMask(p, 24);
    Pow2At24();
  }

  /** The alpha bits of a pixel. */
  function Alpha(p: Pixel): (a: Channel)
  {
    p / 0x100_0000
  }

  /** The QRgb value with the given alpha, red, green and blue channels. */
  function Argb(a: Channel, r: Channel, g: Channel, b: Channel): (p: Pixel)
    ensures Alpha(p) == a
    ensures Rgb(p) == r * 0x1_0000 + g * 0x100 + b
  {
    var rgb := r * 0x1_0000 + g * 0x100 + b;
    DivModUnique(a * 0x100_0000 + rgb, 0x100_0000, a, rgb);
    a * 0x100_0000 + rgb
  }

  /** A pixel is its alpha channel above its red, green and blue bits. */
  lemma AlphaAndRgbSplit(p: Pixel)
    ensures p == Alpha(p) * 0x100_0000 + Rgb(p)
  {
  }

  /** The decoded coordinate in micrometres. */
  function DecodeMicrometres(p: Pixel): (v: int)
    ensures -Bias <= v < Bias
  {
    Rgb(p) - Bias
  }

  /**
   The decoded coordinate in millimetres, in the order the decoder computes it:
   micrometres to millimetres first, then the bias is removed.
   */
  function DecodeMillimetres(p: Pixel): (mm: real)
    ensures mm == DecodeMicrometres(p) as real / 1000.0
    ensures MinMillimetres <= mm <= MaxMillimetres
  {
    (Rgb(p) as real) / 1000.0 - BiasMillimetres
  }

  /**
   The packing the coordinate shader performs: a coordinate of v micrometres,
   with the given alpha channel.
   */
  function EncodeMicrometres(v: int, alpha: Channel): (p: Pixel)
    requires -Bias <= v < Bias
    ensures Alpha(p) == alpha
    ensures Rgb(p) == v + Bias
  {
    DivModUnique(alpha * 0x100_0000 + (v + Bias), 0x100_0000, alpha, v + Bias);
    alpha * 0x100_0000 + (v + Bias)
  }

  /** Every representable coordinate survives encoding and decoding exactly. */
  lemma DecodeEncode(v: int, alpha: Channel)
    requires -Bias <= v < Bias
    ensures DecodeMicrometres(EncodeMicrometres(v, alpha)) == v
    ensures DecodeMillimetres(EncodeMicrometres(v, alpha)) == v as real / 1000.0
  {
  }

  /** Every pixel is the encoding of its decoded coordinate under its own alpha channel. */
  lemma EncodeDecode(p: Pixel)
    ensures EncodeMicrometres(DecodeMicrometres(p), Alpha(p)) == p
  {
  }

  /** The alpha channel does not take part in the decoded value. */
  lemma AlphaIgnored(a1: Channel, a2: Channel, r: Channel, g: Channel, b: Channel)
    ensures DecodeMillimetres(Argb(a1, r, g, b)) == DecodeMillimetres(Argb(a2, r, g, b))
  {
  }

  /** Two pixels that differ only in bits 24-31 decode to the same coordinate. */
  lemma DifferOnlyInAlpha(p: Pixel, q: Pixel)
    requires (p - q) % 0x100_0000 == 0
    ensures DecodeMillimetres(p) == DecodeMillimetres(q)
  {
    var k := (p - q) / 0x100_0000;
    AlphaAndRgbSplit(q);
    assert p == (Alpha(q) + k) * 0x100_0000 + Rgb(q);
    DivModUnique(p, 0x100_0000, Alpha(q) + k, Rgb(q));
  }

  /** A larger 24-bit value decodes to a larger coordinate. */
  lemma DecodeStrictlyMonotone(p: Pixel, q: Pixel)
    ensures Rgb(p) < Rgb(q) <==> DecodeMillimetres(p) < DecodeMillimetres(q)
  {
  }

  /** Two pixels decode to the same coordinate exactly when their 24-bit values agree. */
  lemma DecodeInjective(p: Pixel, q: Pixel)
    ensures DecodeMillimetres(p) == DecodeMillimetres(q) <==> Rgb(p) == Rgb(q)
  {
  }

  /** The bias puts zero at the midpoint of the 24-bit range and the range ends at the extremes. */
  lemma BiasPlacement(p: Pixel)
    ensures DecodeMillimetres(p) == 0.0 <==> Rgb(p) == 0x80_0000
    ensures DecodeMillimetres(p) == MinMillimetres <==> Rgb(p) == 0
    ensures DecodeMillimetres(p) == MaxMillimetres <==> Rgb(p) == 0xFF_FFFF
  {
  }

  /** Minus one millimetre, the value that also marks a rejected position, is a valid decode. */
  lemma MinusOneDecodes(p: Pixel)
    ensures DecodeMillimetres(p) == -1.0 <==> Rgb(p) == 0x7F_FC18
  {
  }

  /** The colour the pass clears its target to: red, green and blue at full intensity, alpha zero. */
  const Background: Pixel := Argb(0, 0xFF, 0xFF, 0xFF)

  /** The cleared background decodes to an ordinary finite coordinate, the largest one. */
  lemma BackgroundDecodes()
    ensures Background == 0x00FF_FFFF
    ensures DecodeMillimetres(Background) == MaxMillimetres
  {
  }
}
