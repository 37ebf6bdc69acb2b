// CRAY's wavelengthToDecoColour (src/simulation/elements/CRAY.cpp): the
// decoration colour CRAY paints for a photon wavelength. The wavelength is a
// signed int; each 12-bit band of it votes for one colour channel.
module Cray {
  import opened Bits

  /** (w >> k) & 1 for an int w: the shift is arithmetic, so it floors, as
      Dafny's division by a positive number does. */
  function BitAt(w: int, k: nat): (b: int)
    ensures b == 0 || b == 1
  {
    (w / Pow2(k)) % 2
  }

  /** The number of set bits among bits lo .. lo + n - 1 of w. */
  function CountBits(w: int, lo: nat, n: nat): (c: int)
    ensures 0 <= c <= n
  {
    if n == 0 then 0 else CountBits(w, lo, n - 1) + BitAt(w, lo + n - 1)
  }

  /** The three bands: bits 18-29 vote red, 9-20 green, 0-11 blue. */
  function RedCount(w: int): int { CountBits(w, 18, 12) }
  function GreenCount(w: int): int { CountBits(w, 9, 12) }
  function BlueCount(w: int): int { CountBits(w, 0, 12) }

  /** The common factor: 624 divided by one more than the total vote. */
  function Scale(w: int): (x: int)
    ensures 16 <= x <= 624
  {
    var sum := RedCount(w) + GreenCount(w) + BlueCount(w);
    assert 1 <= sum + 1 <= 37;
    624 / (sum + 1)
  }

  function Clamp(v: int): (r: int)
    ensures 0 <= r <= 255
  {
    if v > 255 then 255 else if v < 0 then 0 else v
  }

  function Red(w: int): int { Clamp(RedCount(w) * Scale(w)) }
  function Green(w: int): int { Clamp(GreenCount(w) * Scale(w)) }
  function Blue(w: int): int { Clamp(BlueCount(w) * Scale(w)) }

  /** The returned unsigned int: alpha 0xFF, then red, green and blue. */
  function DecoColour(w: int): int
  {
    0xFF00_0000 + Red(w) * 0x1_0000 + Green(w) * 0x100 + Blue(w)
  }

  /** wavelengthToDecoColour, with its two counting loops. */
  method WavelengthToDecoColour(wavelength: int) returns (c: int)
    ensures c == DecoColour(wavelength)
  {
    var colr, colg, colb := 0, 0, 0;
    var x := 0;
    while x < 12
      invariant 0 <= x <= 12
      invariant colr == CountBits(wavelength, 18, x)
      invariant colb == CountBits(wavelength, 0, x)
    {
      colr := colr + (wavelength / Pow2(x + 18)) % 2;
      colb := colb + (wavelength / Pow2(x)) % 2;
      x := x + 1;
    }
    x := 0;
    while x < 12
      invariant 0 <= x <= 12
      invariant colg == CountBits(wavelength, 9, x)
    {
      colg := colg + (wavelength / Pow2(x + 9)) % 2;
      x := x + 1;
    }
    x := 624 / (colr + colg + colb + 1);
    colr := colr * x;
    colg := colg * x;
    colb := colb * x;
    if colr > 255 { colr := 255; } else if colr < 0 { colr := 0; }
    if colg > 255 { colg := 255; } else if colg < 0 { colg := 0; }
    if colb > 255 { colb := 255; } else if colb < 0 { colb := 0; }
    c := 0xFF00_0000 + colr * 0x1_0000 + colg * 0x100 + colb;
  }

  /** Four bytes packed high to low come apart again. */
  lemma {:induction false} Unpack(a: int, r: int, g: int, b: int)
    requires 0 <= a < 256 && 0 <= r < 256 && 0 <= g < 256 && 0 <= b < 256
    ensures var v := a * 0x100_0000 + r * 0x1_0000 + g * 0x100 + b;
      v / 0x100_0000 == a && (v / 0x1_0000) % 0x100 == r && (v / 0x100) % 0x100 == g && v % 0x100 == b
  {
    var v := a * 0x100_0000 + r * 0x1_0000 + g * 0x100 + b;
    var hi := (a * 0x100 + r) * 0x100 + g;
    assert v == hi * 0x100 + b;
    DivModByte(hi, b);
    DivModByte(a * 0x100 + r, g);
    assert v / 0x1_0000 == (v / 0x100) / 0x100;
    DivModByte(a, r);
    assert v / 0x100_0000 == (v / 0x1_0000) / 0x100;
  }

  /** The colour is opaque, and each byte holds its channel: red from bits
      18-29, green from 9-20, blue from 0-11, each the band's count scaled
      by 624 / (total + 1) and clamped to a byte. */
  lemma DecoColourFields(w: int)
    ensures DecoColour(w) / 0x100_0000 == 0xFF
    ensures (DecoColour(w) / 0x1_0000) % 0x100 == Clamp(RedCount(w) * Scale(w))
    ensures (DecoColour(w) / 0x100) % 0x100 == Clamp(GreenCount(w) * Scale(w))
    ensures DecoColour(w) % 0x100 == Clamp(BlueCount(w) * Scale(w))
  {
    Unpack(0xFF, Red(w), Green(w), Blue(w));
  }

  /** No set bit counts as zero. */
  lemma {:induction false} CountZero(w: int, lo: nat, n: nat)
    requires w == 0
    ensures CountBits(w, lo, n) == 0
  {
    if n > 0 {
      CountZero(w, lo, n - 1);
    }
  }

  /** A scaled count is dark exactly when the count is zero, and otherwise
      at least 16, since the scale never falls below 624 / 37. */
  lemma ScaledLit(count: nat, x: int)
    requires 16 <= x
    ensures Clamp(count * x) == 0 <==> count == 0
    ensures count > 0 ==> Clamp(count * x) >= 16
  {
    if count > 0 {
      MulAtLeast(count, x);
    }
  }

  /** Each channel is dark exactly when its band has no set bit, and
      otherwise at least 16. */
  lemma ChannelsLit(w: int)
    ensures Red(w) == 0 <==> RedCount(w) == 0
    ensures Green(w) == 0 <==> GreenCount(w) == 0
    ensures Blue(w) == 0 <==> BlueCount(w) == 0
    ensures RedCount(w) > 0 ==> Red(w) >= 16
    ensures GreenCount(w) > 0 ==> Green(w) >= 16
    ensures BlueCount(w) > 0 ==> Blue(w) >= 16
  {
    ScaledLit(RedCount(w), Scale(w));
    ScaledLit(GreenCount(w), Scale(w));
    ScaledLit(BlueCount(w), Scale(w));
  }

  /** Wavelength 0 (no photon colour at all) paints opaque black. */
  lemma ZeroIsBlack(w: int)
    requires w == 0
    ensures DecoColour(w) == 0xFF00_0000
  {
    CountZero(w, 18, 12);
    CountZero(w, 9, 12);
    CountZero(w, 0, 12);
    ChannelsLit(w);
    assert Red(w) == 0 && Green(w) == 0 && Blue(w) == 0;
  }

  /** The scaled votes never exceed 624 together, so a channel saturates
      only when its band holds more than 255 / 624 of the total. */
  lemma ScaledTotal(w: int)
    ensures (RedCount(w) + GreenCount(w) + BlueCount(w)) * Scale(w) < 624
  {
    var sum := RedCount(w) + GreenCount(w) + BlueCount(w);
    assert 0 <= sum && Scale(w) == 624 / (sum + 1);
    ShareBound(sum);
  }

  /** sum shares of 624 / (sum + 1) stay below 624. */
  lemma ShareBound(sum: int)
    requires 0 <= sum
    ensures sum * (624 / (sum + 1)) < 624
  {
    var s1, x := sum + 1, 624 / (sum + 1);
    assert s1 * x + 624 % s1 == 624 && 0 <= 624 % s1;
    assert s1 * x == sum * x + x;
    assert x >= 0;
    if x == 0 {
      assert sum * x == 0;
    }
  }
}
