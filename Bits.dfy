// Unsigned integers as the C++ code treats them: bytes, powers of two and the
// bitwise exclusive or, written on natural numbers.
module Bits {
  /** An unsigned char. */
  type byte = b: int | 0 <= b < 256

  function Pow2(n: nat): (p: nat)
    ensures p >= 1
  {
    if n == 0 then 1 else 2 * Pow2(n - 1)
  }

  /** a ^ b, bit by bit from the lowest. */
  function Xor(a: nat, b: nat): nat
    decreases a + b
  {
    if a == 0 then b
    else if b == 0 then a
    else 2 * Xor(a / 2, b / 2) + (a % 2 + b % 2) % 2
  }

  /** The lowest bit of a ^ b and the bits above it. */
  lemma XorHalf(a: nat, b: nat)
    ensures Xor(a, b) % 2 == (a % 2 + b % 2) % 2
    ensures Xor(a, b) / 2 == Xor(a / 2, b / 2)
  {
    if a == 0 {
      assert Xor(a, b) == b && Xor(a / 2, b / 2) == b / 2;
      assert (a % 2 + b % 2) % 2 == b % 2;
    } else if b == 0 {
      assert Xor(a, b) == a;
      assert (a % 2 + b % 2) % 2 == a % 2;
      assert Xor(a / 2, b / 2) == a / 2 by { XorZero(a / 2); }
    } else {
      var x, p := Xor(a / 2, b / 2), (a % 2 + b % 2) % 2;
      assert Xor(a, b) == 2 * x + p;
      assert 0 <= p < 2;
      assert (2 * x + p) % 2 == p && (2 * x + p) / 2 == x;
    }
  }

  lemma XorZero(a: nat)
    ensures Xor(a, 0) == a
  {
  }

  /** A number is determined by its lowest bit and the bits above it. */
  lemma SameBits(x: nat, y: nat)
    requires x % 2 == y % 2 && x / 2 == y / 2
    ensures x == y
  {
  }

  lemma {:induction false} XorComm(a: nat, b: nat)
    ensures Xor(a, b) == Xor(b, a)
    decreases a + b
  {
    if a != 0 && b != 0 {
      XorComm(a / 2, b / 2);
    }
  }

  lemma {:induction false} XorAssoc(a: nat, b: nat, c: nat)
    ensures Xor(Xor(a, b), c) == Xor(a, Xor(b, c))
    decreases a + b + c
  {
    if a + b + c > 0 {
      XorAssoc(a / 2, b / 2, c / 2);
      XorAssocStep(a, b, c);
    }
  }

  /** Associativity carries over from the bits above the lowest to the whole. */
  lemma XorAssocStep(a: nat, b: nat, c: nat)
    requires Xor(Xor(a / 2, b / 2), c / 2) == Xor(a / 2, Xor(b / 2, c / 2))
    ensures Xor(Xor(a, b), c) == Xor(a, Xor(b, c))
  {
    var ab, bc := Xor(a, b), Xor(b, c);
    var x, y := Xor(ab, c), Xor(a, bc);
    assert x % 2 == y % 2 by {
      XorHalf(a, b); XorHalf(b, c); XorHalf(ab, c); XorHalf(a, bc);
      ParityAssoc(a, b, c, ab, bc);
    }
    assert x / 2 == y / 2 by {
      XorHalf(a, b); XorHalf(b, c); XorHalf(ab, c); XorHalf(a, bc);
    }
    SameBits(x, y);
  }

  /** The lowest bits of (a ^ b) ^ c and a ^ (b ^ c) agree, given the lowest
      bits of a ^ b (in ab) and b ^ c (in bc). */
  lemma ParityAssoc(a: nat, b: nat, c: nat, ab: nat, bc: nat)
    requires ab % 2 == (a % 2 + b % 2) % 2 && bc % 2 == (b % 2 + c % 2) % 2
    ensures (ab % 2 + c % 2) % 2 == (a % 2 + bc % 2) % 2
  {
    var pa, pb, pc := a % 2, b % 2, c % 2;
    assert pa < 2 && pb < 2 && pc < 2;
  }

  lemma {:induction false} XorSelf(a: nat)
    ensures Xor(a, a) == 0
    decreases a
  {
    if a != 0 {
      XorSelf(a / 2);
    }
  }

  /** Exclusive or never sets a bit at or above n. */
  lemma {:induction false} XorBound(a: nat, b: nat, n: nat)
    requires a < Pow2(n) && b < Pow2(n)
    ensures Xor(a, b) < Pow2(n)
  {
    if a != 0 && b != 0 {
      XorBound(a / 2, b / 2, n - 1);
    }
  }

  /** Bits below n and bits from n up do not meet: their exclusive or is their sum. */
  lemma {:induction false} XorDisjoint(r: nat, q: nat, n: nat)
    requires r < Pow2(n)
    ensures Xor(r, Pow2(n) * q) == r + Pow2(n) * q
  {
    var m := Pow2(n) * q;
    if q == 0 {
      assert m == 0;
    } else if r != 0 {
      var h := Pow2(n - 1) * q;
      assert m == 2 * h;
      MulAtLeast(Pow2(n - 1), q);
      assert m / 2 == h && m % 2 == 0 && m != 0;
      XorDisjoint(r / 2, q, n - 1);
      assert Xor(r, m) == 2 * Xor(r / 2, h) + r % 2;
    }
  }

  /** A common term cancels out of an exclusive or. */
  lemma XorCancel(p: nat, x: nat, y: nat)
    ensures Xor(Xor(p, x), Xor(p, y)) == Xor(x, y)
  {
    XorAssoc(p, x, Xor(p, y));
    XorAssoc(x, p, y);
    XorComm(x, p);
    XorAssoc(p, x, y);
    XorAssoc(p, p, Xor(x, y));
    XorSelf(p);
  }

  /** Exclusive or with a third term can be done before or after. */
  lemma XorSwap(p: nat, x: nat, y: nat)
    ensures Xor(x, Xor(p, y)) == Xor(p, Xor(x, y))
  {
    XorAssoc(x, p, y);
    XorComm(x, p);
    XorAssoc(p, x, y);
  }

  lemma {:induction false} Pow2Add(a: nat, b: nat)
    ensures Pow2(a + b) == Pow2(a) * Pow2(b)
  {
    if a > 0 {
      Pow2Add(a - 1, b);
    }
  }

  lemma Pow2Values()
    ensures Pow2(8) == 0x100 && Pow2(16) == 0x1_0000 && Pow2(32) == 0x1_0000_0000
  {
    assert Pow2(8) == 0x100;
    Pow2Add(8, 8);
    Pow2Add(16, 16);
  }

  /** a & b, bit by bit from the lowest. It clears bits and never sets one. */
  function And(a: nat, b: nat): (r: nat)
    ensures r <= a && r <= b
    decreases a + b
  {
    if a == 0 || b == 0 then 0
    else 2 * And(a / 2, b / 2) + (if a % 2 == 1 && b % 2 == 1 then 1 else 0)
  }

  /** Masking twice with the same mask is masking once. */
  lemma {:induction false} AndIdempotent(a: nat, b: nat)
    ensures And(And(a, b), b) == And(a, b)
    decreases a + b
  {
    if a != 0 && b != 0 {
      AndIdempotent(a / 2, b / 2);
      var x := And(a, b);
      assert x / 2 == And(a / 2, b / 2) && x % 2 == (if a % 2 == 1 && b % 2 == 1 then 1 else 0);
      if x != 0 {
        assert And(x, b) == 2 * And(x / 2, b / 2) + (if x % 2 == 1 && b % 2 == 1 then 1 else 0);
      }
    }
  }

  /** A mask of n one bits keeps a number below 2^n. */
  lemma {:induction false} AndOnes(a: nat, n: nat)
    requires a < Pow2(n)
    ensures And(a, Pow2(n) - 1) == a
  {
    if a != 0 {
      assert n > 0;
      assert (Pow2(n) - 1) / 2 == Pow2(n - 1) - 1 && (Pow2(n) - 1) % 2 == 1;
      AndOnes(a / 2, n - 1);
    }
  }

  /** m * x grows with m. */
  lemma {:induction false} MulAtLeast(m: nat, x: int)
    requires m >= 1 && x >= 0
    ensures m * x >= x
  {
    if m > 1 {
      MulAtLeast(m - 1, x);
      assert m * x == (m - 1) * x + x;
    }
  }

  /** Division is determined by quotient and remainder. */
  lemma {:induction false} DivUnique(n: int, d: int, q: int, r: int)
    requires d > 0 && 0 <= r < d && n == d * q + r
    ensures n / d == q && n % d == r
  {
    var q', r' := n / d, n % d;
    assert d * (q - q') == r' - r;
    if q > q' {
      MulAtLeast(q - q', d);
    } else if q < q' {
      MulAtLeast(q' - q, d);
    }
  }

  /** Splitting off the lowest byte. */
  lemma DivModByte(q: int, r: int)
    requires 0 <= r < 0x100
    ensures (q * 0x100 + r) / 0x100 == q && (q * 0x100 + r) % 0x100 == r
  {
    DivUnique(q * 0x100 + r, 0x100, q, r);
  }
}
