/** Integer and bit arithmetic of a C++ `int` on a 32-bit two's-complement
    platform, as used by applySubnetMask: the left shift of a small
    positive mask and the operator `&`. Everything is on unbounded
    integers; the 32-bit width is written out where it matters. */
module Bits {

  const TwoTo32: int := 0x1_0000_0000
  const IntMin: int := -0x8000_0000
  const IntMax: int := 0x7FFF_FFFF

  /** 2 to the power n; `x << n` for a non-negative `x` that does not overflow is `x * Pow2(n)`. */
  function Pow2(n: nat): (r: nat)
    ensures r >= 1
  {
    if n == 0 then 1 else 2 * Pow2(n - 1)
  }

  lemma {:induction false} Pow2Monotone(a: nat, b: nat)
    requires a <= b
    ensures Pow2(a) <= Pow2(b)
    decreases b - a
  {
    if a < b {
      Pow2Monotone(a, b - 1);
    }
  }

  lemma Pow2Values()
    ensures Pow2(8) == 256 && Pow2(16) == 0x1_0000 && Pow2(32) == TwoTo32
  {
    assert Pow2(4) == 16;
    assert Pow2(8) == 256;
    assert Pow2(12) == 0x1000;
    assert Pow2(16) == 0x1_0000;
    assert Pow2(20) == 0x10_0000;
    assert Pow2(24) == 0x100_0000;
    assert Pow2(28) == 0x1000_0000;
  }

  /** Bitwise AND of two non-negative integers, taken one bit at a time
      from the least significant bit. */
  function BitAnd(a: nat, b: nat): (r: nat)
    ensures r <= a && r <= b
  {
    if a == 0 || b == 0 then 0
    else 2 * BitAnd(a / 2, b / 2) + (if a % 2 == 1 && b % 2 == 1 then 1 else 0)
  }

  /** A 32-bit pattern read back as a signed C++ `int`. */
  function ToSigned32(u: int): (r: int)
    requires 0 <= u < TwoTo32
    ensures IntMin <= r <= IntMax
    ensures r % TwoTo32 == u
  {
    if u <= IntMax then u else u - TwoTo32
  }

  /** The C++ expression `a & b` on two `int`s: the AND of their
      two's-complement patterns. A non-negative mask bounds the result. */
  function And32(a: int, b: int): (r: int)
    ensures IntMin <= r <= IntMax
    ensures 0 <= b <= IntMax ==> 0 <= r <= b
  {
    ToSigned32(BitAnd(a % TwoTo32, b % TwoTo32))
  }

  lemma MulNonNegative(m: int, k: int)
    requires m >= 0 && k >= 0
    ensures m * k >= 0
  {
  }

  /** A multiple of m strictly between -m and m is zero. */
  lemma SmallMultiple(m: int, t: int)
    requires m > 0 && -m < m * t < m
    ensures t == 0
  {
    if t > 0 {
      MulNonNegative(m, t - 1);
    } else if t < 0 {
      MulNonNegative(m, -t - 1);
    }
  }

  /** Quotient and remainder are determined by any decomposition u == m * q + d with 0 <= d < m. */
  lemma DivModUnique(u: int, m: int, q: int, d: int)
    requires m > 0 && 0 <= d < m && u == m * q + d
    ensures u / m == q && u % m == d
  {
    var q', d' := u / m, u % m;
    assert m * q' + d' == u;
    assert m * (q' - q) == d - d';
    SmallMultiple(m, q' - q);
  }

  /** Halving first and then dividing by q is dividing by 2 * q; the remainder modulo 2 * q keeps bit 0. */
  lemma HalveThenDivide(u: nat, q: nat)
    requires q > 0
    ensures (u / 2) / q == u / (2 * q)
    ensures u % (2 * q) == 2 * ((u / 2) % q) + u % 2
  {
    var h := u / 2;
    assert u == 2 * h + u % 2;
    assert h == q * (h / q) + h % q;
    assert u == (2 * q) * (h / q) + (2 * (h % q) + u % 2);
    DivModUnique(u, 2 * q, h / q, 2 * (h % q) + u % 2);
  }

  /** ANDing with a run of k low one-bits keeps the value modulo 2^k. */
  lemma {:induction false} AndLowOnes(u: nat, k: nat)
    ensures BitAnd(u, Pow2(k) - 1) == u % Pow2(k)
  {
    if k == 0 {
      assert Pow2(k) == 1;
    } else if u == 0 {
      DivModUnique(0, Pow2(k), 0, 0);
    } else {
      AndLowOnes(u / 2, k - 1);
      AndLowOnesStep(u, Pow2(k - 1));
    }
  }

  lemma AndLowOnesStep(u: nat, half: nat)
    requires u > 0 && half >= 1
    requires BitAnd(u / 2, half - 1) == (u / 2) % half
    ensures BitAnd(u, 2 * half - 1) == u % (2 * half)
  {
    var m := 2 * half - 1;
    DivModUnique(m, 2, half - 1, 1);
    AndOddMask(u, m);
    HalveThenDivide(u, half);
  }

  lemma AndOddMask(u: nat, m: nat)
    requires u > 0 && m % 2 == 1
    ensures BitAnd(u, m) == 2 * BitAnd(u / 2, m / 2) + u % 2
  {
  }

  /** A mask whose bit 0 is clear passes bit 0 of nothing: the AND is twice the AND of the halves. */
  lemma AndEvenMask(u: nat, m: nat)
    ensures BitAnd(u, 2 * m) == 2 * BitAnd(u / 2, m)
  {
    if u > 0 && m > 0 {
      assert (2 * m) / 2 == m && (2 * m) % 2 == 0;
    }
  }

  /** ANDing with `255 << s` keeps bits s to s + 7: the byte (u >> s) & 255, shifted back by s. */
  lemma {:induction false} AndShiftedByte(u: nat, s: nat)
    ensures BitAnd(u, 255 * Pow2(s)) == ((u / Pow2(s)) % 256) * Pow2(s)
  {
    if s == 0 {
      AndLowByte(u, Pow2(s));
    } else {
      AndShiftedByte(u / 2, s - 1);
      AndShiftedByteStep(u, Pow2(s - 1));
    }
  }

  lemma AndLowByte(u: nat, p: nat)
    requires p == 1
    ensures BitAnd(u, 255 * p) == ((u / p) % 256) * p
  {
    Pow2Values();
    AndLowOnes(u, 8);
    DivModUnique(u, 1, u, 0);
  }

  lemma AndShiftedByteStep(u: nat, p: nat)
    requires p >= 1
    requires BitAnd(u / 2, 255 * p) == (((u / 2) / p) % 256) * p
    ensures BitAnd(u, 255 * (2 * p)) == ((u / (2 * p)) % 256) * (2 * p)
  {
    AndEvenMask(u, 255 * p);
    HalveThenDivide(u, p);
    DoubleFactor((u / (2 * p)) % 256, p);
  }

  lemma DoubleFactor(b: int, p: int)
    ensures 2 * (b * p) == b * (2 * p)
  {
  }

  lemma DivNotAbove(x: nat, p: nat)
    requires p >= 1
    ensures x / p <= x
  {
    var q := x / p;
    MulNonNegative(q, p - 1);
    assert q * p == q * (p - 1) + q;
  }

  /** Below 256 the byte at p is x with its bits under p cleared. */
  lemma ByteOfSmall(x: int, p: nat)
    requires 0 <= x < 256 && p >= 1
    ensures ((x % TwoTo32) / p % 256) * p == x - x % p
  {
    DivModUnique(x, TwoTo32, 0, x);
    DivNotAbove(x, p);
    DivModUnique(x / p, 256, 0, x / p);
  }

  /** A byte put in place at p is read back unchanged. */
  lemma ByteFixed(b: int, p: nat)
    requires 0 <= b < 256 && 1 <= p <= 256
    ensures var y := b * p; ((y % TwoTo32) / p % 256) * p == y
  {
    var y := b * p;
    assert y <= 255 * 256 by {
      MulNonNegative(255 - b, p);
      MulNonNegative(b, 256 - p);
    }
    DivModUnique(y, TwoTo32, 0, y);
    DivModUnique(y, p, b, 0);
    DivModUnique(b, 256, 0, b);
  }

  /** The low byte of an int is the low byte of its 32-bit pattern. */
  lemma LowByte(x: int)
    ensures (x % TwoTo32) % 256 == x % 256
  {
    var u := x % TwoTo32;
    assert x == TwoTo32 * (x / TwoTo32) + u;
    DivModUnique(x, 256, 0x100_0000 * (x / TwoTo32) + u / 256, u % 256);
  }

  /** Bits 8 to 15 of the 32-bit pattern of x, in place. */
  lemma SecondByte(x: int)
    ensures ((x % TwoTo32) / 256 % 256) * 256 == x % 0x1_0000 - x % 256
  {
    var u := x % TwoTo32;
    var v := u / 256;
    var w := v % 256;
    LowByte(x);
    assert u == 256 * v + x % 256;
    assert v == 256 * (v / 256) + w;
    assert x == TwoTo32 * (x / TwoTo32) + u;
    DivModUnique(x, 0x1_0000, 0x1_0000 * (x / TwoTo32) + v / 256, 256 * w + x % 256);
  }
}
