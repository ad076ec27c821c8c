/** Bit masks on natural numbers, bit by bit, and what the kernel's alignment idioms compute. */
module Bits {

  const U32_MAX: nat := 0xFFFF_FFFF

  /** `a & b`. */
  function And(a: nat, b: nat): nat {
    if a == 0 || b == 0 then 0 else (a % 2) * (b % 2) + 2 * And(a / 2, b / 2)
  }

  /** `x & ~m`. */
  function AndNot(x: nat, m: nat): nat {
    if x == 0 then 0 else (x % 2) * (1 - m % 2) + 2 * AndNot(x / 2, m / 2)
  }

  predicate PowerOfTwo(n: nat) {
    n == 1 || (n > 1 && n % 2 == 0 && PowerOfTwo(n / 2))
  }

  lemma {:induction false} AndSelf(n: nat)
    ensures And(n, n) == n
  {
    if n > 0 { AndSelf(n / 2); }
  }

  /** `n & (n - 1)` is zero exactly for the powers of two. */
  lemma {:induction false} PowerOfTwoTest(n: nat)
    requires n > 0
    ensures And(n, n - 1) == 0 <==> PowerOfTwo(n)
  {
    if n == 1 {
    } else if n % 2 == 0 {
      PowerOfTwoTest(n / 2);
      assert (n - 1) / 2 == n / 2 - 1;
      assert And(n, n - 1) == 2 * And(n / 2, n / 2 - 1);
    } else {
      AndSelf(n / 2);
      assert (n - 1) / 2 == n / 2;
      assert And(n, n - 1) == 2 * And(n / 2, n / 2);
    }
  }

  lemma {:induction false} AndNotZero(x: nat)
    ensures AndNot(x, 0) == x
  {
    if x > 0 { AndNotZero(x / 2); }
  }

  /** Quotient and remainder are unique. */
  lemma {:induction false} DivModUnique(d: nat, p: int, s: int, q: int, r: int)
    requires d > 0 && d * p + s == d * q + r && 0 <= s < d && 0 <= r < d
    ensures p == q && s == r
  {
    assert d * (p - q) == r - s;
    if p > q { MulAtLeast(d, p - q); }
    assert d * (q - p) == -(d * (p - q));
    if p < q { MulAtLeast(d, q - p); }
  }

  lemma {:induction false} MulAtLeast(d: nat, k: int)
    requires k >= 1
    ensures d * k >= d
  {
  }

  lemma {:induction false} ModUnique(x: nat, d: nat, q: int, r: int)
    requires d > 0 && x == d * q + r && 0 <= r < d
    ensures x % d == r && x / d == q
  {
    DivModUnique(d, x / d, x % d, q, r);
  }

  lemma {:induction false} ModHalf(x: nat, b: nat)
    requires b > 0
    ensures x % (2 * b) == x % 2 + 2 * ((x / 2) % b)
  {
    var q, s := (x / 2) / b, (x / 2) % b;
    assert x / 2 == b * q + s;
    assert 2 * (b * q) == (2 * b) * q;
    ModUnique(x, 2 * b, q, 2 * s + x % 2);
  }

  /** Clearing the low bits of a power of two rounds down to a multiple of it. */
  lemma {:induction false} AndNotRoundsDown(x: nat, a: nat)
    requires PowerOfTwo(a)
    ensures AndNot(x, a - 1) == x - x % a
  {
    if a == 1 {
      AndNotZero(x);
    } else {
      var b := a / 2;
      AndNotRoundsDown(x / 2, b);
      ModHalf(x, b);
      HalveMask(x, b);
      assert a == 2 * b;
    }
  }

  lemma {:induction false} HalveMask(x: nat, b: nat)
    requires b > 0
    ensures AndNot(x, 2 * b - 1) == 2 * AndNot(x / 2, b - 1)
  {
    assert (2 * b - 1) % 2 == 1 && (2 * b - 1) / 2 == b - 1;
  }

  /** A larger power of two is a multiple of a smaller one. */
  lemma {:induction false} PowerOfTwoDivides(a: nat, b: nat)
    requires PowerOfTwo(a) && PowerOfTwo(b) && a <= b
    ensures b % a == 0
  {
    if a > 1 {
      PowerOfTwoDivides(a / 2, b / 2);
      ModHalf(b, a / 2);
    }
  }

  lemma {:induction false} PowerOfTwoDouble(n: nat)
    requires PowerOfTwo(n)
    ensures PowerOfTwo(2 * n)
  {
  }

  function Pow2(k: nat): nat { if k == 0 then 1 else 2 * Pow2(k - 1) }

  lemma {:induction false} Pow2IsPower(k: nat)
    ensures PowerOfTwo(Pow2(k))
  {
    if k > 0 {
      Pow2IsPower(k - 1);
      PowerOfTwoDouble(Pow2(k - 1));
    }
  }

  lemma {:induction false} TwoTo32()
    ensures PowerOfTwo(0x1_0000_0000)
  {
    Pow2IsPower(32);
    assert Pow2(2) == 4 && Pow2(4) == 0x10 && Pow2(6) == 0x40 && Pow2(8) == 0x100;
    assert Pow2(10) == 0x400 && Pow2(12) == 0x1000 && Pow2(14) == 0x4000 && Pow2(16) == 0x1_0000;
    assert Pow2(18) == 0x4_0000 && Pow2(20) == 0x10_0000 && Pow2(22) == 0x40_0000 && Pow2(24) == 0x100_0000;
    assert Pow2(26) == 0x400_0000 && Pow2(28) == 0x1000_0000 && Pow2(30) == 0x4000_0000;
  }
}
