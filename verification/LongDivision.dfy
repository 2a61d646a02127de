/** 64-bit division for the 32-bit build: shift and subtract, one bit at a time. */
module LongDivision {
  import opened Machine

  /** `a >> i`. */
  function Shr(a: nat, i: nat): int {
    a / Pow2(i)
  }

  /** Bit `i` of `a`, as `(a >> i) & 1`. */
  function Bit(a: u64, i: nat): u64 {
    Shr(a, i) % 2
  }

  /** `x << k` in 64 bits. */
  function Shl64(x: u64, k: nat): u64 {
    Wrap64(x * Pow2(k))
  }

  function Or64(a: u64, b: u64): nat {
    BitOr(a, b)
  }

  /** Dropping one bit less: the quotient by a smaller power takes in one more bit. */
  lemma HalfStep(a: nat, i: nat)
    ensures Shr(a, i) == 2 * Shr(a, i + 1) + Shr(a, i) % 2
  {
    var p, q := Pow2(i), a / Pow2(i);
    var r := a % p;
    assert a == p * q + r;
    assert q == 2 * (q / 2) + q % 2;
    assert a == (2 * p) * (q / 2) + (p * (q % 2) + r) by {
      assert p * q == p * (2 * (q / 2)) + p * (q % 2);
      assert p * (2 * (q / 2)) == (2 * p) * (q / 2);
    }
    assert 0 <= p * (q % 2) + r < 2 * p;
    DivUnique(a, 2 * p, q / 2, p * (q % 2) + r);
  }

  lemma ShiftedBelow(a: nat, i: nat)
    ensures Shr(a, i) <= a
  {
    DivAtMost(a, Pow2(i));
  }

  lemma DoubleProduct(x: nat, y: nat)
    ensures 2 * (x * y) == (2 * x) * y
  {
  }

  lemma {:induction false} Pow2Adds(a: nat, b: nat)
    ensures Pow2(a + b) == Pow2(a) * Pow2(b)
  {
    if a > 0 {
      Pow2Adds(a - 1, b);
      DoubleProduct(Pow2(a - 1), Pow2(b));
    }
  }

  lemma Pow2Is8(n: nat)
    requires n == 8
    ensures Pow2(n) == 0x100
  {
    assert Pow2(n - 6) == 4;
    assert Pow2(n - 4) == 0x10;
    assert Pow2(n - 2) == 0x40;
  }

  lemma Pow2Is64(n: nat)
    requires n == 64
    ensures Pow2(n) == TWO64
  {
    hide Pow2;
    Pow2Is8(n / 8);
    Pow2Adds(n / 8, n / 8);
    Pow2Adds(n / 4, n / 4);
    Pow2Adds(n / 2, n / 2);
  }

  /** An 8-bit step no longer than needed: zeros below, one bit or-ed in. */
  lemma OrBit(x: nat, bit: nat)
    requires bit < 2
    ensures BitOr(2 * x, bit) == 2 * x + bit
  {
    OrIntoZeroBits(x, 1, bit);
  }

  /** The remainder so far never exceeds the part of the dividend taken in, so doubling it is exact. */
  lemma NoBitLost(a: u64, remainder: nat, i: nat)
    requires remainder <= Shr(a, i + 1)
    ensures 2 * remainder + 1 < TWO64
    ensures Shl64(remainder, 1) == 2 * remainder
  {
    HalfStep(a, i);
    ShiftedBelow(a, i);
    assert Pow2(1) == 2;
  }

  /**
   One round on the part of the dividend above bit `i`.  For a zero divisor nothing
   is ever subtracted away, so the remainder is the whole part.
   */
  ghost predicate Divided(part: int, b: nat, quotient: nat, remainder: nat) {
    if b == 0 then remainder == part
    else part == quotient * b + remainder && remainder < b
  }

  lemma Round(part: int, b: nat, quotient: nat, remainder: nat, bit: nat)
    requires Divided(part, b, quotient, remainder) && bit < 2
    ensures var r := 2 * remainder + bit;
            if r >= b then Divided(2 * part + bit, b, 2 * quotient + 1, r - b)
            else Divided(2 * part + bit, b, 2 * quotient, r)
  {
    if b > 0 {
      assert (2 * quotient + 1) * b == 2 * (quotient * b) + b;
      assert (2 * quotient) * b == 2 * (quotient * b);
    }
  }

  lemma DividedBelow(part: int, b: nat, quotient: nat, remainder: nat)
    requires Divided(part, b, quotient, remainder)
    ensures remainder <= part
  {
    if b > 0 {
      MulMonotone(0, quotient, b, b);
    }
  }

  /** One pass of either loop, in the machine's own operations. */
  lemma Pass(a: u64, b: u64, top: nat, remainder: u64, i: nat)
    requires Divided(Shr(a, i + 1), b, top, remainder)
    ensures var r := Or64(Shl64(remainder, 1), Bit(a, i));
            && r < TWO64
            && (if r >= b then Divided(Shr(a, i), b, 2 * top + 1, r - b) else Divided(Shr(a, i), b, 2 * top, r))
  {
    hide Shr, Shl64, Divided, BitOr;
    DividedBelow(Shr(a, i + 1), b, top, remainder);
    NoBitLost(a, remainder, i);
    HalfStep(a, i);
    OrBit(remainder, Bit(a, i));
    Round(Shr(a, i + 1), b, top, remainder, Bit(a, i));
  }

  /** The quotient; all ones when the divisor is zero. */
  method Udivdi3(a: u64, b: u64) returns (quotient: u64)
    ensures b > 0 ==> quotient == a / b
    ensures b == 0 ==> quotient == TWO64 - 1
  {
    hide Divided, Shl64, Shr, Or64, Bit;
    quotient := 0;
    var remainder: u64 := 0;
    var divisor := b;
    ghost var top: nat := 0;  // the bits of the quotient found so far
    var i := 63;
    Start(a, b, i + 1);
    while i >= 0
      invariant -1 <= i <= 63
      invariant quotient == top * Pow2(i + 1)
      invariant top < Pow2(63 - i) && (b == 0 ==> top == Pow2(63 - i) - 1)
      invariant Divided(Shr(a, i + 1), b, top, remainder)
    {
      Pass(a, b, top, remainder, i);
      QuotientBit(top, i);
      remainder := Shl64(remainder, 1);
      remainder := Or64(remainder, Bit(a, i));
      top := 2 * top;
      if remainder >= divisor {
        remainder := remainder - divisor;
        quotient := Or64(quotient, Shl64(1, i));
        top := top + 1;
      }
      i := i - 1;
    }
    Finish(a, b, top, remainder);
    if b == 0 {
      Pow2Is64(63 - i);
    }
  }

  /** The remainder; the dividend itself when the divisor is zero. */
  method Umoddi3(a: u64, b: u64) returns (remainder: u64)
    ensures b > 0 ==> remainder == a % b
    ensures b == 0 ==> remainder == a
  {
    hide Divided, Shl64, Shr, Or64, Bit;
    remainder := 0;
    var divisor := b;
    ghost var top: nat := 0;
    var i := 63;
    Start(a, b, i + 1);
    while i >= 0
      invariant -1 <= i <= 63
      invariant Divided(Shr(a, i + 1), b, top, remainder)
    {
      Pass(a, b, top, remainder, i);
      remainder := Shl64(remainder, 1);
      remainder := Or64(remainder, Bit(a, i));
      top := 2 * top;
      if remainder >= divisor {
        remainder := remainder - divisor;
        top := top + 1;
      }
      i := i - 1;
    }
    Finish(a, b, top, remainder);
  }

  lemma Start(a: u64, b: u64, n: nat)
    requires n == 64
    ensures Divided(Shr(a, n), b, 0, 0)
  {
    hide Pow2;
    Pow2Is64(n);
    SmallOverLarge(a, Pow2(n));
  }

  lemma SmallOverLarge(a: nat, n: nat)
    requires a < n
    ensures a / n == 0
  {
    DivUnique(a, n, 0, a);
  }

  /** All bits taken in: the quotient and remainder are those of the whole dividend. */
  lemma Finish(a: u64, b: u64, quotient: nat, remainder: nat)
    requires Divided(Shr(a, 0), b, quotient, remainder)
    ensures b > 0 ==> quotient == a / b && remainder == a % b
    ensures b == 0 ==> remainder == a
    ensures quotient * Pow2(0) == quotient
  {
    assert Pow2(0) == 1 && Shr(a, 0) == a;
    if b > 0 {
      DivUnique(a, b, quotient, remainder);
    }
  }

  /** Setting bit `i` in a quotient whose lower bits are still zero. */
  lemma QuotientBit(top: nat, i: nat)
    requires i <= 63 && top < Pow2(63 - i)
    ensures top * Pow2(i + 1) == (2 * top) * Pow2(i)
    ensures 2 * top + 1 < Pow2(64 - i)
    ensures (2 * top + 1) * Pow2(i) < TWO64
    ensures Or64(top * Pow2(i + 1), Shl64(1, i)) == (2 * top + 1) * Pow2(i)
    ensures top == Pow2(63 - i) - 1 ==> 2 * top + 1 == Pow2(64 - i) - 1
  {
    var p := Pow2(i);
    assert Pow2(i + 1) == 2 * p;
    assert Pow2(64 - i) == 2 * Pow2(63 - i);
    ShiftInto(top, p);
    Pow2Adds(i, 64 - i);
    Pow2Is64(i + (64 - i));
    FitsBelow(2 * top + 1, Pow2(64 - i), p);
    assert p < TWO64 by { MulMonotone(1, Pow2(64 - i), p, p); }
    assert Shl64(1, i) == p;
    OrIntoZeroBits(top, i + 1, p);
  }

  lemma ShiftInto(top: nat, p: nat)
    ensures top * (2 * p) == (2 * top) * p
    ensures (2 * top + 1) * p == top * (2 * p) + p
  {
  }

  lemma FitsBelow(x: nat, n: nat, p: nat)
    requires x < n && p > 0
    ensures x * p < p * n
  {
    MulMonotone(x + 1, n, p, p);
    assert (x + 1) * p == x * p + p;
  }
}
