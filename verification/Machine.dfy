/** Fixed-width machine arithmetic, written out over the unbounded integers. */
module Machine {
  type byte = x: int | 0 <= x < 0x100
  type u32 = x: int | 0 <= x < 0x1_0000_0000
  type u64 = x: int | 0 <= x < 0x1_0000_0000_0000_0000

  const TWO31: nat := 0x8000_0000
  const TWO32: nat := 0x1_0000_0000
  const TWO63: nat := 0x8000_0000_0000_0000
  const TWO64: nat := 0x1_0000_0000_0000_0000

  datatype Option<+T> = None | Some(value: T)

  /** The value an unsigned 32-bit variable holds after being assigned `x`. */
  function Wrap32(x: int): u32 {
    x % 0x1_0000_0000
  }

  /** The value an unsigned 64-bit variable holds after being assigned `x`. */
  function Wrap64(x: int): u64 {
    x % 0x1_0000_0000_0000_0000
  }

  /** An unsigned 32-bit value reinterpreted as a signed one. */
  function Signed32(x: u32): int {
    if x < TWO31 then x else x - TWO32
  }

  /** An unsigned 64-bit value reinterpreted as a signed one. */
  function Signed64(x: u64): int {
    if x < TWO63 then x else x - TWO64
  }

  function Min(a: int, b: int): int {
    if a < b then a else b
  }

  function Max(a: int, b: int): int {
    if a < b then b else a
  }

  /** The library's `min` takes and returns `int`; its callers pass `uint32_t`. */
  function SignedMin(a: u32, b: u32): u32 {
    Wrap32(Min(Signed32(a), Signed32(b)))
  }

  /** On unsigned arguments it is the minimum exactly when neither or both reach 2^31. */
  lemma SignedMinIsMin(a: u32, b: u32)
    ensures SignedMin(a, b) == (if a < b then a else b) <==> (a == b || (a < 0x8000_0000 <==> b < 0x8000_0000))
  {
  }

  function Pow2(n: nat): (p: nat)
    ensures p > 0
  {
    if n == 0 then 1 else 2 * Pow2(n - 1)
  }

  /** Bitwise or of two non-negative numbers. */
  function BitOr(a: nat, b: nat): nat
    decreases a + b
  {
    if a == 0 then b
    else if b == 0 then a
    else 2 * BitOr(a / 2, b / 2) + (if a % 2 == 1 || b % 2 == 1 then 1 else 0)
  }

  /** Or-ing into bits that are all zero is addition. */
  lemma {:induction false} OrIntoZeroBits(high: nat, k: nat, low: nat)
    requires low < Pow2(k)
    ensures BitOr(high * Pow2(k), low) == high * Pow2(k) + low
  {
    if k > 0 && high > 0 && low > 0 {
      var shifted := high * Pow2(k - 1);
      assert high * Pow2(k) == 2 * shifted by {
        assert Pow2(k) == 2 * Pow2(k - 1);
      }
      assert shifted > 0 by {
        MulPositive(high, Pow2(k - 1));
      }
      OrIntoZeroBits(high, k - 1, low / 2);
      assert BitOr(2 * shifted, low) == 2 * BitOr(shifted, low / 2) + low % 2;
    }
  }

  lemma MulPositive(a: nat, b: nat)
    requires a > 0 && b > 0
    ensures a * b > 0
  {
  }

  /** How quotient and remainder move when the dividend grows by one. */
  lemma DivStep(q: nat, n: nat)
    requires n > 0
    ensures q % n + 1 >= n ==> (q + 1) / n == q / n + 1 && (q + 1) % n == 0
    ensures q % n + 1 < n ==> (q + 1) / n == q / n && (q + 1) % n == q % n + 1
  {
    assert q == n * (q / n) + q % n;
    if q % n + 1 >= n {
      DivUnique(q + 1, n, q / n + 1, 0);
    } else {
      DivUnique(q + 1, n, q / n, q % n + 1);
    }
  }

  /** Quotient and remainder are determined by their defining equation. */
  lemma DivUnique(a: int, n: nat, q: int, r: nat)
    requires r < n
    requires a == n * q + r
    ensures a / n == q && a % n == r
  {
    var q', r' := a / n, a % n;
    assert a == n * q' + r';
    assert n * (q - q') == r' - r by {
      assert n * (q - q') == n * q - n * q';
    }
    if q - q' >= 1 {
      MulAtLeast(n, q - q');
    } else if q - q' <= -1 {
      MulAtLeast(n, q' - q);
    }
  }

  lemma MulAtLeast(n: nat, m: int)
    requires m >= 1
    ensures n * m >= n
  {
    assert n * m == n + n * (m - 1);
  }

  lemma MulMonotone(a: nat, a': nat, b: nat, b': nat)
    requires a <= a' && b <= b'
    ensures a * b <= a' * b'
  {
    assert a' * b' == a * b + a * (b' - b) + (a' - a) * b';
    assert a * (b' - b) >= 0 && (a' - a) * b' >= 0;
  }

  lemma DivAtMost(d: nat, n: nat)
    requires n > 0
    ensures d / n <= d
  {
    assert d == n * (d / n) + d % n;
    MulMonotone(1, n, d / n, d / n);
  }

  lemma WrapSmall(x: nat)
    requires x < TWO32
    ensures Wrap32(x) == x
  {
  }

  /** Wrapping at every step is wrapping once. */
  lemma WrapStep(x: nat)
    ensures Wrap32(Wrap32(x) + 1) == Wrap32(x + 1)
  {
  }
}
