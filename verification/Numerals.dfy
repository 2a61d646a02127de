/** Printing numbers: the digit loop, and reading its output back. */
module Numerals {
  import opened Machine
  import opened LongDivision

  const DIGITS: string := "0123456789abcdef"

  /** The radixes whose 64-bit numerals fit the 32-character buffer. */
  type Radix = r: int | 4 <= r <= 16 witness 10

  /** The numeral of `n`, most significant digit first. */
  function Numeral(n: nat, radix: Radix): (s: string)
    ensures s != []
  {
    if n < radix then [DIGITS[n]] else Numeral(n / radix, radix) + [DIGITS[n % radix]]
  }

  /** The numeral with a minus sign in front for a negative number. */
  function SignedNumeral(n: int, radix: Radix): string {
    if n < 0 then ['-'] + Numeral(-n, radix) else Numeral(n, radix)
  }

  // ---------------------------------------------------------------- reading back

  /** The value of a digit character, or -1. */
  function DigitValue(c: char): int {
    if '0' <= c <= '9' then c as int - '0' as int
    else if 'a' <= c <= 'f' then c as int - 'a' as int + 10
    else -1
  }

  predicate IsNumeral(s: string, radix: Radix) {
    s != [] && forall i :: 0 <= i < |s| ==> 0 <= DigitValue(s[i]) < radix
  }

  function ValueOf(s: string, radix: Radix): (n: nat)
    requires forall i :: 0 <= i < |s| ==> 0 <= DigitValue(s[i]) < radix
  {
    if s == [] then 0
    else
      var upper, digit := ValueOf(s[..|s| - 1], radix), DigitValue(s[|s| - 1]);
      ShiftedInIsNat(upper, digit, radix);
      radix * upper + digit
  }

  lemma ShiftedInIsNat(upper: nat, digit: nat, radix: Radix)
    ensures radix * upper + digit >= 0
  {
  }

  lemma DigitValueOfDigit(d: nat)
    requires d < 16
    ensures DigitValue(DIGITS[d]) == d
  {
  }

  lemma DigitOfDigitValue(c: char)
    requires 0 <= DigitValue(c) < 16
    ensures DIGITS[DigitValue(c)] == c
  {
  }

  /** Reading a numeral gives the number, and it starts with 0 only for 0 itself. */
  lemma {:induction false} NumeralReadsBack(n: nat, radix: Radix)
    ensures IsNumeral(Numeral(n, radix), radix)
    ensures ValueOf(Numeral(n, radix), radix) == n
    ensures n > 0 ==> Numeral(n, radix)[0] != '0'
    ensures n == 0 ==> Numeral(n, radix) == "0"
    decreases n
  {
    DigitValueOfDigit(n % radix);
    if n < radix {
      assert n % radix == n;
      assert Numeral(n, radix)[..0] == [];
    } else {
      var q := n / radix;
      assert n == radix * q + n % radix;
      QuotientSmaller(n, radix);
      NumeralReadsBack(q, radix);
      assert Numeral(n, radix)[..|Numeral(q, radix)|] == Numeral(q, radix);
    }
  }

  lemma QuotientSmaller(n: nat, radix: Radix)
    requires n >= radix
    ensures 0 < n / radix < n
  {
  }

  /** A string of digits without a leading zero is the numeral of its value: numerals are unique. */
  lemma {:induction false} ReadBackIsNumeral(s: string, radix: Radix)
    requires IsNumeral(s, radix)
    requires s[0] == '0' ==> |s| == 1
    ensures Numeral(ValueOf(s, radix), radix) == s
    decreases |s|
  {
    hide Numeral, ValueOf, DigitValue;
    if |s| == 1 {
      OneDigit(s, radix);
    } else {
      ReadBackIsNumeral(s[..|s| - 1], radix);
      DigitOfDigitValue(s[|s| - 1]);
      ValueStep(s, radix);
      NumeralExtends(ValueOf(s[..|s| - 1], radix), DigitValue(s[|s| - 1]), radix);
      assert s == s[..|s| - 1] + [s[|s| - 1]];
    }
  }

  lemma OneDigit(s: string, radix: Radix)
    requires IsNumeral(s, radix) && |s| == 1
    ensures Numeral(ValueOf(s, radix), radix) == s
  {
    DigitOfDigitValue(s[0]);
    assert s[..0] == [];
    assert ValueOf(s, radix) == DigitValue(s[0]);
  }

  lemma ValueStep(s: string, radix: Radix)
    requires IsNumeral(s, radix)
    ensures ValueOf(s, radix) == radix * ValueOf(s[..|s| - 1], radix) + DigitValue(s[|s| - 1])
  {
  }

  lemma NumeralExtends(v: nat, d: nat, radix: Radix)
    requires d < radix && Numeral(v, radix)[0] != '0'
    ensures Numeral(radix * v + d, radix) == Numeral(v, radix) + [DIGITS[d]]
  {
    assert v > 0;
    MulAtLeast(radix, v);
    DivUnique(radix * v + d, radix, v, d);
  }

  /** A 64-bit number needs no more characters than the buffer has. */
  lemma {:induction false} NumeralFits(n: nat, radix: Radix, width: nat)
    requires width > 0 && n < Pow4(width)
    ensures |Numeral(n, radix)| <= width
    decreases width
  {
    if n >= radix {
      assert Pow4(width) == 4 * Pow4(width - 1);
      assert n / radix < Pow4(width - 1) by { QuotientBelow(n, radix, Pow4(width - 1)); }
      assert width > 1;
      NumeralFits(n / radix, radix, width - 1);
    }
  }

  function Pow4(k: nat): (p: nat)
    ensures p > 0
  {
    if k == 0 then 1 else 4 * Pow4(k - 1)
  }

  lemma QuotientBelow(n: nat, radix: Radix, m: nat)
    requires n < 4 * m
    ensures n / radix < m
  {
    assert n == radix * (n / radix) + n % radix;
    if n / radix >= m {
      MulMonotone(4, radix, m, n / radix);
    }
  }

  lemma Pow4Is64(k: nat)
    requires k == 32
    ensures Pow4(k) == TWO64
  {
    var e := k / 8;
    assert Pow4(e) == 0x100;
    Pow4Adds(e, e);
    Pow4Adds(2 * e, 2 * e);
    Pow4Adds(4 * e, 4 * e);
  }

  lemma {:induction false} Pow4Adds(a: nat, b: nat)
    ensures Pow4(a + b) == Pow4(a) * Pow4(b)
  {
    if a > 0 {
      Pow4Adds(a - 1, b);
      FourfoldProduct(Pow4(a - 1), Pow4(b));
    }
  }

  lemma FourfoldProduct(x: nat, y: nat)
    ensures 4 * (x * y) == (4 * x) * y
  {
  }

  /** A signed numeral reads back as its sign and its magnitude. */
  lemma SignedNumeralReadsBack(n: int, radix: Radix)
    ensures var s := SignedNumeral(n, radix);
            if n < 0 then s != "" && s[0] == '-' && IsNumeral(s[1..], radix) && ValueOf(s[1..], radix) == -n
            else IsNumeral(s, radix) && ValueOf(s, radix) == n
  {
    hide Numeral, ValueOf, IsNumeral;
    if n < 0 {
      NumeralReadsBack(-n, radix);
      assert SignedNumeral(n, radix)[1..] == Numeral(-n, radix);
    } else {
      NumeralReadsBack(n, radix);
    }
  }

  // ---------------------------------------------------------------- the digit loop

  function Reversed(s: string): (r: string)
    ensures |r| == |s|
  {
    if s == [] then [] else Reversed(s[1..]) + [s[0]]
  }

  lemma {:induction false} ReversedSnoc(s: string, c: char)
    ensures Reversed(s + [c]) == [c] + Reversed(s)
  {
    if s != [] {
      assert (s + [c])[1..] == s[1..] + [c];
      ReversedSnoc(s[1..], c);
    }
  }

  function Front(n: nat, radix: Radix): nat {
    n / radix
  }

  function Last(n: nat, radix: Radix): nat {
    n % radix
  }

  /** `number % radix` and `number / radix`, which the 32-bit build computes by long division. */
  method SplitLast(number: u64, radix: Radix) returns (rem: u64, rest: u64)
    ensures rem == Last(number, radix) && rest == Front(number, radix)
  {
    rem := Umoddi3(number, radix);
    rest := Udivdi3(number, radix);
  }

  /** The digit loop: fills the 32-character buffer from the last digit on. */
  method CollectDigits(value: u64, radix: Radix, buffer: array<char>) returns (pos: nat)
    requires buffer.Length == 32
    modifies buffer
    ensures pos <= 32 && Reversed(buffer[..pos]) == Numeral(value, radix)
  {
    hide Numeral, Pow4, Reversed, Front, Last;
    var number: u64 := value;
    pos := 0;
    Pow4Is64(32);
    ReversedEmpty();
    assert buffer[..0] == [];
    while true
      invariant 0 <= pos <= 32
      invariant number < Pow4(32 - pos) && (pos > 0 ==> number > 0)
      invariant Numeral(value, radix) == Numeral(number, radix) + Reversed(buffer[..pos])
      decreases number
    {
      DigitStep(number, radix, 32 - pos);
      var rem, rest := SplitLast(number, radix);
      number := rest;
      AppendReversed(buffer, pos, DIGITS[rem]);
      pos := pos + 1;
      if !(number > 0) {
        break;
      }
    }
  }

  /** `buffer[pos++] = c`. */
  method AppendReversed(buffer: array<char>, pos: nat, c: char)
    requires pos < buffer.Length
    modifies buffer
    ensures Reversed(buffer[..pos + 1]) == [c] + old(Reversed(buffer[..pos]))
  {
    ghost var before := buffer[..pos];
    buffer[pos] := c;
    assert buffer[..pos + 1] == before + [c];
    ReversedSnoc(before, c);
  }

  /** Prints a number: the digits collected, backwards. */
  method PrintfUnsigned(value: u64, radix: Radix) returns (out: string)
    ensures out == Numeral(value, radix)
  {
    hide Numeral, Reversed;
    var buffer := new char[32](_ => '\0');
    var count := CollectDigits(value, radix, buffer);
    ghost var digits := buffer[..count];
    out := [];
    ReversedEmpty();
    assert buffer[..0] == [];
    var pos: int := count - 1;
    while pos >= 0
      invariant -1 <= pos < count <= 32
      invariant Reversed(digits) == out + Reversed(buffer[..pos + 1])
    {
      assert buffer[..pos + 1] == buffer[..pos] + [buffer[pos]];
      ReversedSnoc(buffer[..pos], buffer[pos]);
      out := out + [buffer[pos]];
      pos := pos - 1;
    }
    assert buffer[..pos + 1] == [];
  }

  lemma ReversedEmpty()
    ensures Reversed([]) == []
  {
  }

  /** One pass of the digit loop: there is room, and the digit taken off is the last one. */
  lemma DigitStep(n: nat, radix: Radix, room: nat)
    requires n < Pow4(room) && (n > 0 || room > 0)
    ensures room > 0 && Front(n, radix) < Pow4(room - 1)
    ensures Last(n, radix) < 16
    ensures Numeral(n, radix) ==
            (if Front(n, radix) > 0 then Numeral(Front(n, radix), radix) else []) + [DIGITS[Last(n, radix)]]
    ensures Front(n, radix) > 0 ==> Front(n, radix) < n
  {
    QuotientBelow(n, radix, Pow4(room - 1));
    if n < radix {
      DivUnique(n, radix, 0, n);
    } else {
      QuotientSmaller(n, radix);
    }
  }

  /** A 64-bit number taken as signed, with a minus sign in front when it is negative. */
  method PrintfSigned(number: u64, radix: Radix) returns (out: string)
    ensures out == SignedNumeral(Signed64(number), radix)
  {
    hide Numeral;
    if Signed64(number) < 0 {
      var magnitude := Wrap64(-Signed64(number));
      assert magnitude == -Signed64(number);
      var digits := PrintfUnsigned(magnitude, radix);
      out := ['-'] + digits;
    } else {
      out := PrintfUnsigned(number, radix);
    }
  }
}
