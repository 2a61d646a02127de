/**
 What the conversions of a format print, in the terms of the caller: the bits of the
 argument that was passed, the characters that come out, and the number they read back
 to.  Nothing here speaks of how the formatters parse a format or convert a number.
 */
module FormatMeaning {
  import opened Machine
  import opened VarArgs
  import opened Numerals
  import opened Formats
  import opened Printf
  import opened FormatAgreement

  /** The length modifiers that can stand between the percent sign and the specifier. */
  predicate IsModifier(m: string) {
    m == "" || m == "h" || m == "hh" || m == "l" || m == "ll"
  }

  /** The width of the argument: `long` has the target's word, `long long` 64 bits, all else 32. */
  function Width(abi: Abi, m: string): nat {
    if m == "ll" || (m == "l" && abi.Amd64?) then 64 else 32
  }

  /** The argument's bits.  On the 32-bit target a `long long` has its low half in front. */
  function ArgumentBits(env: Env, m: string, pos: nat): nat {
    if Width(env.abi, m) == 32 then env.slots(pos) % 0x1_0000_0000
    else if env.abi.Amd64? then env.slots(pos) % 0x1_0000_0000_0000_0000
    else env.slots(pos) % 0x1_0000_0000 + 0x1_0000_0000 * (env.slots(pos + 1) % 0x1_0000_0000)
  }

  /** The signed number with these bits. */
  function SignedArgument(env: Env, m: string, pos: nat): int {
    var bits := ArgumentBits(env, m, pos);
    if Width(env.abi, m) == 32 then (if bits < 0x8000_0000 then bits else bits - 0x1_0000_0000)
    else (if bits < 0x8000_0000_0000_0000 then bits else bits - 0x1_0000_0000_0000_0000)
  }

  /** How many argument slots a number takes. */
  function NumberSlots(abi: Abi, m: string): nat {
    if abi.Ia32? && m == "ll" then 2 else 1
  }

  /** The base each unsigned specifier asks for. */
  predicate UnsignedIn(spec: char, base: nat) {
    || (spec == 'u' && base == 10)
    || (spec == 'o' && base == 8)
    || ((spec == 'x' || spec == 'X' || spec == 'p') && base == 16)
  }

  // ---------------------------------------------------------------- one directive and the rest

  function LengthOf(m: string): Length {
    if m == "h" then Short else if m == "hh" then ShortShort
    else if m == "l" then LongLength else if m == "ll" then LongLongLength else Default
  }

  /** A specifier that does not read as (more of) a modifier. */
  predicate Specifier(m: string, spec: char) {
    && (m == "" ==> spec != 'h' && spec != 'l')
    && (m == "h" ==> spec != 'h')
    && (m == "l" ==> spec != 'l')
  }

  /** A conversion in front of any format is its first directive, and the rest is the rest's. */
  lemma ConversionFirst(m: string, spec: char, rest: string)
    requires IsModifier(m) && Specifier(m, spec)
    ensures Directives("%" + m + [spec] + rest) == [Conversion(LengthOf(m), spec)] + Directives(rest)
  {
    var fmt := "%" + m + [spec] + rest;
    var width := |m| + 2;
    assert fmt[0] == '%' && fmt[width - 1] == spec && fmt[width..] == rest;
    assert forall i :: 0 <= i < |m| ==> fmt[i + 1] == m[i];
    assert FirstDirective(fmt) == (Conversion(LengthOf(m), spec), width);
  }

  /** Anything but a percent sign stands for itself. */
  lemma LiteralFirst(c: char, rest: string)
    requires c != '%'
    ensures Directives([c] + rest) == [Literal(c)] + Directives(rest)
  {
    assert ([c] + rest)[1..] == rest;
    assert FirstDirective([c] + rest) == (Literal(c), 1);
  }

  lemma PrintOne(env: Env, d: Directive, ds: seq<Directive>, pos: nat)
    ensures PrintAll(env, [d] + ds, pos) == PrintText(env, d, pos) + PrintAll(env, ds, pos + PrintTakes(env.abi, d))
    ensures PrintTaken(env.abi, [d] + ds) == PrintTakes(env.abi, d) + PrintTaken(env.abi, ds)
    ensures ScanAll(env, [d] + ds, pos) == ScanText(env, d, pos) + ScanAll(env, ds, pos + ScanTakes(env.abi, d))
    ensures ScanTaken(env.abi, [d] + ds) == ScanTakes(env.abi, d) + ScanTaken(env.abi, ds)
    ensures PrintAll(env, [d], pos) == PrintText(env, d, pos) && ScanAll(env, [d], pos) == ScanText(env, d, pos)
  {
    hide PrintText, PrintTakes, ScanText, ScanTakes;
    assert ([d] + ds)[1..] == ds && [d][1..] == [];
  }

  /** What `printf` prints for a format. */
  function Printed(env: Env, fmt: string, pos: nat): string {
    PrintAll(env, Directives(fmt), pos)
  }

  /** What `vprintf` prints for it. */
  function Scanned(env: Env, fmt: string, pos: nat): string {
    ScanAll(env, Directives(fmt), pos)
  }

  /** `printf` goes on behind a conversion with the next argument and the rest of the format. */
  lemma PrintedOn(env: Env, m: string, spec: char, rest: string, pos: nat)
    requires IsModifier(m) && Specifier(m, spec)
    ensures var taken := if spec in "diuxXpo" then NumberSlots(env.abi, m) else if spec in "cs" then 1 else 0;
            && Printed(env, "%" + m + [spec] + rest, pos) ==
               Printed(env, "%" + m + [spec], pos) + Printed(env, rest, pos + taken)
            && PrintTaken(env.abi, Directives("%" + m + [spec] + rest)) ==
               taken + PrintTaken(env.abi, Directives(rest))
  {
    hide PrintText, Directives, FirstDirective;
    var d := Conversion(LengthOf(m), spec);
    ConversionFirst(m, spec, rest);
    SingleConversion(m, spec);
    PrintOne(env, d, Directives(rest), pos);
  }

  lemma SingleConversion(m: string, spec: char)
    requires IsModifier(m) && Specifier(m, spec)
    ensures Directives("%" + m + [spec]) == [Conversion(LengthOf(m), spec)]
  {
    ConversionFirst(m, spec, "");
    assert "%" + m + [spec] + "" == "%" + m + [spec];
  }

  lemma PrintedLiteral(env: Env, c: char, rest: string, pos: nat)
    requires c != '%'
    ensures Printed(env, [c] + rest, pos) == [c] + Printed(env, rest, pos)
    ensures Scanned(env, [c] + rest, pos) == [c] + Scanned(env, rest, pos)
    ensures Printed(env, "", pos) == "" && Scanned(env, "", pos) == ""
  {
    LiteralFirst(c, rest);
    PrintOne(env, Literal(c), Directives(rest), pos);
  }

  // ---------------------------------------------------------------- numbers

  lemma FetchIs(env: Env, m: string, pos: nat)
    requires IsModifier(m)
    ensures Fetch(env, TypeOf(LengthOf(m)), pos) == ArgumentBits(env, m, pos)
    ensures AsSigned(env.abi, TypeOf(LengthOf(m)), ArgumentBits(env, m, pos)) == SignedArgument(env, m, pos)
  {
  }

  /** Unsigned conversions: the digits read back, in the specifier's base, to the argument's bits. */
  lemma UnsignedReadsBack(env: Env, m: string, spec: char, base: nat, pos: nat)
    requires IsModifier(m) && UnsignedIn(spec, base)
    ensures var out := Printed(env, "%" + m + [spec], pos);
            && IsNumeral(out, base) && ValueOf(out, base) == ArgumentBits(env, m, pos)
            && (out[0] == '0' ==> |out| == 1)
  {
    hide Directives, Numeral, ValueOf, IsNumeral, Fetch, AsSigned;
    SingleConversion(m, spec);
    PrintOne(env, Conversion(LengthOf(m), spec), [], pos);
    FetchIs(env, m, pos);
    NumeralReadsBack(ArgumentBits(env, m, pos), base);
  }

  /** Signed conversions: a minus sign exactly for negative numbers, then the decimal magnitude. */
  lemma SignedReadsBack(env: Env, m: string, spec: char, pos: nat)
    requires IsModifier(m) && (spec == 'd' || spec == 'i')
    ensures var out, x := Printed(env, "%" + m + [spec], pos), SignedArgument(env, m, pos);
            if x < 0 then out != "" && out[0] == '-' && IsNumeral(out[1..], 10) && ValueOf(out[1..], 10) == -x
            else IsNumeral(out, 10) && ValueOf(out, 10) == x
  {
    hide Directives, Numeral, ValueOf, IsNumeral, Fetch, AsSigned, SignedNumeral;
    SingleConversion(m, spec);
    PrintOne(env, Conversion(LengthOf(m), spec), [], pos);
    FetchIs(env, m, pos);
    SignedNumeralReadsBack(SignedArgument(env, m, pos), 10);
  }

  // ---------------------------------------------------------------- characters, strings, percent signs

  /** The low byte of an `int`, the string at an address, a percent sign, and nothing for what is not a specifier. */
  lemma OthersPrint(env: Env, m: string, spec: char, pos: nat)
    requires IsModifier(m) && Specifier(m, spec)
    ensures var out := Printed(env, "%" + m + [spec], pos);
            && (spec == 'c' ==> out == [(env.slots(pos) % 256) as char])
            && (spec == 's' ==>
                  out == env.text(env.slots(pos) % if env.abi.Ia32? then 0x1_0000_0000 else 0x1_0000_0000_0000_0000))
            && (spec == '%' ==> out == "%")
            && (spec !in "cs%diuxXpo" ==> out == "")
  {
    hide Directives, NumberText;
    SingleConversion(m, spec);
    PrintOne(env, Conversion(LengthOf(m), spec), [], pos);
    LowByte(env.slots(pos));
  }

  lemma LowByte(x: nat)
    ensures x % 0x1_0000_0000 % 256 == x % 256
  {
  }

  // ---------------------------------------------------------------- vprintf

  /**
   `vprintf` prints what `printf` prints for a conversion, and goes on like it, except
   that behind a length modifier it drops `c`, `s` and `%` and takes no argument there.
   */
  lemma ScannedOn(env: Env, m: string, spec: char, rest: string, pos: nat)
    requires IsModifier(m) && Specifier(m, spec)
    ensures var dropped := m != "" && spec in "cs%";
            var taken := if dropped then 0
                         else if spec in "diuxXpo" then NumberSlots(env.abi, m) else if spec in "cs" then 1 else 0;
            && Scanned(env, "%" + m + [spec] + rest, pos) ==
               (if dropped then "" else Printed(env, "%" + m + [spec], pos)) + Scanned(env, rest, pos + taken)
            && ScanTaken(env.abi, Directives("%" + m + [spec] + rest)) == taken + ScanTaken(env.abi, Directives(rest))
  {
    hide PrintText, Directives, FirstDirective, PrintAll, ScanAll, PrintTaken, ScanTaken;
    var d, ds := Conversion(LengthOf(m), spec), Directives(rest);
    ConversionFirst(m, spec, rest);
    SingleConversion(m, spec);
    PrintOne(env, d, ds, pos);
  }

  /** Such a drop is what makes a format not portable, and a whole conversion never overruns. */
  lemma PortableOn(m: string, spec: char, rest: string)
    requires IsModifier(m) && Specifier(m, spec)
    ensures Portable(Directives("%" + m + [spec] + rest)) <==>
            !(m != "" && spec in "cs%") && Portable(Directives(rest))
    ensures rest != "" ==> (Overruns(Directives("%" + m + [spec] + rest)) <==> Overruns(Directives(rest)))
  {
    hide Directives, FirstDirective, Portable;
    var d, ds := Conversion(LengthOf(m), spec), Directives(rest);
    ConversionFirst(m, spec, rest);
    PortableOne(d, ds);
    if rest != "" {
      SomeDirective(rest);
      assert ([d] + ds)[|ds|] == ds[|ds| - 1];
    }
  }

  lemma PortableOne(d: Directive, ds: seq<Directive>)
    ensures Portable([d] + ds) <==> Plain(d) && Portable(ds)
  {
    var all := [d] + ds;
    assert all[0] == d;
    if Portable(all) {
      forall i | 0 <= i < |ds|
        ensures Plain(ds[i])
      {
        assert all[i + 1] == ds[i];
      }
    }
  }

  lemma SomeDirective(fmt: string)
    requires fmt != ""
    ensures Directives(fmt) != []
  {
  }

  /**
   A directive the end of the string cuts off: `vprintf` prints a lone percent sign, and
   overruns behind a modifier.
   */
  lemma CutOffPrints(env: Env, m: string, pos: nat)
    requires IsModifier(m)
    ensures Printed(env, "%" + m, pos) == "" && PrintTaken(env.abi, Directives("%" + m)) == 0
    ensures Scanned(env, "%" + m, pos) == (if m == "" then "%" else "") && ScanTaken(env.abi, Directives("%" + m)) == 0
    ensures Overruns(Directives("%" + m)) <==> m != ""
    ensures !Portable(Directives("%" + m))
  {
    hide Directives, FirstDirective, Portable;
    var d := CutOff(|m|);
    CutOffOnly(m);
    PrintOne(env, d, [], pos);
    PortableOne(d, []);
    assert [d] + [] == [d];
  }

  lemma CutOffOnly(m: string)
    requires IsModifier(m)
    ensures Directives("%" + m) == [CutOff(|m|)]
  {
    var fmt := "%" + m;
    assert fmt[0] == '%' && forall i :: 0 <= i < |m| ==> fmt[i + 1] == m[i];
    assert FirstDirective(fmt) == (CutOff(|m|), |fmt|);
    assert fmt[|fmt|..] == "";
  }
}
