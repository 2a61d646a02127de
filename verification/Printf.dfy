/** The two formatters: a state machine that looks at one character, a scanner that looks ahead. */
module Printf {
  import opened Machine
  import opened VarArgs
  import opened Numerals
  import opened Formats

  datatype State = Normal | LengthState | LengthShort | LengthLong | Spec

  /** What a state stands for: the part of a directive already behind, and its length so far. */
  predicate Pending(state: State, length: Length, part: string) {
    match state
    case Normal => part == "" && length == Default
    case LengthState => part == "%" && length == Default
    case LengthShort => part == "%h" && length == Short
    case LengthLong => part == "%l" && length == LongLength
    case Spec => (part == "%hh" && length == ShortShort) || (part == "%ll" && length == LongLongLength)
  }

  /** The number conversion of the specifier switch, or the character, string and percent cases. */
  method Convert(env: Env, length: Length, spec: char, pos: nat) returns (out: string, next: nat)
    ensures out == PrintText(env, Conversion(length, spec), pos)
    ensures next == pos + PrintTakes(env.abi, Conversion(length, spec))
  {
    hide Numeral, SignedNumeral, Fetch;
    out, next := "", pos;
    var radix: Radix := 10;
    var sign, number := false, false;
    match spec {
      case 'c' =>
        out, next := [(Fetch(env, Int, pos) % 0x100) as char], pos + SlotsOf(env.abi, Int);
      case 's' =>
        out, next := env.text(Fetch(env, Pointer, pos)), pos + SlotsOf(env.abi, Pointer);
      case '%' =>
        out := "%";
      case 'd' => radix, sign, number := 10, true, true;
      case 'i' => radix, sign, number := 10, true, true;
      case 'u' => radix, sign, number := 10, false, true;
      case 'X' => radix, sign, number := 16, false, true;
      case 'x' => radix, sign, number := 16, false, true;
      case 'p' => radix, sign, number := 16, false, true;
      case 'o' => radix, sign, number := 8, false, true;
      case _ =>
    }
    if number {
      var t := match length
        case LongLength => Long
        case LongLongLength => LongLong
        case _ => Int;
      var bits := Fetch(env, t, pos);
      next := pos + SlotsOf(env.abi, t);
      if sign {
        var extended := SignExtend(env.abi, t, bits);
        out := PrintfSigned(extended, radix);
      } else {
        out := PrintfUnsigned(bits, radix);
      }
    }
  }

  /** The conversion of a signed argument to `long long`. */
  function SignExtend(abi: Abi, t: ArgType, bits: u64): (x: u64)
    ensures Signed64(x) == AsSigned(abi, t, bits)
  {
    Wrap64(AsSigned(abi, t, bits))
  }

  // ---------------------------------------------------------------- the state machine

  /** Does `c` complete the directive pending in this state? */
  predicate Completes(state: State, c: char) {
    match state
    case Normal => false
    case LengthState => c != 'h' && c != 'l'
    case LengthShort => c != 'h'
    case LengthLong => c != 'l'
    case Spec => true
  }

  lemma CompletedDirective(rest: string, k: nat, state: State, length: Length)
    requires k < |rest| && Pending(state, length, rest[..k]) && Completes(state, rest[k])
    ensures FirstDirective(rest) == (Conversion(length, rest[k]), k + 1)
  {
    assert forall j :: 0 <= j < k ==> rest[j] == rest[..k][j];
  }

  lemma UnfinishedDirective(rest: string, state: State, length: Length)
    requires Pending(state, length, rest)
    ensures state == Normal ==> Directives(rest) == []
    ensures state != Normal ==> |Directives(rest)| == 1 && Directives(rest)[0].CutOff?
  {
    if rest != [] {
      assert rest[FirstDirective(rest).1..] == [];
    }
  }

  lemma PrintFirst(env: Env, rest: string, pos: nat)
    requires rest != []
    ensures var (d, width) := FirstDirective(rest);
            && PrintAll(env, Directives(rest), pos) ==
               PrintText(env, d, pos) + PrintAll(env, Directives(rest[width..]), pos + PrintTakes(env.abi, d))
            && PrintTaken(env.abi, Directives(rest)) ==
               PrintTakes(env.abi, d) + PrintTaken(env.abi, Directives(rest[width..]))
  {
    hide PrintText, PrintTakes, FirstDirective;
    var (d, width) := FirstDirective(rest);
    assert Directives(rest)[1..] == Directives(rest[width..]);
  }

  /** How far the state machine is: everything up to `start` printed, `part` pending. */
  ghost predicate Printing(env: Env, fmt: string, pos0: nat, start: nat, out: string, pos: nat) {
    && start <= |fmt|
    && out + PrintAll(env, Directives(fmt[start..]), pos) == PrintAll(env, Directives(fmt), pos0)
    && pos + PrintTaken(env.abi, Directives(fmt[start..])) == pos0 + PrintTaken(env.abi, Directives(fmt))
  }

  lemma PrintingStep(env: Env, fmt: string, pos0: nat, start: nat, out: string, pos: nat)
    requires Printing(env, fmt, pos0, start, out, pos) && start < |fmt|
    ensures var (d, width) := FirstDirective(fmt[start..]);
            Printing(env, fmt, pos0, start + width, out + PrintText(env, d, pos), pos + PrintTakes(env.abi, d))
  {
    hide PrintAll, PrintTaken, Directives, FirstDirective, PrintText, PrintTakes;
    var (d, width) := FirstDirective(fmt[start..]);
    PrintFirst(env, fmt[start..], pos);
    assert fmt[start..][width..] == fmt[start + width..];
    Regroup(out, PrintText(env, d, pos), PrintAll(env, Directives(fmt[start + width..]), pos + PrintTakes(env.abi, d)));
  }

  lemma Regroup(a: string, b: string, c: string)
    ensures (a + b) + c == a + (b + c)
  {
  }

  lemma PrintingDone(env: Env, fmt: string, pos0: nat, start: nat, state: State, length: Length, out: string, pos: nat)
    requires Printing(env, fmt, pos0, start, out, pos) && Pending(state, length, fmt[start..])
    ensures out == PrintAll(env, Directives(fmt), pos0)
    ensures pos == pos0 + PrintTaken(env.abi, Directives(fmt))
  {
    UnfinishedDirective(fmt[start..], state, length);
    assert PrintAll(env, Directives(fmt[start..]), pos) == "";
  }

  /** Prints a format, one character at a time. */
  method Printf(env: Env, fmt: string, pos0: nat) returns (out: string, pos: nat)
    ensures out == PrintAll(env, Directives(fmt), pos0)
    ensures pos == pos0 + PrintTaken(env.abi, Directives(fmt))
  {
    hide PrintAll, PrintTaken, Directives, FirstDirective, PrintText, PrintTakes, Printing;
    var state, length := Normal, Default;
    out, pos := "", pos0;
    ghost var start: nat := 0;
    PrintingStarts(env, fmt, pos0);
    var i := 0;
    while i < |fmt|
      invariant start <= i <= |fmt|
      invariant Pending(state, length, fmt[start..i])
      invariant Printing(env, fmt, pos0, start, out, pos)
    {
      var c := fmt[i];
      SliceGrows(fmt, start, i);
      if state == Normal && c == '%' {
        state := LengthState;
      } else if state == Normal {
        LiteralDirective(env, fmt, i, pos);
        PrintingStep(env, fmt, pos0, start, out, pos);
        out := out + [c];
        start := i + 1;
      } else if state == LengthState && c == 'h' {
        length, state := Short, LengthShort;
      } else if state == LengthState && c == 'l' {
        length, state := LongLength, LengthLong;
      } else if state == LengthShort && c == 'h' {
        length, state := ShortShort, Spec;
      } else if state == LengthLong && c == 'l' {
        length, state := LongLongLength, Spec;
      } else {
        CompletedDirective(fmt[start..], i - start, state, length);
        PrintingStep(env, fmt, pos0, start, out, pos);
        var text, next := Convert(env, length, c, pos);
        out, pos := out + text, next;
        state, length := Normal, Default;
        start := i + 1;
      }
      i := i + 1;
    }
    assert fmt[start..i] == fmt[start..];
    PrintingDone(env, fmt, pos0, start, state, length, out, pos);
  }

  lemma SliceGrows(s: string, a: nat, b: nat)
    requires a <= b < |s|
    ensures s[a..b + 1] == s[a..b] + [s[b]]
    ensures s[a..][..b - a] == s[a..b] && s[a..][b - a] == s[b]
  {
  }

  lemma PrintingStarts(env: Env, fmt: string, pos0: nat)
    ensures Printing(env, fmt, pos0, 0, "", pos0)
  {
    assert fmt[0..] == fmt;
  }

  lemma LiteralDirective(env: Env, fmt: string, i: nat, pos: nat)
    requires i < |fmt| && fmt[i] != '%'
    ensures FirstDirective(fmt[i..]) == (Literal(fmt[i]), 1)
    ensures PrintText(env, Literal(fmt[i]), pos) == [fmt[i]] && PrintTakes(env.abi, Literal(fmt[i])) == 0
  {
  }

  // ---------------------------------------------------------------- the scanner

  /** The character at `i`, the terminating NUL behind the last. */
  function At(fmt: string, i: nat): char {
    if i < |fmt| then fmt[i] else '\0'
  }

  function Modifier(length: Length): string {
    match length
    case Default => ""
    case ShortShort => "hh"
    case Short => "h"
    case LongLength => "l"
    case LongLongLength => "ll"
  }

  /** The spelling of a single conversion. */
  function Spelled(length: Length, spec: char): string {
    "%" + Modifier(length) + [spec]
  }

  lemma SpelledIsOne(length: Length, spec: char)
    requires spec != 'h' && spec != 'l'
    ensures Directives(Spelled(length, spec)) == [Conversion(length, spec)]
  {
    var s := Spelled(length, spec);
    assert FirstDirective(s) == (Conversion(length, spec), |s|);
    assert s[|s|..] == [];
  }

  /** What a conversion prints depends on the bits of its argument only. */
  lemma PassedText(env: Env, t: ArgType, length: Length, spec: char, pos: nat, junk: nat -> nat)
    requires t == if spec == 's' then Pointer else if spec == 'c' then Int else TypeOf(length)
    ensures PrintText(Pass(env, t, Fetch(env, t, pos), junk), Conversion(length, spec), 0)
            == PrintText(env, Conversion(length, spec), pos)
  {
    hide Numeral, SignedNumeral, Fetch;
    PassedOn(env, t, pos, junk);
  }

  /** `printf(conv, va_arg(args, t))`: fetches one argument and passes it on. */
  method Reprint(env: Env, t: ArgType, conv: string, pos: nat, junk: nat -> nat, ghost length: Length, ghost spec: char)
    returns (out: string, next: nat)
    requires conv == Spelled(length, spec) && spec != 'h' && spec != 'l'
    requires t == if spec == 's' then Pointer else if spec == 'c' then Int else TypeOf(length)
    ensures out == PrintText(env, Conversion(length, spec), pos)
    ensures next == pos + SlotsOf(env.abi, t)
  {
    hide PrintText, PrintTakes, Directives, Fetch, Pass;
    var arg := Fetch(env, t, pos);
    next := pos + SlotsOf(env.abi, t);
    SpelledIsOne(length, spec);
    PassedText(env, t, length, spec, pos, junk);
    var text, _ := Printf(Pass(env, t, arg, junk), conv, 0);
    out := text;
    SingleText(Pass(env, t, arg, junk), Conversion(length, spec));
  }

  lemma SingleText(env: Env, d: Directive)
    ensures PrintAll(env, [d], 0) == PrintText(env, d, 0)
  {
    assert [d][1..] == [];
  }

  /** The switch over number conversions that every length has; anything else is skipped. */
  method ScanNumber(env: Env, length: Length, spec: char, pos: nat, junk: nat -> nat) returns (out: string, next: nat)
    ensures var d := Conversion(length, spec);
            if IsNumber(spec) then out == PrintText(env, d, pos) && next == pos + PrintTakes(env.abi, d)
            else out == "" && next == pos
  {
    hide Numeral, SignedNumeral, Fetch, Directives;
    out, next := "", pos;
    var t := TypeOf(length);
    match spec {
      case 'd' => out, next := Reprint(env, t, "%" + Modifier(length) + "d", pos, junk, length, 'd');
      case 'i' => out, next := Reprint(env, t, "%" + Modifier(length) + "d", pos, junk, length, 'd');
      case 'u' => out, next := Reprint(env, t, "%" + Modifier(length) + "u", pos, junk, length, 'u');
      case 'X' => out, next := Reprint(env, t, "%" + Modifier(length) + "p", pos, junk, length, 'p');
      case 'x' => out, next := Reprint(env, t, "%" + Modifier(length) + "p", pos, junk, length, 'p');
      case 'p' => out, next := Reprint(env, t, "%" + Modifier(length) + "p", pos, junk, length, 'p');
      case 'o' => out, next := Reprint(env, t, "%" + Modifier(length) + "o", pos, junk, length, 'o');
      case _ =>
    }
  }

  /** The switch over the character right behind the `%`. */
  method ScanPlain(env: Env, spec: char, pos: nat, junk: nat -> nat) returns (out: string, next: nat)
    requires spec != 'h' && spec != 'l'
    ensures out == ScanText(env, Conversion(Default, spec), pos)
    ensures next == pos + ScanTakes(env.abi, Conversion(Default, spec))
  {
    hide Numeral, SignedNumeral, Fetch, Directives;
    if spec == 'c' {
      out, next := Reprint(env, Int, "%c", pos, junk, Default, 'c');
    } else if spec == 's' {
      out, next := Reprint(env, Pointer, "%s", pos, junk, Default, 's');
    } else if spec == '%' {
      out, next := "%", pos;
    } else {
      out, next := ScanNumber(env, Default, spec, pos, junk);
    }
  }

  /** The switches behind a length modifier, which know number conversions only. */
  method ScanModified(env: Env, length: Length, spec: char, pos: nat, junk: nat -> nat) returns (out: string, next: nat)
    requires !length.Default?
    ensures out == ScanText(env, Conversion(length, spec), pos)
    ensures next == pos + ScanTakes(env.abi, Conversion(length, spec))
  {
    hide Numeral, SignedNumeral, Fetch, Directives, NumberText;
    out, next := ScanNumber(env, length, spec, pos, junk);
  }

  /** How far the scanner is; at the end of an overrun `at` lies behind the terminating NUL. */
  ghost predicate Scanning(env: Env, fmt: string, pos0: nat, at: nat, out: string, pos: nat) {
    if at <= |fmt| then
      && out + ScanAll(env, Directives(fmt[at..]), pos) == ScanAll(env, Directives(fmt), pos0)
      && pos + ScanTaken(env.abi, Directives(fmt[at..])) == pos0 + ScanTaken(env.abi, Directives(fmt))
      && (Overruns(Directives(fmt)) <==> Overruns(Directives(fmt[at..])))
    else
      && out == ScanAll(env, Directives(fmt), pos0)
      && pos == pos0 + ScanTaken(env.abi, Directives(fmt))
      && Overruns(Directives(fmt))
  }

  lemma ScanFirst(env: Env, rest: string, pos: nat)
    requires rest != []
    ensures var (d, width) := FirstDirective(rest);
            && ScanAll(env, Directives(rest), pos) ==
               ScanText(env, d, pos) + ScanAll(env, Directives(rest[width..]), pos + ScanTakes(env.abi, d))
            && ScanTaken(env.abi, Directives(rest)) ==
               ScanTakes(env.abi, d) + ScanTaken(env.abi, Directives(rest[width..]))
            && (Overruns(Directives(rest)) <==>
                  if rest[width..] == [] then d.CutOff? && d.modifiers > 0 else Overruns(Directives(rest[width..])))
  {
    hide ScanText, ScanTakes, FirstDirective;
    var (d, width) := FirstDirective(rest);
    assert Directives(rest)[1..] == Directives(rest[width..]);
    if rest[width..] != [] {
      assert Directives(rest[width..]) != [];
    }
  }

  /** A directive that is whole: the scanner is behind it. */
  lemma ScanningStep(env: Env, fmt: string, pos0: nat, at: nat, out: string, pos: nat)
    requires Scanning(env, fmt, pos0, at, out, pos) && at < |fmt|
    requires var d := FirstDirective(fmt[at..]).0; !d.CutOff? || d.modifiers == 0
    ensures var (d, width) := FirstDirective(fmt[at..]);
            Scanning(env, fmt, pos0, at + width, out + ScanText(env, d, pos), pos + ScanTakes(env.abi, d))
  {
    hide ScanAll, ScanTaken, Directives, FirstDirective, ScanText, ScanTakes;
    var (d, width) := FirstDirective(fmt[at..]);
    ScanFirst(env, fmt[at..], pos);
    assert fmt[at..][width..] == fmt[at + width..];
    Regroup(out, ScanText(env, d, pos), ScanAll(env, Directives(fmt[at + width..]), pos + ScanTakes(env.abi, d)));
    NoDirectives();
  }

  lemma NoDirectives()
    ensures Directives("") == []
    ensures forall env: Env, pos: nat :: ScanAll(env, [], pos) == ""
    ensures forall abi: Abi :: ScanTaken(abi, []) == 0
  {
  }

  /** A modifier at the end of the string: nothing printed, and the scanner behind the NUL. */
  lemma ScanningOverrun(env: Env, fmt: string, pos0: nat, at: nat, out: string, pos: nat, beyond: nat)
    requires Scanning(env, fmt, pos0, at, out, pos) && at < |fmt| < beyond
    requires var d := FirstDirective(fmt[at..]).0; d.CutOff? && d.modifiers > 0
    ensures Scanning(env, fmt, pos0, beyond, out, pos)
  {
    hide ScanAll, ScanTaken, Directives, FirstDirective;
    var (d, width) := FirstDirective(fmt[at..]);
    ScanFirst(env, fmt[at..], pos);
    assert fmt[at..][width..] == [];
    NoDirectives();
    assert out + ("" + "") == out;
  }

  /** The directive behind a `%`, as the characters ahead tell it. */
  lemma LookAhead(fmt: string, i: nat)
    requires '\0' !in fmt && i < |fmt| && fmt[i] == '%' && At(fmt, i + 1) != '\0'
    ensures var f, c1 := FirstDirective(fmt[i..]), At(fmt, i + 1);
            if c1 == 'l' then f == ModifiedAhead(fmt, i, 'l', LongLength, LongLongLength)
            else if c1 == 'h' then f == ModifiedAhead(fmt, i, 'h', Short, ShortShort)
            else f == (Conversion(Default, c1), 2)
  {
    var rest := fmt[i..];
    assert |rest| > 1 ==> rest[1] == At(fmt, i + 1);
    assert |rest| > 2 ==> rest[2] == At(fmt, i + 2);
    assert |rest| > 3 ==> rest[3] == At(fmt, i + 3);
  }

  function ModifiedAhead(fmt: string, i: nat, m: char, single: Length, double: Length): (Directive, nat) {
    if At(fmt, i + 2) == m then
      if i + 3 < |fmt| then (Conversion(double, At(fmt, i + 3)), 4) else (CutOff(2), 3)
    else
      if i + 2 < |fmt| then (Conversion(single, At(fmt, i + 2)), 3) else (CutOff(1), 2)
  }

  lemma NulPrintsNothing(env: Env, length: Length, pos: nat)
    ensures ScanText(env, Conversion(length, '\0'), pos) == "" && ScanTakes(env.abi, Conversion(length, '\0')) == 0
  {
  }

  /** A character that is printed as it is, the last one of the string even when it is `%`. */
  lemma PlainCharacter(env: Env, fmt: string, i: nat, pos: nat)
    requires '\0' !in fmt && i < |fmt| && (fmt[i] != '%' || At(fmt, i + 1) == '\0')
    ensures var (d, width) := FirstDirective(fmt[i..]);
            && width == 1 && !(d.CutOff? && d.modifiers > 0)
            && ScanText(env, d, pos) == [fmt[i]] && ScanTakes(env.abi, d) == 0
  {
    assert i + 1 < |fmt| ==> At(fmt, i + 1) in fmt;
  }

  /** The two switches behind a length modifier `m`, and the steps over what they looked at. */
  method ScanBehind(env: Env, fmt: string, i: nat, m: char, single: Length, double: Length, pos: nat, junk: nat -> nat)
    returns (text: string, next: nat, i': nat)
    requires i + 1 < |fmt| && m != '\0' && !single.Default? && !double.Default?
    ensures var (d, width) := ModifiedAhead(fmt, i, m, single, double);
            if d.CutOff? then text == "" && next == pos && i' > |fmt|
            else text == ScanText(env, d, pos) && next == pos + ScanTakes(env.abi, d) && i' == i + width
  {
    hide ScanText, ScanTakes;
    i' := i;
    NulPrintsNothing(env, single, pos);
    NulPrintsNothing(env, double, pos);
    if At(fmt, i + 2) == m {
      text, next := ScanModified(env, double, At(fmt, i + 3), pos, junk);
      i' := i' + 1;
    } else {
      text, next := ScanModified(env, single, At(fmt, i + 2), pos, junk);
    }
    i' := i' + 1;
    i' := i' + 2;
  }

  /**
   Prints a format by looking ahead.  `overrun` says that the scanner stepped over
   the terminating NUL; what it would go on to read there is not the format's.
   */
  method Vprintf(env: Env, fmt: string, pos0: nat, junk: nat -> nat) returns (out: string, pos: nat, overrun: bool)
    requires '\0' !in fmt
    ensures overrun == Overruns(Directives(fmt))
    ensures out == ScanAll(env, Directives(fmt), pos0)
    ensures pos == pos0 + ScanTaken(env.abi, Directives(fmt))
  {
    hide ScanAll, ScanTaken, Directives, FirstDirective, ScanText, ScanTakes, Scanning, Overruns;
    out, pos := "", pos0;
    ScanningStarts(env, fmt, pos0);
    var i := 0;
    while i < |fmt|
      invariant Scanning(env, fmt, pos0, i, out, pos)
    {
      ghost var at := i;
      var text, next := "", pos;
      if fmt[i] == '%' && At(fmt, i + 1) != '\0' {
        LookAhead(fmt, i);
        if At(fmt, i + 1) == 'l' {
          text, next, i := ScanBehind(env, fmt, i, 'l', LongLength, LongLongLength, pos, junk);
        } else if At(fmt, i + 1) == 'h' {
          text, next, i := ScanBehind(env, fmt, i, 'h', Short, ShortShort, pos, junk);
        } else {
          text, next := ScanPlain(env, At(fmt, i + 1), pos, junk);
          i := i + 2;
        }
      } else {
        PlainCharacter(env, fmt, i, pos);
        text := [fmt[i]];
        i := i + 1;
      }
      if i > |fmt| {
        ScanningOverrun(env, fmt, pos0, at, out, pos, i);
        assert out + text == out;
      } else {
        ScanningStep(env, fmt, pos0, at, out, pos);
      }
      out, pos := out + text, next;
    }
    overrun := i > |fmt|;
    ScanningEnds(env, fmt, pos0, i, out, pos);
  }

  lemma ScanningStarts(env: Env, fmt: string, pos0: nat)
    ensures Scanning(env, fmt, pos0, 0, "", pos0)
  {
    assert fmt[0..] == fmt;
  }

  lemma ScanningEnds(env: Env, fmt: string, pos0: nat, at: nat, out: string, pos: nat)
    requires Scanning(env, fmt, pos0, at, out, pos) && at >= |fmt|
    ensures out == ScanAll(env, Directives(fmt), pos0)
    ensures pos == pos0 + ScanTaken(env.abi, Directives(fmt))
    ensures Overruns(Directives(fmt)) <==> at > |fmt|
  {
    NoDirectives();
    if at == |fmt| {
      assert fmt[at..] == [];
      assert out + "" == out;
    }
  }
}
