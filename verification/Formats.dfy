/**
 Format strings as sequences of directives, and what each of the two formatters
 makes of a directive.
 */
module Formats {
  import opened Machine
  import opened VarArgs
  import opened Numerals

  datatype Length = Default | ShortShort | Short | LongLength | LongLongLength

  /**
   One directive: a literal character, a conversion with its length, or a `%` with
   `modifiers` length characters that the end of the string cuts off.
   */
  datatype Directive =
    | Literal(c: char)
    | Conversion(length: Length, spec: char)
    | CutOff(modifiers: nat)

  /** The directive a non-empty format starts with and the characters it takes. */
  function FirstDirective(fmt: string): (r: (Directive, nat))
    requires fmt != []
    ensures 1 <= r.1 <= |fmt|
    ensures r.0.CutOff? ==> r.1 == |fmt| && r.0.modifiers <= 2
  {
    if fmt[0] != '%' then (Literal(fmt[0]), 1)
    else if |fmt| == 1 then (CutOff(0), 1)
    else if fmt[1] == 'l' then AfterModifier(fmt, 'l', LongLength, LongLongLength)
    else if fmt[1] == 'h' then AfterModifier(fmt, 'h', Short, ShortShort)
    else (Conversion(Default, fmt[1]), 2)
  }

  function AfterModifier(fmt: string, m: char, single: Length, double: Length): (r: (Directive, nat))
    requires |fmt| >= 2
    ensures 1 <= r.1 <= |fmt|
    ensures r.0.CutOff? ==> r.1 == |fmt| && r.0.modifiers <= 2
  {
    if |fmt| == 2 then (CutOff(1), 2)
    else if fmt[2] != m then (Conversion(single, fmt[2]), 3)
    else if |fmt| == 3 then (CutOff(2), 3)
    else (Conversion(double, fmt[3]), 4)
  }

  function Directives(fmt: string): seq<Directive> {
    if fmt == [] then []
    else
      var (d, width) := FirstDirective(fmt);
      [d] + Directives(fmt[width..])
  }

  // ---------------------------------------------------------------- conversions

  predicate IsSigned(spec: char) {
    spec == 'd' || spec == 'i'
  }

  predicate IsUnsigned(spec: char) {
    spec == 'u' || spec == 'X' || spec == 'x' || spec == 'p' || spec == 'o'
  }

  predicate IsNumber(spec: char) {
    IsSigned(spec) || IsUnsigned(spec)
  }

  function RadixOf(spec: char): Radix {
    if spec == 'X' || spec == 'x' || spec == 'p' then 16 else if spec == 'o' then 8 else 10
  }

  function TypeOf(length: Length): ArgType {
    match length
    case LongLength => Long
    case LongLongLength => LongLong
    case _ => Int
  }

  function NumberText(env: Env, length: Length, spec: char, pos: nat): string {
    var t := TypeOf(length);
    var bits := Fetch(env, t, pos);
    if IsSigned(spec) then SignedNumeral(AsSigned(env.abi, t, bits), RadixOf(spec))
    else Numeral(bits, RadixOf(spec))
  }

  // ---------------------------------------------------------------- printf

  /** What `printf` prints for a directive. */
  function PrintText(env: Env, d: Directive, pos: nat): string {
    match d
    case Literal(c) => [c]
    case Conversion(length, spec) =>
      if spec == 'c' then [(Fetch(env, Int, pos) % 0x100) as char]
      else if spec == 's' then env.text(Fetch(env, Pointer, pos))
      else if spec == '%' then "%"
      else if IsNumber(spec) then NumberText(env, length, spec, pos)
      else ""
    case CutOff(_) => ""
  }

  /** How many argument slots it takes for it. */
  function PrintTakes(abi: Abi, d: Directive): nat {
    match d
    case Conversion(length, spec) =>
      if spec == 'c' then SlotsOf(abi, Int)
      else if spec == 's' then SlotsOf(abi, Pointer)
      else if IsNumber(spec) then SlotsOf(abi, TypeOf(length))
      else 0
    case _ => 0
  }

  function PrintAll(env: Env, ds: seq<Directive>, pos: nat): string {
    if ds == [] then "" else PrintText(env, ds[0], pos) + PrintAll(env, ds[1..], pos + PrintTakes(env.abi, ds[0]))
  }

  function PrintTaken(abi: Abi, ds: seq<Directive>): nat {
    if ds == [] then 0 else PrintTakes(abi, ds[0]) + PrintTaken(abi, ds[1..])
  }

  // ---------------------------------------------------------------- vprintf

  /** A `c`, `s` or `%` behind a length modifier, which `vprintf` drops. */
  predicate Dropped(d: Directive) {
    d.Conversion? && !d.length.Default? && (d.spec == 'c' || d.spec == 's' || d.spec == '%')
  }

  function ScanText(env: Env, d: Directive, pos: nat): string {
    if Dropped(d) then "" else if d == CutOff(0) then "%" else PrintText(env, d, pos)
  }

  function ScanTakes(abi: Abi, d: Directive): nat {
    if Dropped(d) then 0 else PrintTakes(abi, d)
  }

  function ScanAll(env: Env, ds: seq<Directive>, pos: nat): string {
    if ds == [] then "" else ScanText(env, ds[0], pos) + ScanAll(env, ds[1..], pos + ScanTakes(env.abi, ds[0]))
  }

  function ScanTaken(abi: Abi, ds: seq<Directive>): nat {
    if ds == [] then 0 else ScanTakes(abi, ds[0]) + ScanTaken(abi, ds[1..])
  }

  /** The scanner reads past the terminating NUL: a modifier stands at the end of the string. */
  predicate Overruns(ds: seq<Directive>) {
    ds != [] && ds[|ds| - 1].CutOff? && ds[|ds| - 1].modifiers > 0
  }
}
