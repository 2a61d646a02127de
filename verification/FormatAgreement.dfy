/** When the two formatters do the same: an exact condition on the format. */
module FormatAgreement {
  import opened Machine
  import opened VarArgs
  import opened Formats

  /** A directive that both formatters treat alike. */
  predicate Plain(d: Directive) {
    !Dropped(d) && !d.CutOff?
  }

  /** No directive is cut off, and no `c`, `s` or `%` stands behind a length modifier. */
  predicate Portable(ds: seq<Directive>) {
    forall i :: 0 <= i < |ds| ==> Plain(ds[i])
  }

  /** The scanner stays in the string, prints what the state machine prints and takes what it takes. */
  predicate Agree(env: Env, ds: seq<Directive>, pos: nat) {
    && !Overruns(ds)
    && PrintAll(env, ds, pos) == ScanAll(env, ds, pos)
    && PrintTaken(env.abi, ds) == ScanTaken(env.abi, ds)
  }

  predicate DroppedPercent(d: Directive) {
    Dropped(d) && d.spec == '%'
  }

  predicate AllPercent(s: string) {
    forall i :: 0 <= i < |s| ==> s[i] == '%'
  }

  /** Plain directives that print nothing but percent signs, and then a lone `%` at the end. */
  predicate PercentTail(env: Env, ds: seq<Directive>, pos: nat) {
    ds != [] &&
    if |ds| == 1 && ds[0] == CutOff(0) then true
    else
      && Plain(ds[0]) && AllPercent(PrintText(env, ds[0], pos))
      && PercentTail(env, ds[1..], pos + PrintTakes(env.abi, ds[0]))
  }

  /**
   The one way to agree without being portable: a single dropped percent sign that
   the scanner makes up for at the end, as in "%l%%".
   */
  predicate Coincidence(env: Env, ds: seq<Directive>, pos: nat) {
    ds != [] &&
    if DroppedPercent(ds[0]) then PercentTail(env, ds[1..], pos)
    else Plain(ds[0]) && Coincidence(env, ds[1..], pos + PrintTakes(env.abi, ds[0]))
  }

  /** A directive can be cut off by the end of the string only, so only the last one is. */
  predicate CutOffLast(ds: seq<Directive>) {
    forall i :: 0 <= i < |ds| - 1 ==> !ds[i].CutOff?
  }

  lemma {:induction false} OnlyLastCutOff(fmt: string)
    ensures CutOffLast(Directives(fmt))
  {
    if fmt != [] {
      var (d, width) := FirstDirective(fmt);
      OnlyLastCutOff(fmt[width..]);
      if d.CutOff? {
        assert fmt[width..] == [];
      }
    }
  }

  // ---------------------------------------------------------------- arguments

  /** The scanner takes fewer arguments as soon as it drops a conversion that has one. */
  lemma {:induction false} TakenSame(abi: Abi, ds: seq<Directive>)
    ensures ScanTaken(abi, ds) <= PrintTaken(abi, ds)
    ensures ScanTaken(abi, ds) == PrintTaken(abi, ds) <==>
            forall i :: 0 <= i < |ds| && Dropped(ds[i]) ==> ds[i].spec == '%'
  {
    if ds != [] {
      TakenSame(abi, ds[1..]);
      assert ds == [ds[0]] + ds[1..];
    }
  }

  // ---------------------------------------------------------------- output

  predicate SameArguments(ds: seq<Directive>) {
    forall i :: 0 <= i < |ds| && Dropped(ds[i]) ==> ds[i].spec == '%'
  }

  /** Dropped percent signs and the one made up for, counted. */
  function DroppedCount(ds: seq<Directive>): nat {
    if ds == [] then 0 else (if Dropped(ds[0]) then 1 else 0) + DroppedCount(ds[1..])
  }

  function MadeUp(ds: seq<Directive>): nat {
    if ds != [] && ds[|ds| - 1] == CutOff(0) then 1 else 0
  }

  lemma {:induction false} Lengths(env: Env, ds: seq<Directive>, pos: nat)
    requires CutOffLast(ds) && SameArguments(ds)
    ensures |PrintAll(env, ds, pos)| + MadeUp(ds) == |ScanAll(env, ds, pos)| + DroppedCount(ds)
  {
    hide PrintText, PrintTakes, ScanText, ScanTakes, Dropped, CutOffLast, SameArguments;
    hide PrintAll, ScanAll, MadeUp, DroppedCount;
    if ds == [] {
      NoDirectivesLength(env, pos);
    } else {
      var rest, next := ds[1..], pos + PrintTakes(env.abi, ds[0]);
      TailKeeps(ds);
      LengthOne(env, ds[0], pos);
      Lengths(env, rest, next);
      PrintGrows(env, ds, pos);
      ScanGrows(env, ds, pos);
      DroppedGrows(ds);
    }
  }

  lemma NoDirectivesLength(env: Env, pos: nat)
    ensures PrintAll(env, [], pos) == "" && ScanAll(env, [], pos) == "" && MadeUp([]) == 0 && DroppedCount([]) == 0
  {
  }

  lemma DroppedGrows(ds: seq<Directive>)
    requires ds != []
    ensures DroppedCount(ds) == (if Dropped(ds[0]) then 1 else 0) + DroppedCount(ds[1..])
  {
  }

  lemma PrintGrows(env: Env, ds: seq<Directive>, pos: nat)
    requires ds != []
    ensures |PrintAll(env, ds, pos)| ==
            |PrintText(env, ds[0], pos)| + |PrintAll(env, ds[1..], pos + PrintTakes(env.abi, ds[0]))|
  {
    hide PrintText, PrintTakes;
  }

  lemma ScanGrows(env: Env, ds: seq<Directive>, pos: nat)
    requires ds != []
    ensures |ScanAll(env, ds, pos)| ==
            |ScanText(env, ds[0], pos)| + |ScanAll(env, ds[1..], pos + ScanTakes(env.abi, ds[0]))|
  {
    hide ScanText, ScanTakes;
  }

  lemma TailKeeps(ds: seq<Directive>)
    requires ds != [] && CutOffLast(ds) && SameArguments(ds)
    ensures CutOffLast(ds[1..]) && SameArguments(ds[1..])
    ensures Dropped(ds[0]) ==> ds[0].spec == '%'
    ensures MadeUp(ds) == MadeUp(ds[1..]) + if ds[0] == CutOff(0) then 1 else 0
  {
    if |ds| > 1 {
      assert ds[1..][|ds| - 2] == ds[|ds| - 1];
    }
  }

  lemma LengthOne(env: Env, d: Directive, pos: nat)
    requires Dropped(d) ==> d.spec == '%'
    ensures ScanTakes(env.abi, d) == PrintTakes(env.abi, d)
    ensures |PrintText(env, d, pos)| + (if d == CutOff(0) then 1 else 0)
            == |ScanText(env, d, pos)| + (if Dropped(d) then 1 else 0)
  {
    hide NumberText;
  }

  lemma {:induction false} NothingDropped(ds: seq<Directive>)
    ensures DroppedCount(ds) == 0 <==> forall i :: 0 <= i < |ds| ==> !Dropped(ds[i])
  {
    if ds != [] {
      NothingDropped(ds[1..]);
      assert ds == [ds[0]] + ds[1..];
    }
  }

  /** Plain directives and a lone `%`: the scanner prints one percent sign more. */
  lemma {:induction false} OneMore(env: Env, ds: seq<Directive>, pos: nat)
    requires CutOffLast(ds) && DroppedCount(ds) == 0 && MadeUp(ds) == 1
    ensures ScanAll(env, ds, pos) == PrintAll(env, ds, pos) + "%"
    ensures PercentTail(env, ds, pos) <==> AllPercent(PrintAll(env, ds, pos))
  {
    hide NumberText, PrintText, PrintTakes, ScanText, ScanTakes, AllPercent;
    if |ds| == 1 {
      LonePercent(env, ds, pos);
    } else {
      var t, rest := PrintText(env, ds[0], pos), ds[1..];
      var next := pos + PrintTakes(env.abi, ds[0]);
      assert rest[|rest| - 1] == ds[|ds| - 1];
      PlainScanned(env, ds[0], pos);
      OneMore(env, rest, next);
      assert t + (PrintAll(env, rest, next) + "%") == (t + PrintAll(env, rest, next)) + "%";
      AllPercentConcat(t, PrintAll(env, rest, next));
    }
  }

  lemma LonePercent(env: Env, ds: seq<Directive>, pos: nat)
    requires |ds| == 1 && ds[0] == CutOff(0)
    ensures PrintAll(env, ds, pos) == "" && ScanAll(env, ds, pos) == "%" && AllPercent("")
  {
    assert ds[1..] == [];
  }

  lemma PlainScanned(env: Env, d: Directive, pos: nat)
    requires Plain(d)
    ensures ScanText(env, d, pos) == PrintText(env, d, pos) && ScanTakes(env.abi, d) == PrintTakes(env.abi, d)
  {
  }

  lemma AllPercentConcat(a: string, b: string)
    ensures AllPercent(a + b) <==> AllPercent(a) && AllPercent(b)
  {
    if AllPercent(a + b) {
      assert forall i :: 0 <= i < |a| ==> (a + b)[i] == a[i];
      assert forall i :: 0 <= i < |b| ==> (a + b)[|a| + i] == b[i];
    }
  }

  /** A percent sign can move from the front to the back of percent signs only. */
  lemma {:induction false} PercentMoves(s: string)
    ensures "%" + s == s + "%" <==> AllPercent(s)
  {
    if "%" + s == s + "%" && s != [] {
      assert s[0] == ("%" + s)[0];
      assert s == "%" + s[1..];
      PercentMoves(s[1..]);
      assert "%" + s[1..] == s[1..] + "%" by {
        assert ("%" + s)[1..] == s && (s + "%")[1..] == s[1..] + "%";
      }
    }
  }

  lemma TailAgrees(env: Env, ds: seq<Directive>, pos: nat)
    requires CutOffLast(ds) && SameArguments(ds)
    ensures "%" + PrintAll(env, ds, pos) == ScanAll(env, ds, pos) <==> PercentTail(env, ds, pos)
  {
    Lengths(env, ds, pos);
    if DroppedCount(ds) == 0 && MadeUp(ds) == 1 {
      OneMore(env, ds, pos);
      PercentMoves(PrintAll(env, ds, pos));
    } else {
      if PercentTail(env, ds, pos) {
        TailShape(env, ds, pos);
      }
    }
  }

  lemma {:induction false} TailShape(env: Env, ds: seq<Directive>, pos: nat)
    requires PercentTail(env, ds, pos)
    ensures DroppedCount(ds) == 0 && MadeUp(ds) == 1
  {
    if |ds| == 1 && ds[0] == CutOff(0) {
      assert ds[1..] == [];
    } else {
      TailShape(env, ds[1..], pos + PrintTakes(env.abi, ds[0]));
      assert ds[1..][|ds| - 2] == ds[|ds| - 1];
    }
  }

  lemma {:induction false} OutputAgrees(env: Env, ds: seq<Directive>, pos: nat)
    requires CutOffLast(ds) && SameArguments(ds) && !Overruns(ds)
    ensures PrintAll(env, ds, pos) == ScanAll(env, ds, pos) <==> Portable(ds) || Coincidence(env, ds, pos)
  {
    hide NumberText, PrintText, PrintTakes;
    if ds != [] {
      var d, rest := ds[0], ds[1..];
      var next := pos + PrintTakes(env.abi, d);
      assert Portable(ds) <==> Plain(d) && Portable(rest) by { assert ds == [d] + rest; }
      if Plain(d) {
        OutputAgrees(env, rest, next);
        SamePrefix(PrintText(env, d, pos), PrintAll(env, rest, next), ScanAll(env, rest, next));
      } else if d.CutOff? {
        assert d == CutOff(0) && rest == [];
        LonePercent(env, ds, pos);
      } else {
        TailAgrees(env, rest, pos);
        DroppedPercentText(env, d, pos);
      }
    }
  }

  lemma SamePrefix(t: string, a: string, b: string)
    ensures t + a == t + b <==> a == b
  {
    assert (t + a)[|t|..] == a && (t + b)[|t|..] == b;
  }

  lemma DroppedPercentText(env: Env, d: Directive, pos: nat)
    requires DroppedPercent(d)
    ensures PrintText(env, d, pos) == "%" && ScanText(env, d, pos) == ""
    ensures PrintTakes(env.abi, d) == 0 && ScanTakes(env.abi, d) == 0
  {
  }

  /**
   `printf` and `vprintf` print the same characters and take the same arguments
   exactly for the portable formats, one coincidence of percent signs aside.
   */
  lemma AgreeIff(env: Env, fmt: string, pos: nat)
    ensures var ds := Directives(fmt);
            Agree(env, ds, pos) <==> Portable(ds) || Coincidence(env, ds, pos)
  {
    var ds := Directives(fmt);
    OnlyLastCutOff(fmt);
    TakenSame(env.abi, ds);
    if SameArguments(ds) && !Overruns(ds) {
      OutputAgrees(env, ds, pos);
    } else if Coincidence(env, ds, pos) {
      CoincidenceShape(env, ds, pos);
    }
  }

  lemma {:induction false} CoincidenceShape(env: Env, ds: seq<Directive>, pos: nat)
    requires Coincidence(env, ds, pos)
    ensures SameArguments(ds) && !Overruns(ds)
  {
    hide PrintText, PrintTakes;
    var rest := ds[1..];
    assert ds == [ds[0]] + rest;
    if DroppedPercent(ds[0]) {
      TailShape(env, rest, pos);
      NothingDropped(rest);
      assert ds[|ds| - 1] == rest[|rest| - 1];
    } else {
      CoincidenceShape(env, rest, pos + PrintTakes(env.abi, ds[0]));
      assert rest != [];
      assert ds[|ds| - 1] == rest[|rest| - 1];
    }
  }

  /** The coincidence is real: both print a single percent sign for this format. */
  lemma CoincidenceExists(env: Env, pos: nat)
    ensures var ds := Directives("%l%%");
            !Portable(ds) && Coincidence(env, ds, pos) && PrintAll(env, ds, pos) == ScanAll(env, ds, pos) == "%"
  {
    var fmt := "%l%%";
    var ds := [Conversion(LongLength, '%'), CutOff(0)];
    assert Directives(fmt) == ds by {
      assert FirstDirective(fmt) == (Conversion(LongLength, '%'), 3);
      assert fmt[3..] == "%";
      LonePercentFormat();
    }
    assert ds[1..] == [CutOff(0)];
    assert DroppedPercent(ds[0]) && PercentTail(env, ds[1..], pos);
    AgreeIff(env, fmt, pos);
    DroppedPercentText(env, ds[0], pos);
    LonePercent(env, ds[1..], pos);
    assert PrintAll(env, ds, pos) == "%" + "";
  }

  lemma LonePercentFormat()
    ensures Directives("%") == [CutOff(0)]
  {
    assert FirstDirective("%") == (CutOff(0), 1);
    assert "%"[1..] == "";
  }
}
