/**
 What a terminal without edges would show: one endless row of cells, 80 of which
 make a line, and a pen.  There is no scrolling and no wrapping here.
 */
module Tape {
  import opened Machine

  const NEWLINE: byte := 10
  const RETURN: byte := 13
  const TAB: byte := 9
  const BACKSPACE: byte := 8
  const BLANK: byte := 32

  datatype Tape = Tape(cells: map<nat, byte>, pen: nat)

  const EMPTY: Tape := Tape(map[], 0)

  /** A cell never written holds NUL. */
  function Cell(cells: map<nat, byte>, i: nat): byte {
    if i in cells then cells[i] else 0
  }

  function Write(t: Tape, c: byte): Tape {
    Tape(t.cells[t.pen := c], t.pen + 1)
  }

  /** A tab from this column writes so many blanks; it does not stop at a multiple of four. */
  function TabWidth(column: nat): (n: nat)
    ensures 1 <= n <= 3
  {
    if column % 4 == 2 then 1 else if column % 4 == 3 then 3 else 2
  }

  /** From no column at all does a tab end at a multiple of four. */
  lemma TabMissesStops(column: nat)
    ensures (column + TabWidth(column)) % 4 != 0
  {
  }

  function Blanks(t: Tape, n: nat): Tape
    decreases n
  {
    if n == 0 then t else Blanks(Write(t, BLANK), n - 1)
  }

  function Type(t: Tape, c: byte): Tape {
    if c == NEWLINE then Tape(t.cells, 80 * (t.pen / 80 + 1))
    else if c == RETURN then Tape(t.cells, 80 * (t.pen / 80))
    else if c == TAB then Blanks(t, TabWidth(t.pen % 80))
    else if c == BACKSPACE then
      if t.pen == 0 then t else Tape(t.cells[t.pen - 1 := BLANK], t.pen - 1)
    else Write(t, c)
  }

  function TypeAll(t: Tape, s: seq<byte>): Tape
    decreases |s|
  {
    if s == [] then t else TypeAll(Type(t, s[0]), s[1..])
  }

  /** The first line in view when the pen must be in view and the window only moves down. */
  function TopFor(top: nat, t: Tape, height: nat): nat
    requires height > 0
  {
    Max(top, t.pen / 80 - (height - 1))
  }

  function TopAfter(top: nat, t: Tape, height: nat, s: seq<byte>): nat
    requires height > 0
    decreases |s|
  {
    if s == [] then top else TopAfter(TopFor(top, Type(t, s[0]), height), Type(t, s[0]), height, s[1..])
  }

  /** The one step that leaves the screen: a backspace with the pen in its first cell. */
  predicate LeavesScreen(top: nat, t: Tape, c: byte) {
    c == BACKSPACE && t.pen == 80 * top
  }

  predicate StaysOnScreen(top: nat, t: Tape, height: nat, s: seq<byte>)
    requires height > 0
    decreases |s|
  {
    s == [] ||
    (!LeavesScreen(top, t, s[0]) && StaysOnScreen(TopFor(top, Type(t, s[0]), height), Type(t, s[0]), height, s[1..]))
  }

  /** Lines below the pen have never been written, whatever was typed. */
  predicate CleanBelow(cells: map<nat, byte>, line: nat) {
    forall i :: i in cells ==> i < 80 * line
  }

  lemma {:induction false} BlanksSnoc(t: Tape, n: nat)
    ensures Blanks(t, n + 1) == Write(Blanks(t, n), BLANK)
    ensures Blanks(t, n).pen == t.pen + n
    decreases n
  {
    if n > 0 {
      BlanksSnoc(Write(t, BLANK), n - 1);
    }
  }

  /** A pen position as line and column. */
  lemma PenAt(pen: nat, line: nat, column: nat)
    requires pen == 80 * line + column && column < 80
    ensures pen / 80 == line && pen % 80 == column && pen % 4 == column % 4
  {
  }

  /** The tab's loop condition, with the cursor `i` blanks on, counts up to the tab's width. */
  lemma TabBound(start: nat, line0: nat, column: nat, line: nat, x: nat, i: nat)
    requires start == 80 * line0 + column && start + i == 80 * line + x
    requires i <= TabWidth(column)
    ensures i < 4 - x % 4 <==> i < TabWidth(column)
  {
    hide TabWidth;
    SameModFour(x, 20 * (line0 - line), column + i);
    TabBoundInColumn(column, x % 4, i);
  }

  lemma TabBoundInColumn(column: nat, r: nat, i: nat)
    requires r == (column + i) % 4 && i <= TabWidth(column)
    ensures i < 4 - r <==> i < TabWidth(column)
  {
  }

  lemma SameModFour(x: int, d: int, y: int)
    requires x == 4 * d + y
    ensures x % 4 == y % 4
  {
  }

  lemma StartBlanks(t: Tape)
    ensures Blanks(t, 0) == t
  {
  }

  /** Typing never moves the pen up by itself; only a backspace does. */
  lemma TypeMovesOn(t: Tape, c: byte)
    requires c != BACKSPACE
    ensures Type(t, c).pen / 80 >= t.pen / 80
  {
    if c == TAB {
      BlanksSnoc(t, TabWidth(t.pen % 80));
    }
  }

  /** Without backspaces the window ends with the pen's line: the screen shows the last lines typed. */
  lemma {:induction false} WindowFollowsPen(top: nat, t: Tape, height: nat, s: seq<byte>)
    requires height > 0 && BACKSPACE !in s
    ensures TopAfter(top, t, height, s) == if s == [] then top else TopFor(top, TypeAll(t, s), height)
    ensures TypeAll(t, s).pen / 80 >= t.pen / 80
    ensures StaysOnScreen(top, t, height, s)
    decreases |s|
  {
    if s != [] {
      TypeMovesOn(t, s[0]);
      WindowFollowsPen(TopFor(top, Type(t, s[0]), height), Type(t, s[0]), height, s[1..]);
    }
  }
}
