/**
 What typed text looks like: where the characters of a string stand on the tape and
 on the screen, with the character codes as numbers and without reference to how one
 character is typed.  10 is the newline, 13 the carriage return, 9 the tab, 8 the
 backspace and 32 the blank.
 */
module Typing {
  import opened Machine
  import opened Tape
  import opened Console

  /** A string of characters that stand for themselves. */
  predicate Printable(s: seq<byte>) {
    forall i :: 0 <= i < |s| ==> s[i] != 8 && s[i] != 9 && s[i] != 10 && s[i] != 13
  }

  /** Cells other than those from `a` up to `b` hold what they held. */
  ghost predicate SameOutside(t: Tape, u: Tape, a: nat, b: nat) {
    forall i: nat :: !(a <= i < b) ==> Cell(u.cells, i) == Cell(t.cells, i)
  }

  /** The string stands on the tape from cell `at` on. */
  ghost predicate StandsAt(t: Tape, at: nat, s: seq<byte>) {
    forall k :: 0 <= k < |s| ==> Cell(t.cells, at + k) == s[k]
  }

  lemma {:induction false} TypeAllConcat(t: Tape, a: seq<byte>, b: seq<byte>)
    ensures TypeAll(t, a + b) == TypeAll(TypeAll(t, a), b)
    decreases |a|
  {
    if a == [] {
      assert a + b == b;
    } else {
      assert (a + b)[0] == a[0] && (a + b)[1..] == a[1..] + b;
      TypeAllConcat(Type(t, a[0]), a[1..], b);
    }
  }

  lemma TypeOne(t: Tape, c: byte)
    ensures TypeAll(t, [c]) == Type(t, c)
  {
    assert [c][1..] == [];
  }

  /** Text goes down at the pen, character by character, and changes nothing else. */
  lemma {:induction false} TextTyped(t: Tape, s: seq<byte>)
    requires Printable(s)
    ensures var u := TypeAll(t, s);
            u.pen == t.pen + |s| && StandsAt(u, t.pen, s) && SameOutside(t, u, t.pen, t.pen + |s|)
    decreases |s|
  {
    if s != [] {
      var t1 := Type(t, s[0]);
      assert Printable(s[1..]);
      TextTyped(t1, s[1..]);
      var u := TypeAll(t, s);
      forall k | 0 <= k < |s|
        ensures Cell(u.cells, t.pen + k) == s[k]
      {
        if k > 0 {
          assert Cell(u.cells, t1.pen + (k - 1)) == s[1..][k - 1];
        }
      }
    }
  }

  /** Two lines of text: the newline puts the second one under the first, from the first column on. */
  lemma LinesTyped(t: Tape, line: nat, s: seq<byte>, u: seq<byte>)
    requires t.pen == 80 * line && Printable(s) && Printable(u) && |s| < 80
    ensures var r := TypeAll(t, s + [10] + u);
            && StandsAt(r, 80 * line, s) && StandsAt(r, 80 * (line + 1), u)
            && r.pen == 80 * (line + 1) + |u|
  {
    var t1 := TypeAll(t, s);
    var t2 := Type(t1, 10);
    TypeAllConcat(t, s + [10], u);
    TypeAllConcat(t, s, [10]);
    TypeOne(t1, 10);
    TextTyped(t, s);
    assert t2.cells == t1.cells && t2.pen == 80 * (line + 1);
    TextTyped(t2, u);
    var r := TypeAll(t2, u);
    forall k | 0 <= k < |s|
      ensures Cell(r.cells, 80 * line + k) == s[k]
    {
      assert Cell(t1.cells, t.pen + k) == s[k];
    }
  }

  /** A carriage return: the second text is written over the front of the first, in the same line. */
  lemma OvertypedLine(t: Tape, line: nat, s: seq<byte>, u: seq<byte>)
    requires t.pen == 80 * line && Printable(s) && Printable(u) && |s| < 80
    ensures var r := TypeAll(t, s + [13] + u);
            && StandsAt(r, 80 * line, u) && r.pen == 80 * line + |u|
            && forall k :: |u| <= k < |s| ==> Cell(r.cells, 80 * line + k) == s[k]
  {
    var t1 := TypeAll(t, s);
    var t2 := Type(t1, 13);
    TypeAllConcat(t, s + [13], u);
    TypeAllConcat(t, s, [13]);
    TypeOne(t1, 13);
    TextTyped(t, s);
    assert t2.cells == t1.cells && t2.pen == 80 * line;
    TextTyped(t2, u);
    var r := TypeAll(t2, u);
    forall k | |u| <= k < |s|
      ensures Cell(r.cells, 80 * line + k) == s[k]
    {
      assert Cell(t1.cells, t.pen + k) == s[k];
    }
  }

  /** A character taken back: the pen is where it was, on a blank, and no other cell has changed. */
  lemma CharacterTakenBack(t: Tape, c: byte)
    requires Printable([c])
    ensures var r := TypeAll(t, [c, 8]);
            r.pen == t.pen && Cell(r.cells, t.pen) == 32 && SameOutside(t, r, t.pen, t.pen + 1)
  {
    TypeAllConcat(t, [c], [8]);
    assert [c] + [8] == [c, 8];
    assert Printable([c]) && [c][0] == c;
    TypeOne(t, c);
    TypeOne(Type(t, c), 8);
  }

  /** A backspace anywhere but at the very start: one cell back, and a blank there. */
  lemma Backspaced(t: Tape)
    requires t.pen > 0
    ensures var r := TypeAll(t, [8]);
            r.pen == t.pen - 1 && Cell(r.cells, r.pen) == 32 && SameOutside(t, r, r.pen, t.pen)
  {
    TypeOne(t, 8);
  }

  /** A tab: two, two, one or three blanks by the column modulo four, and nothing else. */
  lemma TabTyped(t: Tape)
    ensures var r := TypeAll(t, [9]);
            var n := [2, 2, 1, 3][t.pen % 80 % 4];
            && r.pen == t.pen + n
            && (forall i :: t.pen <= i < t.pen + n ==> Cell(r.cells, i) == 32)
            && SameOutside(t, r, t.pen, t.pen + n)
  {
    TypeOne(t, 9);
    BlanksTyped(t, TabWidth(t.pen % 80));
  }

  lemma {:induction false} BlanksTyped(t: Tape, n: nat)
    ensures var r := Blanks(t, n);
            && r.pen == t.pen + n
            && (forall i :: t.pen <= i < t.pen + n ==> Cell(r.cells, i) == 32)
            && SameOutside(t, r, t.pen, t.pen + n)
    decreases n
  {
    if n > 0 {
      BlanksTyped(Write(t, BLANK), n - 1);
    }
  }

  /** A tape no one has typed on holds NULs: that is what a cleared screen shows. */
  lemma NothingTyped(i: nat)
    ensures Cell(EMPTY.cells, i) == 0 && EMPTY.pen == 0
  {
  }

  // ---------------------------------------------------------------- the screen

  /** The first line in view moves down only as far as it takes to see the pen. */
  lemma TopFollows(top: nat, t: Tape, height: nat)
    requires height > 0
    ensures var top' := TopFor(top, t, height);
            top' >= top && t.pen / 80 < top' + height && (top' == top || t.pen / 80 == top' + height - 1)
  {
  }

  /**
   Video memory, byte by byte: the cell in row `y` and column `x` has its character in
   byte 160y + 2x and its colour, 7, in the byte behind; the cursor stands at the pen.
   */
  lemma OnScreen(c: Console, x: nat, y: nat)
    requires c.Valid() && x < 80 && y < c.height
    ensures c.video.Length == 4000 && (c.height == 24 || c.height == 25) && 160 * y + 2 * x + 1 < 4000
    ensures c.video[160 * y + 2 * x] == Cell(c.tape.cells, 80 * (c.top + y) + x)
    ensures c.video[160 * y + 2 * x + 1] == 7
    ensures 0 <= c.screenX < 80 && 0 <= c.screenY < c.height
    ensures c.tape.pen == 80 * (c.top + c.screenY) + c.screenX
  {
    var k := 80 * y + x;
    assert c.video[..][2 * k] == Cell(c.tape.cells, 80 * c.top + k) && c.video[..][2 * k + 1] == DEFAULT_COLOR;
  }
}
