/** The text console: two bytes a cell in video memory, a cursor, and scrolling in place. */
module Console {
  import opened Machine
  import opened Tape

  const DEFAULT_COLOR: byte := 7

  /** The text page: 25 lines of 80 cells, of which the boot loader uses 24 lines. */
  const VIDEO_BYTES: nat := 4000

  /** Byte `i` after everything moved up by `lines` and the rest was blanked. */
  function ScrolledByte(s: seq<byte>, lines: nat, height: nat, i: nat): byte
    requires i < |s| && 160 * height <= |s| && lines <= height
  {
    if i >= 160 * height then s[i]
    else if i + 160 * lines < 160 * height then s[i + 160 * lines]
    else if i % 2 == 0 then 0
    else DEFAULT_COLOR
  }

  function Scrolled(s: seq<byte>, lines: nat, height: nat): (r: seq<byte>)
    requires 160 * height <= |s| && lines <= height
    ensures |r| == |s|
  {
    seq<byte>(|s|, i requires 0 <= i < |s| => ScrolledByte(s, lines, height, i))
  }

  /** Scrolling twice is scrolling once by the sum. */
  lemma ScrollCompose(s: seq<byte>, a: nat, b: nat, height: nat)
    requires 160 * height <= |s| && a + b <= height
    ensures Scrolled(Scrolled(s, a, height), b, height) == Scrolled(s, a + b, height)
  {
    hide ScrolledByte;
    forall i: nat | i < |s|
      ensures ScrolledByte(Scrolled(s, a, height), b, height, i) == ScrolledByte(s, a + b, height, i)
    {
      ByteComposes(s, a, b, height, i);
    }
  }

  lemma ByteComposes(s: seq<byte>, a: nat, b: nat, height: nat, i: nat)
    requires 160 * height <= |s| && a + b <= height && i < |s|
    ensures ScrolledByte(Scrolled(s, a, height), b, height, i) == ScrolledByte(s, a + b, height, i)
  {
    SameParity(i, b);
  }

  lemma SameParity(i: nat, lines: nat)
    ensures (i + 160 * lines) % 2 == i % 2
  {
  }

  lemma ScrollKeepsRest(s: seq<byte>, lines: nat, height: nat)
    requires 160 * height <= |s| && lines <= height
    ensures Scrolled(s, lines, height)[160 * height..] == s[160 * height..]
  {
  }

  /** Every cell of the screen is the tape's cell, from line `top` on, in the default colour. */
  ghost predicate ShowsWindow(s: seq<byte>, cells: map<nat, byte>, top: nat, height: nat)
    requires 160 * height <= |s|
  {
    forall k :: 0 <= k < 80 * height ==> s[2 * k] == Cell(cells, 80 * top + k) && s[2 * k + 1] == DEFAULT_COLOR
  }

  /** Scrolling by one line moves the window down by one line. */
  lemma ScrollMovesWindow(s: seq<byte>, cells: map<nat, byte>, top: nat, height: nat)
    requires 0 < height && 160 * height <= |s|
    requires ShowsWindow(s, cells, top, height) && CleanBelow(cells, top + height)
    ensures ShowsWindow(Scrolled(s, 1, height), cells, top + 1, height)
  {
    hide ScrolledByte, CleanBelow, Cell;
    forall k | 0 <= k < 80 * height
      ensures Scrolled(s, 1, height)[2 * k] == Cell(cells, 80 * (top + 1) + k)
      ensures Scrolled(s, 1, height)[2 * k + 1] == DEFAULT_COLOR
    {
      ScrollMovesCell(s, cells, top, height, k);
    }
  }

  lemma ScrollMovesCell(s: seq<byte>, cells: map<nat, byte>, top: nat, height: nat, k: nat)
    requires 0 < height && 160 * height <= |s| && k < 80 * height
    requires ShowsWindow(s, cells, top, height) && CleanBelow(cells, top + height)
    ensures ScrolledByte(s, 1, height, 2 * k) == Cell(cells, 80 * (top + 1) + k)
    ensures ScrolledByte(s, 1, height, 2 * k + 1) == DEFAULT_COLOR
  {
    if k + 80 < 80 * height {
      var m := k + 80;
      assert s[2 * m] == Cell(cells, 80 * top + m) && s[2 * m + 1] == DEFAULT_COLOR;
    } else {
      assert 80 * (top + 1) + k !in cells;
    }
  }

  /** Writing a cell of the window writes the tape's cell. */
  lemma WriteShows(s: seq<byte>, cells: map<nat, byte>, top: nat, height: nat, j: nat, c: byte)
    requires 160 * height <= |s| && j < 80 * height
    requires ShowsWindow(s, cells, top, height)
    ensures ShowsWindow(s[2 * j := c], cells[80 * top + j := c], top, height)
  {
  }

  class Console {
    const height: nat
    const video: array<byte>
    var screenX: int
    var screenY: int
    ghost var tape: Tape
    ghost var top: nat

    constructor (height: nat, video: array<byte>)
      requires height == 24 || height == 25
      requires video.Length == VIDEO_BYTES
      ensures this.height == height && this.video == video && Shape()
    {
      this.height := height;
      this.video := video;
      this.screenX, this.screenY := 0, 0;
      this.tape, this.top := EMPTY, 0;
    }

    predicate Shape() {
      (height == 24 || height == 25) && video.Length == VIDEO_BYTES
    }

    /** Every cell in view is the tape's cell in the default colour. */
    ghost predicate Shows()
      requires Shape()
      reads this, video
    {
      ShowsWindow(video[..], tape.cells, top, height)
    }

    /** The screen is the window of `height` lines from line `top` of the tape on. */
    ghost predicate Valid()
      reads this, video
    {
      && Shape()
      && 0 <= screenX < 80 && 0 <= screenY < height
      && tape.pen == 80 * (top + screenY) + screenX
      && CleanBelow(tape.cells, top + height)
      && Shows()
    }

    method Putchr(x: int, y: int, chr: byte)
      requires Shape() && 0 <= x < 80 && 0 <= y < 25
      modifies video
      ensures video[..] == old(video[..])[2 * (y * 80 + x) := chr]
    {
      video[2 * (y * 80 + x)] := chr;
    }

    method Putcolor(x: int, y: int, color: byte)
      requires Shape() && 0 <= x < 80 && 0 <= y < 25
      modifies video
      ensures video[..] == old(video[..])[2 * (y * 80 + x) + 1 := color]
    {
      video[2 * (y * 80 + x) + 1] := color;
    }

    function Getchr(x: int, y: int): byte
      requires Shape() && 0 <= x < 80 && 0 <= y < 25
      reads video
    {
      video[2 * (y * 80 + x)]
    }

    function Getcolor(x: int, y: int): byte
      requires Shape() && 0 <= x < 80 && 0 <= y < 25
      reads video
    {
      video[2 * (y * 80 + x) + 1]
    }

    /** Moves everything up by `lines` in place, top row first, and blanks what is left over. */
    method Scrollback(lines: nat)
      requires Shape() && lines <= height
      modifies video, `screenY
      ensures video[..] == Scrolled(old(video[..]), lines, height)
      ensures screenY == old(screenY) - lines
    {
      ghost var was := video[..];
      MoveUp(lines);
      BlankRows(height - lines);
      screenY := screenY - lines;
      forall i: nat | i < VIDEO_BYTES
        ensures video[i] == ScrolledByte(was, lines, height, i)
      {
      }
      assert video[..] == Scrolled(was, lines, height);
    }

    /** The second pair of loops: blanks the rows of the screen from `first` on. */
    method BlankRows(first: nat)
      requires Shape() && first <= height
      modifies video
      ensures forall i :: 160 * first <= i < 160 * height ==> video[i] == if i % 2 == 0 then 0 else DEFAULT_COLOR
      ensures forall i :: 0 <= i < VIDEO_BYTES && !(160 * first <= i < 160 * height) ==> video[i] == old(video[i])
    {
      var y := first;
      while y < height
        invariant first <= y <= height
        invariant forall i :: 160 * first <= i < 160 * y ==> video[i] == if i % 2 == 0 then 0 else DEFAULT_COLOR
        invariant forall i :: 0 <= i < VIDEO_BYTES && !(160 * first <= i < 160 * y) ==> video[i] == old(video[i])
      {
        BlankLine(y);
        y := y + 1;
      }
    }

    /** The first pair of loops: every row is copied `lines` rows up, before it is overwritten itself. */
    method MoveUp(lines: nat)
      requires Shape() && lines <= height
      modifies video
      ensures forall i :: 0 <= i < 160 * (height - lines) ==> video[i] == old(video[i + 160 * lines])
      ensures forall i :: 160 * (height - lines) <= i < VIDEO_BYTES ==> video[i] == old(video[i])
    {
      ghost var was := video[..];
      var y := lines;
      while y < height
        invariant lines <= y <= height
        invariant forall i :: 0 <= i < 160 * (y - lines) ==> video[i] == was[i + 160 * lines]
        invariant forall i :: 160 * (y - lines) <= i < VIDEO_BYTES ==> video[i] == was[i]
      {
        var x := 0;
        while x < 80
          invariant 0 <= x <= 80
          invariant forall i :: 0 <= i < 160 * (y - lines) + 2 * x ==> video[i] == was[i + 160 * lines]
          invariant forall i :: 160 * (y - lines) + 2 * x <= i < VIDEO_BYTES ==> video[i] == was[i]
        {
          Putchr(x, y - lines, Getchr(x, y));
          Putcolor(x, y - lines, Getcolor(x, y));
          x := x + 1;
        }
        y := y + 1;
      }
    }

    /** The inner loop that blanks a line. */
    method BlankLine(y: nat)
      requires Shape() && y < 25
      modifies video
      ensures forall i :: 160 * y <= i < 160 * y + 160 ==> video[i] == if i % 2 == 0 then 0 else DEFAULT_COLOR
      ensures forall i :: 0 <= i < VIDEO_BYTES && !(160 * y <= i < 160 * y + 160) ==> video[i] == old(video[i])
    {
      var x := 0;
      while x < 80
        invariant 0 <= x <= 80
        invariant forall i :: 160 * y <= i < 160 * y + 2 * x ==> video[i] == if i % 2 == 0 then 0 else DEFAULT_COLOR
        invariant forall i :: 0 <= i < VIDEO_BYTES && !(160 * y <= i < 160 * y + 2 * x) ==> video[i] == old(video[i])
      {
        Putchr(x, y, 0);
        Putcolor(x, y, DEFAULT_COLOR);
        x := x + 1;
      }
    }

    /** In the middle of a character: the cursor may stand behind the last column or the last row. */
    ghost predicate Moving()
      reads this, video
    {
      && Shape()
      && 0 <= screenX <= 80 && 0 <= screenY <= height && (screenY == height ==> screenX == 0)
      && tape.pen == 80 * (top + screenY) + screenX
      && CleanBelow(tape.cells, top + height)
      && Shows()
    }

    /** The bytes behind the screen, where the boot loader draws its loading bar. */
    ghost function BehindScreen(): seq<byte>
      requires Shape()
      reads video
    {
      video[160 * height..]
    }

    /** The end of `putc`: wraps the cursor to the next row and scrolls when it is out of view. */
    method Settle()
      requires Moving()
      modifies this, video
      ensures Valid()
      ensures tape == old(tape) && top == TopFor(old(top), tape, height)
      ensures BehindScreen() == old(BehindScreen())
    {
      hide ShowsWindow, CleanBelow;
      if screenX >= 80 {
        screenY := screenY + 1;
        screenX := 0;
      }
      PenAt(tape.pen, top + screenY, screenX);
      if screenY >= height {
        ScrollLine();
      }
    }

    /** `scrollback(1)` with the cursor below the screen: the window moves down one line. */
    method ScrollLine()
      requires Moving() && screenY == height
      modifies video, `screenY, `top
      ensures Valid() && screenY == old(screenY) - 1 && top == old(top) + 1
      ensures BehindScreen() == old(BehindScreen())
    {
      hide ShowsWindow, ScrolledByte;
      ghost var was := video[..];
      ScrollMovesWindow(was, tape.cells, top, height);
      ScrollKeepsRest(was, 1, height);
      Scrollback(1);
      top := top + 1;
    }

    /** Writes a cell in view, on the screen and on the tape. */
    method PutCell(c: byte)
      requires Shape() && 0 <= screenX < 80 && 0 <= screenY < height
      requires CleanBelow(tape.cells, top + height) && Shows()
      modifies video, `tape
      ensures tape == old(tape).(cells := old(tape.cells)[80 * (top + screenY) + screenX := c])
      ensures CleanBelow(tape.cells, top + height) && Shows()
      ensures BehindScreen() == old(BehindScreen())
    {
      WriteShows(video[..], tape.cells, top, height, 80 * screenY + screenX, c);
      Putchr(screenX, screenY, c);
      tape := tape.(cells := tape.cells[80 * (top + screenY) + screenX := c]);
    }

    /** The tab: the bound is looked at again after every blank. */
    method PutTab()
      requires Valid()
      modifies this, video
      ensures Valid()
      ensures tape == Blanks(old(tape), TabWidth(old(screenX)))
      ensures top == TopFor(old(top), tape, height)
      ensures BehindScreen() == old(BehindScreen())
      decreases 2
    {
      hide ShowsWindow, CleanBelow, Blanks, TabWidth;
      ghost var t, line, column := tape, top + screenY, screenX;
      StartBlanks(t);
      var i := 0;
      while i < 4 - screenX % 4
        invariant Valid() && 0 <= i <= TabWidth(column) <= 3
        invariant tape == Blanks(t, i) && tape.pen == t.pen + i
        invariant top == TopFor(old(top), tape, height)
        invariant BehindScreen() == old(BehindScreen())
        decreases 4 - i
      {
        TabBound(t.pen, line, column, top + screenY, screenX, i);
        BlanksSnoc(t, i);
        PutBlank();
        i := i + 1;
      }
      TabBound(t.pen, line, column, top + screenY, screenX, i);
    }

    /** `putc(' ')`. */
    method PutBlank()
      requires Valid()
      modifies this, video
      ensures Valid()
      ensures tape == Write(old(tape), BLANK)
      ensures top == TopFor(old(top), tape, height)
      ensures BehindScreen() == old(BehindScreen())
      decreases 1
    {
      Putc(BLANK);
    }

    /**
     One character.  On the tape it is typed without any edge in the way; the window
     moves down just far enough to keep the pen in view.
     */
    method Putc(chr: byte)
      requires Valid() && !LeavesScreen(top, tape, chr)
      modifies this, video
      ensures Valid()
      ensures tape == Type(old(tape), chr)
      ensures top == TopFor(old(top), tape, height)
      ensures BehindScreen() == old(BehindScreen())
      decreases if chr == TAB then 3 else 0
    {
      hide ShowsWindow, CleanBelow, Blanks;
      PenAt(tape.pen, top + screenY, screenX);
      if chr == NEWLINE {
        screenX := 0;
        screenY := screenY + 1;
        tape := Type(tape, chr);
      } else if chr == RETURN {
        screenX := 0;
        tape := Type(tape, chr);
      } else if chr == TAB {
        PutTab();
      } else if chr == BACKSPACE {
        if screenX == 0 {
          screenX := 79;
          screenY := screenY - 1;
        } else {
          screenX := screenX - 1;
        }
        PutCell(BLANK);
        tape := tape.(pen := tape.pen - 1);
      } else {
        PutCell(chr);
        screenX := screenX + 1;
        tape := tape.(pen := tape.pen + 1);
      }
      Settle();
    }

    /** Blanks the whole screen and puts the cursor in its first cell. */
    method Clrscr()
      requires Shape()
      modifies this, video
      ensures Valid() && tape == EMPTY && top == 0
      ensures BehindScreen() == old(BehindScreen())
    {
      var y := 0;
      while y < height
        invariant 0 <= y <= height
        invariant forall i :: 0 <= i < 160 * y ==> video[i] == if i % 2 == 0 then 0 else DEFAULT_COLOR
        invariant forall i :: 160 * y <= i < VIDEO_BYTES ==> video[i] == old(video[i])
      {
        BlankLine(y);
        y := y + 1;
      }
      screenX := 0;
      screenY := 0;
      tape, top := EMPTY, 0;
    }

    /** A whole string.  The screen is still the window on what was typed. */
    method Puts(s: seq<byte>)
      requires Valid() && 0 !in s
      requires StaysOnScreen(top, tape, height, s)
      modifies this, video
      ensures Valid()
      ensures tape == TypeAll(old(tape), s)
      ensures top == TopAfter(old(top), old(tape), height, s) >= old(top)
      ensures BehindScreen() == old(BehindScreen())
    {
      var i := 0;
      while i < |s|
        invariant 0 <= i <= |s| && Valid()
        invariant StaysOnScreen(top, tape, height, s[i..])
        invariant TypeAll(tape, s[i..]) == TypeAll(old(tape), s)
        invariant TopAfter(top, tape, height, s[i..]) == TopAfter(old(top), old(tape), height, s)
        invariant top >= old(top)
        invariant BehindScreen() == old(BehindScreen())
      {
        assert s[i..][1..] == s[i + 1..];
        Putc(s[i]);
        i := i + 1;
      }
    }
  }

  // ---------------------------------------------------------------- the edge

  /** The byte a backspace at (x, y) writes, in the 32-bit unsigned arithmetic of `putchr`. */
  function BackspaceByte(x: nat, y: nat): u32 {
    var x', y' := if x == 0 then 79 else x - 1, if x == 0 then y - 1 else y;
    Wrap32(2 * Wrap32(y' * 80 + x'))
  }

  /** A backspace writes a cell of the screen unless it is issued in the first one. */
  lemma BackspaceInView(x: nat, y: nat, height: nat)
    requires x < 80 && y < height <= 25
    ensures BackspaceByte(x, y) < 160 * height <==> !(x == 0 && y == 0)
    ensures !(x == 0 && y == 0) ==> BackspaceByte(x, y) == 2 * (80 * y + x - 1)
  {
  }
}
