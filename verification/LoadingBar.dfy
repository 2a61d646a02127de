/** The loading bar that the reader draws while it moves from sector to sector. */
module LoadingBar {
  import opened Machine
  import opened SectorStream
  import opened FatCursor
  import opened FatVolume
  import opened FatChains
  import opened FatFiles

  /**
   One sector loaded with `left` bytes of the call still to come: the bar's scale is
   fixed when it is 0, and the column follows.  Without a column the division fails.
   */
  function BarStep(maxSector: u32, left: u32): (r: (u32, Option<int>))
  {
    var m := if maxSector == 0 then left / 512 else maxSector;
    (m, if m == 0 then None else Some(Wrap32(79 * Wrap32(m - left / 512)) / m))
  }

  /** The columns drawn at loads with these bytes still to come, from a given scale on. */
  function Columns(maxSector: u32, lefts: seq<u32>): (cs: seq<Option<int>>)
    ensures |cs| == |lefts|
    decreases |lefts|
  {
    if lefts == [] then []
    else
      var (m, column) := BarStep(maxSector, lefts[0]);
      [column] + Columns(m, lefts[1..])
  }

  /** What is left of a request at each sector that reading `left` bytes from `p` on loads. */
  function Loads(s: Stream, p: nat, left: u32): (lefts: seq<u32>)
    decreases left
  {
    var leftInBuffer := 512 - OffsetIn(p);
    if left < leftInBuffer || s.ends(SectorOf(p) + 1) || s.bad(SectorOf(p) + 1) then []
    else [left - leftInBuffer] + Loads(s, p + leftInBuffer, left - leftInBuffer)
  }

  lemma LoadsUnfold(s: Stream, p: nat, left: u32)
    ensures var rest, next := 512 - OffsetIn(p), SectorOf(p) + 1;
            && 0 < rest <= 512 && SectorOf(p + rest) == next
            && Loads(s, p, left) ==
               if left < rest || s.ends(next) || s.bad(next) then []
               else [left - rest] + Loads(s, p + rest, left - rest)
  {
  }

  lemma NothingToDraw(s: Stream)
    ensures forall p: nat :: Loads(s, p, 0) == []
    ensures forall m: u32 :: Columns(m, []) == []
  {
  }

  lemma ColumnsUnfold(m: u32, left: u32, lefts: seq<u32>)
    ensures var (scale, column) := BarStep(m, left);
            Columns(m, [left] + lefts) == [column] + Columns(scale, lefts)
  {
  }

  /** The scale, if it is not fixed yet, and the column; none where the division fails. */
  method DrawColumn(before: u32, byteCount: u32) returns (maxSector: u32, tval: Option<int>)
    ensures (maxSector, tval) == BarStep(before, byteCount)
  {
    maxSector := before;
    if maxSector == 0 {
      maxSector := byteCount / 512;
    }
    if maxSector == 0 {
      tval := None;
    } else {
      tval := Some(Wrap32(79 * Wrap32(maxSector - byteCount / 512)) / maxSector);
    }
  }

  /** The loads that draw: those of a chain.  Reading the root directory draws nothing. */
  function Drawn(v: Volume, o: Origin, p: nat, left: u32): seq<u32> {
    if o.Root? then [] else Loads(StreamOf(v, o), p, left)
  }

  /** The bar's part of the read loop. */
  method DrawBar(v: Volume, o: Origin, start: nat, request: u32) returns (columns: seq<Option<int>>)
    ensures columns == Columns(0, Drawn(v, o, start, request))
  {
    hide Loads, Columns, BarStep, SectorOf, OffsetIn, StreamOf;
    var s := StreamOf(v, o);
    var position: nat, byteCount: u32, maxSector: u32 := start, request, 0;
    columns := [];
    NothingToDraw(s);
    while byteCount > 0
      invariant o.Root? ==> columns == []
      invariant o.Chain? ==>
                  columns + Columns(maxSector, Loads(s, position, byteCount)) == Columns(0, Loads(s, start, request))
      decreases byteCount
    {
      LoadsUnfold(s, position, byteCount);
      var leftInBuffer := 512 - OffsetIn(position);
      var take := Min(byteCount, leftInBuffer);
      position := position + take;
      byteCount := byteCount - take;
      if leftInBuffer == take {
        if o.Root? {
          if s.bad(SectorOf(position)) {
            break;
          }
        } else {
          if s.ends(SectorOf(position)) || s.bad(SectorOf(position)) {
            break;
          }
          ColumnsUnfold(maxSector, byteCount, Loads(s, position, byteCount));
          var scale, tval := DrawColumn(maxSector, byteCount);
          maxSector := scale;
          columns := columns + [tval];
        }
      }
    }
  }

  /** A sector is loaded exactly when it can be had and the request extends to its first byte. */
  lemma {:induction false} LoadsAreSectors(s: Stream, p: nat, left: u32, q: nat)
    requires Reachable(s, SectorOf(p)) && q > SectorOf(p)
    ensures q <= SectorOf(p) + |Loads(s, p, left)| <==> Reachable(s, q) && 512 * q <= p + left
    decreases left
  {
    var leftInBuffer := 512 - OffsetIn(p);
    var next := SectorOf(p) + 1;
    assert SectorOf(p + leftInBuffer) == next;
    if left < leftInBuffer {
    } else if s.ends(next) || s.bad(next) {
      if Reachable(s, q) {
        ReachableMonotone(s, next, q);
      }
    } else if q > next {
      LoadsAreSectors(s, p + leftInBuffer, left - leftInBuffer, q);
    }
  }

  /** The loads of one call are 512 bytes apart. */
  lemma {:induction false} LoadsApart(s: Stream, p: nat, left: u32, i: nat)
    requires i < |Loads(s, p, left)|
    ensures Loads(s, p, left)[i] == left - (512 - OffsetIn(p)) - 512 * i
    decreases left
  {
    var leftInBuffer := 512 - OffsetIn(p);
    if i > 0 {
      LoadsApart(s, p + leftInBuffer, left - leftInBuffer, i - 1);
    }
  }

  /** The column for a scale of `m` sectors with `left` bytes to come. */
  function Column(m: nat, left: int): int
    requires m > 0
  {
    79 * (m - left / 512) / m
  }

  lemma ColumnInScale(m: nat, left: int)
    requires 0 < m && 0 <= left / 512 <= m
    ensures 0 <= Column(m, left) <= 79
    ensures Column(m, left) == 79 <==> left < 512
    ensures left / 512 == m ==> Column(m, left) == 0
  {
    var done := m - left / 512;
    var q, r := 79 * done / m, 79 * done % m;
    assert 79 * done == m * q + r;
    Scale(m, done, q, r);
  }

  lemma Scale(m: nat, done: nat, q: int, r: nat)
    requires done <= m && r < m && 79 * done == m * q + r
    ensures 0 <= q <= 79
    ensures q == 79 <==> done == m
    ensures done == 0 ==> q == 0
  {
    if q < 0 {
      MulAtLeast(m, -q);
    }
    if q > 79 {
      MulMonotone(m, m, 80, q);
    }
    if done == m {
      DivUnique(79 * m, m, q, r);
      DivUnique(79 * m, m, 79, 0);
    }
    if done == 0 {
      DivUnique(0, m, q, r);
      DivUnique(0, m, 0, 0);
    }
  }

  lemma ColumnsGrow(m: nat, left: int, later: int)
    requires m > 0 && 0 <= later <= left && left / 512 <= m
    ensures Column(m, left) <= Column(m, later)
  {
    var a, b := 79 * (m - left / 512), 79 * (m - later / 512);
    DivMonotone(a, b, m);
  }

  lemma DivMonotone(a: nat, b: nat, m: nat)
    requires a <= b && m > 0
    ensures a / m <= b / m
  {
    var p, q := a / m, b / m;
    assert a == m * p + a % m;
    assert b == m * q + b % m;
    if q < p {
      MulAtLeast(m, p - q);
      assert false;
    }
  }

  lemma StepColumn(m: u32, left: u32)
    requires 0 < m < 0x80_0000 && left / 512 <= m
    ensures BarStep(m, left) == (m, Some(Column(m, left)))
  {
    assert Wrap32(m - left / 512) == m - left / 512;
    assert Wrap32(79 * (m - left / 512)) == 79 * (m - left / 512);
  }

  /** With a scale in place the columns are those of the bytes left at each load. */
  lemma {:induction false} ScaledColumns(m: u32, lefts: seq<u32>, i: nat)
    requires 0 < m < 0x80_0000 && forall j :: 0 <= j < |lefts| ==> lefts[j] / 512 <= m
    requires i < |lefts|
    ensures Columns(m, lefts)[i] == Some(Column(m, lefts[i]))
    decreases |lefts|
  {
    hide Column, BarStep;
    StepColumn(m, lefts[0]);
    if i > 0 {
      ScaledColumns(m, lefts[1..], i - 1);
    }
  }

  /** A division by zero in the bar while `n` bytes are read from cursor `c`. */
  predicate BarFails(v: Volume, o: Origin, c: Cursor, n: nat)
    requires (Unlimited(c) || c.position <= c.size) && Limit(c, n) < TWO31
  {
    None in Columns(0, Drawn(v, o, c.position, Limit(c, n)))
  }

  /**
   The bar of a call divides by zero exactly when it reads a chain, the bytes it shares
   end in the sector behind the first one it completes, or with that sector's start,
   and that sector exists and can be read.
   */
  lemma BarFailsIff(v: Volume, o: Origin, c: Cursor, n: nat)
    requires (Unlimited(c) || c.position <= c.size) && Limit(c, n) < TWO31
    ensures var share, rest, q := Limit(c, n), 512 - OffsetIn(c.position), SectorOf(c.position) + 1;
            BarFails(v, o, c, n) <==>
            o.Chain? && rest <= share < rest + 512 && !StreamOf(v, o).ends(q) && !StreamOf(v, o).bad(q)
  {
    hide Column;
    var lefts := Drawn(v, o, c.position, Limit(c, n));
    if lefts != [] {
      var cs := Columns(0, lefts);
      if lefts[0] < 512 {
        assert cs[0] == None;
      } else {
        BarMoves(v, o, c, n);
      }
    }
  }

  /**
   A bar that does not fail starts at column 0, never goes back, stays on the screen
   and reaches column 79 exactly when less than a sector is left.
   */
  lemma BarMoves(v: Volume, o: Origin, c: Cursor, n: nat)
    requires (Unlimited(c) || c.position <= c.size) && Limit(c, n) < TWO31
    requires var lefts := Drawn(v, o, c.position, Limit(c, n)); lefts != [] && lefts[0] >= 512
    ensures var lefts := Drawn(v, o, c.position, Limit(c, n));
            var cs := Columns(0, lefts);
            && |cs| == |lefts| > 0 && cs[0] == Some(0)
            && (forall i :: 0 <= i < |cs| ==>
                  cs[i].Some? && 0 <= cs[i].value <= 79 && (cs[i].value == 79 <==> lefts[i] < 512))
            && (forall i, j :: 0 <= i < j < |cs| ==>
                  cs[i].Some? && cs[j].Some? && cs[i].value <= cs[j].value)
  {
    hide Column, BarStep, Loads, StreamOf;
    var s, lefts := StreamOf(v, o), Drawn(v, o, c.position, Limit(c, n));
    var cs, m := Columns(0, lefts), lefts[0] / 512;
    ScaleIsFixed(lefts);
    forall i | 0 <= i < |lefts|
      ensures 0 <= lefts[i] <= lefts[0] && lefts[i] / 512 <= m
    {
      LoadsApart(s, c.position, Limit(c, n), i);
      LoadsApart(s, c.position, Limit(c, n), 0);
    }
    forall i | 0 <= i < |lefts|
      ensures cs[i] == Some(Column(m, lefts[i]))
      ensures 0 <= Column(m, lefts[i]) <= 79 && (Column(m, lefts[i]) == 79 <==> lefts[i] < 512)
    {
      ScaledColumns(m, lefts, i);
      ColumnInScale(m, lefts[i]);
    }
    ColumnInScale(m, lefts[0]);
    forall i, j | 0 <= i < j < |lefts|
      ensures Column(m, lefts[i]) <= Column(m, lefts[j])
    {
      LoadsApart(s, c.position, Limit(c, n), i);
      LoadsApart(s, c.position, Limit(c, n), j);
      ColumnsGrow(m, lefts[i], lefts[j]);
    }
  }

  /** The first load fixes the scale for the call. */
  lemma ScaleIsFixed(lefts: seq<u32>)
    requires lefts != [] && lefts[0] >= 512
    ensures Columns(0, lefts) == Columns(lefts[0] / 512, lefts)
  {
  }

  // ---------------------------------------------------------------- where it fails

  lemma EntryPlace(i: nat)
    ensures SectorOf(32 * i) == i / 16 && OffsetIn(32 * i) == 32 * (i % 16)
  {
  }

  lemma CallPlace(m: nat)
    ensures SectorOf(0x1_0000 * m) == 128 * m && OffsetIn(0x1_0000 * m) == 0
  {
  }

  /** Reading one directory entry of a subdirectory fails exactly at the end of a sector that has a next. */
  lemma EntryBarFailsIff(v: Volume, entries: seq<Entry12>, chain: seq<nat>, i: nat)
    requires ChainReadable(v, chain) && HoldsTable(v, entries) && IsChain(entries, chain)
    requires i / 16 < SectorCount(v, chain)
    ensures BarFails(v, Chain(chain[0]), Cursor(32 * i, 0, true), 32) <==>
            i % 16 == 15 && i / 16 + 1 < SectorCount(v, chain)
  {
    hide BarFails, SectorOf, OffsetIn;
    BarFailsIff(v, Chain(chain[0]), Cursor(32 * i, 0, true), 32);
    EntryPlace(i);
    ChainReaches(v, entries, chain, i / 16);
    ChainReaches(v, entries, chain, i / 16 + 1);
  }

  lemma ChainPlace(v: Volume, chain: seq<nat>)
    ensures SectorOf(ChainBytes(v, chain)) == SectorCount(v, chain) && OffsetIn(ChainBytes(v, chain)) == 0
  {
  }

  /** The cursor with which a search of a subdirectory asks for entry `i`. */
  lemma EntryCursor(v: Volume, entries: seq<Entry12>, chain: seq<nat>, i: nat)
    requires ChainReadable(v, chain) && HoldsTable(v, entries) && IsChain(entries, chain)
    ensures var c := After(StreamOf(v, Chain(chain[0])), Cursor(0, 0, true), 32 * i);
            if 32 * i < ChainBytes(v, chain) then c == Cursor(32 * i, 0, true)
            else c.position == c.size > 0
  {
    hide SectorCount, Delivered, Reachable, SectorOf, OffsetIn, ClusterIndex, StreamOf;
    DeliveredClosedForm(v, entries, chain, Cursor(0, 0, true), 32 * i);
    EntryPlace(i);
    ChainPlace(v, chain);
    PastTheChain(v, chain);
    if 32 * i < ChainBytes(v, chain) {
      if i >= 16 {
        NextInChain(v, entries, chain, i / 16);
      }
    } else {
      ChainGoesOn(v, entries, chain, SectorCount(v, chain));
    }
  }

  /** The search's call for entry `i` fails exactly when that is the last of a sector that has a next. */
  lemma EntryCallFailsIff(v: Volume, entries: seq<Entry12>, chain: seq<nat>, i: nat)
    requires ChainReadable(v, chain) && HoldsTable(v, entries) && IsChain(entries, chain)
    ensures var o := Chain(chain[0]);
            BarFails(v, o, After(StreamOf(v, o), Cursor(0, 0, true), 32 * i), 32) <==>
            i % 16 == 15 && i / 16 + 1 < SectorCount(v, chain)
  {
    hide BarFails, After, StreamOf, Reachable, SectorCount;
    var o := Chain(chain[0]);
    EntryCursor(v, entries, chain, i);
    if 32 * i < ChainBytes(v, chain) {
      EntryBarFailsIff(v, entries, chain, i);
    } else {
      BarFailsIff(v, o, After(StreamOf(v, o), Cursor(0, 0, true), 32 * i), 32);
    }
  }

  /** A search that asks for `asked` entries of a subdirectory fails exactly when it gets to a second sector. */
  lemma SearchBarFailsIff(v: Volume, entries: seq<Entry12>, chain: seq<nat>, asked: nat)
    requires ChainReadable(v, chain) && HoldsTable(v, entries) && IsChain(entries, chain)
    ensures var o := Chain(chain[0]);
            (exists i: nat :: i < asked && BarFails(v, o, After(StreamOf(v, o), Cursor(0, 0, true), 32 * i), 32)) <==>
            asked >= 16 && SectorCount(v, chain) > 1
  {
    hide BarFails, After;
    var o := Chain(chain[0]);
    forall i: nat | i < asked
      ensures BarFails(v, o, After(StreamOf(v, o), Cursor(0, 0, true), 32 * i), 32) <==>
              i % 16 == 15 && i / 16 + 1 < SectorCount(v, chain)
    {
      EntryCallFailsIff(v, entries, chain, i);
    }
    if asked >= 16 && SectorCount(v, chain) > 1 {
      assert BarFails(v, o, After(StreamOf(v, o), Cursor(0, 0, true), 32 * 15), 32);
    }
  }

  /** The cursor with which the kernel load makes its call `m`: at its place in the file, or with nothing left. */
  lemma CallCursor(v: Volume, entries: seq<Entry12>, chain: seq<nat>, size: nat, m: nat)
    requires ChainReadable(v, chain) && HoldsTable(v, entries) && IsChain(entries, chain)
    ensures var c := After(StreamOf(v, Chain(chain[0])), Cursor(0, size, false), 0x1_0000 * m);
            if 0x1_0000 * m < Min(size, ChainBytes(v, chain)) then c == Cursor(0x1_0000 * m, size, false)
            else !c.isDirectory && c.position == c.size
  {
    hide SectorCount, Delivered, Reachable, SectorOf, OffsetIn, ClusterIndex, StreamOf;
    var s, c, at := StreamOf(v, Chain(chain[0])), Cursor(0, size, false), 0x1_0000 * m;
    DeliveredClosedForm(v, entries, chain, c, at);
    CallPlace(m);
    ChainPlace(v, chain);
    if at < Min(size, ChainBytes(v, chain)) {
      if m > 0 {
        NextInChain(v, entries, chain, 128 * m);
      }
    } else if ChainBytes(v, chain) <= size {
      PastTheChain(v, chain);
      ChainGoesOn(v, entries, chain, SectorCount(v, chain));
    }
  }

  /** Call `m` of the kernel load fails exactly when its share is one sector, or more but not two. */
  lemma LoadCallFailsIff(v: Volume, entries: seq<Entry12>, chain: seq<nat>, size: nat, m: nat)
    requires ChainReadable(v, chain) && HoldsTable(v, entries) && IsChain(entries, chain)
    ensures var c := After(StreamOf(v, Chain(chain[0])), Cursor(0, size, false), 0x1_0000 * m);
            BarFails(v, Chain(chain[0]), c, 0x1_0000) <==>
            0x1_0000 * m + 512 <= size < 0x1_0000 * m + 1024 && 0x1_0000 * m + 512 < ChainBytes(v, chain)
  {
    hide Reachable, BarFails, SectorOf, After;
    var c := After(StreamOf(v, Chain(chain[0])), Cursor(0, size, false), 0x1_0000 * m);
    BarFailsIff(v, Chain(chain[0]), c, 0x1_0000);
    CallCursor(v, entries, chain, size, m);
    CallPlace(m);
    if 0x1_0000 * m < Min(size, ChainBytes(v, chain)) {
      NextInChain(v, entries, chain, 128 * m + 1);
    }
  }

  /**
   Loading a kernel of this size divides by zero in one of its calls exactly when the
   size is, above a multiple of 64 KiB, one sector or more but less than two, and the
   chain goes on behind that one sector.  The size may be more than the chain holds.
   */
  lemma KernelBarFailsIff(v: Volume, entries: seq<Entry12>, chain: seq<nat>, size: nat)
    requires ChainReadable(v, chain) && HoldsTable(v, entries) && IsChain(entries, chain)
    ensures var o := Chain(chain[0]);
            (exists m: nat ::
               BarFails(v, o, After(StreamOf(v, o), Cursor(0, size, false), 0x1_0000 * m), 0x1_0000)) <==>
            512 <= size % 0x1_0000 < 1024 && size / 0x1_0000 * 0x1_0000 + 512 < ChainBytes(v, chain)
  {
    hide BarFails, After, ChainBytes;
    var o, last := Chain(chain[0]), size / 0x1_0000;
    assert 0x1_0000 * last + size % 0x1_0000 == size;
    forall m: nat
      ensures BarFails(v, o, After(StreamOf(v, o), Cursor(0, size, false), 0x1_0000 * m), 0x1_0000) <==>
              m == last && 512 <= size % 0x1_0000 < 1024 && 0x1_0000 * m + 512 < ChainBytes(v, chain)
    {
      LoadCallFailsIff(v, entries, chain, size, m);
    }
    if 512 <= size % 0x1_0000 < 1024 && 0x1_0000 * last + 512 < ChainBytes(v, chain) {
      assert BarFails(v, o, After(StreamOf(v, o), Cursor(0, size, false), 0x1_0000 * last), 0x1_0000);
    }
  }
}
