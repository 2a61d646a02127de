/**
 Directory search as a fact about the directory's byte sequence: the first
 remaining 32-byte entry whose name bytes match, or none.
 */
module FatSearch {
  import opened Machine
  import opened SectorStream
  import opened FatCursor
  import opened FatLayout

  const ATTRIBUTE_DIRECTORY: nat := 0x10

  type Entry = e: seq<byte> | |e| == 32 witness seq(32, _ => 0)

  function AttributesOf(e: Entry): byte {
    e[11]
  }

  predicate IsDirectoryEntry(e: Entry) {
    AttributesOf(e) / ATTRIBUTE_DIRECTORY % 2 == 1
  }

  function FirstClusterOf(e: Entry): u32 {
    Word(e, 26) + 0x1_0000 * Word(e, 20)
  }

  function SizeOf(e: Entry): u32 {
    Word(e, 28) + 0x1_0000 * Word(e, 30)
  }

  function WordBytes(w: nat): seq<byte>
    requires w < 0x1_0000
  {
    [w % 0x100, w / 0x100]
  }

  /** A directory entry written out; `times` and `modified` are not read. */
  function EntryBytes(name: seq<byte>, attributes: byte, times: seq<byte>, cluster: u32, modified: seq<byte>,
                      size: u32): Entry
    requires |name| == 11 && |times| == 8 && |modified| == 4
  {
    name + [attributes] + times + WordBytes(cluster / 0x1_0000) + modified + WordBytes(cluster % 0x1_0000) +
    WordBytes(size % 0x1_0000) + WordBytes(size / 0x1_0000)
  }

  /** Every field of an entry is read back from where it was written. */
  lemma EntryReadsBack(name: seq<byte>, attributes: byte, times: seq<byte>, cluster: u32, modified: seq<byte>,
                       size: u32)
    requires |name| == 11 && |times| == 8 && |modified| == 4
    ensures var e := EntryBytes(name, attributes, times, cluster, modified, size);
            && e[..11] == name
            && AttributesOf(e) == attributes
            && FirstClusterOf(e) == cluster
            && SizeOf(e) == size
  {
    var e := EntryBytes(name, attributes, times, cluster, modified, size);
    assert e[20..22] == WordBytes(cluster / 0x1_0000) && e[26..28] == WordBytes(cluster % 0x1_0000);
    assert e[28..30] == WordBytes(size % 0x1_0000) && e[30..32] == WordBytes(size / 0x1_0000);
    WordAt(e, 20, cluster / 0x1_0000);
    WordAt(e, 26, cluster % 0x1_0000);
    WordAt(e, 28, size % 0x1_0000);
    WordAt(e, 30, size / 0x1_0000);
  }

  lemma WordAt(e: Entry, at: nat, w: nat)
    requires at + 2 <= 32 && w < 0x1_0000 && e[at..at + 2] == WordBytes(w)
    ensures Word(e, at) == w
  {
    assert e[at] == e[at..at + 2][0] && e[at + 1] == e[at..at + 2][1];
  }

  /** The cursor of a handle freshly opened on an entry. */
  function CursorOf(e: Entry): Cursor {
    Cursor(0, SizeOf(e), IsDirectoryEntry(e))
  }

  /** The `i`-th 32 bytes from the cursor on. */
  function EntryAt(s: Stream, c: Cursor, i: nat): Entry {
    Content(s, c.position + 32 * i, 32)
  }

  /** Reading on from the cursor delivers entry `i` whole. */
  predicate Readable(s: Stream, c: Cursor, i: nat)
    requires Unlimited(c) || c.position <= c.size
  {
    Delivered(s, c, 32 * i + 32) == 32 * i + 32
  }

  predicate Hit(s: Stream, c: Cursor, key: seq<byte>, i: nat)
    requires Unlimited(c) || c.position <= c.size
  {
    Readable(s, c, i) && EntryAt(s, c, i)[..11] == key
  }

  predicate FirstHit(s: Stream, c: Cursor, key: seq<byte>, i: nat)
    requires Unlimited(c) || c.position <= c.size
  {
    Hit(s, c, key, i) && forall j: nat :: j < i ==> !Hit(s, c, key, j)
  }

  /** The entry a search for `key` must come back with. */
  ghost function Search(s: Stream, c: Cursor, key: seq<byte>): Option<Entry>
    requires Unlimited(c) || c.position <= c.size
  {
    if exists i: nat :: FirstHit(s, c, key, i) then
      var i: nat :| FirstHit(s, c, key, i);
      Some(EntryAt(s, c, i))
    else
      None
  }

  /** The search result is some entry exactly when some readable entry matches. */
  lemma SearchFindsIff(s: Stream, c: Cursor, key: seq<byte>)
    requires Unlimited(c) || c.position <= c.size
    ensures Search(s, c, key).Some? <==> exists i: nat :: Hit(s, c, key, i)
  {
    if i: nat :| Hit(s, c, key, i) {
      var j := LeastHit(s, c, key, i);
    }
  }

  lemma {:induction false} LeastHit(s: Stream, c: Cursor, key: seq<byte>, i: nat) returns (j: nat)
    requires Unlimited(c) || c.position <= c.size
    requires Hit(s, c, key, i)
    ensures FirstHit(s, c, key, j)
    decreases i
  {
    if k: nat :| k < i && Hit(s, c, key, k) {
      j := LeastHit(s, c, key, k);
    } else {
      j := i;
    }
  }

  lemma FirstHitUnique(s: Stream, c: Cursor, key: seq<byte>, i: nat, k: nat)
    requires Unlimited(c) || c.position <= c.size
    requires FirstHit(s, c, key, i) && FirstHit(s, c, key, k)
    ensures i == k
  {
    assert Hit(s, c, key, i) && Hit(s, c, key, k);
  }

  lemma SearchIs(s: Stream, c: Cursor, key: seq<byte>, i: nat)
    requires Unlimited(c) || c.position <= c.size
    requires FirstHit(s, c, key, i)
    ensures Search(s, c, key) == Some(EntryAt(s, c, i))
  {
    var k: nat :| FirstHit(s, c, key, k) && Search(s, c, key) == Some(EntryAt(s, c, k));
    FirstHitUnique(s, c, key, i, k);
  }

  /** Entry-wise reading is reading: `i` entries read one by one stand where one read stands. */
  lemma EntryStep(s: Stream, c: Cursor, i: nat)
    requires Sound(s, c) && !ReadFails(s, c, 32 * i)
    requires Delivered(s, c, 32 * i) == 32 * i
    ensures var c1 := After(s, c, 32 * i);
            && Sound(s, c1)
            && c1.position == c.position + 32 * i
            && (Readable(s, c, i) <==> Delivered(s, c1, 32) == 32)
            && (ReadFails(s, c1, 32) <==> ReadFails(s, c, 32 * i + 32))
            && After(s, c, 32 * i + 32) == After(s, c1, 32)
  {
    hide Available, Reachable, ReadFails, AtChainEnd;
    CursorsCompose(s, c, 32 * i, 32);
    FailuresCompose(s, c, 32 * i, 32);
  }

  /** Behind an unreadable entry there is none to read. */
  lemma UnreadableBeyond(s: Stream, c: Cursor, i: nat, j: nat)
    requires Unlimited(c) || c.position <= c.size
    requires i <= j && Readable(s, c, j)
    ensures Readable(s, c, i)
  {
    DeliveredGrows(s, c, 32 * i + 32, 32 * (j - i));
  }

  lemma NoneFound(s: Stream, c: Cursor, key: seq<byte>, n: nat)
    requires Unlimited(c) || c.position <= c.size
    requires !Readable(s, c, n)
    requires forall j: nat :: j < n ==> !Hit(s, c, key, j)
    ensures Search(s, c, key) == None
    ensures forall i: nat :: !Hit(s, c, key, i)
  {
    forall i: nat
      ensures !Hit(s, c, key, i)
    {
      if i >= n && Readable(s, c, i) {
        UnreadableBeyond(s, c, n, i);
      }
    }
  }

  // ---------------------------------------------------------------- where a search ends

  /**
   The search for `key` stops at entry `n` at the latest, because that entry matches
   or cannot be had, and the reads up to there meet no sector the drive cannot
   deliver; the sizes and positions it works with are below 2^31.
   */
  predicate StopsBy(s: Stream, c: Cursor, key: seq<byte>, n: nat)
    requires Unlimited(c) || c.position <= c.size
  {
    && c.size < TWO31 && c.position + 32 * n < TWO31
    && (Hit(s, c, key, n) || !Readable(s, c, n))
    && !ReadFails(s, c, 32 * n + 32)
  }

  /** The search for `key` comes to an end, and without a disk error on its way. */
  ghost predicate SearchEnds(s: Stream, c: Cursor, key: seq<byte>)
    requires Unlimited(c) || c.position <= c.size
  {
    exists n: nat :: StopsBy(s, c, key, n)
  }

  /** Where in the file the search for `key` leaves the handle, if only the size limits the file. */
  ghost function StopPosition(s: Stream, c: Cursor, key: seq<byte>): nat
    requires Unlimited(c) || c.position <= c.size
  {
    if exists i: nat :: FirstHit(s, c, key, i) then
      var i: nat :| FirstHit(s, c, key, i);
      c.position + 32 * i + 32
    else
      c.size
  }

  lemma StopsBehindHit(s: Stream, c: Cursor, key: seq<byte>, i: nat)
    requires Unlimited(c) || c.position <= c.size
    requires FirstHit(s, c, key, i)
    ensures StopPosition(s, c, key) == c.position + 32 * i + 32
  {
    var k: nat :| FirstHit(s, c, key, k) && StopPosition(s, c, key) == c.position + 32 * k + 32;
    FirstHitUnique(s, c, key, i, k);
  }

  lemma NeverEnded(s: Stream, c: Cursor)
    requires forall q: nat :: !s.ends(q)
    ensures !Ended(s, c)
  {
  }

  /** A search that has asked for `asked` entries and stops there stands at the stop position. */
  lemma StoppedAt(s: Stream, c: Cursor, key: seq<byte>, asked: nat)
    requires Sound(s, c) && !ReadFails(s, c, 32 * asked) && asked > 0
    requires forall q: nat :: !s.ends(q)
    requires forall j: nat :: j < asked - 1 ==> !Hit(s, c, key, j)
    requires Hit(s, c, key, asked - 1) || !Readable(s, c, asked - 1)
    ensures After(s, c, 32 * asked).position == StopPosition(s, c, key)
    ensures Reachable(s, SectorOf(StopPosition(s, c, key)))
  {
    hide Available, Ended;
    NeverEnded(s, c);
    ReadKeepsSound(s, c, 32 * asked);
    NeverEnded(s, After(s, c, 32 * asked));
    if Hit(s, c, key, asked - 1) {
      StopsBehindHit(s, c, key, asked - 1);
    } else {
      NoneFound(s, c, key, asked - 1);
      FullDelivery(s, c, 32 * asked);
    }
  }

  /** Reading on must stop: at the size, or for a directory without one at sector `end`. */
  ghost predicate Finite(s: Stream, c: Cursor, end: nat) {
    && c.size < TWO31
    && 512 * end < TWO31
    && (Unlimited(c) ==> !Reachable(s, end))
  }

  /** What is left: of the size, or of the sectors before the end. */
  function Budget(c: Cursor, end: nat): nat {
    Max(0, if Unlimited(c) then 512 * end - c.position else c.size - c.position)
  }

  /** No read, however long, delivers more than the budget. */
  lemma DeliveredWithin(s: Stream, c: Cursor, end: nat, n: nat)
    requires Sound(s, c) && Finite(s, c, end)
    ensures Delivered(s, c, n) <= Budget(c, end)
  {
    if Unlimited(c) {
      AvailableStops(s, c.position, n);
      var last := SectorOf(if n > 0 && Delivered(s, c, n) > 0 then c.position + Delivered(s, c, n) - 1 else c.position);
      if last >= end {
        ReachableMonotone(s, end, last);
      }
    }
  }

  /**
   Every search ends: by the size, or in a directory without one by the length of its
   chain, after as many entries as the budget holds.
   */
  lemma FiniteSearchEnds(s: Stream, c: Cursor, key: seq<byte>, end: nat)
    requires Sound(s, c) && Finite(s, c, end)
    requires !ReadFails(s, c, 32 * (Budget(c, end) / 32) + 32)
    ensures SearchEnds(s, c, key)
  {
    var n := Budget(c, end) / 32;
    DeliveredWithin(s, c, end, 32 * n + 32);
    assert StopsBy(s, c, key, n);
  }
}
