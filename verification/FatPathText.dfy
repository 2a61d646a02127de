/**
 Paths as a caller writes them: names joined by slashes.  Nothing here speaks of
 how the walk takes a path apart; 47 is the code of the slash.
 */
module FatPathText {
  import opened Machine
  import opened SectorStream
  import opened FatCursor
  import opened FatVolume
  import opened FatNames
  import opened FatSearch
  import opened FatPath

  /** The names of a path with a slash between each two of them. */
  function Joined(names: seq<seq<byte>>): seq<byte> {
    if names == [] then []
    else if |names| == 1 then names[0]
    else names[0] + [47] + Joined(names[1..])
  }

  /** Following a list of names: each but the last leads to a directory, the last to anything. */
  ghost function Followed(v: Volume, n: Node, names: seq<seq<byte>>): Option<Node>
    requires Placed(n)
    decreases |names|
  {
    if names == [] then Some(n)
    else
      match Step(v, n, FatName(names[0]), |names| == 1)
      case None => None
      case Some(m) => Followed(v, m, names[1..])
  }

  /** A name, a slash and more: the walk's first component, and what it leaves. */
  lemma PathParts(a: seq<byte>, b: seq<byte>)
    requires 47 !in a
    ensures Component(a + [47] + b) == a && !IsLast(a + [47] + b) && Rest(a + [47] + b) == b
    ensures Component(a) == a && IsLast(a) && Rest(a) == []
  {
    var path := a + [47] + b;
    assert path[|a|] == 47;
    IndexOfIs(path, 47, |a|);
    IndexOfIs(a, 47, |a|);
    assert path[..|a|] == a && path[|a| + 1..] == b && a[..|a|] == a;
  }

  /** What a path names is its first name followed by the rest; a path of one name ends with it. */
  lemma ResolveSplit(v: Volume, n: Node, a: seq<byte>, b: seq<byte>)
    requires Placed(n) && 47 !in a
    ensures Resolve(v, n, a + [47] + b) ==
            match Step(v, n, FatName(a), false)
            case None => None
            case Some(m) => Resolve(v, m, b)
    ensures a != [] ==> Resolve(v, n, a) == Step(v, n, FatName(a), true)
  {
    PathParts(a, b);
    ResolveStep(v, n, a + [47] + b);
    if a != [] {
      ResolveStep(v, n, a);
    }
  }

  /** The same for the walk with bytes left unset behind its components. */
  lemma MayReachSplit(v: Volume, n: Node, a: seq<byte>, b: seq<byte>, r: Option<Node>)
    requires Placed(n) && 47 !in a
    ensures MayReach(v, n, a + [47] + b, r) <==>
            exists key :: KeyFor(a, key) &&
              (match Step(v, n, key, false)
               case None => r == None
               case Some(m) => MayReach(v, m, b, r))
    ensures a != [] ==> (MayReach(v, n, a, r) <==> exists key :: KeyFor(a, key) && r == Step(v, n, key, true))
  {
    hide Step, KeyFor;
    var path := a + [47] + b;
    PathParts(a, b);
    forall key
      ensures MayStep(v, n, path, key, r) <==>
              match Step(v, n, key, false) case None => r == None case Some(m) => MayReach(v, m, b, r)
      ensures a != [] ==> (MayStep(v, n, a, key, r) <==> r == Step(v, n, key, true))
    {
    }
  }

  predicate ProperNames(names: seq<seq<byte>>) {
    forall i :: 0 <= i < |names| ==> names[i] != [] && 47 !in names[i]
  }

  /** The join law: a path names what following its names, one after the other, leads to. */
  lemma {:induction false} ResolveJoined(v: Volume, n: Node, names: seq<seq<byte>>)
    requires Placed(n) && ProperNames(names)
    ensures Resolve(v, n, Joined(names)) == Followed(v, n, names)
    decreases |names|
  {
    if names == [] {
      ResolveDone(v, n);
    } else if |names| == 1 {
      ResolveSplit(v, n, names[0], []);
      assert names[1..] == [];
    } else {
      ResolveSplit(v, n, names[0], Joined(names[1..]));
      var m := Step(v, n, FatName(names[0]), false);
      if m.Some? {
        ResolveJoined(v, m.value, names[1..]);
      }
    }
  }

  /** One leading slash makes no difference; a path without one is walked from its first byte. */
  lemma LeadingSlash(path: seq<byte>)
    ensures Relative([47] + path) == path
    ensures path == [] || path[0] != 47 ==> Relative(path) == path
  {
  }

  /** The walk's name buffer holds names of up to 254 bytes, and that is all it asks of a path. */
  lemma {:induction false} NamesFit(names: seq<seq<byte>>)
    requires ProperNames(names)
    ensures ComponentsFit(Joined(names)) <==> forall i :: 0 <= i < |names| ==> |names[i]| <= 254
    decreases |names|
  {
    if |names| == 1 {
      PathParts(names[0], []);
      assert ComponentsFit([]);
    } else if |names| > 1 {
      PathParts(names[0], Joined(names[1..]));
      NamesFit(names[1..]);
      assert forall i :: 1 <= i < |names| ==> names[i] == names[1..][i - 1];
    }
  }

  /** A C string ends at its first zero byte. */
  lemma CStringEnds(s: seq<byte>, rest: seq<byte>)
    requires 0 !in s
    ensures CString(s + [0] + rest) == s
  {
    IndexOfIs(s + [0] + rest, 0, |s|);
    assert (s + [0] + rest)[..|s|] == s;
  }

  // ---------------------------------------------------------------- entries

  /** The directory bit of an entry is bit 4 of byte 11. */
  predicate DirectoryBit(e: Entry) {
    e[11] / 16 % 2 == 1
  }

  lemma Decoded(e: Entry)
    ensures IsDirectoryEntry(e) == DirectoryBit(e)
    ensures FirstClusterOf(e) == e[26] as int + 256 * e[27] as int + 65536 * (e[20] as int + 256 * e[21] as int)
    ensures SizeOf(e) == e[28] as int + 256 * e[29] as int + 65536 * (e[30] as int + 256 * e[31] as int)
  {
  }

  /**
   Where a lookup that finds entry `i` leads: to nothing when a directory is asked for
   and bit 4 of byte 11 is clear, or when the first sector cannot be read; otherwise to
   the start of the chain whose first cluster is in bytes 26, 27, 20, 21, with the size
   in bytes 28 to 31.
   */
  lemma StepDecoded(v: Volume, n: Node, key: seq<byte>, isLast: bool, i: nat)
    requires Placed(n) && FirstHit(StreamOf(v, n.origin), n.cursor, key, i)
    ensures var e := EntryAt(StreamOf(v, n.origin), n.cursor, i);
            var cluster := e[26] as int + 256 * e[27] as int + 65536 * (e[20] as int + 256 * e[21] as int);
            var size := e[28] as int + 256 * e[29] as int + 65536 * (e[30] as int + 256 * e[31] as int);
            Step(v, n, key, isLast) ==
            if (isLast || DirectoryBit(e)) && !v.bad(ClusterToLba(v, cluster)) then
              Some(Node(Chain(cluster), Cursor(0, size, DirectoryBit(e))))
            else None
  {
    hide FirstHit, EntryAt, StreamOf;
    SearchIs(StreamOf(v, n.origin), n.cursor, key, i);
    Decoded(EntryAt(StreamOf(v, n.origin), n.cursor, i));
  }

  /** Entry `i` is 32 bytes, 32 to an entry from the cursor on. */
  lemma EntryBytesAt(s: Stream, c: Cursor, i: nat, j: nat)
    requires j < 32
    ensures EntryAt(s, c, i)[j] == s.sector((c.position + 32 * i + j) / 512)[(c.position + 32 * i + j) % 512]
  {
    assert EntryAt(s, c, i)[j] == ByteAt(s, c.position + 32 * i + j);
  }
}
