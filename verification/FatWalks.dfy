/**
 Why path walks end: from the table and the chains on the disk to walks of any depth.
 */
module FatWalks {
  import opened Machine
  import opened SectorStream
  import opened FatCursor
  import opened FatVolume
  import opened FatSearch
  import opened FatPath
  import opened FatChains
  import opened FatFiles

  /** No read of a chain whose own sectors can be read meets an unreadable sector. */
  lemma ChainNeverFails(v: Volume, entries: seq<Entry12>, chain: seq<nat>, c: Cursor, n: nat)
    requires ChainReadable(v, chain) && HoldsTable(v, entries) && IsChain(entries, chain)
    requires (Unlimited(c) || c.position <= c.size) && c.position <= ChainBytes(v, chain)
    ensures !ReadFails(StreamOf(v, Chain(chain[0])), c, n)
  {
    var s := StreamOf(v, Chain(chain[0]));
    DeliveredClosedForm(v, entries, chain, c, n);
    var p := c.position + Delivered(s, c, n);
    if OffsetIn(p) == 0 {
      ChainGoesOnTo(v, entries, chain, SectorOf(p));
    }
  }

  /** A sector of a readable chain, or the first one past it. */
  lemma ChainGoesOnTo(v: Volume, entries: seq<Entry12>, chain: seq<nat>, q: nat)
    requires ChainReadable(v, chain) && HoldsTable(v, entries) && IsChain(entries, chain)
    requires q <= SectorCount(v, chain)
    ensures var s := StreamOf(v, Chain(chain[0])); s.ends(q) || !s.bad(q)
  {
    InChain(v, chain, q);
    PastTheChain(v, chain);
    ChainGoesOn(v, entries, chain, q);
  }

  /** A file or directory just opened lies on a chain that ends and whose sectors can be read. */
  ghost predicate OnChain(v: Volume, entries: seq<Entry12>, n: Node) {
    && n.cursor.position == 0 && n.cursor.size < TWO31
    && exists chain: seq<nat> :: StartsChain(v, entries, n.origin, chain)
  }

  ghost predicate StartsChain(v: Volume, entries: seq<Entry12>, o: Origin, chain: seq<nat>) {
    IsChain(entries, chain) && ChainReadable(v, chain) && ChainBytes(v, chain) < TWO31 && o == Chain(chain[0])
  }

  /** Every search of such a directory ends, for every key, found or not, whatever size its entry gives. */
  lemma ChainSearchEnds(v: Volume, entries: seq<Entry12>, n: Node, key: seq<byte>)
    requires HoldsTable(v, entries) && OnChain(v, entries, n) && Placed(n)
    ensures SearchEnds(StreamOf(v, n.origin), n.cursor, key)
  {
    var chain: seq<nat> :| StartsChain(v, entries, n.origin, chain);
    var s, end := StreamOf(v, n.origin), SectorCount(v, chain);
    ChainReaches(v, entries, chain, 0);
    ChainReaches(v, entries, chain, end);
    InChain(v, chain, 0);
    ChainNeverFails(v, entries, chain, n.cursor, 32 * (Budget(n.cursor, end) / 32) + 32);
    FiniteSearchEnds(s, n.cursor, key, end);
  }

  /** Every search of a root that has a size, and whose sectors can be read, ends. */
  lemma RootSearchEnds(v: Volume, n: Node, key: seq<byte>)
    requires n.origin.Root? && n.cursor.position == 0 && 0 < n.cursor.size < TWO31
    requires forall q: nat :: q <= SectorOf(n.cursor.size) ==> !StreamOf(v, n.origin).bad(q)
    ensures SearchEnds(StreamOf(v, n.origin), n.cursor, key)
  {
    var s, c := StreamOf(v, n.origin), n.cursor;
    var all := 32 * (Budget(c, 0) / 32) + 32;
    assert SectorOf(Delivered(s, c, all)) <= SectorOf(c.size);
    FiniteSearchEnds(s, c, key, 0);
  }

  /** Each directory the walk along `path` finds on its way, and still has to search, lies on a chain. */
  ghost predicate DirectoriesOnChains(v: Volume, entries: seq<Entry12>, n: Node, path: seq<byte>)
    requires Placed(n)
    decreases |path|
  {
    path == [] || Rest(path) == [] ||
    forall key: seq<byte>, e: Entry ::
      KeyFor(Component(path), key) && Search(StreamOf(v, n.origin), n.cursor, key) == Some(e) && IsDirectoryEntry(e) ==>
        OnChain(v, entries, NodeOf(e)) && DirectoriesOnChains(v, entries, NodeOf(e), Rest(path))
  }

  /**
   A walk of any depth ends when the searches of the directory it starts in do, and the
   directories it goes through lie on chains.
   */
  lemma {:induction false} WalkEndsOnChains(v: Volume, entries: seq<Entry12>, n: Node, path: seq<byte>)
    requires HoldsTable(v, entries) && Placed(n) && DirectoriesOnChains(v, entries, n, path)
    requires forall key :: KeyFor(Component(path), key) ==> SearchEnds(StreamOf(v, n.origin), n.cursor, key)
    ensures WalkEnds(v, n, path)
    decreases |path|, 1
  {
    hide HoldsTable, DirectoriesOnChains, SearchEnds, KeyFor, Component, IsLast, Step, LosesDirectory, StreamOf, Rest;
    if path != [] {
      forall key | KeyFor(Component(path), key)
        ensures Rest(path) == [] || !LosesDirectory(v, n, key)
        ensures var m := Step(v, n, key, IsLast(path)); m.Some? ==> WalkEnds(v, m.value, Rest(path))
      {
        StepEnds(v, entries, n, path, key);
      }
    }
  }

  lemma {:induction false} StepEnds(v: Volume, entries: seq<Entry12>, n: Node, path: seq<byte>, key: seq<byte>)
    requires path != [] && KeyFor(Component(path), key)
    requires HoldsTable(v, entries) && Placed(n) && DirectoriesOnChains(v, entries, n, path)
    ensures Rest(path) == [] || !LosesDirectory(v, n, key)
    ensures var m := Step(v, n, key, IsLast(path)); m.Some? ==> WalkEnds(v, m.value, Rest(path))
    decreases |path|, 0
  {
    hide HoldsTable, OnChain, KeyFor, Component, IsLast, Search, StreamOf, Rest;
    var found := Search(StreamOf(v, n.origin), n.cursor, key);
    LastHasNoRest(path);
    if Rest(path) != [] && found.Some? && IsDirectoryEntry(found.value) {
      WalkGoesOn(v, entries, NodeOf(found.value), Rest(path));
    }
  }

  lemma LastHasNoRest(path: seq<byte>)
    ensures IsLast(path) ==> Rest(path) == []
  {
  }

  lemma {:induction false} WalkGoesOn(v: Volume, entries: seq<Entry12>, m: Node, path: seq<byte>)
    requires HoldsTable(v, entries) && Placed(m)
    requires OnChain(v, entries, m) && DirectoriesOnChains(v, entries, m, path)
    ensures WalkEnds(v, m, path)
    ensures !v.bad(LbaFor(v, m.origin, 0))
    decreases |path|, 2
  {
    forall key
      ensures SearchEnds(StreamOf(v, m.origin), m.cursor, key)
    {
      ChainSearchEnds(v, entries, m, key);
    }
    var chain: seq<nat> :| StartsChain(v, entries, m.origin, chain);
    assert LbaFor(v, m.origin, 0) == SectorLba(v, chain[0], 0);
    WalkEndsOnChains(v, entries, m, path);
  }

  /** From the root, as it is or rewound: a walk of any depth ends. */
  lemma WalkFromRootEnds(v: Volume, entries: seq<Entry12>, n: Node, path: seq<byte>)
    requires n.origin.Root? && n.cursor.position == 0 && 0 < n.cursor.size < TWO31
    requires forall q: nat :: q <= SectorOf(n.cursor.size) ==> !StreamOf(v, n.origin).bad(q)
    requires HoldsTable(v, entries) && DirectoriesOnChains(v, entries, n, path)
    ensures WalkEnds(v, n, path)
  {
    forall key
      ensures SearchEnds(StreamOf(v, n.origin), n.cursor, key)
    {
      RootSearchEnds(v, n, key);
    }
    WalkEndsOnChains(v, entries, n, path);
  }
}
