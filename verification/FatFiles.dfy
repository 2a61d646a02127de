/** Whole files: the closed form of a read, the round trip, and files kept apart. */
module FatFiles {
  import opened Machine
  import opened SectorStream
  import opened FatCursor
  import opened FatVolume
  import opened FatLayout
  import opened FatChains

  function ChainBytes(v: Volume, chain: seq<nat>): nat {
    512 * SectorCount(v, chain)
  }

  lemma {:induction false} AvailableClosedForm(s: Stream, count: nat, p: nat, n: nat)
    requires forall q: nat :: Reachable(s, q) <==> q < count
    requires p <= 512 * count
    ensures Available(s, p, n) == Min(n, 512 * count - p)
    decreases n
  {
    if n > 0 && SectorOf(p) < count {
      AvailableClosedForm(s, count, p + 1, n - 1);
    }
  }

  /**
   What one read delivers, in numbers: the request, what the size leaves and what
   the chain leaves, whichever is least; a directory of size 0 has no size term.
   */
  lemma DeliveredClosedForm(v: Volume, entries: seq<Entry12>, chain: seq<nat>, c: Cursor, n: nat)
    requires ChainReadable(v, chain) && HoldsTable(v, entries) && IsChain(entries, chain)
    requires Unlimited(c) || c.position <= c.size
    requires c.position <= ChainBytes(v, chain)
    ensures var left := ChainBytes(v, chain) - c.position;
            Delivered(StreamOf(v, Chain(chain[0])), c, n) ==
            if c.isDirectory && c.size == 0 then Min(n, left) else Min(Min(n, c.size - c.position), left)
  {
    var s := StreamOf(v, Chain(chain[0]));
    forall q: nat
      ensures Reachable(s, q) <==> q < SectorCount(v, chain)
    {
      ChainReaches(v, entries, chain, q);
    }
    AvailableClosedForm(s, SectorCount(v, chain), c.position, Limit(c, n));
  }

  /**
   Where one read leaves the handle, in numbers: behind what it delivered, with the size
   unchanged, unless it delivered the last byte of the chain, which then is the size.
   */
  lemma AfterClosedForm(v: Volume, entries: seq<Entry12>, chain: seq<nat>, c: Cursor, n: nat)
    requires ChainReadable(v, chain) && HoldsTable(v, entries) && IsChain(entries, chain)
    requires Unlimited(c) || c.position <= c.size
    requires c.position <= ChainBytes(v, chain)
    ensures var s := StreamOf(v, Chain(chain[0]));
            var k := Delivered(s, c, n);
            var p := c.position + k;
            After(s, c, n) ==
            if k > 0 && p == ChainBytes(v, chain) then Cursor(p, p, c.isDirectory) else Cursor(p, c.size, c.isDirectory)
  {
    hide SectorCount, Delivered, Reachable, ClusterIndex, StreamOf;
    var s := StreamOf(v, Chain(chain[0]));
    DeliveredClosedForm(v, entries, chain, c, n);
    var p := c.position + Delivered(s, c, n);
    PastTheChain(v, chain);
    InChain(v, chain, SectorOf(p));
    if OffsetIn(p) == 0 {
      ChainGoesOn(v, entries, chain, SectorOf(p));
    }
  }

  // ---------------------------------------------------------------- the round trip

  /** `data` lies on the disk along the chain, sector by sector. */
  ghost predicate Stores(v: Volume, chain: seq<nat>, data: seq<byte>) {
    && |data| <= ChainBytes(v, chain)
    && forall p: nat :: p < |data| ==> StoredByte(v, chain, p) == data[p]
  }

  /** The byte of the disk where byte `p` of a file with this chain belongs. */
  function StoredByte(v: Volume, chain: seq<nat>, p: nat): byte {
    var q := p / 512;
    var i := q / v.sectorsPerCluster;
    if i < |chain| then v.sectorAt(SectorLba(v, chain[i], q % v.sectorsPerCluster))[p % 512] else 0
  }

  lemma ContentIsStored(v: Volume, entries: seq<Entry12>, chain: seq<nat>, p: nat)
    requires HoldsTable(v, entries) && IsChain(entries, chain)
    requires p < ChainBytes(v, chain)
    ensures ByteAt(StreamOf(v, Chain(chain[0])), p) == StoredByte(v, chain, p)
  {
    DivLess(SectorOf(p), v.sectorsPerCluster, |chain|);
    ChainSector(v, entries, chain, SectorOf(p));
  }

  /** Reading a stored file from its start gives the file back, for every request. */
  lemma StoredFileReadsBack(v: Volume, entries: seq<Entry12>, chain: seq<nat>, data: seq<byte>, n: nat)
    requires ChainReadable(v, chain) && HoldsTable(v, entries) && IsChain(entries, chain)
    requires Stores(v, chain, data)
    ensures var s, c := StreamOf(v, Chain(chain[0])), Cursor(0, |data|, false);
            && Delivered(s, c, n) == Min(n, |data|)
            && Content(s, 0, Delivered(s, c, n)) == data[..Min(n, |data|)]
  {
    var s, c := StreamOf(v, Chain(chain[0])), Cursor(0, |data|, false);
    DeliveredClosedForm(v, entries, chain, c, n);
    forall p: nat | p < Min(n, |data|)
      ensures Content(s, 0, Min(n, |data|))[p] == data[p]
    {
      ContentIsStored(v, entries, chain, p);
      assert Content(s, 0, Min(n, |data|))[p] == ByteAt(s, 0 + p);
    }
  }

  // ---------------------------------------------------------------- layout

  /** The data area ends below 2^32, so that no sector number wraps around. */
  predicate NoOverflow(v: Volume, clusters: nat) {
    v.dataSectionLba + clusters * v.sectorsPerCluster < TWO32
  }

  lemma SectorLbaExact(v: Volume, clusters: nat, c: nat, k: nat)
    requires NoOverflow(v, clusters) && 2 <= c < clusters + 2 && k < v.sectorsPerCluster
    ensures SectorLba(v, c, k) == v.dataSectionLba + (c - 2) * v.sectorsPerCluster + k
    ensures v.dataSectionLba <= SectorLba(v, c, k) < v.dataSectionLba + clusters * v.sectorsPerCluster
  {
    var n := v.sectorsPerCluster;
    assert (c - 2 + 1) * n == (c - 2) * n + n;
    MulMonotone(c - 2 + 1, clusters, n, n);
    assert 0 <= (c - 2) * n by { MulMonotone(0, c - 2, n, n); }
  }

  /** No two cluster sectors share an LBA, and all of them lie in the data area. */
  lemma SectorLbaInjective(v: Volume, clusters: nat, c: nat, k: nat, c': nat, k': nat)
    requires NoOverflow(v, clusters)
    requires 2 <= c < clusters + 2 && k < v.sectorsPerCluster
    requires 2 <= c' < clusters + 2 && k' < v.sectorsPerCluster
    ensures SectorLba(v, c, k) == SectorLba(v, c', k') <==> c == c' && k == k'
    ensures v.dataSectionLba <= SectorLba(v, c, k) < v.dataSectionLba + clusters * v.sectorsPerCluster
  {
    hide SectorLba;
    SectorLbaExact(v, clusters, c, k);
    SectorLbaExact(v, clusters, c', k');
    PlacesDistinct(v.sectorsPerCluster, c - 2, k, c' - 2, k');
  }

  lemma PlacesDistinct(n: nat, a: nat, k: nat, a': nat, k': nat)
    requires k < n && k' < n
    ensures a * n + k == a' * n + k' <==> a == a' && k == k'
  {
    DivUnique(a * n + k, n, a, k);
    DivUnique(a' * n + k', n, a', k');
  }

  /** Two volumes that differ, if at all, in the sectors of clusters outside `chain`. */
  ghost predicate DifferOutside(v: Volume, w: Volume, clusters: nat, chain: seq<nat>) {
    && w.fat == v.fat && w.bad == v.bad
    && w.dataSectionLba == v.dataSectionLba && w.sectorsPerCluster == v.sectorsPerCluster
    && forall c: nat, k: nat ::
         2 <= c < clusters + 2 && k < v.sectorsPerCluster && c in chain ==>
           w.sectorAt(SectorLba(v, c, k)) == v.sectorAt(SectorLba(v, c, k))
  }

  /** Overwriting any sector of one cluster leaves a chain without that cluster alone. */
  lemma WriteElsewhere(v: Volume, clusters: nat, chain: seq<nat>, c: nat, k: nat, data: Sector)
    requires NoOverflow(v, clusters)
    requires 2 <= c < clusters + 2 && k < v.sectorsPerCluster && c !in chain
    ensures var w := v.(sectorAt := (lba: nat) => if lba == SectorLba(v, c, k) then data else v.sectorAt(lba));
            DifferOutside(v, w, clusters, chain)
  {
    forall c': nat, k': nat | 2 <= c' < clusters + 2 && k' < v.sectorsPerCluster && c' in chain
      ensures SectorLba(v, c, k) != SectorLba(v, c', k')
    {
      SectorLbaInjective(v, clusters, c, k, c', k');
    }
  }

  lemma SameLba(v: Volume, w: Volume, c: nat, k: nat)
    requires w.dataSectionLba == v.dataSectionLba && w.sectorsPerCluster == v.sectorsPerCluster
    ensures SectorLba(w, c, k) == SectorLba(v, c, k)
  {
  }

  lemma SameStoredByte(v: Volume, w: Volume, clusters: nat, entries: seq<Entry12>, chain: seq<nat>, p: nat)
    requires IsChain(entries, chain) && |entries| <= clusters + 2
    requires DifferOutside(v, w, clusters, chain)
    ensures StoredByte(w, chain, p) == StoredByte(v, chain, p)
  {
    hide SectorLba;
    var n := v.sectorsPerCluster;
    var i, k := p / 512 / n, p / 512 % n;
    if i < |chain| {
      assert chain[i] in chain && 2 <= chain[i] < clusters + 2;
      SameLba(v, w, chain[i], k);
      assert w.sectorAt(SectorLba(v, chain[i], k)) == v.sectorAt(SectorLba(v, chain[i], k));
    }
  }

  /** Files on disjoint chains are independent: the stream of a chain sees its own sectors only. */
  lemma DisjointChainsIndependent(v: Volume, w: Volume, clusters: nat, entries: seq<Entry12>, chain: seq<nat>, p: nat)
    requires HoldsTable(v, entries) && IsChain(entries, chain) && |entries| <= clusters + 2
    requires DifferOutside(v, w, clusters, chain)
    requires p < ChainBytes(v, chain)
    ensures ByteAt(StreamOf(w, Chain(chain[0])), p) == ByteAt(StreamOf(v, Chain(chain[0])), p)
  {
    ContentIsStored(v, entries, chain, p);
    ContentIsStored(w, entries, chain, p);
    SameStoredByte(v, w, clusters, entries, chain, p);
  }

  /** The areas of the volume follow one another: FAT copies, root directory, data. */
  lemma RootAreaHoldsRoot(b: BootSector, p: nat)
    requires WellFormed(b) && b.bytesPerSector == 512
    requires p < RootDirSize(b)
    ensures b.reservedSectors <= RootDirLba(b) <= RootDirLba(b) + SectorOf(p) < DataLba(b)
    ensures Wrap32(RootDirLba(b) + SectorOf(p)) == RootDirLba(b) + SectorOf(p)
  {
    LayoutFits32(b);
    MulMonotone(0, b.sectorsPerFat, 0, b.fatCount);
  }
}
