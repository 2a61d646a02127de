/**
 From the FAT12 table's 12-bit entries to whole files: decoding, following a
 chain, where its sectors lie, and reading back what was stored along it.
 */
module FatChains {
  import opened Machine
  import opened SectorStream
  import opened FatCursor
  import opened FatVolume
  import opened FatLayout

  // ---------------------------------------------------------------- the packed table

  type Entry12 = e: int | 0 <= e < 0x1000

  /** Byte `i` of the table: two 12-bit entries in three bytes, low bits first. */
  function PackedByte(entries: seq<Entry12>, i: nat): byte
    requires i < (3 * |entries| + 1) / 2
  {
    var even := entries[i / 3 * 2] as int;
    var odd := if i / 3 * 2 + 1 < |entries| then entries[i / 3 * 2 + 1] as int else 0;
    if i % 3 == 0 then even % 0x100
    else if i % 3 == 1 then even / 0x100 + 0x10 * (odd % 0x10)
    else odd / 0x10
  }

  function Packed(entries: seq<Entry12>): (bytes: seq<byte>)
    ensures |bytes| == (3 * |entries| + 1) / 2
  {
    seq<byte>((3 * |entries| + 1) / 2, i requires 0 <= i < (3 * |entries| + 1) / 2 => PackedByte(entries, i))
  }

  /** Where the bits of entry `c` are. */
  lemma PackedAt(entries: seq<Entry12>, c: nat)
    requires c < |entries|
    ensures var bytes, i := Packed(entries), 3 * c / 2;
            && i + 1 < |bytes|
            && entries[c] == if c % 2 == 0 then bytes[i] as int + 0x100 * (bytes[i + 1] as int % 0x10)
                             else bytes[i] as int / 0x10 + 0x10 * bytes[i + 1] as int
  {
    var k := c / 2;
    if c % 2 == 0 {
      EvenAt(entries, k);
    } else {
      OddAt(entries, k);
    }
  }

  lemma EvenAt(entries: seq<Entry12>, k: nat)
    requires 2 * k < |entries|
    ensures PackedByte(entries, 3 * k) as int + 0x100 * (PackedByte(entries, 3 * k + 1) as int % 0x10) == entries[2 * k]
  {
    PairBits(entries[2 * k], if 2 * k + 1 < |entries| then entries[2 * k + 1] else 0);
  }

  lemma OddAt(entries: seq<Entry12>, k: nat)
    requires 2 * k + 1 < |entries|
    ensures PackedByte(entries, 3 * k + 1) as int / 0x10 + 0x10 * PackedByte(entries, 3 * k + 2) as int ==
            entries[2 * k + 1]
  {
    PairBits(entries[2 * k], entries[2 * k + 1]);
  }

  lemma PairBits(a: Entry12, b: Entry12)
    ensures a as int % 0x100 + 0x100 * ((a as int / 0x100 + 0x10 * (b as int % 0x10)) % 0x10) == a
    ensures (a as int / 0x100 + 0x10 * (b as int % 0x10)) / 0x10 + 0x10 * (b as int / 0x10) == b
  {
  }

  /** The table in memory is this table. */
  ghost predicate HoldsTable(v: Volume, entries: seq<Entry12>) {
    && |entries| <= 0x1000
    && forall i :: 0 <= i < |Packed(entries)| ==> v.fat(i) == Packed(entries)[i]
  }

  lemma NextClusterDecodes(v: Volume, entries: seq<Entry12>, c: nat)
    requires HoldsTable(v, entries) && c < |entries|
    ensures NextCluster(v, c) == entries[c]
  {
    hide Packed;
    PackedAt(entries, c);
    var i := 3 * c / 2;
    assert Wrap32(c * 3) / 2 == i;
    SplitWord(Packed(entries)[i], Packed(entries)[i + 1]);
  }

  lemma SplitWord(lo: byte, hi: byte)
    ensures (lo + 0x100 * hi as int) % 0x1000 == lo as int + 0x100 * (hi as int % 0x10)
    ensures (lo + 0x100 * hi as int) / 0x10 == lo as int / 0x10 + 0x10 * hi as int
  {
  }

  // ---------------------------------------------------------------- chains

  /**
   The table links these clusters one to the next and then says the file is over.  The
   bounds are those of FAT12: clusters 2 to 0xFF7 hold data, 0xFF8 and above end a file.
   */
  predicate IsChain(entries: seq<Entry12>, chain: seq<nat>) {
    && chain != []
    && (forall i :: 0 <= i < |chain| ==> 2 <= chain[i] < |entries| && chain[i] < 0xFF8)
    && (forall i :: 0 <= i < |chain| - 1 ==> entries[chain[i]] == chain[i + 1])
    && entries[chain[|chain| - 1]] >= 0xFF8
  }

  /** Following the table from the first cluster enumerates the chain and then meets its end. */
  lemma {:induction false} ClusterAtIsChain(v: Volume, entries: seq<Entry12>, chain: seq<nat>, k: nat)
    requires HoldsTable(v, entries) && IsChain(entries, chain) && k <= |chain|
    ensures if k < |chain| then ClusterAt(v, chain[0], k) == chain[k]
            else ClusterAt(v, chain[0], k) >= 0xFF8
  {
    if k > 0 {
      ClusterAtIsChain(v, entries, chain, k - 1);
      NextClusterDecodes(v, entries, chain[k - 1]);
    }
  }

  /** A chain that ends visits no cluster twice. */
  lemma ChainIsAcyclic(entries: seq<Entry12>, chain: seq<nat>, i: nat, j: nat)
    requires IsChain(entries, chain) && i < j < |chain|
    ensures chain[i] != chain[j]
    decreases |chain| - j
  {
    assert entries[chain[i]] == chain[i + 1];
    if j < |chain| - 1 {
      assert entries[chain[j]] == chain[j + 1];
      ChainIsAcyclic(entries, chain, i + 1, j + 1);
    }
  }

  function SectorLba(v: Volume, cluster: nat, k: nat): u32 {
    Wrap32(ClusterToLba(v, cluster) + k)
  }

  /** Sector `q` of the stream of a chain. */
  lemma ChainSector(v: Volume, entries: seq<Entry12>, chain: seq<nat>, q: nat)
    requires HoldsTable(v, entries) && IsChain(entries, chain)
    requires q / v.sectorsPerCluster < |chain|
    ensures var o := Chain(chain[0]);
            && LbaFor(v, o, q) == SectorLba(v, chain[q / v.sectorsPerCluster], q % v.sectorsPerCluster)
            && !ChainEndsAt(v, o, q)
  {
    ClusterAtIsChain(v, entries, chain, q / v.sectorsPerCluster);
    EndMarkIs(v, Chain(chain[0]), q);
  }

  /** The reader takes a chain to be over at the marks FAT12 has for that, and at no data cluster. */
  lemma EndMarkIs(v: Volume, o: Origin, q: nat)
    ensures ChainEndsAt(v, o, q) <==> o.Chain? && ClusterFor(v, o, q) >= 0xFF8
  {
  }

  /** How many sectors a chain has. */
  function SectorCount(v: Volume, chain: seq<nat>): nat {
    |chain| * v.sectorsPerCluster
  }

  lemma DivLess(q: nat, n: nat, m: nat)
    requires n > 0
    ensures q < m * n <==> q / n < m
  {
    assert q == n * (q / n) + q % n;
    if q / n < m {
      MulMonotone(q / n + 1, m, n, n);
      assert (q / n + 1) * n == n * (q / n) + n;
    } else {
      MulMonotone(m, q / n, n, n);
      assert (q / n) * n == n * (q / n);
    }
  }

  /** The drive can read the chain's own sectors. */
  ghost predicate ChainReadable(v: Volume, chain: seq<nat>) {
    forall i: nat, k: nat :: i < |chain| && k < v.sectorsPerCluster ==> !v.bad(SectorLba(v, chain[i], k))
  }

  /** The place in its chain of the cluster that holds sector `q`. */
  function ClusterIndex(v: Volume, q: nat): nat {
    q / v.sectorsPerCluster
  }

  lemma InChain(v: Volume, chain: seq<nat>, q: nat)
    requires chain != []
    ensures q < SectorCount(v, chain) <==> ClusterIndex(v, q) < |chain|
    ensures ClusterIndex(v, 0) < |chain|
    ensures q > 0 ==> ClusterIndex(v, q - 1) <= ClusterIndex(v, q) <= ClusterIndex(v, q - 1) + 1
  {
    var n := v.sectorsPerCluster;
    DivLess(q, n, |chain|);
    if q > 0 {
      DivStep(q - 1, n);
    }
  }

  /** The stream of a chain has exactly the chain's sectors. */
  lemma {:induction false} ChainReaches(v: Volume, entries: seq<Entry12>, chain: seq<nat>, q: nat)
    requires ChainReadable(v, chain) && HoldsTable(v, entries) && IsChain(entries, chain)
    ensures Reachable(StreamOf(v, Chain(chain[0])), q) <==> q < SectorCount(v, chain)
    decreases q
  {
    hide StreamOf, ClusterIndex, SectorCount, HoldsTable, ChainReadable;
    InChain(v, chain, q);
    if q > 0 {
      InChain(v, chain, q - 1);
      ChainReaches(v, entries, chain, q - 1);
      if ClusterIndex(v, q - 1) < |chain| {
        ChainGoesOn(v, entries, chain, q);
      }
    }
  }

  /** Up to the first sector past the chain, which is recognised as such, all can be had. */
  lemma ChainGoesOn(v: Volume, entries: seq<Entry12>, chain: seq<nat>, q: nat)
    requires HoldsTable(v, entries) && IsChain(entries, chain)
    requires ClusterIndex(v, q) <= |chain|
    ensures var s := StreamOf(v, Chain(chain[0]));
            && (s.ends(q) <==> ClusterIndex(v, q) == |chain|)
            && (ChainReadable(v, chain) && !s.ends(q) ==> !s.bad(q))
  {
    var i := ClusterIndex(v, q);
    ClusterAtIsChain(v, entries, chain, i);
    if i < |chain| {
      ChainSector(v, entries, chain, q);
    }
  }

  lemma PastTheChain(v: Volume, chain: seq<nat>)
    requires chain != []
    ensures SectorCount(v, chain) > 0 && ClusterIndex(v, SectorCount(v, chain)) == |chain|
  {
    MulMonotone(1, |chain|, 1, v.sectorsPerCluster);
    DivUnique(SectorCount(v, chain), v.sectorsPerCluster, |chain|, 0);
  }

  /** The next sector can be had exactly when the chain has it. */
  lemma NextInChain(v: Volume, entries: seq<Entry12>, chain: seq<nat>, q: nat)
    requires ChainReadable(v, chain) && HoldsTable(v, entries) && IsChain(entries, chain)
    requires 0 < q <= SectorCount(v, chain)
    ensures var s := StreamOf(v, Chain(chain[0])); !s.ends(q) && !s.bad(q) <==> q < SectorCount(v, chain)
  {
    ChainReaches(v, entries, chain, q);
    ChainReaches(v, entries, chain, q - 1);
  }
}
