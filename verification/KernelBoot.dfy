/** From a disk with a kernel on it to the kernel in memory: mounting, opening, loading, closing. */
module KernelBoot {
  import opened Machine
  import opened SectorStream
  import opened FatCursor
  import opened FatVolume
  import opened FatLayout
  import opened FatNames
  import opened FatSearch
  import opened FatPath
  import opened FatChains
  import opened FatFiles
  import opened FatDriver
  import opened FatAreas
  import opened FatMount
  import opened KernelLoader
  import opened LoadingBar

  /** "KERNEL  BIN" */
  const KERNEL_NAME: seq<byte> := [75, 69, 82, 78, 69, 76, 32, 32, 66, 73, 78]

  lemma KernelNameIs()
    ensures FatName(Relative(KERNEL_PATH)) == KERNEL_NAME
  {
    var path := Relative(KERNEL_PATH);
    assert path == KERNEL_PATH[1..];
    IndexOfIs(path, DOT, 6);
    assert Stem(path) == path[..6] && Extension(path) == path[7..];
    assert Field(path[..6], 8) == KERNEL_NAME[..8];
    assert Field(path[7..], 3) == KERNEL_NAME[8..];
  }

  /** Entry `i` of the root directory, where the disk holds it. */
  function RootEntry(sectorAt: nat -> Sector, b: BootSector, i: nat): Entry {
    sectorAt(RootStart(b) + i / 16)[32 * (i % 16)..32 * (i % 16) + 32]
  }

  /** The root directory's sectors up to number `last` can be read. */
  ghost predicate RootReadable(bad: nat -> bool, b: BootSector, last: nat) {
    forall lba: nat :: RootStart(b) <= lba <= RootStart(b) + last ==> !bad(lba)
  }

  /**
   The kernel's entry is the first of its name, at `i`, and the root can be read up to
   and with the sector in which that entry ends (the next one, if it fills its sector).
   */
  ghost predicate KernelEntry(sectorAt: nat -> Sector, bad: nat -> bool, b: BootSector, i: nat,
                              first: nat, size: nat) {
    && i < b.dirEntryCount
    && (forall j: nat :: j < i ==> RootEntry(sectorAt, b, j)[..11] != KERNEL_NAME)
    && RootEntry(sectorAt, b, i)[..11] == KERNEL_NAME
    && !IsDirectoryEntry(RootEntry(sectorAt, b, i))
    && FirstClusterOf(RootEntry(sectorAt, b, i)) == first
    && SizeOf(RootEntry(sectorAt, b, i)) == size
    && RootReadable(bad, b, SectorOf(32 * i + 32))
  }

  /** A disk from which the kernel can be loaded: all its parts, and no other, have to be readable. */
  ghost predicate BootDisk(sectorAt: nat -> Sector, bad: nat -> bool, beyond: nat -> byte,
                           entries: seq<Entry12>, chain: seq<nat>, data: seq<byte>, i: nat) {
    var b := ParseBootSector(sectorAt(0));
    && Mountable(sectorAt, bad) && WellFormed(b)
    && TableOnDisk(sectorAt, b, entries) && IsChain(entries, chain)
    && var v := MountedVolume(sectorAt, bad, b, beyond);
    && Stores(v, chain, data) && ChainReadable(v, chain) && |data| < TWO31
    && KernelEntry(sectorAt, bad, b, i, chain[0], |data|)
  }

  lemma {:induction false} ReachableUpTo(s: Stream, q: nat)
    requires forall r: nat :: r <= q ==> !s.ends(r) && !s.bad(r)
    ensures Reachable(s, q)
  {
    if q > 0 {
      ReachableUpTo(s, q - 1);
    }
  }

  /** The root stream of the mounted volume is the root area of the disk. */
  lemma RootStream(sectorAt: nat -> Sector, bad: nat -> bool, b: BootSector, beyond: nat -> byte, q: nat)
    requires WellFormed(b) && q <= 0x1_0000
    ensures var v := MountedVolume(sectorAt, bad, b, beyond);
            var s := StreamOf(v, TrueRoot(v));
            && s.sector(q) == sectorAt(RootStart(b) + q) && !s.ends(q)
            && (s.bad(q) <==> bad(RootStart(b) + q))
  {
    hide RootDirLba, RootStart;
    var v := MountedVolume(sectorAt, bad, b, beyond);
    RootStartIs(b);
    LayoutFits32(b);
    WrapSmall(RootDirLba(b) + q);
    TrueRootSectors(v, q);
    assert LbaFor(v, TrueRoot(v), q) == RootDirLba(b) + q;
  }

  /** A search of the root sees its entries one after the other. */
  lemma RootEntryRead(sectorAt: nat -> Sector, bad: nat -> bool, b: BootSector, beyond: nat -> byte, i: nat)
    requires WellFormed(b) && i < b.dirEntryCount
    requires RootReadable(bad, b, SectorOf(32 * i))
    ensures var v := MountedVolume(sectorAt, bad, b, beyond);
            var s, c := StreamOf(v, TrueRoot(v)), Cursor(0, RootDirSize(b), true);
            Readable(s, c, i) && EntryAt(s, c, i) == RootEntry(sectorAt, b, i)
  {
    hide MountedVolume, StreamOf, RootStart;
    var v := MountedVolume(sectorAt, bad, b, beyond);
    var s := StreamOf(v, TrueRoot(v));
    var q := SectorOf(32 * i);
    forall r: nat | r <= q
      ensures !s.ends(r) && !s.bad(r)
    {
      RootStream(sectorAt, bad, b, beyond, r);
    }
    ReachableUpTo(s, q);
    assert SectorOf(32 * i + 31) == q == i / 16 && OffsetIn(32 * i) == 32 * (i % 16);
    AvailableIsMaximal(s, 0, 32 * i + 32, 32 * i + 32);
    RootStream(sectorAt, bad, b, beyond, q);
    PieceIsContent(s, 32 * i, 32);
  }

  /** On such a disk the walk to the kernel ends, and ends at the file stored along the chain. */
  lemma KernelFound(sectorAt: nat -> Sector, bad: nat -> bool, beyond: nat -> byte,
                    entries: seq<Entry12>, chain: seq<nat>, data: seq<byte>, i: nat)
    requires BootDisk(sectorAt, bad, beyond, entries, chain, data, i)
    ensures var b := ParseBootSector(sectorAt(0));
            var v := MountedVolume(sectorAt, bad, b, beyond);
            && WalkEnds(v, RootNode(v, b), Relative(KERNEL_PATH))
            && Resolve(v, RootNode(v, b), Relative(KERNEL_PATH)) ==
               Some(Node(Chain(chain[0]), Cursor(0, |data|, false)))
  {
    hide MountedVolume, Mountable, TableOnDisk, WellFormed, ParseBootSector, StreamOf, IsDirectoryEntry, FirstClusterOf;
    hide SizeOf, KERNEL_PATH, RootEntry, FatName, Readable, EntryAt, ReadFails, RootStart;
    hide IgnoresTail, Component, IsLast;
    var b := ParseBootSector(sectorAt(0));
    var v := MountedVolume(sectorAt, bad, b, beyond);
    var n, path := RootNode(v, b), Relative(KERNEL_PATH);
    var s := StreamOf(v, n.origin);
    KernelHit(sectorAt, bad, beyond, entries, chain, data, i);
    KernelPathIsPlain();
    KernelNameIs();
    KeysSettled(path);
    SearchIs(s, n.cursor, KERNEL_NAME, i);
    FirstSectorReadable(v, chain);
    ResolveStep(v, n, path);
    ResolveDone(v, Node(Chain(chain[0]), Cursor(0, |data|, false)));
  }

  lemma FirstSectorReadable(v: Volume, chain: seq<nat>)
    requires chain != [] && ChainReadable(v, chain)
    ensures !v.bad(ClusterToLba(v, chain[0]))
  {
    assert SectorLba(v, chain[0], 0) == ClusterToLba(v, chain[0]);
  }

  /** The search for the kernel's name stops at its entry. */
  lemma KernelHit(sectorAt: nat -> Sector, bad: nat -> bool, beyond: nat -> byte,
                  entries: seq<Entry12>, chain: seq<nat>, data: seq<byte>, i: nat)
    requires BootDisk(sectorAt, bad, beyond, entries, chain, data, i)
    ensures var b := ParseBootSector(sectorAt(0));
            var v := MountedVolume(sectorAt, bad, b, beyond);
            var s, c := StreamOf(v, TrueRoot(v)), Cursor(0, RootDirSize(b), true);
            && FirstHit(s, c, KERNEL_NAME, i) && StopsBy(s, c, KERNEL_NAME, i)
            && EntryAt(s, c, i) == RootEntry(sectorAt, b, i)
  {
    hide MountedVolume, Mountable, TableOnDisk, ParseBootSector, StreamOf, IsDirectoryEntry, FirstClusterOf;
    hide SizeOf, RootEntry, EntryAt, RootStart, Stores, ChainReadable, IsChain;
    var b := ParseBootSector(sectorAt(0));
    var v := MountedVolume(sectorAt, bad, b, beyond);
    var s, c := StreamOf(v, TrueRoot(v)), Cursor(0, RootDirSize(b), true);
    forall j: nat | j <= i
      ensures Readable(s, c, j) && EntryAt(s, c, j) == RootEntry(sectorAt, b, j)
    {
      assert SectorOf(32 * j) <= SectorOf(32 * i + 32);
      RootEntryRead(sectorAt, bad, b, beyond, j);
    }
    RootStream(sectorAt, bad, b, beyond, SectorOf(32 * i + 32));
  }

  /**
   End to end: mounted, opened, loaded and closed, a kernel stored on the disk is at
   the start of the kernel's memory, byte for byte, and nothing behind it has changed.
   */
  method Boot(sectorAt: nat -> Sector, bad: nat -> bool, beyond: nat -> byte, memory: array<byte>,
              ghost entries: seq<Entry12>, ghost chain: seq<nat>, ghost data: seq<byte>, ghost i: nat)
    returns (total: nat)
    requires BootDisk(sectorAt, bad, beyond, entries, chain, data, i)
    requires |data| <= memory.Length
    modifies memory
    ensures total == |data|
    ensures memory[..] == data + old(memory[..])[|data|..]
  {
    hide Mountable, TableOnDisk, MountedVolume, ParseBootSector, WellFormed, FileData.Coherent, WalkEnds, Resolve;
    hide KERNEL_PATH, IsAll, Loadable, Stores, ChainReadable, IsChain, KernelEntry, Accepted, FatDriver.Valid, Content;
    var driver := Initialize(sectorAt, bad, beyond);
    KernelFound(sectorAt, bad, beyond, entries, chain, data, i);
    MountLoadsTable(sectorAt, bad, ParseBootSector(sectorAt(0)), beyond, entries);
    StoresFits(driver.volume, chain, data);
    StoredFileLoadable(driver.volume, entries, chain, |data|, memory.Length);
    FreeSlotLeft(driver);
    ghost var was := memory[..];
    total := BootLoad(driver, memory, |data| + 1);
    AllOfAFile(driver.volume, entries, chain, |data|, total);
    KernelArrives(driver.volume, entries, chain, data, total);
  }

  lemma StoresFits(v: Volume, chain: seq<nat>, data: seq<byte>)
    requires Stores(v, chain, data)
    ensures |data| <= ChainBytes(v, chain)
  {
  }

  // ---------------------------------------------------------------- the loading bar on the way

  /** Call `m` of the load of the file `n` divides by zero in the bar. */
  predicate LoadFaults(v: Volume, n: Node, m: nat)
    requires Placed(n)
  {
    BarFails(v, n.origin, After(StreamOf(v, n.origin), n.cursor, MEMORY_LOAD_SIZE * m), MEMORY_LOAD_SIZE)
  }

  /**
   What `Boot` leaves out: on such a disk the load divides by zero exactly when the
   kernel's size is, above a multiple of 64 KiB, one sector or more but less than two,
   and its chain goes on behind that sector.  (Searching the root draws nothing.)
   */
  lemma BootFaultsIff(sectorAt: nat -> Sector, bad: nat -> bool, beyond: nat -> byte,
                      entries: seq<Entry12>, chain: seq<nat>, data: seq<byte>, i: nat)
    requires BootDisk(sectorAt, bad, beyond, entries, chain, data, i)
    ensures var b := ParseBootSector(sectorAt(0));
            var v := MountedVolume(sectorAt, bad, b, beyond);
            var n := Resolve(v, RootNode(v, b), Relative(KERNEL_PATH));
            && n.Some? && Placed(n.value)
            && ((exists m: nat :: LoadFaults(v, n.value, m)) <==>
                  && 512 <= |data| % 0x1_0000 < 1024
                  && (|data| % 0x1_0000 == 512 ==> |data| < ChainBytes(v, chain)))
  {
    hide Mountable, TableOnDisk, MountedVolume, ParseBootSector, WellFormed, Resolve, KERNEL_PATH, Stores;
    hide ChainReadable, KernelEntry, BarFails, After, ChainBytes;
    var v := MountedVolume(sectorAt, bad, ParseBootSector(sectorAt(0)), beyond);
    var o, c := Chain(chain[0]), Cursor(0, |data|, false);
    KernelFound(sectorAt, bad, beyond, entries, chain, data, i);
    MountLoadsTable(sectorAt, bad, ParseBootSector(sectorAt(0)), beyond, entries);
    StoresFits(v, chain, data);
    KernelBarFailsIff(v, entries, chain, |data|);
    assert |data| / 0x1_0000 * 0x1_0000 + |data| % 0x1_0000 == |data|;
    assert forall m: nat :: LoadFaults(v, Node(o, c), m) <==>
                              BarFails(v, o, After(StreamOf(v, o), c, 0x1_0000 * m), 0x1_0000);
  }

  // ---------------------------------------------------------------- a disk that boots

  /** 4 sectors a cluster, 2 copies of a table of 3 sectors, 16 root entries. */
  const SAMPLE_BLOCK: BootSector := BootSector(512, 4, 1, 2, 16, 3, 0x29)

  /** The table of a disk with one file of one cluster: two reserved entries and an end mark. */
  const SAMPLE_TABLE: seq<Entry12> := [0xFF0, 0xFFF, 0xFFF]

  /**
   Boot sector, the two copies of the table from sectors 1 and 4 on, a root of 16
   entries with the kernel's in front in sector 7, and the kernel's cluster from 8 on.
   */
  function SampleSector(data: seq<byte>, lba: nat): Sector
    requires |data| <= 512
  {
    if lba == 0 then SampleBootSector()
    else if lba == 1 || lba == 4 then Padded([0xF0, 0xFF, 0xFF, 0xFF, 0x0F])
    else if lba == 7 then Padded(SampleEntry(|data|))
    else if lba == 8 then Padded(data)
    else Padded([])
  }

  function SampleDrive(data: seq<byte>): nat -> Sector
    requires |data| <= 512
  {
    (lba: nat) => SampleSector(data, lba)
  }

  function Padded(bytes: seq<byte>): (s: Sector)
    requires |bytes| <= 512
    ensures s[..|bytes|] == bytes
  {
    bytes + seq<byte>(512 - |bytes|, i => 0)
  }

  function SampleBootSector(): Sector {
    seq<byte>(512, i requires 0 <= i < 512 =>
      if i == 12 || i == 16 then 2 else if i == 13 then 4 else if i == 14 then 1
      else if i == 17 then 16 else if i == 22 then 3 else if i == 38 then 0x29 else 0)
  }

  function SampleEntry(size: u32): Entry {
    EntryBytes(KERNEL_NAME, 0, seq<byte>(8, i => 0), 2, seq<byte>(4, i => 0), size)
  }

  /** Such a disk meets all that `Boot` asks for, whatever the kernel's bytes. */
  lemma SampleBoots(data: seq<byte>, beyond: nat -> byte)
    requires |data| <= 512
    ensures BootDisk(SampleDrive(data), (lba: nat) => false, beyond, SAMPLE_TABLE, [2], data, 0)
  {
    hide Stores, KernelEntry, TableOnDisk;
    SampleLayout(data);
    SampleTable(data);
    SampleFile(data, beyond);
    SampleRoot(data);
  }

  lemma SampleLayout(data: seq<byte>)
    requires |data| <= 512
    ensures ParseBootSector(SampleDrive(data)(0)) == SAMPLE_BLOCK
  {
  }

  lemma SampleTable(data: seq<byte>)
    requires |data| <= 512
    ensures TableOnDisk(SampleDrive(data), SAMPLE_BLOCK, SAMPLE_TABLE)
    ensures IsChain(SAMPLE_TABLE, [2])
  {
    var sector := SampleDrive(data)(1);
    assert sector[..5] == [0xF0, 0xFF, 0xFF, 0xFF, 0x0F];
    forall i: nat | i < |Packed(SAMPLE_TABLE)|
      ensures sector[i] == Packed(SAMPLE_TABLE)[i]
    {
      assert sector[i] == sector[..5][i];
    }
  }

  lemma SampleFile(data: seq<byte>, beyond: nat -> byte)
    requires |data| <= 512
    ensures var v := MountedVolume(SampleDrive(data), (lba: nat) => false,
                                   SAMPLE_BLOCK, beyond);
            Stores(v, [2], data) && ChainReadable(v, [2])
  {
    var v := MountedVolume(SampleDrive(data), (lba: nat) => false, SAMPLE_BLOCK, beyond);
    assert v.dataSectionLba == 8 && v.sectorsPerCluster == 4;
    forall p: nat | p < |data|
      ensures StoredByte(v, [2], p) == data[p]
    {
      assert SectorOf(p) == 0 && OffsetIn(p) == p;
      assert Padded(data)[p] == Padded(data)[..|data|][p];
    }
  }

  lemma SampleRoot(data: seq<byte>)
    requires |data| <= 512
    ensures KernelEntry(SampleDrive(data), (lba: nat) => false, SAMPLE_BLOCK, 0, 2, |data|)
  {
    var e := SampleEntry(|data|);
    assert RootEntry(SampleDrive(data), SAMPLE_BLOCK, 0) == Padded(e)[..32] == e;
    EntryReadsBack(KERNEL_NAME, 0, seq<byte>(8, i => 0), 2, seq<byte>(4, i => 0), |data|);
  }
}
