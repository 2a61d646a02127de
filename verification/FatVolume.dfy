/**
 A mounted FAT12 volume and the byte stream that each directory entry names.

 The stream is defined from the volume alone, position by position, with no
 buffer, no cursor and no loop.  It is defined for every cluster chain the table
 can hold, the cyclic and the damaged ones included.
 */
module FatVolume {
  import opened Machine
  import opened SectorStream

  const END_OF_CHAIN: nat := 0xFF8
  const ENTRY_SIZE: nat := 32

  /** SectorsPerCluster is one byte of the boot sector; zero is not a FAT volume. */
  type ClusterSize = n: int | 1 <= n < 0x100 witness 1

  /**
   The state that stays fixed once the volume is mounted.  `bad` says which
   sectors the drive cannot read; `fat` is the memory from the loaded table on.
   */
  datatype Volume = Volume(
    sectorAt: nat -> Sector,
    bad: nat -> bool,
    fat: nat -> byte,
    dataSectionLba: u32,
    sectorsPerCluster: ClusterSize,
    rootLba: u32)

  /**
   What a handle reads: the fixed root area or the chain from a first cluster.  The
   driver never reads the root's first sector again once it is mounted, so what it
   takes for that sector is part of the origin.
   */
  datatype Origin = Root(firstSector: Sector) | Chain(first: nat)

  function NextCluster(v: Volume, cluster: nat): (next: nat)
    ensures next < 0x1000
  {
    var index := Wrap32(cluster * 3) / 2;
    var word := v.fat(index) + 0x100 * v.fat(index + 1);
    if cluster % 2 == 0 then word % 0x1000 else word / 0x10
  }

  function ClusterToLba(v: Volume, cluster: nat): u32 {
    Wrap32(v.dataSectionLba + (cluster - 2) * v.sectorsPerCluster)
  }

  /** The cluster reached from `first` by `k` steps through the table. */
  function ClusterAt(v: Volume, first: nat, k: nat): nat {
    if k == 0 then first else NextCluster(v, ClusterAt(v, first, k - 1))
  }

  /** CurrentCluster for sector `q` of the stream (a plain LBA for the root). */
  function ClusterFor(v: Volume, o: Origin, q: nat): nat {
    match o
    case Root(_) => Wrap32(v.rootLba + q)
    case Chain(first) => ClusterAt(v, first, q / v.sectorsPerCluster)
  }

  /** CurrentSectorInCluster for sector `q` of the stream. */
  function SectorInClusterFor(v: Volume, o: Origin, q: nat): nat {
    match o
    case Root(_) => 0
    case Chain(_) => q % v.sectorsPerCluster
  }

  function LbaFor(v: Volume, o: Origin, q: nat): u32 {
    match o
    case Root(_) => Wrap32(v.rootLba + q)
    case Chain(_) => Wrap32(ClusterToLba(v, ClusterFor(v, o, q)) + SectorInClusterFor(v, o, q))
  }

  predicate ChainEndsAt(v: Volume, o: Origin, q: nat) {
    o.Chain? && ClusterFor(v, o, q) >= END_OF_CHAIN
  }

  /** The root directory as it is on the disk. */
  function TrueRoot(v: Volume): Origin {
    Root(v.sectorAt(v.rootLba))
  }

  function SectorFor(v: Volume, o: Origin, q: nat): Sector {
    if o.Root? && q == 0 then o.firstSector else v.sectorAt(LbaFor(v, o, q))
  }

  /** The stream a handle with this origin reads. */
  function StreamOf(v: Volume, o: Origin): Stream {
    Stream(
      (q: nat) => SectorFor(v, o, q),
      (q: nat) => ChainEndsAt(v, o, q),
      (q: nat) => v.bad(LbaFor(v, o, q)))
  }

  /** The root as it is on the disk is the root area, sector after sector. */
  lemma TrueRootSectors(v: Volume, q: nat)
    ensures StreamOf(v, TrueRoot(v)).sector(q) == v.sectorAt(Wrap32(v.rootLba + q))
  {
  }
}
