/** The boot sector's parameter block and the volume layout computed from it. */
module FatLayout {
  import opened Machine
  import opened SectorStream
  import opened FatVolume

  const BOOT_SIGNATURE: nat := 0x29
  const MEMORY_FAT_SIZE: nat := 0x10000
  /** The boot sector and eleven handles of 544 bytes each. */
  const FAT_DATA_SIZE: nat := 512 + 11 * 544

  datatype BootSector = BootSector(
    bytesPerSector: nat,
    sectorsPerCluster: nat,
    reservedSectors: nat,
    fatCount: nat,
    dirEntryCount: nat,
    sectorsPerFat: nat,
    signature: nat)

  function Word(s: seq<byte>, at: nat): (w: nat)
    requires at + 1 < |s|
    ensures w < 0x1_0000
  {
    s[at] as int + 0x100 * s[at + 1] as int
  }

  function ParseBootSector(s: Sector): (b: BootSector)
    ensures b.bytesPerSector < 0x1_0000 && b.sectorsPerFat < 0x1_0000
  {
    BootSector(Word(s, 11), s[13], Word(s, 14), s[16], Word(s, 17), Word(s, 22), s[38])
  }

  /** A block that describes a FAT volume at all: neither size it divides by is zero. */
  predicate WellFormed(b: BootSector) {
    && 0 < b.bytesPerSector < 0x1_0000
    && 1 <= b.sectorsPerCluster < 0x100
    && b.reservedSectors < 0x1_0000
    && b.fatCount < 0x100
    && b.dirEntryCount < 0x1_0000
    && b.sectorsPerFat < 0x1_0000
  }

  function RootDirLba(b: BootSector): nat {
    b.reservedSectors + b.sectorsPerFat * b.fatCount
  }

  function RootDirSize(b: BootSector): nat {
    ENTRY_SIZE * b.dirEntryCount
  }

  function RootDirSectors(b: BootSector): nat
    requires b.bytesPerSector > 0
  {
    (RootDirSize(b) + b.bytesPerSector - 1) / b.bytesPerSector
  }

  function DataLba(b: BootSector): nat
    requires b.bytesPerSector > 0
  {
    RootDirLba(b) + RootDirSectors(b)
  }

  /** The table fits the memory set aside for the driver. */
  predicate TableFits(b: BootSector) {
    FAT_DATA_SIZE + b.bytesPerSector * b.sectorsPerFat < MEMORY_FAT_SIZE
  }

  lemma LayoutFits32(b: BootSector)
    requires WellFormed(b)
    ensures RootDirLba(b) < 0x200_0000 && DataLba(b) < 0x1000_0000
  {
    MulMonotone(b.sectorsPerFat, 0xFFFF, b.fatCount, 0xFF);
    DivAtMost(RootDirSize(b) + b.bytesPerSector - 1, b.bytesPerSector);
  }

  /** Memory from the table's address on: the sectors of the first FAT copy, then whatever follows. */
  function LoadedTable(sectorAt: nat -> Sector, b: BootSector, beyond: nat -> byte): nat -> byte {
    (i: nat) =>
      if SectorOf(i) < b.sectorsPerFat % 0x100 then sectorAt(b.reservedSectors + SectorOf(i))[OffsetIn(i)]
      else beyond(i)
  }

  function MountedVolume(sectorAt: nat -> Sector, bad: nat -> bool, b: BootSector, beyond: nat -> byte): Volume
    requires WellFormed(b)
  {
    LayoutFits32(b);
    Volume(sectorAt, bad, LoadedTable(sectorAt, b, beyond), DataLba(b), b.sectorsPerCluster, RootDirLba(b))
  }
}
