/**
 Which sector of the disk belongs to what: the copies of the table, the root directory
 and the data, stated sector by sector and byte by byte from the fields of the boot
 sector alone.
 */
module FatAreas {
  import opened Machine
  import opened SectorStream
  import opened FatVolume
  import opened FatLayout
  import opened FatSearch
  import opened FatChains
  import opened FatFiles

  /** A boot sector with these fields is read as having them. */
  lemma BootSectorReadsBack(s: Sector, b: BootSector)
    requires WellFormed(b) && b.signature < 0x100
    requires s[11..13] == WordBytes(b.bytesPerSector) && s[13] == b.sectorsPerCluster
    requires s[14..16] == WordBytes(b.reservedSectors) && s[16] == b.fatCount
    requires s[17..19] == WordBytes(b.dirEntryCount) && s[22..24] == WordBytes(b.sectorsPerFat)
    requires s[38] == b.signature
    ensures ParseBootSector(s) == b
  {
    WordReadsBack(s, 11, b.bytesPerSector);
    WordReadsBack(s, 14, b.reservedSectors);
    WordReadsBack(s, 17, b.dirEntryCount);
    WordReadsBack(s, 22, b.sectorsPerFat);
  }

  lemma WordReadsBack(s: Sector, at: nat, w: nat)
    requires at + 2 <= 512 && w < 0x1_0000 && s[at..at + 2] == WordBytes(w)
    ensures Word(s, at) == w
  {
    assert s[at] == s[at..at + 2][0] && s[at + 1] == s[at..at + 2][1];
  }

  // ---------------------------------------------------------------- the copies of the table

  /** Sector `i` of copy `k` of the table. */
  predicate TableSector(b: BootSector, k: nat, i: nat, lba: nat) {
    k < b.fatCount && i < b.sectorsPerFat && lba == b.reservedSectors + k * b.sectorsPerFat + i
  }

  /** The sectors from the reserved ones up to the root are the sectors of the copies, and no others are. */
  lemma CopiesFillTheArea(b: BootSector, lba: nat)
    ensures b.reservedSectors <= lba < RootDirLba(b) <==> exists k: nat, i: nat :: TableSector(b, k, i, lba)
  {
    hide RootDirLba;
    if k: nat, i: nat :| TableSector(b, k, i, lba) {
      CopyInside(b, k, i);
    }
    if b.reservedSectors <= lba < RootDirLba(b) {
      InsideCopy(b, lba);
    }
  }

  lemma InsideCopy(b: BootSector, lba: nat)
    requires b.reservedSectors <= lba < RootDirLba(b)
    ensures exists k: nat, i: nat :: TableSector(b, k, i, lba)
  {
    var n, d := b.sectorsPerFat, lba - b.reservedSectors;
    assert d < b.fatCount * n;
    DivLess(d, n, b.fatCount);
    var k, i := d / n, d % n;
    assert d == n * k + i;
    assert n * k == k * n;
    assert TableSector(b, k, i, lba);
  }

  lemma CopyInside(b: BootSector, k: nat, i: nat)
    requires k < b.fatCount && i < b.sectorsPerFat
    ensures b.reservedSectors <= b.reservedSectors + k * b.sectorsPerFat + i < RootDirLba(b)
  {
    MulMonotone(k + 1, b.fatCount, b.sectorsPerFat, b.sectorsPerFat);
    MulMonotone(0, k, 0, b.sectorsPerFat);
    assert (k + 1) * b.sectorsPerFat == k * b.sectorsPerFat + b.sectorsPerFat;
    assert b.fatCount * b.sectorsPerFat == b.sectorsPerFat * b.fatCount;
  }

  /** No sector belongs to two copies, or twice to one. */
  lemma CopiesDistinct(b: BootSector, k: nat, i: nat, k': nat, i': nat, lba: nat)
    requires TableSector(b, k, i, lba) && TableSector(b, k', i', lba)
    ensures k == k' && i == i'
  {
    PlacesDistinct(b.sectorsPerFat, k, i, k', i');
  }

  // ---------------------------------------------------------------- the root directory

  /** The root directory begins behind the reserved sectors and all copies of the table. */
  function RootStart(b: BootSector): nat {
    b.reservedSectors + b.fatCount * b.sectorsPerFat
  }

  lemma RootStartIs(b: BootSector)
    ensures RootStart(b) == RootDirLba(b)
  {
  }

  /** Byte `p` of the root directory, 32 bytes to an entry, lies in this sector. */
  predicate HoldsRootByte(b: BootSector, p: nat, lba: nat)
    requires b.bytesPerSector > 0
  {
    p < 32 * b.dirEntryCount && lba == RootStart(b) + p / b.bytesPerSector
  }

  /** The sectors from the root up to the data are those that hold a byte of it, and no others are. */
  lemma RootFillsItsArea(b: BootSector, lba: nat)
    requires b.bytesPerSector > 0
    ensures RootDirLba(b) <= lba < DataLba(b) <==> exists p: nat :: HoldsRootByte(b, p, lba)
  {
    hide RootDirLba, RootStart, HoldsRootByte, DataLba;
    if p: nat :| HoldsRootByte(b, p, lba) {
      RootByteInside(b, p, lba);
    }
    if RootDirLba(b) <= lba < DataLba(b) {
      RootSectorUsed(b, lba);
    }
  }

  lemma RootByteInside(b: BootSector, p: nat, lba: nat)
    requires b.bytesPerSector > 0 && HoldsRootByte(b, p, lba)
    ensures RootDirLba(b) <= lba < DataLba(b)
  {
    hide RootDirLba, RootStart;
    RootStartIs(b);
    SectorsNeeded(32 * b.dirEntryCount, b.bytesPerSector, p / b.bytesPerSector);
    DivTimes(p, b.bytesPerSector);
  }

  lemma RootSectorUsed(b: BootSector, lba: nat)
    requires b.bytesPerSector > 0 && RootDirLba(b) <= lba < DataLba(b)
    ensures exists p: nat :: HoldsRootByte(b, p, lba)
  {
    hide RootDirLba, RootStart;
    RootStartIs(b);
    var n, q := b.bytesPerSector, lba - RootDirLba(b);
    SectorsNeeded(32 * b.dirEntryCount, n, q);
    DivUnique(n * q, n, q, 0);
    MulMonotone(0, n, 0, q);
    assert HoldsRootByte(b, n * q, lba);
  }

  lemma DivTimes(p: nat, n: nat)
    requires n > 0
    ensures n * (p / n) <= p && p / n >= 0
  {
    assert p == n * (p / n) + p % n;
  }

  /** Rounding up: sector `q` is among those of `size` bytes exactly when its first byte is. */
  lemma SectorsNeeded(size: nat, n: nat, q: int)
    requires n > 0
    ensures q < (size + n - 1) / n <==> n * q < size
  {
    var m := (size + n - 1) / n;
    assert size + n - 1 == n * m + (size + n - 1) % n;
    if q < m {
      MulAtLeast(n, m - q);
      assert n * (m - q) == n * m - n * q;
    } else {
      MulMonotone(n, n, 0, q - m);
      assert n * (q - m) == n * q - n * m;
    }
  }

  // ---------------------------------------------------------------- what the mounted volume reads

  /** The root is read from behind all the copies, the clusters from behind the root. */
  lemma MountedPlaces(sectorAt: nat -> Sector, bad: nat -> bool, b: BootSector, beyond: nat -> byte,
                      clusters: nat, c: nat, k: nat, q: nat)
    requires WellFormed(b) && q <= 0x1_0000
    requires NoOverflow(MountedVolume(sectorAt, bad, b, beyond), clusters)
    requires 2 <= c < clusters + 2 && k < b.sectorsPerCluster
    ensures var v := MountedVolume(sectorAt, bad, b, beyond);
            var root := RootStart(b);
            var rootSectors := (32 * b.dirEntryCount + b.bytesPerSector - 1) / b.bytesPerSector;
            && StreamOf(v, TrueRoot(v)).sector(q) == sectorAt(root + q)
            && SectorLba(v, c, k) == root + rootSectors + (c - 2) * b.sectorsPerCluster + k
  {
    var v := MountedVolume(sectorAt, bad, b, beyond);
    RootStartIs(b);
    LayoutFits32(b);
    TrueRootSectors(v, q);
    WrapSmall(RootDirLba(b) + q);
    SectorLbaExact(v, clusters, c, k);
  }
}
