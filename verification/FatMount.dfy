/** Mounting: from the boot sector to a driver with a coherent root directory. */
module FatMount {
  import opened Machine
  import opened SectorStream
  import opened FatCursor
  import opened FatVolume
  import opened FatLayout
  import opened FatDriver
  import opened FatPath
  import opened FatChains
  import opened FatFiles
  import opened FatAreas

  /** Can `count` sectors from `lba` on be read?  The count is passed in one byte. */
  predicate RangeReadable(bad: nat -> bool, lba: nat, count: nat) {
    forall k: nat :: lba <= k < lba + count % 0x100 ==> !bad(k)
  }

  /** The boot sector is taken for one and the table can be loaded. */
  predicate Accepted(sectorAt: nat -> Sector, bad: nat -> bool) {
    var b := ParseBootSector(sectorAt(0));
    && !bad(0)
    && b.signature == BOOT_SIGNATURE
    && TableFits(b)
    && RangeReadable(bad, b.reservedSectors, b.sectorsPerFat)
  }

  /** Everything mounting asks of the disk. */
  predicate Mountable(sectorAt: nat -> Sector, bad: nat -> bool) {
    Accepted(sectorAt, bad) && !bad(RootDirLba(ParseBootSector(sectorAt(0))))
  }

  /** The driver's memory leaves room for a table of less than 59040 bytes. */
  lemma TableRoom(b: BootSector)
    ensures TableFits(b) <==> b.bytesPerSector * b.sectorsPerFat < 59040
  {
  }

  /** The same in numbers: byte 38, the room of 59040 bytes, and the sectors that have to be read. */
  lemma MountableIff(sectorAt: nat -> Sector, bad: nat -> bool)
    ensures var b := ParseBootSector(sectorAt(0));
            Mountable(sectorAt, bad) <==>
            && !bad(0) && sectorAt(0)[38] == 0x29
            && b.bytesPerSector * b.sectorsPerFat < 59040
            && (forall k: nat :: b.reservedSectors <= k < b.reservedSectors + b.sectorsPerFat % 256 ==> !bad(k))
            && !bad(RootStart(b))
  {
    hide TableFits;
    TableRoom(ParseBootSector(sectorAt(0)));
    RootStartIs(ParseBootSector(sectorAt(0)));
  }

  /**
   Mounts the volume: succeeds exactly on a mountable disk, and then the root is
   open at its start, no other handle is in use, and the driver's volume is the
   one the boot sector describes.
   */
  method Initialize(sectorAt: nat -> Sector, bad: nat -> bool, beyond: nat -> byte) returns (r: FatDriver?)
    requires Accepted(sectorAt, bad) ==> WellFormed(ParseBootSector(sectorAt(0)))
    ensures r != null <==> Mountable(sectorAt, bad)
    ensures r != null ==>
              && fresh(r) && r.Valid() && r.OpenSet() == {} && |r.openedFiles| == 10
              && fresh(r.rootDirectory) && fresh(r.rootDirectory.buffer) && fresh(r.openedFiles) && fresh(r.Buffers())
              && r.volume == MountedVolume(sectorAt, bad, ParseBootSector(sectorAt(0)), beyond)
              && r.rootDirectory.Coherent(r.volume)
              && r.rootDirectory.Place() == RootNode(r.volume, ParseBootSector(sectorAt(0)))
  {
    hide MountedVolume, TableFits, RangeReadable, FileData.Coherent, ParseBootSector, WellFormed, FatDriver.Valid;
    if bad(0) {
      return null;
    }
    var b := ParseBootSector(sectorAt(0));
    if b.signature != BOOT_SIGNATURE {
      return null;
    }
    var fits := CheckTable(b);
    if !fits {
      return null;
    }
    if !RangeReadable(bad, b.reservedSectors, b.sectorsPerFat) {
      return null;
    }
    MountedRoot(sectorAt, bad, b, beyond);
    var driver := NewDriver(MountedVolume(sectorAt, bad, b, beyond));
    var ok := OpenRoot(driver, RootDirSize(b));
    if ok {
      r := driver;
    } else {
      r := null;
    }
  }

  /** The root directory of a volume just mounted. */
  function RootNode(v: Volume, b: BootSector): Node {
    Node(TrueRoot(v), Cursor(0, RootDirSize(b), true))
  }

  lemma MountedRoot(sectorAt: nat -> Sector, bad: nat -> bool, b: BootSector, beyond: nat -> byte)
    requires WellFormed(b)
    ensures var v := MountedVolume(sectorAt, bad, b, beyond); v.rootLba == RootDirLba(b) && v.bad == bad
  {
  }

  /** The size check; the product of two 16-bit sizes does not wrap around. */
  method CheckTable(b: BootSector) returns (fits: bool)
    requires b.bytesPerSector < 0x1_0000 && b.sectorsPerFat < 0x1_0000
    ensures fits <==> TableFits(b)
  {
    var size := b.bytesPerSector * b.sectorsPerFat;
    MulMonotone(b.bytesPerSector, 0xFFFF, b.sectorsPerFat, 0xFFFF);
    var fatSize := Wrap32(size);
    WrapSmall(size);
    fits := !(FAT_DATA_SIZE + fatSize >= MEMORY_FAT_SIZE);
  }

  /** The driver's memory: eleven handles, none of them in use. */
  method NewDriver(volume: Volume) returns (driver: FatDriver)
    ensures fresh(driver) && driver.volume == volume && driver.Shape() && driver.OpenSet() == {}
    ensures fresh(driver.rootDirectory) && fresh(driver.rootDirectory.buffer)
    ensures fresh(driver.openedFiles) && fresh(driver.Buffers())
    ensures forall f :: f in driver.openedFiles ==> !f.isOpen
  {
    var root := new FileData();
    var files: seq<FileData> := [];
    while |files| < MAX_FILE_HANDLES
      invariant |files| <= MAX_FILE_HANDLES
      invariant root !in files && fresh(root) && fresh(root.buffer) && root.buffer.Length == 512
      invariant forall i :: 0 <= i < |files| ==> fresh(files[i]) && fresh(files[i].buffer) && !files[i].isOpen
      invariant forall i :: 0 <= i < |files| ==> files[i].buffer.Length == 512 && files[i].buffer != root.buffer
      invariant forall i, j :: 0 <= i < j < |files| ==> files[i] != files[j] && files[i].buffer != files[j].buffer
    {
      var f := new FileData();
      files := files + [f];
    }
    driver := new FatDriver(volume, root, files);
  }

  /** Sets the root handle up and loads its first sector. */
  method OpenRoot(driver: FatDriver, size: nat) returns (ok: bool)
    requires driver.Shape() && forall f :: f in driver.openedFiles ==> !f.isOpen
    modifies driver.rootDirectory, driver.rootDirectory.buffer
    ensures ok <==> !driver.volume.bad(driver.volume.rootLba)
    ensures driver.Valid() && driver.OpenSet() == old(driver.OpenSet())
    ensures ok ==> driver.rootDirectory.Coherent(driver.volume)
    ensures ok ==> driver.rootDirectory.Place() == Node(TrueRoot(driver.volume), Cursor(0, size, true))
  {
    var root := driver.rootDirectory;
    root.handle := ROOT_DIRECTORY_HANDLE;
    root.isDirectory := true;
    root.position := 0;
    root.size := size;
    root.isOpen := true;
    root.firstCluster := driver.volume.rootLba;
    root.currentCluster := driver.volume.rootLba;
    root.currentSectorInCluster := 0;
    var status := driver.ReadSector(driver.volume.rootLba, root.buffer);
    ok := status == 0;
    root.firstSector := root.buffer[..];
    if ok {
      assert LbaFor(driver.volume, root.Source(), 0) == driver.volume.rootLba;
      StandsCoherent(root, driver.volume);
    }
  }

  /** The first FAT copy on the disk holds this table. */
  ghost predicate TableOnDisk(sectorAt: nat -> Sector, b: BootSector, entries: seq<Entry12>) {
    && |entries| <= 0x1000
    && |Packed(entries)| <= 512 * (b.sectorsPerFat % 0x100)
    && forall i: nat :: i < |Packed(entries)| ==>
         sectorAt(b.reservedSectors + SectorOf(i))[OffsetIn(i)] == Packed(entries)[i]
  }

  /** What the disk holds as its table is what the mounted volume follows. */
  lemma MountLoadsTable(sectorAt: nat -> Sector, bad: nat -> bool, b: BootSector, beyond: nat -> byte,
                        entries: seq<Entry12>)
    requires WellFormed(b) && TableOnDisk(sectorAt, b, entries)
    ensures HoldsTable(MountedVolume(sectorAt, bad, b, beyond), entries)
  {
    var v := MountedVolume(sectorAt, bad, b, beyond);
    forall i: nat | i < |Packed(entries)|
      ensures v.fat(i) == Packed(entries)[i]
    {
      assert SectorOf(i) < b.sectorsPerFat % 0x100;
    }
  }

  /** The drive after one of its sectors was overwritten. */
  function Overwritten(sectorAt: nat -> Sector, at: nat, data: Sector): nat -> Sector {
    (lba: nat) => if lba == at then data else sectorAt(lba)
  }

  /**
   Overwriting a sector of a cluster touches neither the boot sector nor any copy of
   the table nor the root directory: the areas of the volume do not overlap.
   */
  lemma DataWriteLeavesMetadata(sectorAt: nat -> Sector, bad: nat -> bool, b: BootSector, beyond: nat -> byte,
                                clusters: nat, c: nat, k: nat, data: Sector)
    requires WellFormed(b) && b.bytesPerSector == 512 && b.reservedSectors >= 1 && b.fatCount >= 1
    requires NoOverflow(MountedVolume(sectorAt, bad, b, beyond), clusters)
    requires 2 <= c < clusters + 2 && k < b.sectorsPerCluster
    ensures var v := MountedVolume(sectorAt, bad, b, beyond);
            var written := Overwritten(sectorAt, SectorLba(v, c, k), data);
            var w := MountedVolume(written, bad, b, beyond);
            && written(0) == sectorAt(0)
            && (forall copy: nat, i: nat, lba: nat :: TableSector(b, copy, i, lba) ==> written(lba) == sectorAt(lba))
            && (forall i: nat :: w.fat(i) == v.fat(i))
            && (forall p: nat :: p < RootDirSize(b) ==>
                  ByteAt(StreamOf(w, TrueRoot(w)), p) == ByteAt(StreamOf(v, TrueRoot(v)), p))
  {
    var v := MountedVolume(sectorAt, bad, b, beyond);
    var written := Overwritten(sectorAt, SectorLba(v, c, k), data);
    var w := MountedVolume(written, bad, b, beyond);
    SectorLbaExact(v, clusters, c, k);
    TableBeforeRoot(b);
    assert SectorLba(v, c, k) >= DataLba(b);
    forall copy: nat, i: nat, lba: nat | TableSector(b, copy, i, lba)
      ensures written(lba) == sectorAt(lba)
    {
      CopyInside(b, copy, i);
    }
    forall i: nat
      ensures w.fat(i) == v.fat(i)
    {
      assert SectorOf(i) < b.sectorsPerFat % 0x100 ==> b.reservedSectors + SectorOf(i) < DataLba(b);
    }
    forall p: nat | p < RootDirSize(b)
      ensures ByteAt(StreamOf(w, TrueRoot(w)), p) == ByteAt(StreamOf(v, TrueRoot(v)), p)
    {
      RootAreaHoldsRoot(b, p);
      TrueRootSectors(v, SectorOf(p));
      TrueRootSectors(w, SectorOf(p));
    }
  }

  /** The sectors mounting loads as the table lie in front of the root directory. */
  lemma TableBeforeRoot(b: BootSector)
    requires WellFormed(b) && b.fatCount >= 1
    ensures b.reservedSectors + b.sectorsPerFat % 0x100 <= RootDirLba(b) <= DataLba(b)
  {
    MulMonotone(b.sectorsPerFat, b.sectorsPerFat, 1, b.fatCount);
    DivNonNegative(RootDirSize(b) + b.bytesPerSector - 1, b.bytesPerSector);
  }

  lemma DivNonNegative(d: nat, n: nat)
    requires n > 0
    ensures d / n >= 0
  {
  }
}
