/**
 A disk on which the rewound root directory is fatal: two files in a root of two
 sectors, of which the first cannot be opened any more once the second was.
 */
module FatStaleRoot {
  import opened Machine
  import opened SectorStream
  import opened FatCursor
  import opened FatVolume
  import opened FatLayout
  import opened FatNames
  import opened FatSearch
  import opened FatPath
  import opened FatChains
  import opened FatWalks
  import opened FatMount
  import opened FatDriver

  const ROOT_SIZE: nat := 1024

  /** A boot sector: 512 bytes per sector, one of everything, 32 root entries. */
  function BootBytes(): Sector {
    seq<byte>(512, i requires 0 <= i < 512 =>
      if i == 12 then 2 else if i == 17 then 32 else if i == 38 then 0x29
      else if i == 13 || i == 14 || i == 16 || i == 22 then 1 else 0)
  }

  /** The 11 bytes of the name made of one letter and the extension BIN. */
  function Key(letter: byte): seq<byte> {
    [letter, SPACE, SPACE, SPACE, SPACE, SPACE, SPACE, SPACE, 66, 73, 78]
  }

  /** A directory sector with one entry in it, its first one. */
  function OneEntry(letter: byte): (s: Sector)
    ensures s[0] == letter
  {
    Key(letter) + seq<byte>(501, i => 0)
  }

  function DiskSector(lba: nat): Sector {
    if lba == 0 then BootBytes()
    else if lba == 2 then OneEntry(65)
    else if lba == 3 then OneEntry(66)
    else seq<byte>(512, i => 0)
  }

  /** "a.bin" and the like. */
  function FileName(letter: byte): seq<byte> {
    [letter, DOT, 98, 105, 110]
  }

  lemma PlainName(letter: byte)
    requires 97 <= letter <= 122
    ensures var path := FileName(letter);
            && path != [] && Relative(path) == path && Component(path) == path && IsLast(path) && NUL !in path
            && ComponentsFit(path) && TailsIgnored(path) && IgnoresTail(path) && FatName(path) == Key(letter - 32)
  {
    var path := FileName(letter);
    IndexOfIs(path, SLASH, 5);
    IndexOfIs(path, DOT, 1);
    assert Stem(path) == [letter] && Extension(path) == [98, 105, 110];
    assert Field([letter], 8) == Key(letter - 32)[..8];
    assert Field([98, 105, 110], 3) == Key(letter - 32)[8..];
  }

  /** A root of two sectors, each of which begins with an entry and holds no other. */
  ghost predicate TwoFiles(s: Stream, x: byte, y: byte) {
    && s.sector(0) == OneEntry(x) && s.sector(1) == OneEntry(y)
    && forall q: nat :: !s.ends(q) && !s.bad(q)
  }

  const START: Cursor := Cursor(0, ROOT_SIZE, true)

  lemma AllEntriesReadable(s: Stream, x: byte, y: byte, i: nat)
    requires TwoFiles(s, x, y)
    ensures Readable(s, START, i) <==> i < 32
  {
    if i < 32 {
      assert Reachable(s, 0) && Reachable(s, 1);
      AvailableIsMaximal(s, 0, 32 * i + 32, 32 * i + 32);
    }
  }

  const NO_NAME: seq<byte> := [0, 0, 0, 0, 0, 0, 0, 0, 0, 0, 0]

  lemma EntryName(s: Stream, x: byte, y: byte, i: nat)
    requires TwoFiles(s, x, y) && i < 32
    ensures EntryAt(s, START, i)[..11] == if i == 0 then Key(x) else if i == 16 then Key(y) else NO_NAME
  {
    var name, letter, at := EntryAt(s, START, i)[..11], if i < 16 then x else y, OffsetIn(32 * i);
    PieceIsContent(s, 32 * i, 32);
    assert s.sector(SectorOf(32 * i)) == OneEntry(letter);
    forall j | 0 <= j < 11
      ensures name[j] == OneEntry(letter)[at + j] == if at == 0 then Key(letter)[j] else 0
    {
      assert EntryAt(s, START, i) == OneEntry(letter)[at..at + 32];
      assert OneEntry(letter)[at..at + 32][j] == OneEntry(letter)[at + j];
    }
  }

  /** The search sees the letters at entries 0 and 16 and nothing else. */
  lemma HitWhere(s: Stream, x: byte, y: byte, z: byte, i: nat)
    requires TwoFiles(s, x, y) && z != 0
    ensures Hit(s, START, Key(z), i) <==> (i == 0 && z == x) || (i == 16 && z == y)
  {
    AllEntriesReadable(s, x, y, i);
    if i < 32 {
      EntryName(s, x, y, i);
      assert Key(z)[0] == z && Key(x)[0] == x && Key(y)[0] == y && NO_NAME[0] == 0;
    }
  }

  /** The mounted volume and its root. */
  function DiskVolume(beyond: nat -> byte): Volume {
    MountedVolume(DiskSector, (lba: nat) => false, ParseBootSector(BootBytes()), beyond)
  }

  lemma DiskLayout(beyond: nat -> byte)
    ensures Mountable(DiskSector, (lba: nat) => false)
    ensures WellFormed(ParseBootSector(DiskSector(0)))
    ensures var v := DiskVolume(beyond);
            RootNode(v, ParseBootSector(DiskSector(0))) == Node(TrueRoot(v), START) && v.rootLba == 2
  {
    var b := ParseBootSector(BootBytes());
    assert b == BootSector(512, 1, 1, 1, 32, 1, 0x29);
  }

  /** What a search of such a root comes to: it finds either letter, and stops behind the entry. */
  lemma SearchIn(s: Stream, x: byte, y: byte, z: byte)
    requires TwoFiles(s, x, y) && z != 0
    ensures Search(s, START, Key(z)).Some? <==> z == x || z == y
    ensures z == y && x != y ==> StopPosition(s, START, Key(z)) == 544
  {
    hide Hit, Search, StopPosition, Key, TwoFiles;
    forall i: nat
      ensures Hit(s, START, Key(z), i) <==> (i == 0 && z == x) || (i == 16 && z == y)
    {
      HitWhere(s, x, y, z, i);
    }
    SearchFindsIff(s, START, Key(z));
    if z == x {
      assert Hit(s, START, Key(z), 0);
    } else if z == y {
      assert FirstHit(s, START, Key(z), 16);
      StopsBehindHit(s, START, Key(z), 16);
    }
  }

  /** A path of one component goes through no directory but the root, so no chain matters. */
  lemma NoDirectories(v: Volume, n: Node, path: seq<byte>)
    requires IsLast(path) && Placed(n)
    ensures HoldsTable(v, []) && DirectoriesOnChains(v, [], n, path)
  {
  }

  /** Looking up a file in such a root. */
  lemma LookUpIn(v: Volume, n: Node, x: byte, y: byte, letter: byte)
    requires n.origin.Root? && n.cursor == START && TwoFiles(StreamOf(v, n.origin), x, y)
    requires 97 <= letter <= 122 && forall lba: nat :: !v.bad(lba)
    ensures WalkEnds(v, n, FileName(letter))
    ensures Resolve(v, n, FileName(letter)).Some? <==> letter - 32 == x || letter - 32 == y
    ensures letter - 32 == y && x != y ==> StopPosition(StreamOf(v, n.origin), START, Key(letter - 32)) == 544
  {
    hide Search, StopPosition, Key, FileName, FatName, Component, IsLast, IgnoresTail, WalkEnds;
    var path := FileName(letter);
    PlainName(letter);
    NoDirectories(v, n, path);
    WalkFromRootEnds(v, [], n, path);
    ResolveStep(v, n, path);
    SearchIn(StreamOf(v, n.origin), x, y, letter - 32);
  }

  /**
   On this disk both files can be opened.  Opening the second leaves the root with its
   second sector in place of its first, and then the first file is not there any more.
   */
  lemma RewindLosesFile(beyond: nat -> byte)
    ensures Mountable(DiskSector, (lba: nat) => false)
    ensures var v, a, b := DiskVolume(beyond), FileName(97), FileName(98);
            var root := Node(TrueRoot(v), START);
            var rewound := Rewound(v, root, FatName(Component(b)));
            && root == RootNode(v, ParseBootSector(DiskSector(0)))
            && WalkEnds(v, root, a) && Resolve(v, root, a).Some?
            && WalkEnds(v, root, b) && Resolve(v, root, b).Some?
            && rewound != root
            && WalkEnds(v, rewound, a) && Resolve(v, rewound, a) == None
  {
    hide WalkEnds, Resolve, MountedVolume, OneEntry, FileName, Key;
    var v, a, b := DiskVolume(beyond), FileName(97), FileName(98);
    var root := Node(TrueRoot(v), START);
    DiskLayout(beyond);
    RootSectors(v, beyond);
    LookUpIn(v, root, 65, 66, 97);
    LookUpIn(v, root, 65, 66, 98);
    PlainName(98);
    var rewound := Rewound(v, root, FatName(Component(b)));
    LookUpIn(v, rewound, 66, 66, 97);
    assert OneEntry(65)[0] != OneEntry(66)[0];
  }

  lemma RootSectors(v: Volume, beyond: nat -> byte)
    requires v == DiskVolume(beyond)
    ensures TwoFiles(StreamOf(v, TrueRoot(v)), 65, 66)
    ensures TwoFiles(StreamOf(v, Root(OneEntry(66))), 66, 66)
    ensures forall lba: nat :: !v.bad(lba)
  {
    DiskLayout(beyond);
    TrueRootSectors(v, 0);
    TrueRootSectors(v, 1);
  }

  // ---------------------------------------------------------------- the driver on this disk

  /** The driver with its root at `n` and no handle in use. */
  ghost predicate Idle(driver: FatDriver, n: Node)
    reads driver.rootDirectory, driver.rootDirectory.buffer, driver.openedFiles
  {
    && driver.Valid() && driver.OpenSet() == {}
    && driver.rootDirectory.Coherent(driver.volume) && driver.rootDirectory.Place() == n
  }

  /** Opens a file and closes it again: the root is left rewound. */
  method OpenAndClose(driver: FatDriver, letter: byte, ghost n: Node) returns (found: bool)
    requires 97 <= letter <= 122 && Idle(driver, n)
    requires Placed(n) && WalkEnds(driver.volume, n, FileName(letter))
    modifies driver.rootDirectory, driver.rootDirectory.buffer, driver.openedFiles, driver.Buffers()
    ensures found <==> Resolve(driver.volume, n, FileName(letter)).Some?
    ensures Idle(driver, Rewound(driver.volume, n, FatName(FileName(letter))))
  {
    hide WalkEnds, Resolve, FileName, Rewound, FileData.Coherent, FatName, IgnoresTail, Component, ComponentsFit;
    hide TailsIgnored, KeyFor, Outcome;
    PlainName(letter);
    FreeSlotLeft(driver);
    var file := driver.Open(FileName(letter));
    found := file != null;
    OutcomeIsResolve(driver.volume, n, FileName(letter), if found then Some(file.Place()) else None,
                     driver.rootDirectory.Place());
    if found {
      driver.Close(file);
    }
  }

  /** The driver at work: it opens the second file, and then cannot open the first. */
  method OpenBoth(driver: FatDriver, ghost beyond: nat -> byte) returns (second: bool, first: bool)
    requires driver.volume == DiskVolume(beyond)
    requires Idle(driver, RootNode(driver.volume, ParseBootSector(DiskSector(0))))
    modifies driver.rootDirectory, driver.rootDirectory.buffer, driver.openedFiles, driver.Buffers()
    ensures second && !first
  {
    hide WalkEnds, Resolve, MountedVolume, FileName, Rewound, Idle, Mountable, ParseBootSector, FatName, Component;
    RewindLosesFile(beyond);
    PlainName(98);
    ghost var root := RootNode(driver.volume, ParseBootSector(DiskSector(0)));
    second := OpenAndClose(driver, 98, root);
    first := OpenAndClose(driver, 97, Rewound(driver.volume, root, FatName(FileName(98))));
  }

  /** Such a driver is what mounting the disk gives. */
  method MountAndOpenBoth(beyond: nat -> byte) returns (second: bool, first: bool)
    ensures second && !first
  {
    hide Mountable, WellFormed, MountedVolume, ParseBootSector, FileData.Coherent, FatDriver.Valid;
    DiskLayout(beyond);
    var driver := Initialize(DiskSector, (lba: nat) => false, beyond);
    second, first := OpenBoth(driver, beyond);
  }
}
