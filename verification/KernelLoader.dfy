/** The boot loader's loop that brings the kernel file into memory. */
module KernelLoader {
  import opened Machine
  import opened Memory
  import opened SectorStream
  import opened FatCursor
  import opened FatVolume
  import opened FatSearch
  import opened FatDriver
  import opened FatChains
  import opened FatFiles
  import opened FatNames
  import opened FatWalks
  import opened FatPath

  const MEMORY_LOAD_SIZE: nat := 0x10000

  /** `total` is how much there is to read from the cursor on. */
  ghost predicate IsAll(s: Stream, c: Cursor, total: nat)
    requires Unlimited(c) || c.position <= c.size
  {
    Delivered(s, c, total) == total && forall n: nat :: Delivered(s, c, n) <= total
  }

  /** A read that comes back short has delivered everything there is. */
  lemma ShortMeansAll(s: Stream, c: Cursor, n: nat)
    requires Unlimited(c) || c.position <= c.size
    requires Delivered(s, c, n) < n
    ensures IsAll(s, c, Delivered(s, c, n))
  {
    var k := Delivered(s, c, n);
    forall m: nat
      ensures Delivered(s, c, m) <= k
    {
      if m >= n {
        DeliveredGrows(s, c, n, m - n);
      } else {
        DeliveredGrows(s, c, m, n - m);
      }
    }
    DeliveredGrows(s, c, k, n - k);
  }

  /** One read of `enough` would come back short and meet no unreadable sector. */
  predicate ReadsDry(s: Stream, c: Cursor, enough: nat)
    requires Unlimited(c) || c.position <= c.size
  {
    Delivered(s, c, enough) < enough && !ReadFails(s, c, enough)
  }

  /**
   What loading asks of a file: it ends, none of its sectors is unreadable, it fits
   the room it is loaded to, and sizes and positions stay below 2^31.
   */
  ghost predicate Loadable(s: Stream, c: Cursor, enough: nat, room: nat)
    requires Unlimited(c) || c.position <= c.size
  {
    && ReadsDry(s, c, enough) && Delivered(s, c, enough) <= room
    && c.size < TWO31 && c.position + Delivered(s, c, enough) < TWO31
  }

  /** No read of a file that ends fails, and none delivers more than all of it. */
  lemma ReadsAreSafe(s: Stream, c: Cursor, enough: nat, n: nat)
    requires (Unlimited(c) || c.position <= c.size) && ReadsDry(s, c, enough)
    ensures !ReadFails(s, c, n) && Delivered(s, c, n) <= Delivered(s, c, enough)
  {
    if n <= enough {
      DeliveredGrows(s, c, n, enough - n);
      if ReadFails(s, c, n) {
        FailurePersists(s, c, n, enough - n);
      }
    } else {
      DeliveredGrows(s, c, enough, n - enough);
    }
  }

  /**
   Reads the whole file in pieces of 64 KiB and leaves it at the start of `memory`,
   whatever its length and however the pieces fall.
   */
  method LoadKernel(driver: FatDriver, kernel: FileData, memory: array<byte>, ghost enough: nat) returns (total: nat)
    requires driver.Owns(kernel) && kernel.Coherent(driver.volume) && Placed(kernel.Place())
    requires Loadable(kernel.Sectors(driver.volume), kernel.View(), enough, memory.Length)
    requires memory != kernel.buffer
    modifies kernel`position, kernel`currentCluster, kernel`currentSectorInCluster, kernel`size, kernel.buffer, memory
    ensures var s, c := old(kernel.Sectors(driver.volume)), old(kernel.View());
            && IsAll(s, c, total) && total <= memory.Length
            && memory[..] == Content(s, c.position, total) + old(memory[..])[total..]
    ensures kernel.Coherent(driver.volume)
  {
    hide Delivered, After, ReadFails, FileData.Coherent, FileData.Sectors, Reachable, Content, Available, IsAll;
    ghost var v := driver.volume;
    ghost var s, c, was := kernel.Sectors(v), kernel.View(), memory[..];
    ghost var asked: nat := 0;
    var loadBuffer := new byte[MEMORY_LOAD_SIZE];
    total := 0;
    StartLoading(kernel, v, s, c, enough, memory);
    while true
      invariant Loading(kernel, v, s, c, asked, total, enough, memory, was)
      decreases Delivered(s, c, enough) - total
    {
      var read := LoadPiece(driver, kernel, memory, loadBuffer, total, s, c, asked, enough, was);
      asked := asked + MEMORY_LOAD_SIZE;
      if read == 0 {
        ShortMeansAll(s, c, asked);
        return;
      }
      total := total + read;
    }
  }

  /** In the load loop: `asked` bytes were asked for, `total` of them came and are in place. */
  ghost predicate Loading(kernel: FileData, v: Volume, s: Stream, c: Cursor, asked: nat, total: nat, enough: nat,
                          memory: array<byte>, was: seq<byte>)
    reads kernel, kernel.buffer, memory
  {
    && Sound(s, c) && Loadable(s, c, enough, |was|)
    && kernel.Coherent(v) && kernel.Sectors(v) == s
    && kernel.View() == After(s, c, asked)
    && total == Delivered(s, c, asked) <= asked
    && total <= Delivered(s, c, enough) <= |was| == memory.Length
    && memory[..] == Content(s, c.position, total) + was[total..]
  }

  /** The body of the load loop: one read into the load buffer and one copy to its place. */
  method LoadPiece(driver: FatDriver, kernel: FileData, memory: array<byte>, loadBuffer: array<byte>, total: nat,
                   ghost s: Stream, ghost c: Cursor, ghost asked: nat, ghost enough: nat, ghost was: seq<byte>)
    returns (read: nat)
    requires driver.Owns(kernel)
    requires memory != kernel.buffer && loadBuffer != kernel.buffer && loadBuffer != memory
    requires loadBuffer.Length == MEMORY_LOAD_SIZE
    requires Loading(kernel, driver.volume, s, c, asked, total, enough, memory, was)
    modifies kernel`position, kernel`currentCluster, kernel`currentSectorInCluster, kernel`size, kernel.buffer
    modifies memory, loadBuffer
    ensures Loading(kernel, driver.volume, s, c, asked + MEMORY_LOAD_SIZE, total + read, enough, memory, was)
  {
    hide Delivered, After, ReadFails, FileData.Coherent, Reachable, Content, Available;
    ghost var c1, before := kernel.View(), memory[..];
    LoadStep(s, c, asked, enough);
    read := driver.Read(kernel, MEMORY_LOAD_SIZE, loadBuffer);
    assert loadBuffer[0..read] == Content(s, c1.position, read);
    Memcpy(memory, total, loadBuffer, 0, read);
    PieceAppends(s, c.position, total, read, was, before, memory[..]);
  }

  lemma StartLoading(kernel: FileData, v: Volume, s: Stream, c: Cursor, enough: nat, memory: array<byte>)
    requires kernel.Coherent(v) && s == kernel.Sectors(v) && c == kernel.View()
    requires Loadable(s, c, enough, memory.Length)
    ensures Loading(kernel, v, s, c, 0, 0, enough, memory, memory[..])
  {
    assert Delivered(s, c, 0) == 0 && After(s, c, 0) == c;
  }

  /** The facts about one 64 KiB read that the loop lives on. */
  lemma LoadStep(s: Stream, c: Cursor, asked: nat, enough: nat)
    requires Sound(s, c) && ReadsDry(s, c, enough)
    requires c.size < TWO31 && c.position + Delivered(s, c, enough) < TWO31
    ensures var c1 := After(s, c, asked);
            && Sound(s, c1) && c1.position == c.position + Delivered(s, c, asked)
            && c1.position < TWO31 && c1.size < TWO31
            && Delivered(s, c, asked + MEMORY_LOAD_SIZE) == Delivered(s, c, asked) + Delivered(s, c1, MEMORY_LOAD_SIZE)
            && After(s, c, asked + MEMORY_LOAD_SIZE) == After(s, c1, MEMORY_LOAD_SIZE)
            && !ReadFails(s, c1, MEMORY_LOAD_SIZE)
    ensures Delivered(s, c, asked + MEMORY_LOAD_SIZE) <= Delivered(s, c, enough)
  {
    hide Delivered, After, ReadFails, Reachable, SectorOf, OffsetIn, Ended;
    SizeBound(s, c, asked);
    ReadsAreSafe(s, c, enough, asked);
    ReadsAreSafe(s, c, enough, asked + MEMORY_LOAD_SIZE);
    CursorsCompose(s, c, asked, MEMORY_LOAD_SIZE);
    FailuresCompose(s, c, asked, MEMORY_LOAD_SIZE);
  }

  /** For a file opened on a chain, all there is is the lesser of its size and its chain. */
  lemma AllOfAFile(v: Volume, entries: seq<Entry12>, chain: seq<nat>, size: nat, total: nat)
    requires ChainReadable(v, chain) && HoldsTable(v, entries) && IsChain(entries, chain)
    requires IsAll(StreamOf(v, Chain(chain[0])), Cursor(0, size, false), total)
    ensures total == Min(size, ChainBytes(v, chain))
  {
    var s, c := StreamOf(v, Chain(chain[0])), Cursor(0, size, false);
    DeliveredClosedForm(v, entries, chain, c, total);
    DeliveredClosedForm(v, entries, chain, c, size);
    assert Delivered(s, c, size) <= total;
  }

  /** A file on a readable chain can be loaded to any room that holds what there is of it. */
  lemma StoredFileLoadable(v: Volume, entries: seq<Entry12>, chain: seq<nat>, size: nat, room: nat)
    requires ChainReadable(v, chain) && HoldsTable(v, entries) && IsChain(entries, chain)
    requires Min(size, ChainBytes(v, chain)) <= room && size < TWO31
    ensures Loadable(StreamOf(v, Chain(chain[0])), Cursor(0, size, false), size + 1, room)
  {
    var c := Cursor(0, size, false);
    DeliveredClosedForm(v, entries, chain, c, size + 1);
    ChainNeverFails(v, entries, chain, c, size + 1);
  }

  /** A kernel stored along a chain is in memory, whole, after the load. */
  lemma KernelArrives(v: Volume, entries: seq<Entry12>, chain: seq<nat>, data: seq<byte>, total: nat)
    requires ChainReadable(v, chain) && HoldsTable(v, entries) && IsChain(entries, chain)
    requires Stores(v, chain, data)
    requires IsAll(StreamOf(v, Chain(chain[0])), Cursor(0, |data|, false), total)
    ensures Content(StreamOf(v, Chain(chain[0])), 0, total) == data
  {
    AllOfAFile(v, entries, chain, |data|, total);
    StoredFileReadsBack(v, entries, chain, data, total);
  }

  // ---------------------------------------------------------------- the whole of it

  /** "/kernel.bin" */
  const KERNEL_PATH: seq<byte> := [47, 107, 101, 114, 110, 101, 108, 46, 98, 105, 110]

  /** The kernel's name has a three-letter extension: the byte left unset behind it is never looked at. */
  lemma KernelPathIsPlain()
    ensures var path := Relative(KERNEL_PATH);
            path != [] && ComponentsFit(path) && TailsIgnored(path) && Component(path) == path && IsLast(path)
    ensures NUL !in KERNEL_PATH
  {
    var path := Relative(KERNEL_PATH);
    assert path == KERNEL_PATH[1..];
    IndexOfIs(path, SLASH, |path|);
    IndexOfIs(path, DOT, 6);
    assert Extension(path) == path[7..];
  }

  /** The node the kernel's path names. */
  ghost function KernelNode(driver: FatDriver): Option<Node>
    requires Placed(driver.rootDirectory.Place())
    reads driver.rootDirectory
  {
    Resolve(driver.volume, driver.rootDirectory.Place(), Relative(KERNEL_PATH))
  }

  /**
   Opens the kernel, loads it and closes it again.  The loader does not look at what
   the open returned, so the file has to be there; then all of it is in memory and
   the same handles are in use as before.
   */
  method BootLoad(driver: FatDriver, memory: array<byte>, ghost enough: nat) returns (total: nat)
    requires driver.Valid() && driver.rootDirectory.Coherent(driver.volume) && Placed(driver.rootDirectory.Place())
    requires WalkEnds(driver.volume, driver.rootDirectory.Place(), Relative(KERNEL_PATH))
    requires exists f :: f in driver.openedFiles && !f.isOpen
    requires KernelNode(driver).Some? && Placed(KernelNode(driver).value)
    requires var n := KernelNode(driver).value;
             Loadable(StreamOf(driver.volume, n.origin), n.cursor, enough, memory.Length)
    requires memory != driver.rootDirectory.buffer && memory !in driver.Buffers()
    modifies driver.rootDirectory, driver.rootDirectory.buffer, driver.openedFiles, driver.Buffers(), memory
    ensures driver.Valid() && driver.OpenSet() == old(driver.OpenSet())
    ensures driver.rootDirectory.Coherent(driver.volume)
    ensures forall f :: f in old(driver.OpenSet()) ==> unchanged(f) && unchanged(f.buffer)
    ensures var n := old(KernelNode(driver).value);
            var s := StreamOf(driver.volume, n.origin);
            && IsAll(s, n.cursor, total) && total <= memory.Length
            && memory[..] == Content(s, n.cursor.position, total) + old(memory[..])[total..]
  {
    hide Delivered, Content, FileData.Coherent, Resolve, Loadable, Reachable, KERNEL_PATH, WalkEnds, Rewound, KeyFor;
    KernelPathIsPlain();
    ghost var n := KernelNode(driver).value;
    var kernel := driver.Open(KERNEL_PATH);
    assert kernel.Place() == n;
    total := LoadAndClose(driver, kernel, memory, enough);
  }

  /** The load and the close of an open file: its slot is free again, no other handle has changed. */
  method LoadAndClose(driver: FatDriver, kernel: FileData, memory: array<byte>, ghost enough: nat)
    returns (total: nat)
    requires driver.Valid() && driver.Owns(kernel) && kernel in driver.openedFiles && kernel.Coherent(driver.volume)
    requires Placed(kernel.Place())
    requires Loadable(StreamOf(driver.volume, kernel.Place().origin), kernel.Place().cursor, enough, memory.Length)
    requires memory != driver.rootDirectory.buffer && memory !in driver.Buffers()
    modifies kernel, kernel.buffer, memory
    ensures driver.Valid() && driver.OpenSet() == old(driver.OpenSet()) - {kernel}
    ensures var n := old(kernel.Place());
            var s := StreamOf(driver.volume, n.origin);
            && IsAll(s, n.cursor, total) && total <= memory.Length
            && memory[..] == Content(s, n.cursor.position, total) + old(memory[..])[total..]
  {
    hide Delivered, Content, FileData.Coherent, Loadable, IsAll;
    total := LoadKernel(driver, kernel, memory, enough);
    assert driver.OpenSet() == old(driver.OpenSet());
    driver.Close(kernel);
  }
}
