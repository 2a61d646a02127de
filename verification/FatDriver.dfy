/**
 The FAT12 driver: a pool of handles, each with a one-sector buffer, and the
 read that streams a file through that buffer.
 */
module FatDriver {
  import opened Machine
  import opened Memory
  import opened SectorStream
  import opened FatCursor
  import opened FatVolume
  import opened FatLayout
  import opened FatNames
  import opened FatSearch
  import opened FatPath

  const MAX_FILE_HANDLES: nat := 10
  const ROOT_DIRECTORY_HANDLE: int := -1

  class FileData {
    const buffer: array<byte>
    var handle: int
    var isDirectory: bool
    var position: nat
    var size: nat
    var isOpen: bool
    var firstCluster: nat
    var currentCluster: nat
    var currentSectorInCluster: nat
    /** For the root directory: what is taken for its first sector. */
    ghost var firstSector: Sector

    constructor ()
      ensures fresh(buffer) && buffer.Length == 512 && !isOpen
    {
      buffer := new byte[512];
      isOpen := false;
      firstSector := seq(512, _ => 0);
    }

    /** Fills in the fields for a file just found; the buffer is still to be loaded. */
    method Assign(slot: nat, entry: Entry)
      modifies `handle, `isDirectory, `position, `size, `firstCluster, `currentCluster, `currentSectorInCluster
      ensures handle == slot && currentCluster == FirstClusterOf(entry)
      ensures Source() == Chain(FirstClusterOf(entry)) && View() == CursorOf(entry)
      ensures forall v: Volume :: AtSector(v, 0) && LbaFor(v, Source(), 0) == ClusterToLba(v, currentCluster)
    {
      handle := slot;
      isDirectory := IsDirectoryEntry(entry);
      position := 0;
      size := SizeOf(entry);
      firstCluster := FirstClusterOf(entry);
      currentCluster := firstCluster;
      currentSectorInCluster := 0;
    }

    ghost function Source(): Origin
      reads this
    {
      if handle == ROOT_DIRECTORY_HANDLE then Root(firstSector) else Chain(firstCluster)
    }

    function View(): Cursor
      reads this
    {
      Cursor(position, size, isDirectory)
    }

    ghost function Place(): Node
      reads this
    {
      Node(Source(), View())
    }

    ghost function Sectors(v: Volume): Stream
      reads this
    {
      StreamOf(v, Source())
    }

    /** CurrentCluster and CurrentSectorInCluster are those of sector `q`. */
    ghost predicate AtSector(v: Volume, q: nat)
      reads this
    {
      && currentCluster == ClusterFor(v, Source(), q)
      && currentSectorInCluster == SectorInClusterFor(v, Source(), q)
    }

    /**
     The cached state is the one `position` calls for: every field and the buffer
     are functions of the volume, the origin and the cursor.
     */
    ghost predicate Coherent(v: Volume)
      reads this, buffer
    {
      var q := SectorOf(position);
      && buffer.Length == 512
      && Sound(Sectors(v), View())
      && AtSector(v, q)
      && buffer[..] == Sectors(v).sector(if Reachable(Sectors(v), q) then q else q - 1)
    }
  }

  lemma CoherentSound(fd: FileData, v: Volume)
    requires fd.Coherent(v)
    ensures fd.buffer.Length == 512 && Sound(fd.Sectors(v), fd.View())
  {
  }

  lemma CoherentPlaced(fd: FileData, v: Volume)
    requires fd.Coherent(v)
    ensures fd.buffer.Length == 512 && (Unlimited(fd.View()) || fd.position <= fd.size)
  {
  }

  lemma CoherentLoaded(fd: FileData, v: Volume)
    requires fd.Coherent(v)
    requires Reachable(fd.Sectors(v), SectorOf(fd.position))
    ensures fd.buffer.Length == 512
    ensures fd.AtSector(v, SectorOf(fd.position))
    ensures fd.buffer[..] == fd.Sectors(v).sector(SectorOf(fd.position))
  {
  }

  /** A handle standing at the sector its position names, with that sector loaded, is coherent. */
  lemma StandsCoherent(fd: FileData, v: Volume)
    requires fd.buffer.Length == 512
    requires Unlimited(fd.View()) || fd.position <= fd.size
    requires fd.AtSector(v, SectorOf(fd.position))
    requires Reachable(fd.Sectors(v), SectorOf(fd.position))
    requires fd.buffer[..] == fd.Sectors(v).sector(SectorOf(fd.position))
    ensures fd.Coherent(v)
  {
  }

  /** A handle that could not get the next sector is coherent just when the chain is over. */
  lemma StopsCoherent(fd: FileData, v: Volume)
    requires fd.buffer.Length == 512
    requires SectorOf(fd.position) > 0
    requires fd.AtSector(v, SectorOf(fd.position))
    requires !Reachable(fd.Sectors(v), SectorOf(fd.position))
    requires fd.buffer[..] == fd.Sectors(v).sector(SectorOf(fd.position) - 1)
    ensures fd.Coherent(v) <==> Sound(fd.Sectors(v), fd.View())
  {
  }

  class FatDriver {
    const volume: Volume
    const rootDirectory: FileData
    const openedFiles: seq<FileData>

    constructor (volume: Volume, rootDirectory: FileData, openedFiles: seq<FileData>)
      ensures this.volume == volume
      ensures this.rootDirectory == rootDirectory && this.openedFiles == openedFiles
    {
      this.volume := volume;
      this.rootDirectory := rootDirectory;
      this.openedFiles := openedFiles;
    }

    /** The handles are distinct objects with distinct buffers. */
    ghost predicate Shape() {
      && |openedFiles| == MAX_FILE_HANDLES
      && rootDirectory.buffer.Length == 512
      && rootDirectory !in openedFiles
      && (forall i :: 0 <= i < |openedFiles| ==>
            && openedFiles[i].buffer.Length == 512
            && openedFiles[i].buffer != rootDirectory.buffer)
      && (forall i, j :: 0 <= i < j < |openedFiles| ==>
            && openedFiles[i] != openedFiles[j]
            && openedFiles[i].buffer != openedFiles[j].buffer)
    }

    /** Every open handle knows its slot, and the root its place. */
    ghost predicate Valid()
      reads rootDirectory, openedFiles
    {
      && Shape()
      && rootDirectory.handle == ROOT_DIRECTORY_HANDLE
      && rootDirectory.firstCluster == volume.rootLba
      && (forall i :: 0 <= i < |openedFiles| && openedFiles[i].isOpen ==> openedFiles[i].handle == i)
    }

    /** The handles in use. */
    function OpenSet(): set<FileData>
      reads openedFiles
    {
      set f | f in openedFiles && f.isOpen
    }

    function Buffers(): set<array<byte>> {
      set f | f in openedFiles :: f.buffer
    }

    /** `file` is the handle its Handle field names. */
    predicate Owns(file: FileData)
      reads file
    {
      || (file == rootDirectory && file.handle == ROOT_DIRECTORY_HANDLE)
      || (0 <= file.handle < |openedFiles| && file == openedFiles[file.handle])
    }

    /** One sector from the drive; on a failure the buffer is left as it was. */
    method ReadSector(lba: nat, buffer: array<byte>) returns (status: nat)
      requires buffer.Length == 512
      modifies buffer
      ensures status == 0 <==> !volume.bad(lba)
      ensures buffer[..] == if status == 0 then volume.sectorAt(lba) else old(buffer[..])
    {
      if volume.bad(lba) {
        return 1;
      }
      var data := volume.sectorAt(lba);
      forall i | 0 <= i < 512 {
        buffer[i] := data[i];
      }
      status := 0;
      assert buffer[..] == data;
    }

    /** On to the next sector of the cluster, or to the first of the next cluster. */
    method StepAlongChain(fd: FileData)
      requires fd.handle != ROOT_DIRECTORY_HANDLE
      requires fd.position > 0 && OffsetIn(fd.position) == 0
      requires fd.AtSector(volume, SectorOf(fd.position) - 1)
      modifies fd`currentCluster, fd`currentSectorInCluster
      ensures fd.AtSector(volume, SectorOf(fd.position))
    {
      DivStep(SectorOf(fd.position) - 1, volume.sectorsPerCluster);
      fd.currentSectorInCluster := fd.currentSectorInCluster + 1;
      if fd.currentSectorInCluster >= volume.sectorsPerCluster {
        fd.currentSectorInCluster := 0;
        fd.currentCluster := NextCluster(volume, fd.currentCluster);
      }
    }

    /** The root directory's sectors lie one after the other. */
    method LoadNextOfRoot(fd: FileData) returns (more: bool)
      requires fd.handle == ROOT_DIRECTORY_HANDLE && fd.buffer.Length == 512
      requires fd.position > 0 && OffsetIn(fd.position) == 0
      requires fd.AtSector(volume, SectorOf(fd.position) - 1)
      modifies fd`currentCluster, fd.buffer
      ensures fd.AtSector(volume, SectorOf(fd.position))
      ensures Loaded(fd.Source(), SectorOf(fd.position), more, old(fd.buffer[..]), fd.buffer[..])
    {
      WrapStep(volume.rootLba + SectorOf(fd.position) - 1);
      fd.currentCluster := Wrap32(fd.currentCluster + 1);
      var status := ReadSector(fd.currentCluster, fd.buffer);
      more := status == 0;
    }

    /** A chain's sectors lie where the table says, until it says there are no more. */
    method LoadNextOfChain(fd: FileData) returns (more: bool)
      requires fd.handle != ROOT_DIRECTORY_HANDLE && fd.buffer.Length == 512
      requires fd.position > 0 && OffsetIn(fd.position) == 0
      requires fd.AtSector(volume, SectorOf(fd.position) - 1)
      modifies fd`currentCluster, fd`currentSectorInCluster, fd`size, fd.buffer
      ensures fd.AtSector(volume, SectorOf(fd.position))
      ensures fd.size == if ChainEndsAt(volume, fd.Source(), SectorOf(fd.position)) then fd.position else old(fd.size)
      ensures Loaded(fd.Source(), SectorOf(fd.position), more, old(fd.buffer[..]), fd.buffer[..])
    {
      StepAlongChain(fd);
      if fd.currentCluster >= END_OF_CHAIN {
        fd.size := fd.position;
        return false;
      }
      var status := ReadSector(Wrap32(ClusterToLba(volume, fd.currentCluster) + fd.currentSectorInCluster), fd.buffer);
      more := status == 0;
    }

    /** What loading sector `q` makes of the buffer, and whether there is such a sector to be had. */
    predicate Loaded(o: Origin, q: nat, more: bool, before: seq<byte>, after: seq<byte>) {
      && (more <==> !ChainEndsAt(volume, o, q) && !volume.bad(LbaFor(volume, o, q)))
      && after == if more then volume.sectorAt(LbaFor(volume, o, q)) else before
    }

    /** At the end of a sector: on to the next sector of the stream, if there is one to be had. */
    method LoadNext(fd: FileData, ghost s: Stream) returns (more: bool)
      requires s == fd.Sectors(volume) && fd.buffer.Length == 512
      requires fd.position > 0 && OffsetIn(fd.position) == 0
      requires fd.AtSector(volume, SectorOf(fd.position) - 1)
      modifies fd`currentCluster, fd`currentSectorInCluster, fd`size, fd.buffer
      ensures var q := SectorOf(fd.position);
              && fd.AtSector(volume, q)
              && fd.size == (if s.ends(q) then fd.position else old(fd.size))
              && (more <==> !s.ends(q) && !s.bad(q))
              && fd.buffer[..] == if more then s.sector(q) else old(fd.buffer[..])
    {
      hide FileData.AtSector, LbaFor, ClusterFor, SectorInClusterFor;
      if fd.handle == ROOT_DIRECTORY_HANDLE {
        more := LoadNextOfRoot(fd);
      } else {
        more := LoadNextOfChain(fd);
      }
    }

    /**
     One pass of the read loop: copies what the loaded sector still has of the
     `left` bytes and, when that was all of it, moves on to the next sector.
     */
    method ReadPiece(fd: FileData, left: nat, dataOut: array<byte>, at: nat) returns (take: nat, more: bool)
      requires Owns(fd) && fd.Coherent(volume)
      requires Reachable(fd.Sectors(volume), SectorOf(fd.position))
      requires 0 < left < TWO31
      requires at + left <= dataOut.Length && dataOut != fd.buffer
      modifies fd`position, fd`currentCluster, fd`currentSectorInCluster, fd`size, fd.buffer, dataOut
      ensures fd.Source() == old(fd.Source()) && fd.Sectors(volume) == old(fd.Sectors(volume))
      ensures var s, c := old(fd.Sectors(volume)), old(fd.View());
              var p := c.position + take;
              && take == Min(left, 512 - OffsetIn(c.position))
              && dataOut[..] == old(dataOut[..])[..at] + Content(s, c.position, take) + old(dataOut[..])[at + take..]
              && fd.View() == Land(s, c, take) && fd.position == p
              && (more <==> GoesOn(s, p))
              && fd.AtSector(volume, SectorOf(p))
              && fd.buffer[..] == s.sector(if more then SectorOf(p) else SectorOf(c.position))
    {
      hide FileData.Coherent, ClusterFor, SectorInClusterFor, LbaFor, Reachable, Content, SectorOf, OffsetIn;
      ghost var s := fd.Sectors(volume);
      CoherentLoaded(fd, volume);
      var leftInBuffer := 512 - OffsetIn(fd.position);
      take := CopyPiece(fd, left, dataOut, at, s);
      more := true;
      if leftInBuffer == take {
        more := LoadNext(fd, s);
      }
    }

    /** Copies what is left of the loaded sector, or of the request, and moves the position behind it. */
    method CopyPiece(fd: FileData, left: nat, dataOut: array<byte>, at: nat, ghost s: Stream) returns (take: nat)
      requires fd.buffer.Length == 512 && fd.buffer[..] == s.sector(SectorOf(fd.position))
      requires 0 < left < TWO31
      requires at + left <= dataOut.Length && dataOut != fd.buffer
      modifies fd`position, dataOut
      ensures take == Min(left, 512 - OffsetIn(old(fd.position))) && fd.position == old(fd.position) + take
      ensures dataOut[..] == old(dataOut[..])[..at] + Content(s, old(fd.position), take) + old(dataOut[..])[at + take..]
      ensures var p, p' := old(fd.position), fd.position;
              if take == 512 - OffsetIn(p) then SectorOf(p') == SectorOf(p) + 1 && OffsetIn(p') == 0
              else SectorOf(p') == SectorOf(p) && OffsetIn(p') != 0
    {
      hide Content;
      var leftInBuffer := 512 - fd.position % 512;
      take := SignedMin(left, leftInBuffer);
      PieceIsContent(s, fd.position, take);
      Memcpy(dataOut, at, fd.buffer, fd.position % 512, take);
      PlaceBehind(fd.position, take);
      fd.position := fd.position + take;
    }

    lemma PlaceBehind(p: nat, take: nat)
      requires take <= 512 - OffsetIn(p)
      ensures if take == 512 - OffsetIn(p) then SectorOf(p + take) == SectorOf(p) + 1 && OffsetIn(p + take) == 0
              else SectorOf(p + take) == SectorOf(p) && OffsetIn(p + take) == OffsetIn(p) + take
    {
    }

    /** In the read loop: `done` of the `n` bytes are out, `left` are still to come. */
    ghost predicate Reading(fd: FileData, s: Stream, c: Cursor, n: nat, done: nat, left: nat,
                            dataOut: array<byte>, was: seq<byte>)
      reads fd, fd.buffer, dataOut
    {
      && fd.Sectors(volume) == s && fd.Coherent(volume)
      && done <= n && fd.View() == c.(position := c.position + done)
      && (Unlimited(fd.View()) || fd.position <= fd.size)
      && left == Limit(fd.View(), n - done)
      && Continues(s, c, n, fd.View(), done)
      && n <= dataOut.Length == |was|
      && dataOut[..] == Content(s, c.position, done) + was[done..]
    }

    /** The read of `n` bytes from `c` is over and has delivered `done`. */
    ghost predicate ReadDone(fd: FileData, s: Stream, c: Cursor, n: nat, done: nat,
                             dataOut: array<byte>, was: seq<byte>)
      requires Unlimited(c) || c.position <= c.size
      requires done <= |was|
      reads fd, fd.buffer, dataOut
    {
      && done == Delivered(s, c, n)
      && dataOut[..] == Content(s, c.position, done) + was[done..]
      && fd.View() == After(s, c, n)
      && (fd.Coherent(volume) <==> !ReadFails(s, c, n))
    }

    /** The body of the read loop: one piece, after which the loop goes on or breaks. */
    method ReadPass(fd: FileData, ghost s: Stream, ghost c: Cursor, ghost n: nat, done: nat, left: nat,
                    dataOut: array<byte>, ghost was: seq<byte>) returns (take: nat, more: bool)
      requires Owns(fd) && dataOut != fd.buffer
      requires Unlimited(c) || c.position <= c.size
      requires 0 < left < TWO31
      requires Reading(fd, s, c, n, done, left, dataOut, was)
      modifies fd`position, fd`currentCluster, fd`currentSectorInCluster, fd`size, fd.buffer, dataOut
      ensures fd.Source() == old(fd.Source())
      ensures 0 < take <= left && done + take <= n
      ensures if more then Reading(fd, s, c, n, done + take, left - take, dataOut, was)
              else done + take <= |was| && ReadDone(fd, s, c, n, done + take, dataOut, was)
    {
      hide Continues, Delivered, After, ReadFails, Land, Sound, Reachable, Content;
      hide FileData.Coherent, FileData.Source, FileData.Sectors, FileData.AtSector;
      ghost var c1, before := fd.View(), dataOut[..];
      CoherentSound(fd, volume);
      EndedHasNoLimit(s, c1, n - done);
      take, more := ReadPiece(fd, left, dataOut, done);
      PieceAppends(s, c.position, done, take, was, before, dataOut[..]);
      if more {
        ContinuesFurther(s, c, n, c1, done, take);
        StandsCoherent(fd, volume);
      } else {
        ContinuesToLast(s, c, n, c1, done, take);
        StopsCoherent(fd, volume);
      }
    }

    /** The request cut down to what the size leaves, if there is a size. */
    method Clamp(fd: FileData, byteCount: nat) returns (left: nat)
      requires byteCount < TWO31 && fd.size < TWO31
      requires Unlimited(fd.View()) || fd.position <= fd.size
      ensures left == Limit(fd.View(), byteCount) <= byteCount
    {
      left := byteCount;
      if !fd.isDirectory || fd.size != 0 {
        left := SignedMin(byteCount, Wrap32(fd.size - fd.position));
      }
    }

    /**
     Reads up to `byteCount` bytes at the handle's position into `dataOut`.  The
     bytes are those of the stream, the count is exact, and the handle is left
     coherent unless the drive failed on a sector the read moved to.
     */
    method Read(file: FileData, byteCount: nat, dataOut: array<byte>) returns (read: nat)
      requires Owns(file) && file.Coherent(volume)
      requires byteCount < TWO31 && file.size < TWO31
      requires file.position + byteCount < TWO32
      requires byteCount <= dataOut.Length && dataOut != file.buffer
      modifies file`position, file`currentCluster, file`currentSectorInCluster, file`size, file.buffer, dataOut
      ensures read <= byteCount
      ensures ReadDone(file, old(file.Sectors(volume)), old(file.View()), byteCount, read, dataOut, old(dataOut[..]))
    {
      hide Continues, Delivered, After, ReadFails, Content, FileData.Coherent, FileData.Source, FileData.Sectors;
      hide Limit, Sound, Ended, FatDriver.Reading, FatDriver.ReadDone;
      var fd := if file.handle == ROOT_DIRECTORY_HANDLE then rootDirectory else openedFiles[file.handle];
      ghost var s, c, was := fd.Sectors(volume), fd.View(), dataOut[..];
      CoherentPlaced(fd, volume);
      var left := Clamp(fd, byteCount);
      read := 0;
      StartReading(fd, s, c, byteCount, left, dataOut);
      while left > 0
        invariant read + left <= byteCount
        invariant Reading(fd, s, c, byteCount, read, left, dataOut, was)
      {
        var take, more := ReadPass(fd, s, c, byteCount, read, left, dataOut, was);
        read, left := read + take, left - take;
        if !more {
          return;
        }
      }
      FinishReading(fd, s, c, byteCount, read, dataOut, was);
    }

    lemma FinishReading(fd: FileData, s: Stream, c: Cursor, n: nat, done: nat, dataOut: array<byte>, was: seq<byte>)
      requires (Unlimited(c) || c.position <= c.size) && done <= |was|
      requires Reading(fd, s, c, n, done, 0, dataOut, was)
      ensures ReadDone(fd, s, c, n, done, dataOut, was)
    {
      hide Continues, Delivered, After, ReadFails, Content, FileData.Coherent;
      ContinuesToEnd(s, c, n, fd.View(), done);
    }

    lemma StartReading(fd: FileData, s: Stream, c: Cursor, n: nat, left: nat, dataOut: array<byte>)
      requires fd.Coherent(volume) && s == fd.Sectors(volume) && c == fd.View()
      requires Unlimited(c) || c.position <= c.size
      requires left == Limit(c, n) && n <= dataOut.Length
      ensures Reading(fd, s, c, n, 0, left, dataOut, dataOut[..])
    {
      StartContinues(s, c, n);
    }

    // -------------------------------------------------------------- directories

    /** One directory entry from the handle's position; false when there is no whole one left. */
    method ReadEntry(file: FileData, entry: array<byte>) returns (ok: bool)
      requires Owns(file) && file.Coherent(volume)
      requires file.size < TWO31 && file.position + 32 < TWO32
      requires entry.Length == 32 && entry != file.buffer
      modifies file`position, file`currentCluster, file`currentSectorInCluster, file`size, file.buffer, entry
      ensures var s, c := old(file.Sectors(volume)), old(file.View());
              && (ok <==> Delivered(s, c, 32) == 32)
              && (ok ==> entry[..] == Content(s, c.position, 32))
              && file.View() == After(s, c, 32)
              && (file.Coherent(volume) <==> !ReadFails(s, c, 32))
    {
      CoherentSound(file, volume);
      var read := Read(file, 32, entry);
      ok := read == 32;
    }

    /** In the search loop: `asked` entries have been read whole, all counted from cursor `c`. */
    ghost predicate Searching(file: FileData, s: Stream, c: Cursor, asked: nat)
      reads file, file.buffer
    {
      && file.Coherent(volume) && file.Sectors(volume) == s
      && Sound(s, c)
      && Delivered(s, c, 32 * asked) == 32 * asked
      && file.View() == After(s, c, 32 * asked)
    }

    /** The loop condition of the search: read the next entry, if there is one. */
    method NextEntry(file: FileData, entry: array<byte>, ghost s: Stream, ghost c: Cursor, ghost asked: nat)
      returns (ok: bool)
      requires Owns(file) && Searching(file, s, c, asked)
      requires c.size < TWO31 && c.position + 32 * asked < TWO31
      requires !ReadFails(s, c, 32 * asked + 32)
      requires entry.Length == 32 && entry != file.buffer
      modifies file`position, file`currentCluster, file`currentSectorInCluster, file`size, file.buffer, entry
      ensures Unlimited(c) || c.position <= c.size
      ensures ok <==> Readable(s, c, asked)
      ensures file.Source() == old(file.Source()) && file.Coherent(volume)
      ensures file.View() == After(s, c, 32 * asked + 32)
      ensures ok ==> Searching(file, s, c, asked + 1) && entry[..] == EntryAt(s, c, asked)
    {
      hide Delivered, After, ReadFails, FileData.Coherent, Reachable, Content;
      if ReadFails(s, c, 32 * asked) {
        FailurePersists(s, c, 32 * asked, 32);
      }
      EntryStep(s, c, asked);
      SizeBound(s, c, 32 * asked);
      ok := ReadEntry(file, entry);
    }

    /**
     Searches a directory from the handle's position on.  `asked` counts the
     entries asked for, the last one included.
     */
    method FindFile(file: FileData, name: array<byte>) returns (r: Option<Entry>, ghost asked: nat)
      requires Owns(file) && file.Coherent(volume) && (Unlimited(file.View()) || file.position <= file.size)
      requires NUL in name[..]
      requires SearchEnds(file.Sectors(volume), file.View(), FatName(CString(name[..])))
      modifies file`position, file`currentCluster, file`currentSectorInCluster, file`size, file.buffer
      ensures file.Source() == old(file.Source()) && file.Coherent(volume)
      ensures var s, c, key := old(file.Sectors(volume)), old(file.View()), FatName(CString(old(name[..])));
              && r == Search(s, c, key)
              && asked > 0 && !ReadFails(s, c, 32 * asked) && file.View() == After(s, c, 32 * asked)
              && (forall j: nat :: j < asked - 1 ==> !Hit(s, c, key, j))
              && (if r.Some? then Hit(s, c, key, asked - 1) else !Readable(s, c, asked - 1))
    {
      hide Delivered, After, Search, FatName, CString, FileData.Coherent, FileData.Sectors, Sound, ReadFails, Hit;
      ghost var s, c, key := file.Sectors(volume), file.View(), FatName(CString(name[..]));
      ghost var last: nat :| StopsBy(s, c, key, last);
      StartSearching(file, s, c);
      var fatName := BuildFatName(name);
      var entry := new byte[32];
      asked := 0;
      while true
        invariant file.Source() == old(file.Source()) && Searching(file, s, c, asked)
        invariant fatName[..11] == key
        invariant asked <= last && forall j: nat :: j < asked ==> !Hit(s, c, key, j)
        decreases last - asked
      {
        NoFailureBefore(s, c, key, last, asked);
        var ok := NextEntry(file, entry, s, c, asked);
        asked := asked + 1;
        if !ok {
          NoneFound(s, c, key, asked - 1);
          return None, asked;
        }
        assert entry[..11] == EntryAt(s, c, asked - 1)[..11];
        HitIs(s, c, key, asked - 1);
        if fatName[..11] == entry[..11] {
          SearchIs(s, c, key, asked - 1);
          return Some(entry[..]), asked;
        }
      }
    }

    lemma HitIs(s: Stream, c: Cursor, key: seq<byte>, i: nat)
      requires (Unlimited(c) || c.position <= c.size) && Readable(s, c, i)
      ensures Hit(s, c, key, i) <==> EntryAt(s, c, i)[..11] == key
    {
    }

    lemma NoFailureBefore(s: Stream, c: Cursor, key: seq<byte>, last: nat, asked: nat)
      requires (Unlimited(c) || c.position <= c.size) && StopsBy(s, c, key, last) && asked <= last
      ensures !ReadFails(s, c, 32 * asked + 32)
    {
      if ReadFails(s, c, 32 * asked + 32) {
        FailurePersists(s, c, 32 * asked + 32, 32 * (last - asked));
      }
    }

    lemma StartSearching(file: FileData, s: Stream, c: Cursor)
      requires file.Coherent(volume) && s == file.Sectors(volume) && c == file.View()
      ensures Searching(file, s, c, 0)
    {
      assert Delivered(s, c, 0) == 0 && After(s, c, 0) == c;
    }

    /**
     Gives a handle back.  The root is only rewound: its buffer is not reloaded, so
     from now on the sector it stopped in passes for its first one.
     */
    method Close(file: FileData)
      requires Valid() && Owns(file)
      requires file == rootDirectory ==> file.currentSectorInCluster == 0
      modifies file`position, file`currentCluster, file`isOpen, file`firstSector
      ensures Valid()
      ensures file != rootDirectory ==> OpenSet() == old(OpenSet()) - {file}
      ensures file == rootDirectory ==>
                && OpenSet() == old(OpenSet())
                && file.Place() == Node(Root(old(file.buffer[..])), old(file.View()).(position := 0))
                && file.Coherent(volume)
    {
      if file.handle == ROOT_DIRECTORY_HANDLE {
        file.position := 0;
        file.currentCluster := rootDirectory.firstCluster;
        file.firstSector := file.buffer[..];
      } else {
        openedFiles[file.handle].isOpen := false;
      }
    }

    /** The first slot not in use, or -1. */
    method FreeSlot() returns (handle: int)
      requires Shape()
      ensures -1 <= handle < MAX_FILE_HANDLES
      ensures handle < 0 <==> OpenSet() == set f | f in openedFiles
      ensures handle >= 0 ==> !openedFiles[handle].isOpen && forall j :: 0 <= j < handle ==> openedFiles[j].isOpen
    {
      handle := -1;
      var i := 0;
      while i < MAX_FILE_HANDLES && handle < 0
        invariant 0 <= i <= MAX_FILE_HANDLES
        invariant -1 <= handle < i
        invariant handle < 0 ==> forall j :: 0 <= j < i ==> openedFiles[j].isOpen
        invariant handle >= 0 ==> !openedFiles[handle].isOpen && forall j :: 0 <= j < handle ==> openedFiles[j].isOpen
      {
        if !openedFiles[i].isOpen {
          handle := i;
        }
        i := i + 1;
      }
      if handle >= 0 {
        assert openedFiles[handle] in (set f | f in openedFiles) && openedFiles[handle] !in OpenSet();
      }
    }

    /** Opens an entry in the first free slot, with its first sector loaded. */
    method OpenEntry(entry: Entry) returns (r: FileData?)
      requires Valid()
      modifies openedFiles, Buffers()
      ensures Valid()
      ensures forall f :: f in old(OpenSet()) ==> unchanged(f) && unchanged(f.buffer)
      ensures r == null <==>
                || old(OpenSet()) == (set f | f in openedFiles)
                || volume.bad(ClusterToLba(volume, FirstClusterOf(entry)))
      ensures r == null ==> OpenSet() == old(OpenSet())
      ensures r != null ==>
                && r in openedFiles && Owns(r)
                && r !in old(OpenSet()) && OpenSet() == old(OpenSet()) + {r}
                && r.Coherent(volume)
                && r.Place() == NodeOf(entry)
    {
      hide FileData.Coherent;
      var handle := FreeSlot();
      if handle < 0 {
        return null;
      }
      var fd := openedFiles[handle];
      fd.Assign(handle, entry);
      var status := ReadSector(ClusterToLba(volume, fd.currentCluster), fd.buffer);
      if status != 0 {
        return null;
      }
      fd.isOpen := true;
      r := fd;
      assert fd.AtSector(volume, 0) && LbaFor(volume, fd.Source(), 0) == ClusterToLba(volume, fd.currentCluster);
      StandsCoherent(fd, volume);
    }

    /** Copies a component into the name buffer and puts the NUL one place too far. */
    method CopyComponent(name: array<byte>, comp: seq<byte>)
      requires name.Length == MAX_PATH_SIZE && |comp| + 1 < MAX_PATH_SIZE
      requires NUL !in comp
      modifies name
      ensures NUL in name[..]
      ensures CString(name[..]) == comp || exists tail: byte :: CString(name[..]) == comp + [tail]
    {
      var i := 0;
      while i < |comp|
        invariant i <= |comp|
        invariant name[..i] == comp[..i]
      {
        name[i] := comp[i];
        i := i + 1;
      }
      name[|comp| + 1] := NUL;
      assert name[..|comp|] == comp;
      if name[|comp|] == NUL {
        IndexOfIs(name[..], NUL, |comp|);
      } else {
        IndexOfIs(name[..], NUL, |comp| + 1);
        assert CString(name[..]) == comp + [name[|comp|]];
      }
    }

    /** Looks a component up and gives the handle back; the root is left rewound. */
    method LookUp(current: FileData, name: array<byte>, comp: seq<byte>)
      returns (found: Option<Entry>, ghost key: seq<byte>)
      requires Valid() && Owns(current) && current.Coherent(volume) && Placed(current.Place())
      requires forall key :: KeyFor(comp, key) ==> SearchEnds(current.Sectors(volume), current.View(), key)
      requires name.Length == MAX_PATH_SIZE && name != current.buffer
      requires |comp| + 1 < MAX_PATH_SIZE && NUL !in comp
      modifies current`position, current`currentCluster, current`currentSectorInCluster, current`size
      modifies current`isOpen, current`firstSector, current.buffer, name
      ensures Valid() && KeyFor(comp, key)
      ensures found == Search(old(current.Sectors(volume)), old(current.View()), key)
      ensures OpenSet() == old(OpenSet()) - {current}
      ensures current == rootDirectory ==>
                current.Coherent(volume) && current.Place() == Rewound(volume, old(current.Place()), key)
    {
      hide FileData.Coherent, Search, FatName, CString, StopPosition, SearchEnds;
      ghost var s, c := current.Sectors(volume), current.View();
      CopyComponent(name, comp);
      key := FatName(CString(name[..]));
      CoherentSound(current, volume);
      var r, asked := FindFile(current, name);
      found := r;
      if current == rootDirectory {
        RootStopped(current, s, c, key, asked);
      }
      Close(current);
    }

    /** Where a search leaves the root, and which sector it leaves in its buffer. */
    lemma RootStopped(root: FileData, s: Stream, c: Cursor, key: seq<byte>, asked: nat)
      requires root.Coherent(volume) && root.handle == ROOT_DIRECTORY_HANDLE && s == root.Sectors(volume)
      requires Sound(s, c) && asked > 0 && !ReadFails(s, c, 32 * asked) && root.View() == After(s, c, 32 * asked)
      requires forall j: nat :: j < asked - 1 ==> !Hit(s, c, key, j)
      requires Hit(s, c, key, asked - 1) || !Readable(s, c, asked - 1)
      ensures root.buffer[..] == s.sector(SectorOf(StopPosition(s, c, key)))
      ensures root.currentSectorInCluster == 0
      ensures root.View().(position := 0) == c.(position := 0)
    {
      StoppedAt(s, c, key, asked);
    }

    /** One turn of the path walk: look the component up, give `current` back, open what was found. */
    method WalkStep(current: FileData, name: array<byte>, comp: seq<byte>, isLast: bool)
      returns (next: FileData?, ghost key: seq<byte>)
      requires Valid() && Owns(current) && current.Coherent(volume) && Placed(current.Place())
      requires current == rootDirectory || current in OpenSet()
      requires forall key :: KeyFor(comp, key) ==> SearchEnds(current.Sectors(volume), current.View(), key)
      requires exists f :: f in openedFiles && f !in OpenSet() - {current}
      requires name.Length == MAX_PATH_SIZE && name != rootDirectory.buffer && name !in Buffers()
      requires |comp| + 1 < MAX_PATH_SIZE && NUL !in comp
      modifies rootDirectory, rootDirectory.buffer, openedFiles, Buffers(), name
      ensures Valid() && KeyFor(comp, key)
      ensures forall f :: f in old(OpenSet()) - {current} ==> unchanged(f) && unchanged(f.buffer)
      ensures Step(volume, old(current.Place()), key, isLast) == if next == null then None else Some(next.Place())
      ensures next == null ==> OpenSet() == old(OpenSet()) - {current}
      ensures next != null ==>
                && next in openedFiles && Owns(next) && next.Coherent(volume)
                && next !in old(OpenSet()) - {current}
                && OpenSet() == old(OpenSet()) - {current} + {next}
      ensures current != rootDirectory ==> unchanged(rootDirectory) && unchanged(rootDirectory.buffer)
      ensures current == rootDirectory ==>
                && rootDirectory.Coherent(volume)
                && rootDirectory.Place() == Rewound(volume, old(current.Place()), key)
    {
      hide FileData.Coherent, Search, KeyFor, Rewound, SearchEnds;
      var found, key' := LookUp(current, name, comp);
      key := key';
      if found.None? || (!isLast && !IsDirectoryEntry(found.value)) {
        return null, key;
      }
      next := OpenEntry(found.value);
    }

    /**
     Opens the file or directory a path names.  At most one slot beyond those in use
     before is held on the way, so a single free slot is enough for any depth.  It is
     looked up in the root as the handle stands, which the walk leaves rewound.
     */
    method Open(path: seq<byte>) returns (r: FileData?)
      requires Valid() && rootDirectory.Coherent(volume) && Placed(rootDirectory.Place())
      requires WalkEnds(volume, rootDirectory.Place(), Relative(path))
      requires exists f :: f in openedFiles && !f.isOpen
      requires NUL !in path && ComponentsFit(Relative(path))
      modifies rootDirectory, rootDirectory.buffer, openedFiles, Buffers()
      ensures Valid() && rootDirectory.Coherent(volume)
      ensures forall f :: f in old(OpenSet()) ==> unchanged(f) && unchanged(f.buffer)
      ensures r == null || Relative(path) == [] ==> OpenSet() == old(OpenSet())
      ensures Relative(path) == [] ==> r == rootDirectory && unchanged(rootDirectory) && unchanged(rootDirectory.buffer)
      ensures r != null && Relative(path) != [] ==>
                && r in openedFiles && Owns(r) && r.Coherent(volume)
                && r !in old(OpenSet()) && OpenSet() == old(OpenSet()) + {r}
      ensures TailsIgnored(Relative(path)) ==>
                Resolve(volume, old(rootDirectory.Place()), Relative(path)) ==
                if r == null then None else Some(r.Place())
      ensures Outcome(volume, old(rootDirectory.Place()), Relative(path),
                      if r == null then None else Some(r.Place()), rootDirectory.Place())
    {
      hide FileData.Coherent, Step, KeyFor, Placed, Rewound, WalkEnds, LosesDirectory, SearchEnds, MayReach, MayStep;
      hide FatName, IgnoresTail, Component, IsLast, IndexOf, ComponentsFit, TailsIgnored, Resolve;
      var rest := if path != [] && path[0] == SLASH then path[1..] else path;
      ghost var start, whole, key0: seq<byte> := rootDirectory.Place(), Relative(path), [];
      var name := new byte[MAX_PATH_SIZE];
      var current: FileData := rootDirectory;
      while rest != []
        invariant Valid() && Owns(current) && current.Coherent(volume) && rootDirectory.Coherent(volume)
        invariant Placed(current.Place()) && WalkEnds(volume, current.Place(), rest)
        invariant NUL !in rest && ComponentsFit(rest)
        invariant forall f :: f in old(OpenSet()) ==> unchanged(f) && unchanged(f.buffer)
        invariant current == rootDirectory ==> rest == Relative(path) && OpenSet() == old(OpenSet())
        invariant current == rootDirectory ==> unchanged(rootDirectory) && unchanged(rootDirectory.buffer)
        invariant current != rootDirectory ==>
                    && current in openedFiles && current !in old(OpenSet())
                    && OpenSet() == old(OpenSet()) + {current} && whole != []
                    && KeyFor(Component(whole), key0) && rootDirectory.Place() == Rewound(volume, start, key0)
                    && forall r :: MayReach(volume, current.Place(), rest, r) ==> MayStep(volume, start, whole, key0, r)
        decreases |rest|
      {
        ghost var n, path0 := current.Place(), rest;
        SplitPath(rest);
        assert OpenSet() - {current} == old(OpenSet());
        var comp, isLast := Component(rest), IsLast(rest);
        SearchesEnd(volume, n, rest);
        rest := Rest(rest);
        var next, key := WalkStep(current, name, comp, isLast);
        WalkStepEnds(volume, n, path0, key);
        if current == rootDirectory {
          key0 := key;
        }
        if next == null {
          MayStop(volume, n, path0, key);
          Conclude(start, whole, None, rootDirectory.Place());
          return null;
        }
        MayGoOn(volume, n, path0, key);
        current := next;
      }
      MayEnd(volume, current.Place());
      Conclude(start, whole, Some(current.Place()), rootDirectory.Place());
      r := current;
    }

    lemma Conclude(start: Node, path: seq<byte>, r: Option<Node>, root: Node)
      requires Placed(start) && Outcome(volume, start, path, r, root)
      ensures TailsIgnored(path) ==> r == Resolve(volume, start, path)
    {
      if TailsIgnored(path) {
        OutcomeIsResolve(volume, start, path, r, root);
      }
    }

    lemma SearchesEnd(v: Volume, n: Node, path: seq<byte>)
      requires Placed(n) && path != [] && WalkEnds(v, n, path)
      ensures forall key :: KeyFor(Component(path), key) ==> SearchEnds(StreamOf(v, n.origin), n.cursor, key)
    {
    }
  }

  lemma FreeSlotLeft(driver: FatDriver)
    requires driver.Valid() && driver.OpenSet() == {}
    ensures exists f :: f in driver.openedFiles && !f.isOpen
  {
    assert driver.openedFiles[0] !in driver.OpenSet();
  }
}
