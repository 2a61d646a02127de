# Netclover: a verified model of its boot file reader, printing, console and paging

Netclover is a small 64-bit operating system. Four of its parts carry algorithms
whose correctness is not visible from any one function, and this project models
those four and proves what they are for.

* **The FAT12 reader.** A handle caches one sector, a position, a cluster and a
  sector number within the cluster, and streams a file through them. `SectorStream`
  and `FatVolume` define the byte sequence a directory entry names, position by
  position, from the volume alone: no cursor, no buffer, no loop, and no assumption
  that the cluster chain ends. `FatDriver` is the driver itself, with its eleven
  handles, its buffers and its loops, and every method is proved against that byte
  sequence. `FatCursor` shows that a reader cannot tell how a caller cuts its
  requests into calls. `FatSearch`, `FatNames` and `FatPath` say which entry a
  directory search must find and which file a path names; `FatChains`, `FatFiles`
  and `FatLayout` go from packed 12-bit table entries to whole files and back;
  `FatAreas` says which sector belongs to which copy of the table, to the root and to
  the data, and `FatPathText` what a path means as a text of names and slashes.
  `FatMount` and `KernelLoader` are mounting and the boot loader's load, and
  `KernelBoot` puts them together, from a disk with a kernel on it to the kernel in
  memory. `FatStaleRoot` is a disk on which the rewound root directory is fatal.
* **Printing.** `LongDivision` and `Numerals` are the 64-bit shift-subtract division
  and the digit loops. `Printf` holds both formatters, a state machine over single
  characters and a scanner that looks ahead, each proved against the directives of
  the format (`Formats`) over C's variable arguments on both targets (`VarArgs`).
  `FormatAgreement` says exactly when the two do the same, and `FormatMeaning` what the
  conversions print: characters that read back, in the specifier's base, to the bits of
  the argument that was passed.
* **The console.** `Console` is the text page with its in-place scrolling; `Tape` is
  an endless row of cells with a pen, without wrapping and without scrolling. The
  screen is always a window on the tape, and `Typing` says where the characters of a
  text stand on both.
* **Paging.** `Paging` is the processor's four-level walk (section 4.5 of volume 3A
  of the Intel SDM) over the tables `initPaging` builds and over those the kernel is
  started with. The walk itself is pinned down for pages of 4 KiB, 2 MiB and 1 GiB
  (`SmallPageWalk`, `LargePageWalk`, `HugePageWalk`).

`Geometry` is disk addressing, from sector numbers to the registers of INT 13h and
back, and `LoadingBar` the bar drawn while a file is read.

No theorem about the driver asks for a drive without unreadable sectors, or for a
volume that is sound beyond what is read: a search, a walk or a load is only asked to
come to an end and to meet no unreadable sector itself (`FatSearch.SearchEnds`,
`FatPath.WalkEnds`, `KernelLoader.Loadable`). `FatWalks` derives this from facts about
the volume, for paths of any depth: searches of the root end by its size, searches of
a subdirectory by its chain, and a walk ends when the directories it goes through lie
on chains that end and can be read.

## Where the code falls short, and exactly when

Several properties one would expect do not hold everywhere. The code is modelled as
it is, and the exact boundary is proved.

* `FAT_Close` rewinds the root directory without reloading its buffer, so the sector
  the last search stopped in passes for the root's first one from then on. The model
  says so outright: what the root takes for its first sector is part of what the
  handle stands for, every `FAT_Open` is proved for the root as it is at that moment,
  and `FatPath.Rewound` is the root it leaves, after a hit as after a miss.
  `FatPath.RewindHarmlessIff` gives the exact condition for one lookup in terms of what
  the directory holds: the entry found is among the first 15, or the sector that holds
  what follows it equals the first sector, and for a name that is not there the sector
  at the root's size does. `FatPath.NeverStaleIff` extends it to every run of opens, and
  `FatPath.EarlyEntriesNeverStale` and `FatPath.SmallRootNeverStale` are two cases
  in which nothing goes wrong. `FatStaleRoot.MountAndOpenBoth` is a mountable disk with
  two files of which the first can no longer be opened once the second was.
* When a directory on the path is found but its first sector cannot be read,
  `FAT_Open` goes on with a NULL handle (`FatPath.LosesDirectory`), unless nothing
  follows it in the path.
* `FAT_Open` puts the NUL behind a path component one place too far and leaves a
  byte unset. Which components do not care is decided by `FatNames.IgnoresTail`, and
  `FatNames.TailIndependence` proves both directions.
* The name search marks "no dot" by the address of offset 11, so a first dot at
  offset 11 is taken for no dot (`FatNames.HasExtension`).
* Reads that run into an unreadable sector still deliver the right bytes up to it,
  but leave a handle whose buffer is stale: `FatCursor.ReadKeepsSound`.
* `min` is signed while its callers pass unsigned values: `Machine.SignedMinIsMin`.
* The loading bar, which is drawn for chains only and not for the root directory,
  divides by zero when the bytes a call shares end less than one sector behind the
  first sector start they reach, and that sector exists and can be read:
  `LoadingBar.BarFailsIff`, in terms of origin, position, request and chain. A search
  that passes from the first to the second sector of a subdirectory does so
  (`LoadingBar.SearchBarFailsIff`), and so does the load of a kernel whose size is,
  modulo 64 KiB, at least 512 and less than 1024, if its chain goes on behind that one
  sector (`LoadingBar.KernelBarFailsIff`, `KernelBoot.BootFaultsIff`). The reader, and
  with it `KernelBoot.Boot`, is modelled without the bar, as if the division yielded
  any column.
* `vprintf` drops `c`, `s` and `%` behind a length modifier, prints a lone final `%`
  and steps over the terminating NUL when a modifier ends the string:
  `FormatAgreement.AgreeIff`.
* A backspace in the first cell writes outside the screen, and only that one:
  `Console.BackspaceInView`.
* A tab writes 2, 2, 1 or 3 blanks from columns 0, 1, 2, 3 modulo 4; it does not
  stop at a multiple of four, from no column at all (`Tape.TabMissesStops`).
* The walk finds a table only at a 4096-byte boundary (`Paging.AlignmentNeeded`).
  `pml4` and `pageDirTab` are declared with 32-byte alignment (`pager.c:5`, `pager.c:7`;
  the two directories have 4096), and so is the root the kernel is started with
  (`prekernel.asm:53`), which its two directory pointer tables follow.
* The BIOS reads the sector meant only below cylinder 1024: `Geometry.RightSectorIff`.

The FAT specification ends a directory at an entry whose first byte is 0; the search
does not, it looks at every entry the directory's bytes hold. The model follows the
code.

## Model

| member | source | states |
|---|---|---|
| FatDriver.FatDriver.Read | src/boot/stage2/libs/fat.c:246-305 | From any coherent handle a read delivers exactly the bytes of the stream at its position, as many as request, size and reachable sectors allow, leaves the rest of the caller's memory alone, and leaves the handle coherent if and only if the drive did not fail |
| FatDriver.FatDriver.ReadPass | src/boot/stage2/libs/fat.c:259-302 | One pass of the read loop keeps what the loop lives on, or ends the read with its final state |
| FatDriver.FatDriver.LoadNextOfChain | src/boot/stage2/libs/fat.c:275-300 | At a sector's end the handle moves to the next sector of the cluster or the next cluster, and recognises the end of the chain, where the size becomes the position |
| FatDriver.FatDriver.LoadNextOfRoot | src/boot/stage2/libs/fat.c:269-274 | The root directory moves to the next sector number |
| FatCursor.ReadsCompose | src/boot/stage2/libs/fat.c:254-304 | Two consecutive reads of a and b bytes give the same bytes and the same cursor as one read of a+b, for every stream, ending or not |
| FatCursor.CursorsCompose | src/boot/stage2/libs/fat.c:254-304 | The counts and cursors of consecutive reads add up |
| FatCursor.ReadKeepsSound | src/boot/stage2/libs/fat.c:268-300 | A read leaves a usable cursor exactly when it did not run into an unreadable sector |
| FatCursor.FailuresCompose | src/boot/stage2/libs/fat.c:268-300 | Behind a read without a disk error the rest of a request fails exactly when the whole does |
| FatCursor.FailurePersists | src/boot/stage2/libs/fat.c:268-300 | A read that fails makes every longer one fail at the same place |
| FatCursor.StopIsFinal | src/boot/stage2/libs/fat.c:281-285 | A read that meets the end of the chain fixes the size there and nothing is reachable beyond |
| SectorStream.AvailableStops | src/boot/stage2/libs/fat.c:259-302 | A short count ends on a sector boundary in front of a sector that cannot be had |
| SectorStream.AvailableIsMaximal | src/boot/stage2/libs/fat.c:259-302 | No reachable byte within the request is left out |
| FatFiles.DeliveredClosedForm | src/boot/stage2/libs/fat.c:254-305 | On a proper chain the count is the least of the request, size minus position and chain bytes minus position; a directory of size 0 has no size term |
| FatFiles.AfterClosedForm | src/boot/stage2/libs/fat.c:263-285 | A read leaves the handle behind what it delivered, with its size unchanged unless it delivered the last byte of the chain, which then is the size |
| FatFiles.StoredFileReadsBack | src/boot/stage2/libs/fat.c:246-318 | A file stored along a chain is read back, for every request |
| Machine.SignedMinIsMin | src/libc/netclover/minmax/min.c:3-5 | The signed minimum of two unsigned values is their minimum exactly when neither or both reach 2^31, or they are equal |
| FatChains.NextClusterDecodes | src/boot/stage2/libs/fat.c:311-318 | From a table packed two 12-bit entries to three bytes, the lookup returns entry c for every c of either parity |
| FatChains.ClusterAtIsChain | src/boot/stage2/libs/fat.c:276-285 | Following the table enumerates any chain of clusters 2 to 0xFF7 and then meets a mark of 0xFF8 or above |
| FatChains.EndMarkIs | src/boot/stage2/libs/fat.c:281 | The reader takes a chain to be over exactly at values of 0xFF8 and above |
| FatChains.ChainIsAcyclic | src/boot/stage2/libs/fat.c:276-285 | A chain that ends visits no cluster twice |
| FatChains.ChainReaches | src/boot/stage2/libs/fat.c:276-300 | The stream of a chain has exactly the chain's sectors |
| FatFiles.SectorLbaInjective | src/boot/stage2/libs/fat.c:129-131 | Without 32-bit overflow, cluster and sector determine the sector number one to one, inside the data area |
| FatFiles.DisjointChainsIndependent | src/boot/stage2/libs/fat.c:129-131 | A chain's bytes depend on the sectors of its own clusters only |
| FatFiles.WriteElsewhere | src/boot/stage2/libs/fat.c:129-131 | Overwriting a sector of a cluster outside the chain changes none of the chain's sectors |
| FatAreas.BootSectorReadsBack | src/boot/stage2/libs/fat.c:18-45 | A boot sector that holds these fields at these offsets, low byte first, is read as having them |
| FatAreas.CopiesFillTheArea | src/boot/stage2/libs/fat.c:103 | The sectors from the reserved ones up to the root are exactly the sectors of all copies of the table, copy after copy |
| FatAreas.CopiesDistinct | src/boot/stage2/libs/fat.c:103 | No sector belongs to two places of the copies |
| FatAreas.RootFillsItsArea | src/boot/stage2/libs/fat.c:103-121 | The sectors from the root up to the data are exactly those that hold a byte of the root's 32-byte entries |
| FatAreas.MountedPlaces | src/boot/stage2/libs/fat.c:103-131 | The mounted root is read from behind all the copies, and sector k of cluster c from behind the root, as the boot sector's fields give it |
| FatFiles.RootAreaHoldsRoot | src/boot/stage2/libs/fat.c:103-121 | Every byte of the root directory lies between the table copies and the data area |
| FatLayout.LayoutFits32 | src/boot/stage2/libs/fat.c:103-121 | The layout arithmetic of a well-formed boot sector does not overflow |
| FatMount.Initialize | src/boot/stage2/libs/fat.c:78-127 | Mounting succeeds exactly when signature, table size and the sectors it reads allow it, and then the root is open at its start as the disk has it, coherent, and none of the ten other handles is in use |
| FatMount.MountableIff | src/boot/stage2/libs/fat.c:80-118 | The same condition in numbers: byte 38 is 0x29, the table takes less than 59040 bytes, and boot sector, table and first root sector can be read |
| FatMount.MountLoadsTable | src/boot/stage2/libs/fat.c:90-101 | The table on the disk is the table the mounted volume follows |
| FatMount.DataWriteLeavesMetadata | src/boot/stage2/libs/fat.c:97-131 | Overwriting a cluster's sector changes neither the boot sector, nor any sector of any copy of the table, nor the table the driver follows, nor a byte of the root directory |
| FatDriver.FatDriver.ReadEntry | src/boot/stage2/libs/fat.c:307-309 | True exactly when a whole 32-byte entry was delivered, and then it is the one at the position |
| FatDriver.FatDriver.FindFile | src/boot/stage2/libs/fat.c:215-244 | The search returns the first remaining entry with the name's 11 bytes, or none exactly when there is none, and stops right behind it |
| FatSearch.SearchFindsIff | src/boot/stage2/libs/fat.c:237-243 | Something is found if and only if some entry that can be read whole matches |
| FatSearch.SearchIs | src/boot/stage2/libs/fat.c:237-243 | What is found is the first match |
| FatSearch.UnreadableBeyond | src/boot/stage2/libs/fat.c:237-243 | Behind an entry that cannot be read whole there is none that can |
| FatSearch.DeliveredWithin | src/boot/stage2/libs/fat.c:254-285 | No read delivers more than the size leaves, or than the sectors before the end of the chain hold |
| FatSearch.FiniteSearchEnds | src/boot/stage2/libs/fat.c:237-243 | Every search of a file with a size or with a chain that ends comes to an end, after as many entries as there is room for |
| FatSearch.StoppedAt | src/boot/stage2/libs/fat.c:237-243 | A search of the root stops right behind the entry found, or at the size when there is none |
| FatSearch.EntryReadsBack | src/boot/stage2/libs/fat.h:8-22 | Name, attributes, first cluster and size are read from where an entry holds them |
| FatPathText.StepDecoded | src/boot/stage2/libs/fat.c:147-157 | A lookup that finds an entry leads to the chain, size and kind its bytes 11, 20, 21 and 26 to 31 spell, or to nothing when it is no directory and must be one, or cannot be read |
| FatPathText.EntryBytesAt | src/boot/stage2/libs/fat.c:307-309 | Byte j of entry i is byte 32i + j from the position on, 512 bytes to a sector |
| FatNames.BuildFatName | src/boot/stage2/libs/fat.c:216-235 | The search key built in the 12-byte buffer is the canonical name of the C string in the name buffer |
| FatNames.KeyBytes | src/boot/stage2/libs/fat.c:219-235 | The 11 bytes of any name, one by one: eight from before the first dot, three from behind it, small letters as capitals, the rest spaces, a dot at offset 11 counting as none |
| FatNames.FatNameIgnoresCase | src/boot/stage2/libs/fat.c:227-235 | Names that differ at most in letters 97 to 122 against those 32 below have the same 11 bytes |
| FatNames.SameKeyIffSameName | src/boot/stage2/libs/fat.c:219-235 | Two valid 8.3 names have the same 11 bytes if and only if they are byte for byte equal up to that |
| FatNames.TailIndependence | src/boot/stage2/libs/fat.c:183-192 | The lookup is independent of the unset byte exactly for three-letter extensions and for names without a dot of eight or more characters |
| FatNames.TailIsSeen | src/boot/stage2/libs/fat.c:183-192 | Every other component has a byte that changes its 11 bytes |
| FatDriver.FatDriver.OpenEntry | src/boot/stage2/libs/fat.c:133-168 | Opens in a slot that was free, with the first sector loaded, changes no other open handle, and fails exactly when no slot is free or that sector is unreadable |
| FatDriver.FatDriver.FreeSlot | src/boot/stage2/libs/fat.c:134-140 | Finds the first free slot, or none when all are in use |
| FatDriver.FatDriver.Close | src/boot/stage2/libs/fat.c:320-327 | Frees exactly the slot, or rewinds the root, whose buffer now passes for its first sector |
| FatDriver.FatDriver.LookUp | src/boot/stage2/libs/fat.c:181-197 | One component is looked up under a key it allows and the handle given back; the root is left as the search's stop position says, found or not |
| FatDriver.FatDriver.WalkStep | src/boot/stage2/libs/fat.c:179-209 | One turn of the walk gives one handle back and takes at most one, leaving all others unchanged |
| FatDriver.FatDriver.Open | src/boot/stage2/libs/fat.c:170-213 | From any rewound root and with one free slot, a path of any depth opens exactly one more handle on success and none on failure, leaves the other open handles unchanged, comes to what the path names from that root (for components that see the unset byte: to what some value of it leads to), and leaves the root rewound after the lookup of the first component |
| FatPath.RewindAfterHit | src/boot/stage2/libs/fat.c:237-243 | After a lookup that finds entry i the rewound root is as before exactly when i is below 15 or sector (i+1)/16 of the directory equals sector 0 |
| FatPath.RewindAfterMiss | src/boot/stage2/libs/fat.c:237-243 | After a lookup that finds nothing it is exactly when the sector at the root's size equals sector 0 |
| FatPath.RewindHarmlessIff | src/boot/stage2/libs/fat.c:320-323 | A lookup and a rewind leave the root as it was exactly when the directory's contents make the lookup harmless |
| FatPath.NeverStaleIff | src/boot/stage2/libs/fat.c:320-323 | Over every run of opens the root is never stale exactly when each single lookup of the run is harmless |
| FatPath.EarlyEntriesNeverStale | src/boot/stage2/libs/fat.c:320-323 | Opening only files among the first 15 entries never leaves a root stale, whatever its size and in whatever order |
| FatPath.SmallRootNeverStale | src/boot/stage2/libs/fat.c:320-323 | In a root of fewer than 16 entries no lookup does harm, found or not |
| FatPath.MayReachIsResolve | src/boot/stage2/libs/fat.c:179-212 | If no component sees the unset byte, what the walk may come to is what the path names and nothing else |
| FatPathText.ResolveJoined | src/boot/stage2/libs/fat.c:173-212 | The join law: a path of names with slashes between them names what following the names one after the other leads to, every one but the last a directory |
| FatPathText.ResolveSplit | src/boot/stage2/libs/fat.c:182-193 | A name, a slash and a rest: the name is looked up as a directory and the rest in what it leads to |
| FatPathText.MayReachSplit | src/boot/stage2/libs/fat.c:182-193 | The same for the walk with a byte left unset behind each component |
| FatPathText.LeadingSlash | src/boot/stage2/libs/fat.c:173-175 | One leading slash makes no difference |
| FatPathText.NamesFit | src/boot/stage2/libs/fat.c:171-190 | A path of names can be walked exactly when none has more than 254 bytes |
| FatPathText.CStringEnds | src/boot/stage2/libs/fat.c:183-190 | The name in the buffer ends at its first zero byte |
| FatWalks.ChainNeverFails | src/boot/stage2/libs/fat.c:268-300 | No read of a chain whose own sectors can be read meets an unreadable sector |
| FatWalks.ChainSearchEnds | src/boot/stage2/libs/fat.c:237-243 | Every search of a directory on such a chain ends, for every name, found or not |
| FatWalks.RootSearchEnds | src/boot/stage2/libs/fat.c:237-243 | Every search of a root with a size ends when the sectors up to its end can be read |
| FatWalks.WalkEndsOnChains | src/boot/stage2/libs/fat.c:179-210 | A walk of any depth ends when the searches of its first directory do and the directories it goes through lie on chains |
| FatWalks.WalkFromRootEnds | src/boot/stage2/libs/fat.c:170-213 | The same from the root, as it is on the disk or rewound |
| FatStaleRoot.RewindLosesFile | src/boot/stage2/libs/fat.c:320-323 | On a concrete mountable disk both files resolve, and after the lookup of the second the first does not |
| FatStaleRoot.MountAndOpenBoth | src/boot/stage2/libs/fat.c:170-213 | The driver, mounted on that disk, opens the second file and then fails to open the first |
| FatPath.KeyIsSettled | src/boot/stage2/libs/fat.c:183-196 | For components that ignore the unset byte the search key is the canonical name |
| KernelLoader.LoadKernel | src/boot/stage2/main.c:54-57 | The 64 KiB loop ends and leaves all there is of the file at the start of the kernel's memory, for every length |
| KernelLoader.BootLoad | src/boot/stage2/main.c:50-59 | Opening, loading and closing the kernel leaves the file named by its path in memory, the same handles in use and the others unchanged |
| KernelLoader.ShortMeansAll | src/boot/stage2/main.c:54-57 | A read that comes back short has delivered everything that can be had |
| KernelLoader.ReadsAreSafe | src/boot/stage2/main.c:54-57 | If one read long enough meets no unreadable sector, no read of any length does |
| KernelLoader.StoredFileLoadable | src/boot/stage2/main.c:54-57 | A file on a chain whose own sectors can be read can be loaded, also when its size exceeds the chain |
| KernelLoader.AllOfAFile | src/boot/stage2/main.c:54-57 | What is loaded is the lesser of the file's size and its chain's bytes |
| KernelLoader.KernelArrives | src/boot/stage2/main.c:50-57 | A kernel stored along a chain is in memory whole |
| KernelBoot.KernelFound | src/boot/stage2/libs/fat.c:170-244 | On a disk with a kernel entry in its root the walk ends, at the chain and the size of that entry |
| KernelBoot.Boot | src/boot/stage2/main.c:39-59 | From a mountable disk with the kernel stored along a chain to exactly its bytes at the start of the kernel's memory, for any content of the rest of the disk; the loading bar is left out, so for the sizes named next it says what would be loaded without it |
| KernelBoot.BootFaultsIff | src/boot/stage2/main.c:54-57 | On such a disk the load divides by zero exactly for kernel sizes of at least 512 and less than 1024 modulo 64 KiB, 512 only when the chain goes on |
| KernelBoot.SampleBoots | src/boot/stage2/main.c:39-59 | A disk with two copies of its table and one file of one cluster, with any bytes in it, is such a disk |
| LoadingBar.DrawBar | src/boot/stage2/libs/fat.c:258-302 | The bar's part of the read loop draws the columns of the loads a read of a chain makes, and none for the root |
| LoadingBar.LoadsAreSectors | src/boot/stage2/libs/fat.c:275-300 | A read loads a sector exactly when it can be had and the request extends to its first byte |
| LoadingBar.BarFailsIff | src/boot/stage2/libs/fat.c:269-298 | A call divides by zero exactly when it reads a chain, its share ends less than a sector behind the first sector start it reaches, and that sector exists and can be read |
| LoadingBar.BarMoves | src/boot/stage2/libs/fat.c:287-298 | Otherwise the columns start at 0, stay within 0 to 79, never decrease, and reach 79 exactly in the last sector |
| LoadingBar.SearchBarFailsIff | src/boot/stage2/libs/fat.c:237-298 | A search of a subdirectory divides by zero exactly when it passes from its first sector to a second one |
| LoadingBar.KernelBarFailsIff | src/boot/stage2/main.c:54-57 | Loading a file of any size along any chain divides by zero in some call exactly for sizes of at least 512 and less than 1024 modulo 64 KiB whose chain goes on behind that one sector |
| Geometry.Lba2Chs | src/boot/stage2/libs/disk.c:51-60 | Head and sector are ones the drive has; with the whole cylinder the triple leads back to the sector number, and with the 16 bits returned it does exactly when the cylinder fits |
| Geometry.ChsInverse | src/boot/stage2/libs/disk.c:51-60 | The triple leads back to the sector number exactly when the cylinder fits 16 bits |
| Geometry.PackRegisters | src/boot/stage2/libs/x86.asm:95-104 | The register moves put cylinder, head and sector where INT 13h expects them |
| Geometry.PackedReadsBackIff | src/boot/stage2/libs/x86.asm:95-104 | Packing loses nothing exactly for cylinders below 1024, heads below 256 and sectors below 64 |
| Geometry.RightSectorIff | src/boot/stage2/libs/disk.c:51-86 | The BIOS is asked for the sector meant exactly when its cylinder is below 1024 |
| Geometry.BootLbaToChs | src/boot/boot.asm:214-237 | The boot sector's register arithmetic gives the registers of the C path for every 16-bit sector number |
| Geometry.DriveParameters | src/boot/stage2/libs/x86.asm:159-178 | Unpacks what INT 13h reports |
| Geometry.GeometryArrives | src/boot/stage2/libs/x86.asm:159-178 | A drive that reports its last cylinder, head and sector is described with its true counts |
| Geometry.ReadSectors | src/boot/stage2/libs/disk.c:62-86 | Succeeds exactly when one of three attempts is reached and succeeds |
| LongDivision.Udivdi3 | src/libc/stdio/printf.c:22-38 | The quotient, exact for every dividend and every positive divisor; all ones for 0 |
| LongDivision.Umoddi3 | src/libc/stdio/printf.c:40-54 | The remainder, exact for every dividend and every positive divisor; the dividend for 0 |
| LongDivision.NoBitLost | src/libc/stdio/printf.c:29-30 | The shift of the remainder loses no bit, because the remainder never exceeds the part of the dividend taken in |
| LongDivision.Pass | src/libc/stdio/printf.c:28-35 | One round turns the division of the upper bits into that of one bit more |
| Numerals.PrintfUnsigned | src/libc/stdio/printf.c:57-69 | Prints the numeral of a 64-bit number within the 32-character buffer |
| Numerals.CollectDigits | src/libc/stdio/printf.c:58-64 | The digit loop never leaves the buffer and collects the numeral backwards |
| Numerals.PrintfSigned | src/libc/stdio/printf.c:71-76 | Prints the numeral of the magnitude behind a minus sign for negative numbers |
| Numerals.NumeralReadsBack | src/libc/stdio/printf.c:57-69 | Reading the digits gives the number back, and there is no leading zero except for 0 |
| Numerals.SignedNumeralReadsBack | src/libc/stdio/printf.c:71-76 | A signed numeral is a minus sign exactly for negative numbers and then the digits of the magnitude |
| Numerals.ReadBackIsNumeral | src/libc/stdio/printf.c:57-69 | A digit string without a leading zero is the numeral of its value |
| Numerals.NumeralFits | src/libc/stdio/printf.c:58-64 | A number below 4^k has at most k digits in every radix used |
| VarArgs.PassedOn | src/libc/stdio/vprintf.c:12-28 | An argument fetched, passed on and fetched again is the same argument on both targets |
| Printf.Printf | src/libc/stdio/printf.c:78-196 | The state machine prints and consumes what the format's directives call for, in order |
| Printf.Convert | src/libc/stdio/printf.c:123-191 | The specifier switch fetches an argument of the length's type and prints it in the specifier's radix and sign |
| FormatMeaning.UnsignedReadsBack | src/libc/stdio/printf.c:137-182 | What u, o, x, X and p print under every length modifier reads back in base 10, 8, 16, 16 and 16 to the bits of the argument on both targets |
| FormatMeaning.SignedReadsBack | src/libc/stdio/printf.c:132-169 | What d and i print is a minus sign exactly for negative arguments and then the decimal digits of the magnitude |
| FormatMeaning.OthersPrint | src/libc/stdio/printf.c:126-152 | c prints the low byte of its argument, s the string at it, a percent sign itself, and any other character nothing |
| FormatMeaning.PrintedOn | src/libc/stdio/printf.c:88-194 | Behind a conversion `printf` goes on with the rest of the format and the argument after those it took |
| FormatMeaning.PrintedLiteral | src/libc/stdio/printf.c:90-97 | Any character but a percent sign stands for itself, in both formatters |
| Printf.CompletedDirective | src/libc/stdio/printf.c:98-124 | The state reached character by character is the directive the text spells |
| Printf.Vprintf | src/libc/stdio/vprintf.c:8-101 | The scanner prints and consumes what the directives call for except where it drops them, and tells when it steps over the NUL |
| FormatMeaning.ScannedOn | src/libc/stdio/vprintf.c:8-101 | `vprintf` prints every conversion as `printf` does and goes on like it, but behind a length modifier drops c, s and % and their arguments |
| FormatMeaning.PortableOn | src/libc/stdio/vprintf.c:30-93 | Such a drop, and a directive cut off, is what makes a format not portable |
| FormatMeaning.CutOffPrints | src/libc/stdio/vprintf.c:10-99 | A percent sign at the end is printed by `vprintf` and not by `printf`; a modifier there makes `vprintf` step over the NUL |
| Printf.ScanBehind | src/libc/stdio/vprintf.c:30-93 | The lookahead behind a length modifier steps over exactly the directive |
| Printf.Reprint | src/libc/stdio/vprintf.c:12-28 | Passing one argument on to the other formatter prints what the directive prints |
| FormatAgreement.AgreeIff | src/libc/stdio/vprintf.c:8-101 | Both print the same characters and take the same arguments exactly when no directive is cut off and none is dropped, one coincidence of percent signs aside |
| FormatAgreement.OutputAgrees | src/libc/stdio/vprintf.c:8-101 | With the same arguments taken, the outputs are equal exactly for portable formats and that coincidence |
| FormatAgreement.TakenSame | src/libc/stdio/vprintf.c:30-93 | The scanner takes fewer arguments exactly when it drops a conversion that has one |
| FormatAgreement.CoincidenceExists | src/libc/stdio/vprintf.c:10-17 | The coincidence is real: `%l%%` prints one percent sign either way |
| Console.Console.Putc | src/libc/stdio/putc.c:25-64 | A character typed on the tape: the screen stays a window on it, moved down just far enough to show the pen; bytes behind the screen are untouched |
| Console.Console.Puts | src/libc/stdio/puts.c:8-13 | The same for every run of characters that never backspaces in the first cell; the window never moves up, and on the 24-line screen of the boot build the line behind it, where the loading bar is, is never written |
| Typing.TextTyped | src/libc/stdio/putc.c:50-53 | Printable characters stand at the pen, one after the other, and no other cell changes |
| Typing.LinesTyped | src/libc/stdio/putc.c:27-30 | A newline puts the second text under the first, from the first column on |
| Typing.OvertypedLine | src/libc/stdio/putc.c:32-34 | A carriage return puts the second text over the front of the first, in the same line |
| Typing.CharacterTakenBack | src/libc/stdio/putc.c:41-49 | A character and a backspace leave the pen where it was, on a blank, and all other cells as they were |
| Typing.Backspaced | src/libc/stdio/putc.c:41-49 | A backspace moves one cell back, across lines too, and leaves a blank there |
| Typing.TabTyped | src/libc/stdio/putc.c:36-39 | A tab writes 2, 2, 1 or 3 blanks by the column modulo 4 and nothing else |
| Typing.TopFollows | src/libc/stdio/putc.c:55-61 | The window moves down only as far as it takes to see the pen |
| Typing.OnScreen | src/libc/stdio/putchr.c:9-11 | Row y, column x of the screen is byte 160y + 2x of video memory, with colour 7 behind it, and the cursor stands at the pen |
| Console.Console.PutTab | src/libc/stdio/putc.c:36-39 | A tab whose bound is looked at again after every blank writes the stated number of blanks |
| Console.Console.Settle | src/libc/stdio/putc.c:55-61 | Wrapping and scrolling change what is in view, not what was typed |
| Console.Console.Scrollback | src/libc/stdio/putc.c:9-23 | Every byte moves up from its original value despite the overlap, the rest is blanked |
| Console.ScrollCompose | src/libc/stdio/putc.c:9-23 | Scrolling by a and then by b is scrolling by a+b |
| Console.ScrollMovesWindow | src/libc/stdio/putc.c:9-23 | Scrolling one line moves the window down one line |
| Console.Console.Clrscr | src/libc/stdio/clrscr.c:9-20 | The screen shows an empty tape with the pen at its start |
| Typing.NothingTyped | src/libc/stdio/clrscr.c:9-20 | What the cleared screen shows is a NUL in every cell |
| Console.Console.Putchr | src/libc/stdio/putchr.c:9-11 | Writes the character byte of one cell and nothing else |
| Console.Console.Putcolor | src/libc/stdio/putcolor.c:9-11 | Writes the attribute byte of one cell and nothing else |
| Console.BackspaceInView | src/libc/stdio/putc.c:41-48 | A backspace writes a cell of the screen unless it is issued in the first one |
| Tape.WindowFollowsPen | src/libc/stdio/putc.c:55-61 | Without backspaces the window ends with the pen's line, whatever the height of the screen |
| Tape.TabMissesStops | src/libc/stdio/putc.c:36-39 | From no column does a tab end at a multiple of four |
| Paging.Pager.InitPaging | src/kernel/memory/pager.c:17-34 | Fills the four tables with the stated entries; at page boundaries of the kernel's gigabyte, memory that shows them has them installed under the root that is loaded |
| Paging.Pager.TablesInstalled | src/kernel/memory/pager.c:13-34 | Where the kernel's addresses put them, the arrays are the tables the walk goes through |
| Paging.InstalledTranslates | src/kernel/memory/pager.c:17-34 | The walk translates an address exactly when its indices are the mapped ones, and then to the address modulo 1 GiB |
| Paging.InstalledRanges | src/kernel/memory/pager.c:17-34 | The same in numbers: four ranges of canonical addresses are translated, each to its offset in the range, and no other address is |
| Paging.WalkIsGetAddress | src/kernel/memory/pager.c:13-29 | For every kernel pointer the walk yields the subtraction the tables were built with |
| Paging.LargeEntryFlags | src/kernel/memory/pager.c:25-29 | The directory entries are present, writable 2 MiB pages in order |
| Paging.AlignmentNeeded | src/kernel/memory/pager.c:5-18 | An entry leads to its table exactly when the table is page-aligned |
| Paging.StartTranslates | src/kernel/prekernel.asm:53-76 | What the tables the kernel starts with translate |
| Paging.StartRanges | src/kernel/prekernel.asm:53-76 | The same in numbers: the first gigabyte and the kernel's |
| Paging.SwitchIsSeamlessIff | src/kernel/memory/pager.c:17-33 | Loading the new root changes the translation of exactly the stated addresses |
| Paging.SwitchKeepsKernel | src/kernel/memory/pager.c:17-33 | The first 2 MiB and the kernel's gigabyte keep their translation |

## Left out

- BIOS calls, mode switching, port I/O, interrupt controllers and timers: hardware effects. The drive is a function from sector numbers to sectors together with a predicate that says which sectors cannot be read.
- The loading bar and the log lines inside `FAT_Read`, `FAT_Open` and `FAT_OpenEntry`: user interface. The bar is modelled on its own, and where its division fails the reader's theorems say what would be read without it.
- FatDriver.FatDriver.FindFile: requires the search to come to an end and to meet no unreadable sector on its way, since a handle whose buffer is stale after a failed read gives wrong entries; FatDriver.FatDriver.Open asks the same of the searches on its path and KernelLoader.LoadKernel of the file it loads, while FatDriver.FatDriver.Read does not ask it.
- FatMount.Initialize: requires at least one byte per sector and one sector per cluster of a disk whose boot sector and table were accepted; the code then divides by the first, and neither value 0 describes a FAT volume.
- FatDriver.FatDriver.Open: a component that depends on the unset byte of the name buffer is looked up under some value of that byte, which the model leaves arbitrary. A directory on the path whose first sector cannot be read, with more of the path behind it, is excluded, because the code goes on with a NULL handle.
- KernelLoader.BootLoad: requires the kernel to be there; the boot loader dereferences the result of `FAT_Open` unchecked.
- FatDriver.FatDriver.Read: requires byte counts and sizes below 2^31, where the signed `min` is exact, and a position that stays below 2^32; only a directory of size 0 on a cyclic chain could pass that.
- What lies behind the terminating NUL once `vprintf` has stepped over it.
- Numerals.PrintfSigned: for -2^63 C leaves the negation undefined; the model takes the wrap-around of the target.
- Reading past the arguments of a call: the row of arguments has no end.
- The hardware cursor, the kernel heap (its functions are empty), descriptor tables, interrupt gates, the keyboard and memory detection: no state or only short tables.
- Access rights of the page tables: the walk models which address is reached, not whether writing there is allowed.
- Paging.StartTranslates: takes the tables the kernel is started with at page boundaries, where `prekernel.asm:53` asks for 32 bytes only.
