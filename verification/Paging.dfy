/**
 The page tables: the processor's four-level walk (section 4.5 of volume 3A of the
 Intel SDM) over the tables the kernel builds and over those it starts with.
 */
module Paging {
  import opened Machine

  const KERNEL_PAGE: u64 := 0xffff_ffff_c000_0000

  /** Physical memory as the walk sees it: the 64-bit entry at an address. */
  type Memory = nat -> u64

  // ---------------------------------------------------------------- the walk

  function Pml4Index(va: u64): nat {
    va / 0x80_0000_0000 % 512
  }

  function PdptIndex(va: u64): nat {
    va / 0x4000_0000 % 512
  }

  function PdIndex(va: u64): nat {
    va / 0x20_0000 % 512
  }

  function PtIndex(va: u64): nat {
    va / 0x1000 % 512
  }

  predicate Present(e: u64) {
    e % 2 == 1
  }

  predicate MapsPage(e: u64) {
    e / 0x80 % 2 == 1
  }

  /** Bits 51 to 12: where an entry, or the root register, says a table begins. */
  function TableBase(e: u64): nat {
    e / 0x1000 % 0x100_0000_0000 * 0x1000
  }

  function EntryIn(mem: Memory, e: u64, index: nat): u64 {
    mem(TableBase(e) + 8 * index)
  }

  /** Bits 51 to 21 of a directory entry that maps a 2 MiB page, and the offset in the page. */
  function LargePage(e: u64, va: u64): nat {
    e / 0x20_0000 % 0x8000_0000 * 0x20_0000 + va % 0x20_0000
  }

  function HugePage(e: u64, va: u64): nat {
    e / 0x4000_0000 % 0x40_0000 * 0x4000_0000 + va % 0x4000_0000
  }

  function WalkDirectory(mem: Memory, pdpte: u64, va: u64): Option<nat> {
    var pde := EntryIn(mem, pdpte, PdIndex(va));
    if !Present(pde) then None
    else if MapsPage(pde) then Some(LargePage(pde, va))
    else
      var pte := EntryIn(mem, pde, PtIndex(va));
      if !Present(pte) then None else Some(TableBase(pte) + va % 0x1000)
  }

  /**
   The physical address of `va`, or none when the walk meets an entry that is not
   present.  The walk does not look at bits 63 to 48.
   */
  function Translate(mem: Memory, cr3: u64, va: u64): Option<nat> {
    var pml4e := EntryIn(mem, cr3, Pml4Index(va));
    if !Present(pml4e) then None
    else
      var pdpte := EntryIn(mem, pml4e, PdptIndex(va));
      if !Present(pdpte) then None
      else if MapsPage(pdpte) then Some(HugePage(pdpte, va))
      else WalkDirectory(mem, pdpte, va)
  }

  /** The address of a table or a page: a multiple of its size below 2^52. */
  predicate Frame(at: nat, size: nat)
    requires size > 0
  {
    at % size == 0 && at < 0x10_0000_0000_0000
  }

  /** The flags of an entry that leads on to a table: present, and bit 7 clear. */
  predicate LeadsOn(flags: nat) {
    flags < 0x1000 && flags % 2 == 1 && flags / 0x80 % 2 == 0
  }

  lemma EntryLeadsOn(at: nat, flags: nat)
    requires Frame(at, 0x1000) && LeadsOn(flags)
    ensures TableBase(at + flags) == at && Present(at + flags) && !MapsPage(at + flags)
  {
    var page := at / 0x1000;
    assert at == 0x1000 * page;
    DivUnique(at + flags, 0x1000, page, flags);
    DivUnique(at + flags, 2, 0x800 * page + flags / 2, 1);
    DivUnique(at + flags, 0x80, 0x20 * page + flags / 0x80, flags % 0x80);
    DivUnique(0x20 * page + flags / 0x80, 2, 0x10 * page + flags / 0x80 / 2, 0);
  }

  /**
   A walk through four levels to a 4 KiB page: nine bits of the address choose the entry
   at each level, 8 bytes to an entry, and twelve bits the byte in the page.
   */
  lemma SmallPageWalk(mem: Memory, root: nat, t3: nat, t2: nat, t1: nat, page: nat, flags: nat, va: u64)
    requires Frame(root, 0x1000) && Frame(t3, 0x1000) && Frame(t2, 0x1000) && Frame(t1, 0x1000) && Frame(page, 0x1000)
    requires LeadsOn(flags)
    requires mem(root + 8 * (va / 0x80_0000_0000 % 512)) == t3 + flags
    requires mem(t3 + 8 * (va / 0x4000_0000 % 512)) == t2 + flags
    requires mem(t2 + 8 * (va / 0x20_0000 % 512)) == t1 + flags
    requires mem(t1 + 8 * (va / 0x1000 % 512)) == page + flags
    ensures Translate(mem, root, va) == Some(page + va % 0x1000)
  {
    hide TableBase, Present, MapsPage;
    RootLeadsOn(root);
    EntryLeadsOn(t3, flags);
    EntryLeadsOn(t2, flags);
    EntryLeadsOn(t1, flags);
    EntryLeadsOn(page, flags);
  }

  lemma RootLeadsOn(root: nat)
    requires Frame(root, 0x1000)
    ensures TableBase(root) == root
  {
  }

  /** The flags of an entry that maps a page itself: present, and bit 7 set. */
  predicate MapsItself(flags: nat) {
    flags < 0x1000 && flags % 2 == 1 && flags / 0x80 % 2 == 1
  }

  lemma EntryMaps(at: nat, flags: nat)
    requires Frame(at, 0x1000) && MapsItself(flags)
    ensures Present(at + flags) && MapsPage(at + flags)
  {
    var page := at / 0x1000;
    assert at == 0x1000 * page;
    DivUnique(at + flags, 2, 0x800 * page + flags / 2, 1);
    DivUnique(at + flags, 0x80, 0x20 * page + flags / 0x80, flags % 0x80);
    DivUnique(0x20 * page + flags / 0x80, 2, 0x10 * page + flags / 0x80 / 2, 1);
  }

  /** The same to a 2 MiB page, whose directory entry maps it. */
  lemma LargePageWalk(mem: Memory, root: nat, t3: nat, t2: nat, page: nat, flags: nat, large: nat, va: u64)
    requires Frame(root, 0x1000) && Frame(t3, 0x1000) && Frame(t2, 0x1000)
    requires Frame(page, 0x20_0000) && Frame(page, 0x1000) && LeadsOn(flags) && MapsItself(large)
    requires mem(root + 8 * (va / 0x80_0000_0000 % 512)) == t3 + flags
    requires mem(t3 + 8 * (va / 0x4000_0000 % 512)) == t2 + flags
    requires mem(t2 + 8 * (va / 0x20_0000 % 512)) == page + large
    ensures Translate(mem, root, va) == Some(page + va % 0x20_0000)
  {
    hide TableBase, Present, MapsPage, LargePage;
    RootLeadsOn(root);
    EntryLeadsOn(t3, flags);
    EntryLeadsOn(t2, flags);
    EntryMaps(page, large);
    LargePageIs(page, large, va);
  }

  lemma LargePageIs(page: nat, large: nat, va: u64)
    requires Frame(page, 0x20_0000) && large < 0x1000
    ensures LargePage(page + large, va) == page + va % 0x20_0000
  {
    var n := page / 0x20_0000;
    assert page == 0x20_0000 * n;
    DivUnique(page + large, 0x20_0000, n, large);
  }

  /** And to a 1 GiB page, mapped one level up. */
  lemma HugePageWalk(mem: Memory, root: nat, t3: nat, page: nat, flags: nat, large: nat, va: u64)
    requires Frame(root, 0x1000) && Frame(t3, 0x1000)
    requires Frame(page, 0x4000_0000) && Frame(page, 0x1000) && LeadsOn(flags) && MapsItself(large)
    requires mem(root + 8 * (va / 0x80_0000_0000 % 512)) == t3 + flags
    requires mem(t3 + 8 * (va / 0x4000_0000 % 512)) == page + large
    ensures Translate(mem, root, va) == Some(page + va % 0x4000_0000)
  {
    hide TableBase, Present, MapsPage, HugePage;
    RootLeadsOn(root);
    EntryLeadsOn(t3, flags);
    EntryMaps(page, large);
    HugePageIs(page, large, va);
  }

  lemma HugePageIs(page: nat, large: nat, va: u64)
    requires Frame(page, 0x4000_0000) && large < 0x1000
    ensures HugePage(page + large, va) == page + va % 0x4000_0000
  {
    var n := page / 0x4000_0000;
    assert page == 0x4000_0000 * n;
    DivUnique(page + large, 0x4000_0000, n, large);
  }

  // ---------------------------------------------------------------- building the tables

  function GetAddress(addr: u64): u64 {
    Wrap64(addr - KERNEL_PAGE)
  }

  function LargeEntry(i: nat): nat {
    i * 0x20_0000 + 0x83
  }

  /** `(i << 21) | 0b10000011`, the shift leaving zeros where the flags go. */
  lemma OrFlags(i: nat)
    ensures BitOr(i * 0x20_0000, 0x83) == LargeEntry(i)
  {
    assert Pow2(8) == 0x100;
    OrIntoZeroBits(i * 0x2000, 8, 0x83);
  }

  lemma OrPresent(base: nat)
    requires base % 2 == 0
    ensures BitOr(base, 1) == base + 1
  {
    assert Pow2(1) == 2;
    OrIntoZeroBits(base / 2, 1, 1);
  }

  /** An entry made from a pointer leads the walk to the table exactly when it is page-aligned. */
  lemma AlignmentNeeded(base: nat)
    requires base % 2 == 0 && base < 0x10_0000_0000_0000
    ensures BitOr(base, 1) == base + 1
    ensures TableBase(base + 1) == base <==> base % 0x1000 == 0
    ensures TableBase(base) == base <==> base % 0x1000 == 0
  {
    OrPresent(base);
  }

  /** What `initPaging` leaves in the four tables, given their physical addresses. */
  function Pml4Table(pdpt: nat): seq<nat> {
    seq(512, i => if i == 0 || i == 511 then pdpt + 1 else 0)
  }

  function PdptTable(base: nat, kernel: nat): seq<nat> {
    seq(512, i => if i == 0 then base + 1 else if i == 511 then kernel + 1 else 0)
  }

  function BaseDirectory(): seq<nat> {
    seq(512, i => if i == 0 then LargeEntry(0) else 0)
  }

  function FullDirectory(): seq<nat> {
    seq(512, i requires 0 <= i < 512 => LargeEntry(i))
  }

  /** The start of a page in the kernel's gigabyte. */
  predicate KernelPage(at: u64) {
    at >= KERNEL_PAGE && at % 0x1000 == 0
  }

  lemma PageOffset(at: u64)
    requires KernelPage(at)
    ensures GetAddress(at) % 0x1000 == 0 && GetAddress(at) < 0x4000_0000
  {
  }

  class Pager {
    const pml4: array<u64>
    const pageDirTab: array<u64>
    const basePageDir: array<u64>
    const kernelPageDir: array<u64>
    /** The tables' own addresses in the kernel's half of the address space. */
    const pml4At: u64
    const pageDirTabAt: u64
    const basePageDirAt: u64
    const kernelPageDirAt: u64

    constructor (pml4At: u64, pageDirTabAt: u64, basePageDirAt: u64, kernelPageDirAt: u64)
      ensures this.pml4At == pml4At && this.pageDirTabAt == pageDirTabAt
      ensures this.basePageDirAt == basePageDirAt && this.kernelPageDirAt == kernelPageDirAt
      ensures Shape() && Zeroed() && fresh(pml4) && fresh(pageDirTab) && fresh(basePageDir) && fresh(kernelPageDir)
    {
      this.pml4 := new u64[512](_ => 0);
      this.pageDirTab := new u64[512](_ => 0);
      this.basePageDir := new u64[512](_ => 0);
      this.kernelPageDir := new u64[512](_ => 0);
      this.pml4At, this.pageDirTabAt := pml4At, pageDirTabAt;
      this.basePageDirAt, this.kernelPageDirAt := basePageDirAt, kernelPageDirAt;
    }

    ghost predicate Shape() {
      && pml4.Length == pageDirTab.Length == basePageDir.Length == kernelPageDir.Length == 512
      && pml4 != pageDirTab && pml4 != basePageDir && pml4 != kernelPageDir
      && pageDirTab != basePageDir && pageDirTab != kernelPageDir && basePageDir != kernelPageDir
    }

    /** Static storage starts out zero. */
    ghost predicate Zeroed()
      reads pml4, pageDirTab, basePageDir, kernelPageDir
    {
      && (forall i :: 0 <= i < pml4.Length ==> pml4[i] == 0)
      && (forall i :: 0 <= i < pageDirTab.Length ==> pageDirTab[i] == 0)
      && (forall i :: 0 <= i < basePageDir.Length ==> basePageDir[i] == 0)
      && (forall i :: 0 <= i < kernelPageDir.Length ==> kernelPageDir[i] == 0)
    }

    /** Physical memory holds the arrays where the kernel's addresses put them. */
    ghost predicate ShownIn(mem: Memory)
      requires Shape()
      reads pml4, pageDirTab, basePageDir, kernelPageDir
    {
      forall i :: 0 <= i < 512 ==>
        && mem(GetAddress(pml4At) + 8 * i) == pml4[i]
        && mem(GetAddress(pageDirTabAt) + 8 * i) == pageDirTab[i]
        && mem(GetAddress(basePageDirAt) + 8 * i) == basePageDir[i]
        && mem(GetAddress(kernelPageDirAt) + 8 * i) == kernelPageDir[i]
    }

    /** The tables lie at page boundaries of the kernel's gigabyte. */
    predicate PageAligned() {
      && KernelPage(pml4At) && KernelPage(pageDirTabAt)
      && KernelPage(basePageDirAt) && KernelPage(kernelPageDirAt)
    }

    /** What the four arrays hold after `InitPaging` is what the walk finds installed. */
    lemma TablesInstalled(mem: Memory)
      requires Shape() && PageAligned() && ShownIn(mem)
      requires pml4[..] == Pml4Table(GetAddress(pageDirTabAt))
      requires pageDirTab[..] == PdptTable(GetAddress(basePageDirAt), GetAddress(kernelPageDirAt))
      requires basePageDir[..] == BaseDirectory() && kernelPageDir[..] == FullDirectory()
      ensures Installed(mem, GetAddress(pml4At), GetAddress(pageDirTabAt), GetAddress(basePageDirAt),
                        GetAddress(kernelPageDirAt))
    {
      hide Pml4Table, PdptTable, BaseDirectory, FullDirectory, Placed, GetAddress, KernelPage;
      assert pml4.Length == 512 && pageDirTab.Length == 512 && basePageDir.Length == 512 && kernelPageDir.Length == 512;
      TableShown(mem, pml4At, pml4);
      TableShown(mem, pageDirTabAt, pageDirTab);
      TableShown(mem, basePageDirAt, basePageDir);
      TableShown(mem, kernelPageDirAt, kernelPageDir);
    }

    lemma TableShown(mem: Memory, at: u64, table: array<u64>)
      requires KernelPage(at) && table.Length == 512
      requires forall i :: 0 <= i < 512 ==> mem(GetAddress(at) + 8 * i) == table[i]
      ensures Placed(mem, GetAddress(at), table[..])
    {
      PageOffset(at);
    }

    method InitPaging() returns (cr3: u64)
      requires Shape() && Zeroed()
      requires pageDirTabAt % 2 == 0 && basePageDirAt % 2 == 0 && kernelPageDirAt % 2 == 0
      modifies pml4, pageDirTab, basePageDir, kernelPageDir
      ensures cr3 == GetAddress(pml4At)
      ensures pml4[..] == Pml4Table(GetAddress(pageDirTabAt))
      ensures pageDirTab[..] == PdptTable(GetAddress(basePageDirAt), GetAddress(kernelPageDirAt))
      ensures basePageDir[..] == BaseDirectory()
      ensures kernelPageDir[..] == FullDirectory()
      ensures PageAligned() ==>
                forall mem: Memory :: ShownIn(mem) ==>
                  Installed(mem, cr3, GetAddress(pageDirTabAt), GetAddress(basePageDirAt), GetAddress(kernelPageDirAt))
    {
      OrPresent(GetAddress(pageDirTabAt));
      OrPresent(GetAddress(basePageDirAt));
      OrPresent(GetAddress(kernelPageDirAt));
      pml4[0] := BitOr(GetAddress(pageDirTabAt), 1);
      pml4[511] := BitOr(GetAddress(pageDirTabAt), 1);
      pageDirTab[0] := BitOr(GetAddress(basePageDirAt), 1);
      pageDirTab[511] := BitOr(GetAddress(kernelPageDirAt), 1);
      OrFlags(0);
      basePageDir[0] := BitOr(0 * 0x20_0000, 0x83);
      assert pml4[..] == Pml4Table(GetAddress(pageDirTabAt));
      assert pageDirTab[..] == PdptTable(GetAddress(basePageDirAt), GetAddress(kernelPageDirAt));
      assert basePageDir[..] == BaseDirectory();
      MapKernel();
      cr3 := GetAddress(pml4At);
      forall mem: Memory | PageAligned() && ShownIn(mem)
        ensures Installed(mem, cr3, GetAddress(pageDirTabAt), GetAddress(basePageDirAt), GetAddress(kernelPageDirAt))
      {
        TablesInstalled(mem);
      }
    }

    /** The loop over the kernel's directory. */
    method MapKernel()
      requires kernelPageDir.Length == 512
      modifies kernelPageDir
      ensures kernelPageDir[..] == FullDirectory()
    {
      var i := 0;
      while i < 512
        invariant 0 <= i <= 512
        invariant forall j :: 0 <= j < i ==> kernelPageDir[j] == LargeEntry(j)
      {
        OrFlags(i);
        kernelPageDir[i] := BitOr(i * 0x20_0000, 0x83);
        i := i + 1;
      }
    }
  }

  // ---------------------------------------------------------------- what they translate

  /** A table lies in memory at a page-aligned physical address below 1 GiB. */
  ghost predicate Placed(mem: Memory, at: nat, table: seq<nat>) {
    && at % 0x1000 == 0 && at < 0x4000_0000 && |table| == 512
    && forall i :: 0 <= i < 512 ==> mem(at + 8 * i) == table[i]
  }

  /** Memory with the four tables of `initPaging` in it. */
  ghost predicate Installed(mem: Memory, pml4: nat, pdpt: nat, base: nat, kernel: nat) {
    && Placed(mem, pml4, Pml4Table(pdpt))
    && Placed(mem, pdpt, PdptTable(base, kernel))
    && Placed(mem, base, BaseDirectory())
    && Placed(mem, kernel, FullDirectory())
  }

  lemma EntryOf(mem: Memory, at: nat, table: seq<nat>, flags: nat, i: nat)
    requires Placed(mem, at, table) && flags < 0x1000 && i < 512
    ensures EntryIn(mem, at + flags, i) == table[i]
  {
  }

  /** A directory entry of the tables maps its 2 MiB to the same place below 1 GiB. */
  lemma LargeEntryMaps(va: u64)
    ensures Present(LargeEntry(PdIndex(va))) && MapsPage(LargeEntry(PdIndex(va)))
    ensures LargePage(LargeEntry(PdIndex(va)), va) == va % 0x4000_0000
  {
    var i := PdIndex(va);
    assert LargeEntry(i) / 0x20_0000 == i;
    assert va % 0x4000_0000 == i * 0x20_0000 + va % 0x20_0000;
  }

  lemma PointerEntry(at: nat)
    requires at % 0x1000 == 0 && at < 0x4000_0000
    ensures Present(at + 1) && !MapsPage(at + 1)
  {
    PagePlusOne(at / 0x1000);
  }

  lemma PagePlusOne(page: nat)
    ensures (0x1000 * page + 1) % 2 == 1 && (0x1000 * page + 1) / 0x80 % 2 == 0
  {
    DivUnique(0x1000 * page + 1, 0x80, 0x20 * page, 1);
    DivUnique(0x20 * page, 2, 0x10 * page, 0);
    DivUnique(0x1000 * page + 1, 2, 0x800 * page, 1);
  }

  lemma FullDirectoryWalk(mem: Memory, at: nat, va: u64)
    requires Placed(mem, at, FullDirectory())
    ensures WalkDirectory(mem, at + 1, va) == Some(va % 0x4000_0000)
  {
    hide LargePage, LargeEntry, MapsPage, Present, EntryIn;
    EntryOf(mem, at, FullDirectory(), 1, PdIndex(va));
    LargeEntryMaps(va);
  }

  lemma BaseDirectoryWalk(mem: Memory, at: nat, va: u64)
    requires Placed(mem, at, BaseDirectory())
    ensures WalkDirectory(mem, at + 1, va) == if PdIndex(va) == 0 then Some(va % 0x4000_0000) else None
  {
    hide LargePage, LargeEntry, MapsPage, EntryIn;
    EntryOf(mem, at, BaseDirectory(), 1, PdIndex(va));
    LargeEntryMaps(va);
  }

  predicate NewlyMapped(va: u64) {
    && (Pml4Index(va) == 0 || Pml4Index(va) == 511)
    && (PdptIndex(va) == 511 || (PdptIndex(va) == 0 && PdIndex(va) == 0))
  }

  /** The tables of `initPaging` translate exactly these addresses, all of them modulo 1 GiB. */
  lemma InstalledTranslates(mem: Memory, pml4: nat, pdpt: nat, base: nat, kernel: nat, va: u64)
    requires Installed(mem, pml4, pdpt, base, kernel)
    ensures Translate(mem, pml4, va) == if NewlyMapped(va) then Some(va % 0x4000_0000) else None
  {
    hide WalkDirectory, LargeEntry;
    EntryOf(mem, pml4, Pml4Table(pdpt), 0, Pml4Index(va));
    EntryOf(mem, pdpt, PdptTable(base, kernel), 1, PdptIndex(va));
    PointerEntry(pdpt);
    PointerEntry(base);
    PointerEntry(kernel);
    BaseDirectoryWalk(mem, base, va);
    FullDirectoryWalk(mem, kernel, va);
  }

  /** For kernel pointers the walk is the subtraction the tables were built with. */
  lemma WalkIsGetAddress(mem: Memory, pml4: nat, pdpt: nat, base: nat, kernel: nat, p: u64)
    requires Installed(mem, pml4, pdpt, base, kernel)
    requires p >= KERNEL_PAGE
    ensures Translate(mem, pml4, p) == Some(GetAddress(p))
  {
    InstalledTranslates(mem, pml4, pdpt, base, kernel, p);
  }

  // ---------------------------------------------------------------- the switch

  function InitPml4(low: nat, high: nat): seq<nat> {
    seq(512, i => if i == 0 then low + 1 else if i == 511 then high + 1 else 0)
  }

  function InitLow(dir: nat): seq<nat> {
    seq(512, i => if i == 0 then dir + 1 else 0)
  }

  function InitHigh(dir: nat): seq<nat> {
    seq(512, i => if i == 511 then dir + 1 else 0)
  }

  /** Memory with the tables the kernel is started with. */
  ghost predicate StartedWith(mem: Memory, pml4: nat, low: nat, high: nat, dir: nat) {
    && Placed(mem, pml4, InitPml4(low, high))
    && Placed(mem, low, InitLow(dir))
    && Placed(mem, high, InitHigh(dir))
    && Placed(mem, dir, FullDirectory())
  }

  predicate InitiallyMapped(va: u64) {
    (Pml4Index(va) == 0 && PdptIndex(va) == 0) || (Pml4Index(va) == 511 && PdptIndex(va) == 511)
  }

  lemma StartTranslates(mem: Memory, pml4: nat, low: nat, high: nat, dir: nat, va: u64)
    requires StartedWith(mem, pml4, low, high, dir)
    ensures Translate(mem, pml4, va) == if InitiallyMapped(va) then Some(va % 0x4000_0000) else None
  {
    hide WalkDirectory, LargeEntry;
    EntryOf(mem, pml4, InitPml4(low, high), 0, Pml4Index(va));
    EntryOf(mem, low, InitLow(dir), 1, PdptIndex(va));
    EntryOf(mem, high, InitHigh(dir), 1, PdptIndex(va));
    PointerEntry(low);
    PointerEntry(high);
    PointerEntry(dir);
    FullDirectoryWalk(mem, dir, va);
  }

  /** The addresses whose translation the new root changes. */
  predicate Affected(va: u64) {
    || (Pml4Index(va) == 0 && PdptIndex(va) == 0 && PdIndex(va) != 0)
    || (Pml4Index(va) == 0 && PdptIndex(va) == 511)
    || (Pml4Index(va) == 511 && PdptIndex(va) == 0 && PdIndex(va) == 0)
  }

  /**
   Loading the new root changes the translation of exactly the affected addresses:
   the identity mapping shrinks to 2 MiB and two windows appear.
   */
  lemma SwitchIsSeamlessIff(mem: Memory, old4: nat, low: nat, high: nat, dir: nat,
                            pml4: nat, pdpt: nat, base: nat, kernel: nat, va: u64)
    requires StartedWith(mem, old4, low, high, dir)
    requires Installed(mem, pml4, pdpt, base, kernel)
    ensures Translate(mem, old4, va) == Translate(mem, pml4, va) <==> !Affected(va)
  {
    StartTranslates(mem, old4, low, high, dir, va);
    InstalledTranslates(mem, pml4, pdpt, base, kernel, va);
  }

  lemma KeptIsMapped(va: u64)
    requires va < 0x20_0000 || va >= KERNEL_PAGE
    ensures InitiallyMapped(va) && NewlyMapped(va)
  {
  }

  /** The first 2 MiB and the kernel's gigabyte are where they were. */
  lemma SwitchKeepsKernel(mem: Memory, old4: nat, low: nat, high: nat, dir: nat,
                          pml4: nat, pdpt: nat, base: nat, kernel: nat, va: u64)
    requires StartedWith(mem, old4, low, high, dir)
    requires Installed(mem, pml4, pdpt, base, kernel)
    requires va < 0x20_0000 || va >= KERNEL_PAGE
    ensures Translate(mem, old4, va) == Translate(mem, pml4, va) == Some(va % 0x4000_0000)
  {
    hide StartedWith, Installed, Translate, InitiallyMapped, NewlyMapped;
    KeptIsMapped(va);
    StartTranslates(mem, old4, low, high, dir, va);
    InstalledTranslates(mem, pml4, pdpt, base, kernel, va);
  }

  // ---------------------------------------------------------------- the same in numbers

  /** An address the processor accepts: bits 63 to 47 are all equal. */
  predicate Canonical(va: u64) {
    va < 0x8000_0000_0000 || va >= 0xffff_8000_0000_0000
  }

  /**
   The new tables map four ranges: the first 2 MiB, the last gigabyte below 512 GiB, the
   first 2 MiB of the last 512 GiB, and the kernel's gigabyte at the very top.
   */
  function NewAddress(va: u64): Option<nat> {
    if va < 0x20_0000 then Some(va)
    else if 0x7f_c000_0000 <= va < 0x80_0000_0000 then Some(va - 0x7f_c000_0000)
    else if 0xffff_ff80_0000_0000 <= va < 0xffff_ff80_0020_0000 then Some(va - 0xffff_ff80_0000_0000)
    else if va >= 0xffff_ffff_c000_0000 then Some(va - 0xffff_ffff_c000_0000)
    else None
  }

  /** The tables the kernel starts with map the first gigabyte and the kernel's. */
  function OldAddress(va: u64): Option<nat> {
    if va < 0x4000_0000 then Some(va)
    else if va >= 0xffff_ffff_c000_0000 then Some(va - 0xffff_ffff_c000_0000)
    else None
  }

  lemma Pml4IndexIs(va: u64)
    requires Canonical(va)
    ensures Pml4Index(va) == 0 <==> va < 0x80_0000_0000
    ensures Pml4Index(va) == 511 <==> va >= 0xffff_ff80_0000_0000
  {
  }

  lemma LowPdptIndexIs(va: u64)
    requires va < 0x80_0000_0000
    ensures PdptIndex(va) == 0 <==> va < 0x4000_0000
    ensures PdptIndex(va) == 511 <==> va >= 0x7f_c000_0000
  {
  }

  lemma HighPdptIndexIs(va: u64)
    requires va >= 0xffff_ff80_0000_0000
    ensures PdptIndex(va) == 0 <==> va < 0xffff_ff80_4000_0000
    ensures PdptIndex(va) == 511 <==> va >= 0xffff_ffff_c000_0000
  {
  }

  lemma PdIndexIs(va: u64)
    ensures va < 0x4000_0000 ==> (PdIndex(va) == 0 <==> va < 0x20_0000)
    ensures 0xffff_ff80_0000_0000 <= va < 0xffff_ff80_4000_0000 ==>
              (PdIndex(va) == 0 <==> va < 0xffff_ff80_0020_0000)
  {
  }

  /** The indices of the mapped ranges. */
  lemma IndicesAre(va: u64)
    requires Canonical(va)
    ensures NewlyMapped(va) <==> NewAddress(va).Some?
    ensures InitiallyMapped(va) <==> OldAddress(va).Some?
  {
    hide Pml4Index, PdptIndex, PdIndex;
    Pml4IndexIs(va);
    if va < 0x80_0000_0000 {
      LowPdptIndexIs(va);
    }
    if va >= 0xffff_ff80_0000_0000 {
      HighPdptIndexIs(va);
    }
    PdIndexIs(va);
  }

  lemma OffsetInGigabyte(va: u64)
    ensures va < 0x4000_0000 ==> va % 0x4000_0000 == va
    ensures 0x7f_c000_0000 <= va < 0x80_0000_0000 ==> va % 0x4000_0000 == va - 0x7f_c000_0000
    ensures 0xffff_ff80_0000_0000 <= va < 0xffff_ff80_4000_0000 ==> va % 0x4000_0000 == va - 0xffff_ff80_0000_0000
    ensures va >= 0xffff_ffff_c000_0000 ==> va % 0x4000_0000 == va - 0xffff_ffff_c000_0000
  {
  }

  /** What the tables of `initPaging` translate, range by range, for every address the processor accepts. */
  lemma InstalledRanges(mem: Memory, pml4: nat, pdpt: nat, base: nat, kernel: nat, va: u64)
    requires Installed(mem, pml4, pdpt, base, kernel) && Canonical(va)
    ensures Translate(mem, pml4, va) == NewAddress(va)
  {
    hide Translate, Installed, NewlyMapped;
    InstalledTranslates(mem, pml4, pdpt, base, kernel, va);
    IndicesAre(va);
    OffsetInGigabyte(va);
  }

  lemma StartRanges(mem: Memory, pml4: nat, low: nat, high: nat, dir: nat, va: u64)
    requires StartedWith(mem, pml4, low, high, dir) && Canonical(va)
    ensures Translate(mem, pml4, va) == OldAddress(va)
  {
    hide Translate, StartedWith, InitiallyMapped;
    StartTranslates(mem, pml4, low, high, dir, va);
    IndicesAre(va);
    OffsetInGigabyte(va);
  }

  /** The pages are present, writable, and 2 MiB large: bits 0, 1 and 7. */
  lemma LargeEntryFlags(i: nat)
    requires i < 512
    ensures var e := FullDirectory()[i];
            e % 2 == 1 && e / 2 % 2 == 1 && e / 0x80 % 2 == 1 && e / 0x20_0000 == i && BaseDirectory()[0] == 0x83
  {
  }
}
