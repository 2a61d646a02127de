/**
 Disk addressing: linear sector numbers, cylinder/head/sector triples, and the
 registers in which INT 13h takes and returns them.
 */
module Geometry {
  import opened Machine

  type u8 = x: int | 0 <= x < 0x100
  type u16 = x: int | 0 <= x < 0x1_0000

  /** What a drive can have: at most 63 sectors a track and 256 heads. */
  datatype Disk = Disk(heads: nat, sectors: nat) {
    predicate Valid() {
      1 <= heads <= 256 && 1 <= sectors <= 63
    }
  }

  datatype Chs = Chs(cylinder: u16, head: u16, sector: u16)

  /** CX and DH. */
  datatype Registers = Registers(ch: u8, cl: u8, dh: u8)

  function Wrap8(x: int): u8 {
    x % 0x100
  }

  function Wrap16(x: int): u16 {
    x % 0x1_0000
  }

  function Low(x: u16): u8 {
    x % 0x100
  }

  function High(x: u16): u8 {
    x / 0x100
  }

  // ---------------------------------------------------------------- the C path

  /** Into 16-bit out parameters, which cut the cylinder off if it is too large. */
  method Lba2Chs(disk: Disk, lba: u32) returns (cylinder: u16, head: u16, sector: u16)
    requires disk.Valid()
    ensures head < disk.heads && 1 <= sector <= disk.sectors
    ensures LbaOf(disk, Chs(cylinder, head, sector)) == lba <==> Cylinder(disk, lba) < 0x1_0000
    ensures exists whole: nat :: cylinder == Wrap16(whole) && Linear(disk, whole, head, sector) == lba
    ensures Chs(cylinder, head, sector) == ChsOf(disk, lba)
  {
    cylinder := Wrap16(lba / disk.sectors / disk.heads);
    head := Wrap16(lba / disk.sectors % disk.heads);
    sector := Wrap16(lba % disk.sectors + 1);
    WholeCylinder(disk, lba);
    ChsInverse(disk, lba);
  }

  /** The track a sector lies on, counted through all cylinders. */
  function Track(disk: Disk, lba: u32): int
    requires disk.Valid()
  {
    lba / disk.sectors
  }

  function Cylinder(disk: Disk, lba: u32): int
    requires disk.Valid()
  {
    Track(disk, lba) / disk.heads
  }

  function Head(disk: Disk, lba: u32): int
    requires disk.Valid()
  {
    Track(disk, lba) % disk.heads
  }

  function SectorNumber(disk: Disk, lba: u32): int
    requires disk.Valid()
  {
    lba % disk.sectors + 1
  }

  lemma TrackBounded(disk: Disk, lba: u32)
    requires disk.Valid()
    ensures 0 <= Track(disk, lba) <= lba && 1 <= SectorNumber(disk, lba) <= disk.sectors
  {
    DivAtMost(lba, disk.sectors);
  }

  lemma PartsBounded(disk: Disk, lba: u32)
    requires disk.Valid()
    ensures 0 <= Head(disk, lba) < disk.heads && 1 <= SectorNumber(disk, lba) <= disk.sectors
    ensures 0 <= Cylinder(disk, lba) <= Track(disk, lba) <= lba
  {
    hide Track, SectorNumber;
    TrackBounded(disk, lba);
    DivAtMost(Track(disk, lba), disk.heads);
  }

  function ChsOf(disk: Disk, lba: u32): Chs
    requires disk.Valid()
  {
    Chs(Wrap16(Cylinder(disk, lba)), Wrap16(Head(disk, lba)), Wrap16(SectorNumber(disk, lba)))
  }

  function LbaOf(disk: Disk, a: Chs): int {
    Linear(disk, a.cylinder, a.head, a.sector)
  }

  function Linear(disk: Disk, cylinder: int, head: int, sector: int): int {
    (cylinder * disk.heads + head) * disk.sectors + sector - 1
  }

  /** The triple leads back to the sector number exactly when the cylinder fits 16 bits. */
  lemma ChsInverse(disk: Disk, lba: u32)
    requires disk.Valid()
    ensures LbaOf(disk, ChsOf(disk, lba)) == lba <==> Cylinder(disk, lba) < 0x1_0000
    ensures ChsOf(disk, lba).head < disk.heads && 1 <= ChsOf(disk, lba).sector <= disk.sectors
  {
    hide Cylinder, Head, SectorNumber, Linear;
    PartsBounded(disk, lba);
    CylinderDecides(disk, lba, Wrap16(Cylinder(disk, lba)));
  }

  /** Before the cylinder is cut to 16 bits the triple is exact. */
  lemma WholeCylinder(disk: Disk, lba: u32)
    requires disk.Valid()
    ensures var a := ChsOf(disk, lba);
            a.cylinder == Wrap16(Cylinder(disk, lba)) && Linear(disk, Cylinder(disk, lba), a.head, a.sector) == lba
    ensures Cylinder(disk, lba) >= 0
  {
    hide Cylinder, Head, SectorNumber, Linear;
    PartsBounded(disk, lba);
    CylinderDecides(disk, lba, Cylinder(disk, lba));
  }

  /** With head and sector in place, the address is right just when the cylinder is. */
  lemma CylinderDecides(disk: Disk, lba: u32, cylinder: int)
    requires disk.Valid()
    ensures Linear(disk, cylinder, Head(disk, lba), SectorNumber(disk, lba)) == lba <==> cylinder == Cylinder(disk, lba)
  {
    var q, r := lba / disk.sectors, lba % disk.sectors;
    assert lba == disk.sectors * q + r;
    var c, h := q / disk.heads, q % disk.heads;
    assert q == disk.heads * c + h;
    if (cylinder * disk.heads + h) * disk.sectors + r == lba {
      SameFactor(disk.sectors, cylinder * disk.heads + h, q);
      SameFactor(disk.heads, cylinder, c);
    }
  }

  lemma SameFactor(n: nat, a: int, b: int)
    requires n > 0 && a * n == n * b
    ensures a == b
  {
    DivUnique(n * b, n, a, 0);
    DivUnique(n * b, n, b, 0);
  }

  // ---------------------------------------------------------------- INT 13h registers

  /** `shl r, 6` on an 8-bit register. */
  function Shl6(x: u8): u8 {
    Wrap8(x * 0x40)
  }

  function Or8(a: u8, b: u8): nat {
    BitOr(a, b)
  }

  lemma SixthPower()
    ensures Pow2(6) == 0x40
  {
  }

  lemma ShiftedOut(high: u8)
    ensures Shl6(high) == high % 4 * 0x40
  {
  }

  lemma OrBelow64(high: u8, low: u8)
    requires low < 0x40
    ensures Or8(Shl6(high), low) == high % 4 * 0x40 + low
    ensures high % 4 * 0x40 + low < 0x100
    ensures Or8(low, Shl6(high)) == high % 4 * 0x40 + low
  {
    hide BitOr, Pow2;
    SixthPower();
    ShiftedOut(high);
    OrIntoZeroBits(high % 4, 6, low);
    OrSymmetric(low, Shl6(high));
  }

  lemma {:induction false} OrSymmetric(a: nat, b: nat)
    ensures BitOr(a, b) == BitOr(b, a)
    decreases a + b
  {
    if a > 0 && b > 0 {
      OrSymmetric(a / 2, b / 2);
    }
  }

  /** How INT 13h reads its registers. */
  function Addressed(r: Registers): Chs {
    Chs(r.ch + r.cl / 0x40 * 0x100, r.dh, r.cl % 0x40)
  }

  /** The register moves in front of the BIOS call of a sector read. */
  method PackRegisters(cylinder: u16, head: u16, sector: u16) returns (r: Registers)
    ensures r == Packed(Chs(cylinder, head, sector))
    ensures r.ch == cylinder % 256 && r.cl == cylinder / 256 % 4 * 64 + sector % 64 && r.dh == head % 256
  {
    hide BitOr, Shl6, Or8;
    SixBits(sector);
    OrBelow64(High(cylinder), Low(sector) % 0x40);
    var ch := Low(cylinder);
    var cl := High(cylinder);
    cl := Shl6(cl);
    var dh := Low(head);
    var al := Low(sector);
    al := al % 0x40;
    cl := Or8(cl, al);
    r := Registers(ch, cl, dh);
  }

  function Packed(a: Chs): Registers {
    Registers(Low(a.cylinder), High(a.cylinder) % 4 * 0x40 + Low(a.sector) % 0x40, Low(a.head))
  }

  /** Packing loses nothing exactly when every part fits its bits. */
  lemma PackedReadsBackIff(a: Chs)
    ensures Addressed(Packed(a)) == a <==> a.cylinder < 1024 && a.head < 256 && a.sector < 64
  {
    hide Packed, Addressed;
    PackedKeepsLowBits(a);
  }

  /** End to end: the BIOS is asked for the sector meant exactly when the cylinder is below 1024. */
  lemma RightSectorIff(disk: Disk, lba: u32)
    requires disk.Valid()
    ensures LbaOf(disk, Addressed(Packed(ChsOf(disk, lba)))) == lba <==> Cylinder(disk, lba) < 1024
  {
    hide Track, Cylinder, Head, SectorNumber, Linear, Packed, Addressed;
    PartsBounded(disk, lba);
    PackedKeepsLowBits(ChsOf(disk, lba));
    LowBits(Cylinder(disk, lba));
    CylinderDecides(disk, lba, Cylinder(disk, lba) % 1024);
  }

  lemma LowBits(c: nat)
    ensures Wrap16(c) % 1024 == c % 1024
    ensures c % 1024 == c <==> c < 1024
  {
    var a, b := c / 0x1_0000, c % 0x1_0000;
    var d, e := b / 1024, b % 1024;
    assert c == 1024 * (64 * a + d) + e;
    DivUnique(c, 1024, 64 * a + d, e);
  }

  /** What is left of a cylinder is its ten low bits. */
  lemma PackedKeepsLowBits(a: Chs)
    ensures Addressed(Packed(a)) == Chs(a.cylinder % 1024, a.head % 256, a.sector % 64)
  {
    hide High, Low;
    ClSplits(High(a.cylinder) % 4, Low(a.sector) % 0x40);
    TenBits(a.cylinder);
    SixBits(a.sector);
    EightBits(a.head);
  }

  lemma SixBits(x: u16)
    ensures Low(x) % 0x40 == x % 0x40
  {
  }

  lemma EightBits(x: u16)
    ensures Low(x) == x % 256
  {
  }

  lemma ClSplits(high: nat, low: nat)
    requires high < 4 && low < 0x40
    ensures (high * 0x40 + low) / 0x40 == high && (high * 0x40 + low) % 0x40 == low
  {
  }

  lemma TenBits(c: u16)
    ensures Low(c) + High(c) as int % 4 * 0x100 == c % 1024
  {
  }

  // ---------------------------------------------------------------- the boot sector's path

  /** The same in 16-bit registers, from an LBA in AX. */
  method BootLbaToChs(disk: Disk, lba: u16) returns (r: Registers)
    requires disk.Valid()
    ensures r == Packed(ChsOf(disk, lba))
  {
    hide Packed, BitOr, ChsOf, Shl6, Or8, Low, High;
    SectorsBounded(disk, lba);
    var ax: u16, dx: u16 := lba, 0;
    ax, dx := Div(ax, disk.sectors);
    dx := Wrap16(dx + 1);
    var cx: u16 := dx;
    dx := 0;
    ax, dx := Div(ax, disk.heads);
    Divided(disk, lba, ax, dx, cx);
    PackedParts(Chs(ax, dx, cx));
    var dh := Low(dx);
    var ch := Low(ax);
    var ah := Shl6(High(ax));
    OrBelow64(High(ax), Low(cx));
    var cl := Or8(Low(cx), ah);
    r := Registers(ch, cl, dh);
  }

  lemma SectorsBounded(disk: Disk, lba: u16)
    requires disk.Valid()
    ensures 0 <= lba as int % disk.sectors < disk.sectors && Low(Wrap16(lba as int % disk.sectors + 1)) < 0x40
  {
  }

  /** The results of the two divisions are the parts of the address. */
  lemma Divided(disk: Disk, lba: u16, ax: u16, dx: u16, cx: u16)
    requires disk.Valid()
    requires ax == lba as int / disk.sectors / disk.heads && dx == lba as int / disk.sectors % disk.heads
    requires cx == Wrap16(lba as int % disk.sectors + 1)
    ensures ChsOf(disk, lba) == Chs(ax, dx, cx) && cx < 0x40
  {
  }

  lemma PackedParts(a: Chs)
    requires a.sector < 0x40
    ensures Packed(a) == Registers(Low(a.cylinder), High(a.cylinder) % 4 * 0x40 + Low(a.sector), Low(a.head))
  {
  }

  /** `div`: AX divided, quotient in AX and remainder in DX. */
  method Div(ax: u16, n: nat) returns (quotient: u16, remainder: u16)
    requires 0 < n < 0x1_0000
    ensures quotient == ax as int / n && remainder == ax as int % n
  {
    DivAtMost(ax, n);
    quotient, remainder := ax / n, ax % n;
  }

  // ---------------------------------------------------------------- drive parameters

  /** The unpacking of what INT 13h, function 8, returns: largest cylinder, head and sector numbers. */
  method DriveParameters(r: Registers) returns (cylinders: u16, heads: u16, sectors: u16)
    ensures cylinders == Addressed(r).cylinder + 1
    ensures heads == r.dh + 1
    ensures sectors == r.cl % 0x40
  {
    var bl := r.ch;
    var bh := r.cl / 0x40;
    cylinders := Wrap16(bl + 0x100 * bh as int + 1);
    var ch, cl := 0, r.cl;
    cl := cl % 0x40;
    sectors := cl as int + 0x100 * ch;
    cl := r.dh;
    heads := Wrap16(cl as int + 0x100 * ch + 1);
  }

  /** A drive that reports its last cylinder, head and sector is described with its true counts. */
  lemma GeometryArrives(cylinders: nat, heads: nat, sectors: nat)
    requires 1 <= cylinders <= 1024 && 1 <= heads <= 256 && 1 <= sectors <= 63
    ensures var r := Packed(Chs(cylinders - 1, heads - 1, sectors));
            Addressed(r).cylinder + 1 == cylinders && r.dh + 1 == heads && r.cl % 0x40 == sectors
  {
    PackedReadsBackIff(Chs(cylinders - 1, heads - 1, sectors));
  }

  // ---------------------------------------------------------------- reading with retries

  /** Does attempt `i`, 0 for success, come about?  All before it failed and were followed by a good reset. */
  predicate Reached(read: nat -> nat, resetOk: nat -> bool, i: nat) {
    forall j: nat :: j < i ==> read(j) != 0 && resetOk(j)
  }

  /**
   Up to three reads with a reset after each failure: succeeds exactly when one of
   the three attempts is reached and succeeds.
   */
  method ReadSectors(read: nat -> nat, resetOk: nat -> bool) returns (result: nat)
    ensures result == 0 <==> exists i: nat :: i < 3 && Reached(read, resetOk, i) && read(i) == 0
  {
    result := 0;
    var i := 0;
    while i < 3
      invariant 0 <= i <= 3
      invariant Reached(read, resetOk, i)
      invariant i > 0 ==> result == read(i - 1)
    {
      result := read(i);
      if result != 0 {
        if !resetOk(i) {
          result := 1;
          return;
        }
      } else {
        return;
      }
      i := i + 1;
    }
  }
}
