/** Sector addresses as cylinder, head and sector: the loader's BIOS reads and the partition tool's packed form. */
module Geometry {
  import opened Words
  import opened Bits

  datatype Chs = Chs(cylinder: nat, head: nat, sector: nat)

  // What the BIOS reports of a drive. Sectors are numbered from one and have six bits, heads have eight.
  datatype Disk = Disk(secs: nat, heads: nat) {
    predicate Valid() {
      1 <= secs <= 63 && 1 <= heads <= 256
    }

    function Track(chs: Chs): nat {
      MulMonotone(0, chs.cylinder, heads);
      chs.cylinder * heads + chs.head
    }

    /** The address of a sector, in the layout the BIOS uses. */
    function Lba(chs: Chs): int {
      Track(chs) * secs + (chs.sector - 1)
    }
  }

  /** Six bits hold a sector number from one on, eight bits a head from zero on. */
  lemma DriveLimits(secs: nat, heads: nat)
    ensures Disk(secs, heads).Valid() <==> 0 < secs < 0x40 && 0 <= heads - 1 < 0x100
  {
  }

  /** The triple of a sector on the drive, whatever its cylinder: division in the loader's order. */
  function Locate(disk: Disk, lba: nat): (chs: Chs)
    requires disk.Valid()
    ensures chs.head < disk.heads && 1 <= chs.sector <= disk.secs && disk.Lba(chs) == lba
  {
    var track := Quotient(lba, disk.secs);
    var chs := Chs(Quotient(track, disk.heads), track % disk.heads, lba % disk.secs + 1);
    assert disk.Track(chs) == track;
    chs
  }

  function Quotient(k: nat, n: nat): (q: nat)
    requires n > 0
    ensures k == q * n + k % n && k % n < n
  {
    Division(k, n);
    k / n
  }

  /** `lba_to_chs` of the loader; the results are stored in 16 bits each. */
  function LbaToChs(disk: Disk, lba: Word): Chs
    requires disk.Valid()
  {
    var chs := Locate(disk, lba);
    Chs(chs.cylinder % 0x1_0000, chs.head % 0x1_0000, chs.sector % 0x1_0000)
  }

  /** The cylinder is in range exactly if the sector is. */
  lemma CylinderBound(secs: nat, heads: nat, lba: nat, cylinders: nat)
    requires secs > 0 && heads > 0
    ensures lba / secs / heads < cylinders <==> lba < cylinders * heads * secs
  {
    var tracks := cylinders * heads;
    QuotientBelow(lba, secs, tracks);
    QuotientBelow(lba / secs, heads, cylinders);
  }

  lemma LocateCylinder(disk: Disk, lba: nat)
    requires disk.Valid()
    ensures Locate(disk, lba).cylinder == lba / disk.secs / disk.heads
  {
  }

  lemma QuotientBelow(k: nat, n: nat, m: nat)
    requires n > 0
    ensures k / n < m <==> k < m * n
  {
    Division(k, n);
    if k / n < m {
      MulMonotone(k / n + 1, m, n);
    } else {
      MulMonotone(m, k / n, n);
    }
  }

  /** Only one triple within the drive's bounds has a given address. */
  lemma AddressIsUnique(disk: Disk, a: Chs, b: Chs)
    requires disk.Valid() && disk.Lba(a) == disk.Lba(b)
    requires a.head < disk.heads && b.head < disk.heads
    requires 1 <= a.sector <= disk.secs && 1 <= b.sector <= disk.secs
    ensures a == b
  {
    hide Disk.Track;
    SamePlace(disk.Track(a), a.sector - 1, disk.Track(b), b.sector - 1, disk.secs);
    SameTrack(disk, a, b);
  }

  lemma SameTrack(disk: Disk, a: Chs, b: Chs)
    requires disk.Track(a) == disk.Track(b) && a.head < disk.heads && b.head < disk.heads
    ensures a.cylinder == b.cylinder && a.head == b.head
  {
    SamePlace(a.cylinder, a.head, b.cylinder, b.head, disk.heads);
  }

  // ----- the registers of INT 13h, AH = 02h

  datatype Registers = Registers(ch: Byte, cl: Byte, dh: Byte)

  /** The register set-up of `disk_read`. The two bytes that are or-ed turn out to have no bit in common. */
  method PackRegisters(cylinder: Half, sector: Half, head: Half) returns (r: Registers)
    ensures r == Packed(cylinder, sector, head)
  {
    hide Or;
    var ch: Byte := cylinder % 0x100;
    var cl: Byte := cylinder / 0x100;
    cl := cl * 0x40 % 0x100;
    var al: Byte := sector % 0x40;
    PackedOr(cylinder / 0x100, al);
    cl := Or(cl, al);
    r := Registers(ch, cl, head % 0x100);
  }

  lemma PackedOr(high: Byte, low: nat)
    requires low < 0x40
    ensures Or(high * 0x40 % 0x100, low) == high % 4 * 0x40 + low < 0x100
  {
    hide Or, Pow;
    DivMod(high * 0x40, 0x100, high / 4, high % 4 * 0x40);
    SixBits();
    OrIsSum(high % 4, low, 6);
  }

  lemma SixBits()
    ensures Pow(2, 6) == 0x40
  {
    assert Pow(2, 3) == 8;
    PowSum(2, 3, 3);
  }

  function Packed(cylinder: Half, sector: Half, head: Half): Registers {
    Registers(cylinder % 0x100, cylinder / 0x100 % 4 * 0x40 + sector % 0x40, head % 0x100)
  }

  /** Cylinder 0x3A5, sector 0x2B and head 7, as the BIOS expects them. */
  lemma PackedInstance()
    ensures Packed(0x3A5, 0x2B, 7) == Registers(0xA5, 0xEB, 7)
    ensures Unpacked(Registers(0xA5, 0xEB, 7)) == Chs(0x3A5, 7, 0x2B)
  {
  }

  /** How the BIOS reads them: the two high bits of CL extend CH. */
  function Unpacked(r: Registers): Chs {
    Chs(r.cl / 0x40 * 0x100 + r.ch, r.dh, r.cl % 0x40)
  }

  lemma UnpackPacked(cylinder: Half, sector: Half, head: Half)
    ensures Unpacked(Packed(cylinder, sector, head)) == Chs(cylinder % 0x400, head % 0x100, sector % 0x40)
  {
    var high: nat, low: nat, r := cylinder / 0x100 % 4, sector % 0x40, Packed(cylinder, sector, head);
    assert r.cl / 0x40 == high && r.cl % 0x40 == low by {
      DivMod(r.cl, 0x40, high, low);
    }
    TenBits(cylinder);
  }

  lemma TenBits(n: nat)
    ensures n % 0x400 == n / 0x100 % 4 * 0x100 + n % 0x100
  {
    var q, high, low := n / 0x100 / 4, n / 0x100 % 4, n % 0x100;
    assert n == q * 0x400 + (high * 0x100 + low);
    DivMod(n, 0x400, q, high * 0x100 + low);
  }

  /** The address that the BIOS derives from the registers of `disk_read`. */
  function BiosLba(disk: Disk, lba: Word): int
    requires disk.Valid()
  {
    var chs := LbaToChs(disk, lba);
    disk.Lba(Unpacked(Packed(chs.cylinder, chs.sector, chs.head)))
  }

  lemma AskedTriple(cylinder: nat, sector: nat, head: nat)
    requires head < 0x100 && sector < 0x40
    ensures Unpacked(Packed(cylinder % 0x1_0000, sector % 0x1_0000, head % 0x1_0000))
         == Chs(cylinder % 0x400, head, sector)
  {
    hide Packed, Unpacked;
    UnpackPacked(cylinder % 0x1_0000, sector % 0x1_0000, head % 0x1_0000);
    Truncated(cylinder);
    Truncated(sector);
    assert sector % 0x1_0000 == sector && head % 0x1_0000 == head;
  }

  lemma Truncated(n: nat)
    ensures n % 0x1_0000 % 0x400 == n % 0x400
  {
    var q, r := n / 0x1_0000, n % 0x1_0000;
    DivMod(n, 0x400, 0x40 * q + r / 0x400, r % 0x400);
  }

  /** The BIOS is asked for the sector that was meant exactly if it lies below cylinder 1024. */
  lemma BiosReadsSector(disk: Disk, lba: Word)
    requires disk.Valid()
    ensures BiosLba(disk, lba) == lba <==> lba < 0x400 * disk.heads * disk.secs
  {
    hide Locate, Disk.Lba, Packed, Unpacked;
    var chs := Locate(disk, lba);
    AskedTriple(chs.cylinder, chs.sector, chs.head);
    AskedInRange(disk, chs, lba);
    LocateCylinder(disk, lba);
    CylinderBound(disk.secs, disk.heads, lba, 0x400);
  }

  lemma AskedInRange(disk: Disk, chs: Chs, lba: nat)
    requires disk.Valid() && chs.head < disk.heads && 1 <= chs.sector <= disk.secs && disk.Lba(chs) == lba
    ensures disk.Lba(Chs(chs.cylinder % 0x400, chs.head, chs.sector)) == lba <==> chs.cylinder < 0x400
  {
    hide Disk.Lba;
    var read := Chs(chs.cylinder % 0x400, chs.head, chs.sector);
    if disk.Lba(read) == lba {
      AddressIsUnique(disk, read, chs);
    }
  }

  // ----- the packed form in a partition table entry

  const SECTORS_PER_TRACK := 63
  const HEADS := 16

  // `sec_cyl`: bits 0-5 are the sector, bits 6-15 the cylinder.
  datatype PackedChs = PackedChs(head: Byte, secCyl: Half)

  function TableChs(lba: Word): PackedChs {
    var cylinder: int := lba / SECTORS_PER_TRACK / HEADS;
    PackedChs(lba / SECTORS_PER_TRACK % HEADS, Or((lba % SECTORS_PER_TRACK + 1) % 0x40, cylinder * 0x40) % 0x1_0000)
  }

  function TableLba(chs: PackedChs): int {
    Disk(SECTORS_PER_TRACK, HEADS).Lba(Chs(chs.secCyl / 0x40, chs.head, chs.secCyl % 0x40))
  }

  /** The packed form gives the address back up to a multiple of 1024 cylinders, hence exactly below them. */
  lemma TableChsRoundTrip(lba: Word)
    ensures TableLba(TableChs(lba)) == lba % 1_032_192
    ensures TableLba(TableChs(lba)) == lba <==> lba < 1_032_192
  {
    hide TableChs;
    var track, s := lba / 63, lba % 63;
    var cylinder, h := track / 16, track % 16;
    var m, c := cylinder / 0x400, cylinder % 0x400;
    TableChsIs(lba, cylinder, h, s);
    CylinderBits(cylinder, s + 1);
    assert TableLba(TableChs(lba)) == (c * 16 + h) * 63 + s;
    DivMod(lba, 1_032_192, m, (c * 16 + h) * 63 + s);
  }

  /** Sector 1000 of the disk is sector 56 of the sixteenth track, in cylinder 0, and 2000 is in cylinder 1. */
  lemma TableChsInstance()
    ensures TableChs(1000) == PackedChs(15, 56) && TableChs(2000) == PackedChs(15, 0x40 + 48)
  {
    hide TableChs;
    TableChsIs(1000, 0, 15, 55);
    TableChsIs(2000, 1, 15, 47);
  }

  lemma TableChsIs(lba: Word, cylinder: nat, h: Byte, s: nat)
    requires cylinder == lba / 63 / 16 && h == lba / 63 % 16 && s == lba % 63
    ensures TableChs(lba) == PackedChs(h, cylinder % 0x400 * 0x40 + (s + 1))
  {
    hide Or;
    CylinderOr(cylinder, s + 1);
    CylinderBits(cylinder, s + 1);
  }

  /** The two parts of `sec_cyl` have no bit in common, so that cutting it to 16 bits cuts the cylinder. */
  lemma CylinderOr(cylinder: nat, sector: nat)
    requires 0 < sector < 0x40
    ensures Or(sector, cylinder * 0x40) % 0x1_0000 == cylinder * 0x40 % 0x1_0000 + sector
  {
    hide Or, Pow;
    SixBits();
    OrCommutes(sector, cylinder * 0x40);
    OrIsSum(cylinder, sector, 6);
    CylinderCut(cylinder, sector);
  }

  lemma CylinderCut(cylinder: nat, sector: nat)
    requires sector < 0x40
    ensures (cylinder * 0x40 + sector) % 0x1_0000 == cylinder * 0x40 % 0x1_0000 + sector
  {
    var m, c := cylinder / 0x400, cylinder % 0x400;
    assert cylinder == m * 0x400 + c;
    DivMod(cylinder * 0x40, 0x1_0000, m, c * 0x40);
    DivMod(cylinder * 0x40 + sector, 0x1_0000, m, c * 0x40 + sector);
  }

  lemma CylinderBits(cylinder: nat, sector: nat)
    requires sector < 0x40
    ensures var c := cylinder % 0x400;
            && cylinder * 0x40 % 0x1_0000 == c * 0x40
            && (c * 0x40 + sector) / 0x40 == c && (c * 0x40 + sector) % 0x40 == sector
  {
    var m, c := cylinder / 0x400, cylinder % 0x400;
    DivMod(cylinder * 0x40, 0x1_0000, m, c * 0x40);
    DivMod(c * 0x40 + sector, 0x40, c, sector);
  }
}
