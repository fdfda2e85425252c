/** int13_cdemu of the system BIOS (sw/sysbios/rombios.c): a floppy or hard disk emulated from an
    image on a CD, 512-byte sectors read through 2048-byte ones. */
module CdEmulation {
  import opened Basics
  import opened AtaDrive
  import opened AtaDataIo
  import opened AtapiPacket
  import opened DiskGeometry

  const SECTOR := 512

  /** What the boot code stores for the four kinds of image. */
  predicate ImageGeometry(g: Geometry) {
    g.cylinders < 0x1_0000 && g.heads <= 0x100 && g.spt <= 0x3F
  }

  /** The sector number as the BIOS computes it: `sector - 1` is a 16-bit subtraction. */
  function VirtualLba(g: Geometry, cylinder: nat, head: nat, sector: nat): nat {
    (cylinder * g.heads + head) * g.spt + (sector + 0xFFFF) % 0x1_0000
  }

  /** The checks made before a read. */
  predicate Checked(g: Geometry, ch: nat, cl: nat, dh: nat) {
    cl % 0x40 <= g.spt && Cylinder(ch, cl) < g.cylinders && dh < g.heads
  }

  /** Where a checked read begins: at the sector meant exactly when that is not sector 0, which passes the
      checks, and then within the image. Sector 0 stands for 65535 sectors after the first of its track. */
  lemma ReadBegins(g: Geometry, ch: nat, cl: nat, dh: nat)
    requires Checked(g, ch, cl, dh)
    ensures var vlba := VirtualLba(g, Cylinder(ch, cl), dh, cl % 0x40);
            if cl % 0x40 >= 1 then vlba == SectorOf(g, Cylinder(ch, cl), dh, cl % 0x40) && vlba < Sectors(g)
            else vlba == SectorOf(g, Cylinder(ch, cl), dh, 1) + 0xFFFF && vlba >= 0xFFFF
    ensures VirtualLba(g, Cylinder(ch, cl), dh, cl % 0x40) == SectorOf(g, Cylinder(ch, cl), dh, cl % 0x40)
       <==> cl % 0x40 >= 1
  {
    var base: nat := (Cylinder(ch, cl) * g.heads + dh) * g.spt;
    if cl % 0x40 >= 1 { SectorInRange(g, Cylinder(ch, cl), dh, cl % 0x40); }
  }

  lemma Compared(vlba: nat, sectors: nat, sector: nat)
    requires sectors <= 0xFFFF && (if sector >= 1 then vlba < sectors else vlba >= 0xFFFF)
    ensures vlba < sectors <==> sector >= 1
  {
  }

  /** In an image of at most 65535 sectors, as every diskette is, a checked read begins within the image
      exactly when its sector is not 0. */
  lemma ReadBeginsInImage(g: Geometry, ch: nat, cl: nat, dh: nat)
    requires Checked(g, ch, cl, dh) && Sectors(g) <= 0xFFFF
    ensures VirtualLba(g, Cylinder(ch, cl), dh, cl % 0x40) < Sectors(g) <==> cl % 0x40 >= 1
  {
    ReadBegins(g, ch, cl, dh);
    Compared(VirtualLba(g, Cylinder(ch, cl), dh, cl % 0x40), Sectors(g), cl % 0x40);
  }

  lemma VirtualLbaBound(g: Geometry, cylinder: nat, head: nat, sector: nat)
    requires ImageGeometry(g) && cylinder < 0x400 && head < 0x100 && sector <= 0x3F
    ensures VirtualLba(g, cylinder, head, sector) < 0x200_0000
  {
    var track := cylinder * g.heads + head;
    MulMono(cylinder, 0x3FF, g.heads);
    MulMono(g.heads, 0x100, 0x3FF);
    MulMono(track, 0x3FF * 0x100 + 0xFF, g.spt);
    MulMono(g.spt, 0x3F, 0x3FF * 0x100 + 0xFF);
  }

  /** The 2048-byte sectors from slba to elba hold the n wanted ones, `before` 512-byte sectors in. */
  lemma SectorsCover(vlba: nat, n: nat)
    requires n > 0
    ensures var slba, elba, before := vlba / 4, (vlba + n - 1) / 4, vlba % 4;
            && CD_SECTOR * slba + SECTOR * before == SECTOR * vlba
            && SECTOR * before + SECTOR * n <= CD_SECTOR * (elba - slba + 1)
            && CD_SECTOR * (elba - slba + 1) < SECTOR * before + SECTOR * n + CD_SECTOR
  {
  }

  /** READ (10) for `count` sectors from `lba`. */
  function ReadPacket(lba: nat, count: nat): (p: seq<byte>)
    requires lba < 0x1_0000_0000 && count < 0x1_0000
    ensures |p| == 12 && p[0] == READ_10 && PacketLba(p) == lba && PacketCount(p) == count
    ensures 0x100_0000 * p[2] as nat + 0x1_0000 * p[3] as nat + 0x100 * p[4] as nat + p[5] as nat == lba
    ensures p[0] == 0x28 && 0x100 * p[7] as nat + p[8] as nat == count
  {
    var w1 := lba / 0x100;
    var w2 := w1 / 0x100;
    assert lba == 0x100 * w1 + lba % 0x100 && w1 == 0x100 * w2 + w1 % 0x100 && w2 == 0x100 * (w2 / 0x100) + w2 % 0x100;
    [READ_10, 0, (w2 / 0x100) as byte, (w2 % 0x100) as byte, (w1 % 0x100) as byte, (lba % 0x100) as byte,
     0, (count / 0x100) as byte, (count % 0x100) as byte, 0, 0, 0]
  }

  /** The packet for n image sectors from vlba on. */
  function ImagePacket(ilba: nat, vlba: nat, n: nat): (p: seq<byte>)
    requires 0 < n < 0x100 && vlba < 0x200_0000 && ilba + 0x80_0000 <= 0x1_0000_0000
    ensures |p| == 12 && p[0] == READ_10 && PacketLba(p) == ilba + vlba / 4
    ensures PacketCount(p) == (vlba + n - 1) / 4 - vlba / 4 + 1
  {
    ReadPacket(ilba + vlba / 4, (vlba + n - 1) / 4 - vlba / 4 + 1)
  }

  /** How the packet command ends: what the drive's statuses make of it. */
  function PacketStatus(drive: CdDrive, packet: seq<byte>, polls: nat): nat {
    var refusal := Refusal(drive.statusAt, polls);
    if refusal.Some? then refusal.value else PlanEnd(drive.planFor(packet))
  }

  /** Out of the large sectors the window keeps the n small ones, from the right place of the medium. */
  lemma WholeWindow(ilba: nat, vlba: nat, n: nat)
    requires n > 0
    ensures var total := CD_SECTOR * ((vlba + n - 1) / 4 - vlba / 4 + 1);
            Kept(total, vlba % 4 * 512, n * 512) == SECTOR * n
    ensures Padded(SECTOR * n) == SECTOR * n && vlba % 4 * 512 % 2 == 0
    ensures CD_SECTOR * (ilba + vlba / 4) + vlba % 4 * 512 == CD_SECTOR * ilba + SECTOR * vlba
  {
    SectorsCover(vlba, n);
  }

  lemma WindowIs(m0: seq<byte>, m: seq<byte>, here: nat, at: nat, medium: nat -> byte, next: int, from: int, kept: nat)
    requires Window(m0, m, here, medium, next, kept) && here == at && next == from && kept % 2 == 0
    ensures at + kept <= |m0| && m == Splice(m0, at, Stretch(medium, from, kept))
  {
  }

  lemma OutsideWindow(m0: seq<byte>, m: seq<byte>, at: nat, medium: nat -> byte, from: int, kept: nat, limit: nat)
    requires Window(m0, m, at, medium, from, kept) && kept <= limit && limit % 2 == 0
    ensures |m| == |m0| && forall i :: 0 <= i < |m0| && !(at <= i < at + limit) ==> m[i] == m0[i]
  {
  }

  /** Sends the packet for the large sectors around the window, and keeps the window. */
  method Fetch(drive: CdDrive, mem: array<byte>, pio32: bool, packet: seq<byte>, n: nat, segment: nat, offset: nat,
               ghost ilba: nat, vlba: nat) returns (status: nat)
    requires mem.Length == ONE_MB && drive.Honest() && 0 < n < 0x100
    requires segment < 0x1_0000 && offset < 0x1_0000 && segment * 16 + offset + SECTOR * n < ONE_MB
    requires |packet| == 12 && packet[0] == READ_10 && PacketLba(packet) == ilba + vlba / 4
    requires PacketCount(packet) == (vlba + n - 1) / 4 - vlba / 4 + 1
    modifies drive, drive.port`cursor, mem
    ensures status == PacketStatus(drive, packet, old(drive.polls))
    ensures status == 0 ==>
      mem[..] == Splice(old(mem[..]), segment * 16 + offset,
                        Stretch(drive.port.medium, CD_SECTOR * ilba + SECTOR * vlba, SECTOR * n))
    ensures forall i :: 0 <= i < ONE_MB && !(segment * 16 + offset <= i < segment * 16 + offset + SECTOR * n) ==>
      mem[i] == old(mem[i])
  {
    WholeWindow(ilba, vlba, n);
    assert drive.Start(packet) == CD_SECTOR * (ilba + vlba / 4);
    ghost var m0, at, from := mem[..], segment * 16 + offset, drive.Start(packet) + vlba % 4 * 512;
    var trsfbytes;
    status, trsfbytes := AtaCmdPacket(drive, mem, pio32, packet, vlba % 4 * 512, n * 512, DataIn, segment, offset);
    OutsideWindow(m0, mem[..], at, drive.port.medium, from, trsfbytes, n * 512);
    if status == 0 {
      WindowIs(m0, mem[..], at, at, drive.port.medium, from, CD_SECTOR * ilba + SECTOR * vlba, SECTOR * n);
    }
  }

  /** Reads n sectors of the image from sector vlba on: asks the CD for the large sectors around them
      and keeps the middle. */
  method ReadImage(drive: CdDrive, mem: array<byte>, pio32: bool, ilba: nat, vlba: nat, n: nat, es: nat, bx: nat)
    returns (status: nat)
    requires mem.Length == ONE_MB && drive.Honest() && 0 < n < 0x100
    requires es < 0x1_0000 && bx < 0x1_0000 && es * 16 + bx + SECTOR * n < ONE_MB
    requires vlba < 0x200_0000 && ilba + 0x80_0000 <= 0x1_0000_0000
    modifies drive, drive.port`cursor, mem
    ensures status == PacketStatus(drive, ImagePacket(ilba, vlba, n), old(drive.polls))
    ensures status == 0 ==>
      mem[..] == Splice(old(mem[..]), es * 16 + bx,
                        Stretch(drive.port.medium, CD_SECTOR * ilba + SECTOR * vlba, SECTOR * n))
    ensures forall i :: 0 <= i < ONE_MB && !(es * 16 + bx <= i < es * 16 + bx + SECTOR * n) ==> mem[i] == old(mem[i])
  {
    var slba := vlba / 4;
    var elba := (vlba + n - 1) / 4;
    var count := elba - slba + 1;
    var packet := ReadPacket(ilba + slba, count);
    assert (es + bx / 16) * 16 + bx % 16 == es * 16 + bx;
    status := Fetch(drive, mem, pio32, packet, n, es + bx / 16, bx % 16, ilba, vlba);
  }

  /** Functions 02h and 04h. A read that passes the checks succeeds exactly when the drive takes the
      packet, completes it and is idle at the end. Then it has put exactly the bytes of the requested
      sectors of the image, which starts at CD sector ilba, into memory at ES:BX, and nothing else. With
      sector 0 they are bytes of the CD from behind the image, if that has at most 65535 sectors. */
  method Read(drive: CdDrive, mem: array<byte>, pio32: bool, g: Geometry, ilba: nat,
              ah: nat, al: nat, ch: nat, cl: nat, dh: nat, es: nat, bx: nat)
    returns (ahOut: nat, alOut: nat, carry: bool)
    requires mem.Length == ONE_MB && drive.Honest() && ImageGeometry(g)
    requires ah == 0x02 || ah == 0x04
    requires al < 0x100 && ch < 0x100 && cl < 0x100 && dh < 0x100 && es < 0x1_0000 && bx < 0x1_0000
    requires es * 16 + bx + SECTOR * al < ONE_MB && ilba + 0x80_0000 <= 0x1_0000_0000
    modifies drive, drive.port`cursor, mem
    ensures carry <==> ahOut != 0
    ensures forall i :: 0 <= i < ONE_MB && !(es * 16 + bx <= i < es * 16 + bx + SECTOR * al) ==> mem[i] == old(mem[i])
    ensures (carry && ahOut == 2) || alOut == al
    ensures al == 0 ==> !carry && mem[..] == old(mem[..])
    ensures al > 0 && !Checked(g, ch, cl, dh) ==> ahOut == 1 && mem[..] == old(mem[..])
    ensures al > 0 && Checked(g, ch, cl, dh) && ah == 0x04 ==> !carry && mem[..] == old(mem[..])
    ensures al > 0 && Checked(g, ch, cl, dh) && ah == 0x02 ==>
      var vlba := VirtualLba(g, Cylinder(ch, cl), dh, cl % 0x40);
      vlba < 0x200_0000
      && (carry <==> !(Taken(drive.statusAt, old(drive.polls)) && Done(drive.planFor(ImagePacket(ilba, vlba, al)))))
      && (if cl % 0x40 >= 1 then vlba == SectorOf(g, Cylinder(ch, cl), dh, cl % 0x40) && vlba < Sectors(g)
          else Sectors(g) <= 0xFFFF ==> vlba >= Sectors(g))
      && if carry then ahOut == 2 && alOut == 0
      else
        var from := CD_SECTOR * ilba + SECTOR * vlba;
        alOut == al && mem[..] == Splice(old(mem[..]), es * 16 + bx, Stretch(drive.port.medium, from, SECTOR * al))
    ensures forall c, s :: 0 <= c < 0x400 && 0 <= s < 0x40 && Registers(c, s) == (ch, cl) ==>
      SectorOf(g, Cylinder(ch, cl), dh, cl % 0x40) == (c * g.heads + dh) * g.spt + s - 1
  {
    forall c, s | 0 <= c < 0x400 && 0 <= s < 0x40 && Registers(c, s) == (ch, cl)
      ensures SectorOf(g, Cylinder(ch, cl), dh, cl % 0x40) == (c * g.heads + dh) * g.spt + s - 1
    {
      RegistersName(c, s);
    }
    alOut := al;
    var sector := cl % 0x40;
    var cylinder := Cylinder(ch, cl);
    var nbsectors := al;
    if nbsectors == 0 { return 0, alOut, false; }
    if sector > g.spt || cylinder >= g.cylinders || dh >= g.heads { return 1, alOut, true; }
    if ah == VERIFY_FUNCTION { return 0, alOut, false; }
    VirtualLbaBound(g, cylinder, dh, sector);
    ReadBegins(g, ch, cl, dh);
    if Sectors(g) <= 0xFFFF { ReadBeginsInImage(g, ch, cl, dh); }
    CodesMean(drive.statusAt, drive.polls, drive.planFor(ImagePacket(ilba, VirtualLba(g, cylinder, dh, sector), al)));
    var status := ReadImage(drive, mem, pio32, ilba, VirtualLba(g, cylinder, dh, sector), nbsectors, es, bx);
    if status != 0 { return 2, 0, true; }
    return 0, alOut, false;
  }
}
