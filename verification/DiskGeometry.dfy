/** Cylinder, head and sector addressing of hard disks in the system BIOS (sw/sysbios/rombios.c):
    the translation made at detection and functions 02h and 03h of INT 13h built on it. */
module DiskGeometry {
  import opened Basics
  import opened AtaDrive
  import opened AtaDataIo

  datatype Translation = NoTranslation | Lba | Large | Rechs

  datatype Geometry = Geometry(cylinders: nat, heads: nat, spt: nat)

  function Sectors(g: Geometry): nat {
    g.cylinders * g.heads * g.spt
  }

  // ------------------------------------------------------------------ translation

  /** Heads for 1024 cylinders' share of a capacity in tracks. */
  function HeadsFor(quotient: nat): (heads: nat)
    ensures 16 <= heads <= 255 && (heads == 255 <==> quotient > 128)
    ensures quotient <= 128 ==> heads in {16, 32, 64, 128} && quotient <= heads && (heads == 16 || heads < 2 * quotient)
  {
    if quotient > 128 then 255
    else if quotient > 64 then 128
    else if quotient > 32 then 64
    else if quotient > 16 then 32
    else 16
  }

  /** The division's result is cut to 16 bits first. */
  function CapacityHeads(tracks: nat): (heads: nat)
    ensures 16 <= heads <= 255
  {
    HeadsFor(tracks / 1024 % 0x1_0000)
  }

  /** Cylinders and heads after the bit-shift loop. */
  function Shifted(c: nat, h: nat): (nat, nat)
    decreases c
  {
    if c <= 1024 then (c, h)
    else
      var h' := 2 * h % 0x1_0000;
      if h' > 127 then (c / 2, h') else Shifted(c / 2, h')
  }

  /** Cylinders and heads with fifteen heads instead of sixteen. */
  function Fifteen(c: nat, h: nat): (nat, nat) {
    if h == 16 then ((if c > 61439 then 61439 else c) * 16 / 15, 15) else (c, h)
  }

  function Clipped(cylinders: nat): nat {
    if cylinders > 1024 then 1024 else cylinders
  }

  /** The logical geometry of a drive. */
  function Logical(physical: Geometry, sectorsLow: nat, translation: Translation): Geometry {
    var tracks := sectorsLow / 63;
    var fifteen := Fifteen(physical.cylinders, physical.heads);
    match translation
    case NoTranslation => Geometry(Clipped(physical.cylinders), physical.heads, physical.spt)
    case Lba => Geometry(Clipped(tracks / CapacityHeads(tracks) % 0x1_0000), CapacityHeads(tracks), 63)
    case Large =>
      var shifted := Shifted(physical.cylinders, physical.heads);
      Geometry(Clipped(shifted.0), shifted.1, physical.spt)
    case Rechs =>
      var shifted := Shifted(fifteen.0, fifteen.1);
      Geometry(Clipped(shifted.0), shifted.1, physical.spt)
  }

  /** ata_detect's choice. Every division is cut to the 16 bits of its variable. */
  method Translate(physical: Geometry, sectorsLow: nat, translation: Translation) returns (logical: Geometry)
    requires physical.cylinders < 0x1_0000 && physical.heads < 0x1_0000 && physical.spt < 0x1_0000
    requires sectorsLow < 0x1_0000_0000
    ensures logical == Logical(physical, sectorsLow, translation)
  {
    var cylinders, heads, spt := physical.cylinders, physical.heads, physical.spt;
    match translation {
      case NoTranslation =>
      case Lba =>
        spt := 63;
        cylinders, heads := FromCapacity(sectorsLow / 63);
      case Large =>
        cylinders, heads := Shift(cylinders, heads);
      case Rechs =>
        cylinders, heads := FifteenHeads(cylinders, heads);
        cylinders, heads := Shift(cylinders, heads);
    }
    if cylinders > 1024 {
      cylinders := 1024;
    }
    logical := Geometry(cylinders, heads, spt);
  }

  method FromCapacity(tracks: nat) returns (cylinders: nat, heads: nat)
    ensures heads == CapacityHeads(tracks) && cylinders == tracks / heads % 0x1_0000
  {
    heads := tracks / 1024 % 0x1_0000;
    if heads > 128 { heads := 255; }
    else if heads > 64 { heads := 128; }
    else if heads > 32 { heads := 64; }
    else if heads > 16 { heads := 32; }
    else { heads := 16; }
    cylinders := tracks / heads % 0x1_0000;
  }

  method FifteenHeads(c: nat, h: nat) returns (cylinders: nat, heads: nat)
    requires c < 0x1_0000 && h < 0x1_0000
    ensures (cylinders, heads) == Fifteen(c, h) && cylinders < 0x1_0000 && heads < 0x1_0000
  {
    cylinders, heads := c, h;
    if heads == 16 {
      if cylinders > 61439 { cylinders := 61439; }
      heads := 15;
      cylinders := cylinders * 16 / 15 % 0x1_0000;
    }
  }

  /** The bit-shift loop: fewer cylinders, more heads, until the cylinders fit or the heads run out. */
  method Shift(c: nat, h: nat) returns (cylinders: nat, heads: nat)
    requires c < 0x1_0000 && h < 0x1_0000
    ensures (cylinders, heads) == Shifted(c, h)
  {
    cylinders, heads := c, h;
    while cylinders > 1024
      invariant Shifted(cylinders, heads) == Shifted(c, h)
      decreases cylinders
    {
      cylinders := cylinders / 2;
      heads := 2 * heads % 0x1_0000;
      if heads > 127 { break; }
    }
  }

  // ------------------------------------------------------------------ what the choice keeps

  lemma HalveAndDouble(c: nat, h: nat)
    ensures (c / 2) * (2 * h) <= c * h
    ensures c * h + h <= (c / 2 + 1) * (2 * h) == (c / 2) * (2 * h) + 2 * h
  {
    var half := c / 2;
    assert half * (2 * h) == (2 * half) * h && (half + 1) * (2 * h) == (2 * half + 2) * h;
    assert (half + 1) * (2 * h) == half * (2 * h) + 2 * h && (c + 1) * h == c * h + h;
    MulMono(2 * half, c, h);
    MulMono(c + 1, 2 * half + 2, h);
  }

  /** Shifting never gains sectors, and from heads that fit seven bits it loses less than one of the
      resulting cylinders. */
  lemma {:induction false} ShiftedFits(c: nat, h: nat)
    requires h < 0x1_0000
    ensures var (c', h') := Shifted(c, h);
            && c' <= c && h' < 0x1_0000 && c' * h' <= c * h
            && (c' <= 1024 || h' > 127)
            && (h <= 127 ==> h' <= 254 && c * h + h <= (c' + 1) * h')
    decreases c
  {
    if c > 1024 {
      var h' := 2 * h % 0x1_0000;
      HalveAndDouble(c, h);
      MulMono(h', 2 * h, c / 2);
      if h' <= 127 {
        ShiftedFits(c / 2, h');
      }
    }
  }

  /** Fifteen heads with a sixteenth more cylinders never gain sectors. */
  lemma FifteenFits(c: nat, h: nat)
    requires c < 0x1_0000 && h < 0x1_0000
    ensures var (c', h') := Fifteen(c, h); c' < 0x1_0000 && h' < 0x1_0000 && c' * h' <= c * h
  {
    if h == 16 && c > 61439 { MulMono(61439, c, 16); }
  }

  /** They never overflow 16 bits, which is what the limit is for, and lose less than one cylinder. */
  lemma FifteenTight(c: nat)
    ensures c * 16 / 15 < 0x1_0000 <==> c <= 61439
    ensures c <= 61439 ==> Fifteen(c, 16).1 == 15 && c * 16 < Fifteen(c, 16).0 * 15 + 15
    ensures c > 61439 ==> Fifteen(c, 16) == Fifteen(61439, 16)
  {
  }

  lemma LbaFits(total: nat, heads: nat, cylinders: nat)
    requires heads > 0 && cylinders <= total / 63 / heads
    ensures cylinders * heads * 63 <= total
  {
    MulMono(cylinders, total / 63 / heads, heads);
    assert (total / 63 / heads) * heads <= total / 63;
  }

  /** The logical geometry never has more than 1024 cylinders and never more sectors than the drive. */
  lemma LogicalFits(physical: Geometry, sectorsLow: nat, translation: Translation)
    requires physical.cylinders < 0x1_0000 && physical.heads < 0x1_0000
    ensures var logical := Logical(physical, sectorsLow, translation);
            && logical.cylinders <= 1024 && logical.heads < 0x1_0000
            && Sectors(logical) <= (if translation == Lba then sectorsLow else Sectors(physical))
  {
    var logical := Logical(physical, sectorsLow, translation);
    var c, h, s := physical.cylinders, physical.heads, physical.spt;
    var fifteen := Fifteen(c, h);
    match translation {
      case NoTranslation => ClipFits(c, h, c, h, s);
      case Lba => LbaFits(sectorsLow, logical.heads, logical.cylinders);
      case Large =>
        ShiftedFits(c, h);
        ClipFits(Shifted(c, h).0, Shifted(c, h).1, c, h, s);
      case Rechs =>
        FifteenFits(c, h);
        ShiftedFits(fifteen.0, fifteen.1);
        ClipFits(Shifted(fifteen.0, fifteen.1).0, Shifted(fifteen.0, fifteen.1).1, c, h, s);
    }
  }

  lemma ClipFits(c': nat, h': nat, c: nat, h: nat, s: nat)
    requires c' * h' <= c * h
    ensures Clipped(c') * h' * s <= c * h * s
  {
    MulMono(Clipped(c'), c', h');
    MulMono(Clipped(c') * h', c * h, s);
  }

  /** Little of the drive is out of reach: unless the cylinders were clipped, shifting leaves out less
      than one logical cylinder. */
  lemma LargeLosesLittle(physical: Geometry, sectorsLow: nat)
    requires 0 < physical.heads <= 127 && physical.spt > 0
    ensures var logical := Logical(physical, sectorsLow, Large);
            logical.cylinders < 1024 ==> Sectors(physical) < Sectors(logical) + logical.heads * logical.spt
  {
    var shifted := Shifted(physical.cylinders, physical.heads);
    ShiftedFits(physical.cylinders, physical.heads);
    if Clipped(shifted.0) < 1024 {
      TracksLost(physical.cylinders * physical.heads, physical.heads, shifted.0, shifted.1, physical.spt);
    }
  }

  /** Nor does the detour over fifteen heads, if it need not cut the cylinders. */
  lemma RechsLosesLittle(physical: Geometry, sectorsLow: nat)
    requires 0 < physical.heads <= 127 && physical.spt > 0 && (physical.heads == 16 ==> physical.cylinders <= 61439)
    ensures var logical := Logical(physical, sectorsLow, Rechs);
            logical.cylinders < 1024 ==> Sectors(physical) < Sectors(logical) + logical.heads * logical.spt
  {
    var fifteen := Fifteen(physical.cylinders, physical.heads);
    var shifted := Shifted(fifteen.0, fifteen.1);
    FifteenTight(physical.cylinders);
    ShiftedFits(fifteen.0, fifteen.1);
    if Clipped(shifted.0) < 1024 {
      TracksLost(physical.cylinders * physical.heads, 1, shifted.0, shifted.1, physical.spt);
    }
  }

  lemma TracksLost(tracks: nat, h: nat, c': nat, h': nat, s: nat)
    requires tracks + h <= (c' + 1) * h' && h > 0 && s > 0
    ensures tracks * s < c' * h' * s + h' * s
  {
    MulMono(tracks + 1, (c' + 1) * h', s);
    assert (tracks + 1) * s == tracks * s + s;
    CylinderMore(Geometry(c', h', s));
  }

  lemma CylinderMore(g: Geometry)
    ensures (g.cylinders + 1) * g.heads * g.spt == Sectors(g) + g.heads * g.spt
  {
    assert (g.cylinders + 1) * g.heads == g.cylinders * g.heads + g.heads;
  }

  /** The translation by capacity gives the largest geometry it can, exactly while cutting the number
      of cylinders to 16 bits does not bring it below 1024. */
  lemma LbaIsLargest(physical: Geometry, sectorsLow: nat)
    ensures var tracks := sectorsLow / 63;
            var whole := tracks / CapacityHeads(tracks);
            Logical(physical, sectorsLow, Lba).cylinders == Clipped(whole)
            <==> whole < 0x1_0000 || whole % 0x1_0000 >= 1024
  {
    var tracks := sectorsLow / 63;
    var whole := tracks / CapacityHeads(tracks);
    if whole < 0x1_0000 { assert whole % 0x1_0000 == whole; }
  }

  /** And then, unless the cylinders are clipped, less than one of them is left out. */
  lemma LbaLosesLittle(physical: Geometry, sectorsLow: nat)
    ensures var tracks := sectorsLow / 63;
            var heads := CapacityHeads(tracks);
            tracks / heads < 1024 ==>
              sectorsLow < Sectors(Logical(physical, sectorsLow, Lba)) + heads * 63
  {
    var logical := Logical(physical, sectorsLow, Lba);
    var heads, tracks := logical.heads, sectorsLow / 63;
    if tracks / heads < 1024 {
      CylinderMore(logical);
      DivideBounds(tracks, heads);
      MulMono(tracks + 1, (tracks / heads + 1) * heads, 63);
    }
  }

  /** The heads are those of the whole capacity exactly while their quotient fits 16 bits, or what
      cutting leaves of it is still the largest case. */
  lemma HeadsOfLargeDisks(tracks: nat)
    ensures CapacityHeads(tracks) == HeadsFor(tracks / 1024)
            <==> tracks / 1024 < 0x1_0000 || tracks / 1024 % 0x1_0000 > 128
  {
    var quotient := tracks / 1024;
    if quotient < 0x1_0000 { assert quotient % 0x1_0000 == quotient; }
  }

  /** A disk of half a terabyte of which nothing can be addressed: its 65536 cylinders are cut to 0. */
  lemma NothingAddressable(physical: Geometry)
    ensures Logical(physical, 1052835840, Lba) == Geometry(0, 255, 63)
    ensures !InGeometry(Logical(physical, 1052835840, Lba), 0, 0, 1)
  {
  }

  lemma DivideBounds(n: nat, d: nat)
    requires d > 0
    ensures (n / d) * d <= n < (n / d + 1) * d
  {
    assert (n / d + 1) * d == (n / d) * d + d;
  }

  // ------------------------------------------------------------------ addressing

  /** The sector a cylinder, head and sector stand for in a geometry. */
  function SectorOf(g: Geometry, cylinder: nat, head: nat, sector: nat): int {
    FirstSector(Address.Chs(cylinder, head, sector), g.heads, g.spt)
  }

  predicate InGeometry(g: Geometry, cylinder: nat, head: nat, sector: nat) {
    cylinder < g.cylinders && head < g.heads && 0 < sector <= g.spt
  }

  /** What is accepted lies on the disk. */
  lemma SectorInRange(g: Geometry, cylinder: nat, head: nat, sector: nat)
    requires InGeometry(g, cylinder, head, sector)
    ensures 0 <= SectorOf(g, cylinder, head, sector) < Sectors(g)
  {
    var track := cylinder * g.heads + head;
    MulMono(cylinder + 1, g.cylinders, g.heads);
    assert track + 1 <= g.cylinders * g.heads;
    MulMono(track + 1, g.cylinders * g.heads, g.spt);
  }

  lemma DivideUnique(q: nat, r: nat, q': nat, r': nat, d: nat)
    requires r < d && r' < d && q * d + r == q' * d + r'
    ensures q == q' && r == r'
  {
    if q < q' { MulMono(q + 1, q', d); }
    if q' < q { MulMono(q' + 1, q, d); }
  }

  /** No two accepted addresses share a sector. */
  lemma SectorInjective(g: Geometry, c: nat, h: nat, s: nat, c': nat, h': nat, s': nat)
    requires InGeometry(g, c, h, s) && InGeometry(g, c', h', s')
    requires SectorOf(g, c, h, s) == SectorOf(g, c', h', s')
    ensures c == c' && h == h' && s == s'
  {
    DivideUnique(c * g.heads + h, s - 1, c' * g.heads + h', s' - 1, g.spt);
    DivideUnique(c, h, c', h', g.heads);
  }

  /** The sector an address goes out as: unchanged when the drive has the logical heads and sectors,
      and otherwise as a 32-bit number. */
  function Addressed(g: Geometry, heads: nat, spt: nat, cylinder: nat, head: nat, sector: nat): int {
    if heads == g.heads && spt == g.spt then SectorOf(g, cylinder, head, sector)
    else SectorOf(g, cylinder, head, sector) % 0x1_0000_0000
  }

  /** On the logical geometry of any drive whose heads and sectors fit their registers, the sector
      number of every accepted address fits 32 bits and lies on the drive, and the command goes out to
      it, whatever heads and sectors the drive has. */
  lemma AcceptedOnDrive(physical: Geometry, sectorsLow: nat, translation: Translation,
                        cylinder: nat, head: nat, sector: nat, heads: nat, spt: nat)
    requires physical.cylinders < 0x1_0000 && physical.heads <= 16 && physical.spt <= 0xFF
    requires sectorsLow < 0x1_0000_0000
    requires InGeometry(Logical(physical, sectorsLow, translation), cylinder, head, sector)
    ensures var lba := SectorOf(Logical(physical, sectorsLow, translation), cylinder, head, sector);
            && 0 <= lba < 0x1_0000_0000
            && Addressed(Logical(physical, sectorsLow, translation), heads, spt, cylinder, head, sector) == lba
            && lba < (if translation == Lba then sectorsLow else Sectors(physical))
  {
    var logical := Logical(physical, sectorsLow, translation);
    LogicalFits(physical, sectorsLow, translation);
    SectorInRange(logical, cylinder, head, sector);
    RegistersBound(physical.cylinders, physical.heads, physical.spt);
  }

  lemma RegistersBound(c: nat, h: nat, s: nat)
    requires c <= 0xFFFF && h <= 16 && s <= 0xFF
    ensures c * h * s < 0x1_0000_0000
  {
    MulMono(c, 0xFFFF, h);
    MulMono(c * h, 0xF_FFF0, s);
  }

  // ------------------------------------------------------------------ INT 13h functions 02h to 04h

  const WRITE_FUNCTION := 0x03
  const VERIFY_FUNCTION := 0x04

  /** The ten-bit cylinder number of CH and the top bits of CL. */
  function Cylinder(ch: nat, cl: nat): (cylinder: nat)
    ensures ch < 0x100 && cl < 0x100 ==> cylinder < 0x400 && cylinder % 0x100 == ch && cylinder / 0x100 == cl / 0x40
  {
    cl / 0x40 * 0x100 + ch
  }

  /** CH and CL for a cylinder and a sector: the low eight bits of the cylinder, and its high two above
      the sector. */
  function Registers(cylinder: nat, sector: nat): (nat, nat) {
    (cylinder % 0x100, cylinder / 0x100 * 0x40 + sector)
  }

  /** Every ten-bit cylinder and six-bit sector is what its registers are taken for. */
  lemma RegistersName(cylinder: nat, sector: nat)
    requires cylinder < 0x400 && sector < 0x40
    ensures var (ch, cl) := Registers(cylinder, sector);
            ch < 0x100 && cl < 0x100 && Cylinder(ch, cl) == cylinder && cl % 0x40 == sector
  {
  }

  predicate Accepted(g: Geometry, al: nat, ch: nat, cl: nat, dh: nat) {
    0 < al <= 128 && InGeometry(g, Cylinder(ch, cl), dh, cl % 0x40)
  }

  /** The translation to an LBA, when it is needed; sector 0 then asks for it. */
  method Translated(g: Geometry, heads: nat, spt: nat, cylinder: nat, head: nat, sector: nat)
    returns (outSector: nat, lbaLow: nat)
    requires InGeometry(g, cylinder, head, sector)
    ensures lbaLow < 0x1_0000_0000
    ensures outSector == if heads == g.heads && spt == g.spt then sector else 0
    ensures outSector == 0 ==> lbaLow == Addressed(g, heads, spt, cylinder, head, sector)
  {
    outSector, lbaLow := sector, 0;
    if heads != g.heads || spt != g.spt {
      lbaLow := SectorOf(g, cylinder, head, sector) % 0x1_0000_0000;
      outSector := 0;
    }
  }

  lemma GoesOutTo(g: Geometry, command: nat, slave: bool, count: nat, heads: nat, spt: nat,
                  cylinder: nat, head: nat, sector: nat, outSector: nat, lbaLow: nat)
    requires InGeometry(g, cylinder, head, sector)
    requires outSector == if heads == g.heads && spt == g.spt then sector else 0
    requires outSector == 0 ==> lbaLow == Addressed(g, heads, spt, cylinder, head, sector)
    ensures FirstSector(Intended(command, slave, count, cylinder, head, outSector, lbaLow).address, heads, spt)
         == Addressed(g, heads, spt, cylinder, head, sector)
  {
  }

  /** One command, whose address the drive takes as sector number `from`. */
  method Move(driver: Driver, write: bool, count: nat, cylinder: nat, head: nat, sector: nat, lbaLow: nat,
              ghost from: int, es: nat, bx: nat) returns (ahOut: nat, alOut: nat)
    requires driver.Valid() && 0 < count <= 128 && lbaLow < 0x1_0000_0000
    requires cylinder < 0x1_0000 && sector < 0x100 && (sector != 0 ==> head < 16)
    requires var command := if write then WRITE_SECTORS else READ_SECTORS;
             var intended := Intended(command, driver.slave, count, cylinder, head, sector, lbaLow);
             FirstSector(intended.address, driver.drive.heads, driver.drive.spt) == from
    requires es < 0x1_0000 && bx < 0x1_0000 && es * 16 + bx + 512 * count <= ONE_MB
    modifies driver`trsfsectors, driver.drive, driver.drive.port, driver.mem
    ensures var end := Outcome(driver.drive.statusAt, old(driver.drive.polls), count, write);
            && alOut == end.0 && ahOut == (if end.1 == 0 then 0 else 0x0C)
            && Transferred(write, old(driver.drive.port.medium), driver.drive.port.medium, old(driver.mem[..]),
                           driver.mem[..], es * 16 + bx, 512 * from, 512 * alOut)
  {
    var command := if write then WRITE_SECTORS else READ_SECTORS;
    var status, moved := driver.DataIo(write, command, count, cylinder, head, sector, lbaLow, 0, es, bx, from);
    alOut := driver.trsfsectors;
    ahOut := if status != 0 then 0x0C else 0;
  }

  /** The command for an accepted address, and what is reported after it. */
  method MoveSectors(driver: Driver, logical: Geometry, write: bool, count: nat, cylinder: nat, head: nat, sector: nat,
                     es: nat, bx: nat) returns (ahOut: nat, alOut: nat)
    requires driver.Valid() && driver.drive.heads <= 16 && 0 < count <= 128
    requires InGeometry(logical, cylinder, head, sector) && cylinder < 0x400 && sector < 0x40
    requires es < 0x1_0000 && bx < 0x1_0000 && es * 16 + bx + 512 * count <= ONE_MB
    modifies driver`trsfsectors, driver.drive, driver.drive.port, driver.mem
    ensures var end := Outcome(driver.drive.statusAt, old(driver.drive.polls), count, write);
            var from := Addressed(logical, driver.drive.heads, driver.drive.spt, cylinder, head, sector);
            && alOut == end.0 && ahOut == (if end.1 == 0 then 0 else 0x0C)
            && Transferred(write, old(driver.drive.port.medium), driver.drive.port.medium, old(driver.mem[..]),
                           driver.mem[..], es * 16 + bx, 512 * from, 512 * alOut)
  {
    var outSector, lbaLow := Translated(logical, driver.drive.heads, driver.drive.spt, cylinder, head, sector);
    var command := if write then WRITE_SECTORS else READ_SECTORS;
    ghost var from := Addressed(logical, driver.drive.heads, driver.drive.spt, cylinder, head, sector);
    GoesOutTo(logical, command, driver.slave, count, driver.drive.heads, driver.drive.spt, cylinder, head, sector,
              outSector, lbaLow);
    ahOut, alOut := Move(driver, write, count, cylinder, head, outSector, lbaLow, from, es, bx);
  }

  /** Reads or writes al sectors at a logical address. An accepted call moves exactly the sectors it
      reports in AL, between memory at ES:BX and the disk from the addressed sector on, whether the
      command went out as CHS or as LBA. */
  method HardDisk(driver: Driver, logical: Geometry, ah: nat, al: nat, ch: nat, cl: nat, dh: nat, es: nat, bx: nat)
    returns (ahOut: nat, alOut: nat, carry: bool)
    requires driver.Valid() && driver.drive.heads <= 16
    requires 0x02 <= ah <= 0x04
    requires al < 0x100 && ch < 0x100 && cl < 0x100 && dh < 0x100 && es < 0x1_0000 && bx < 0x1_0000
    requires es * 16 + bx + 512 * al <= ONE_MB
    modifies driver`trsfsectors, driver.drive, driver.drive.port, driver.mem
    ensures carry <==> ahOut != 0
    ensures !Accepted(logical, al, ch, cl, dh) ==> ahOut == 1
    ensures !Accepted(logical, al, ch, cl, dh) || ah == 0x04 ==>
      alOut == al && driver.mem[..] == old(driver.mem[..])
      && driver.drive.port.medium == old(driver.drive.port.medium)
      && driver.drive.commands == old(driver.drive.commands)
    ensures Accepted(logical, al, ch, cl, dh) && ah == 0x04 ==> !carry
    ensures Accepted(logical, al, ch, cl, dh) && ah != 0x04 ==>
      var write := ah == 0x03;
      var end := Outcome(driver.drive.statusAt, old(driver.drive.polls), al, write);
      var from := Addressed(logical, driver.drive.heads, driver.drive.spt, Cylinder(ch, cl), dh, cl % 0x40);
      && alOut == end.0 && ahOut == (if end.1 == 0 then 0 else 0x0C)
      && Transferred(write, old(driver.drive.port.medium), driver.drive.port.medium,
                     old(driver.mem[..]), driver.mem[..], es * 16 + bx, 512 * from, 512 * alOut)
  {
    alOut := al;
    var count, cylinder, sector, head := al, Cylinder(ch, cl), cl % 0x40, dh;
    if count > 128 || count == 0 || sector == 0 { return 1, alOut, true; }
    if cylinder >= logical.cylinders || head >= logical.heads || sector > logical.spt { return 1, alOut, true; }
    if ah == VERIFY_FUNCTION { return 0, alOut, false; }
    ahOut, alOut := MoveSectors(driver, logical, ah == WRITE_FUNCTION, count, cylinder, head, sector, es, bx);
    carry := ahOut != 0;
  }

  lemma CallNames(g: Geometry, al: nat, c: nat, s: nat, ch: nat, cl: nat, dh: nat)
    requires c < 0x400 && s < 0x40 && ch == c % 0x100 && cl == c / 0x100 * 0x40 + s
    ensures cl < 0x100 && Cylinder(ch, cl) == c && cl % 0x40 == s
    ensures Accepted(g, al, ch, cl, dh) <==> 0 < al <= 128 && c < g.cylinders && dh < g.heads && 0 < s <= g.spt
    ensures SectorOf(g, c, dh, s) == (c * g.heads + dh) * g.spt + s - 1
  {
    RegistersName(c, s);
  }

  lemma CallReaches(physical: Geometry, sectorsLow: nat, translation: Translation, al: nat, c: nat, s: nat,
                    ch: nat, cl: nat, dh: nat, heads: nat, spt: nat)
    requires physical.cylinders < 0x1_0000 && physical.heads <= 16 && physical.spt <= 0xFF
    requires sectorsLow < 0x1_0000_0000
    requires c < 0x400 && s < 0x40 && ch == c % 0x100 && cl == c / 0x100 * 0x40 + s
    ensures cl < 0x100
    ensures var g := Logical(physical, sectorsLow, translation);
            && (Accepted(g, al, ch, cl, dh) <==> 0 < al <= 128 && c < g.cylinders && dh < g.heads && 0 < s <= g.spt)
            && (Accepted(g, al, ch, cl, dh) ==>
                  var from := (c * g.heads + dh) * g.spt + s - 1;
                  && Addressed(g, heads, spt, Cylinder(ch, cl), dh, cl % 0x40) == from
                  && 0 <= from < (if translation == Lba then sectorsLow else Sectors(physical)))
  {
    var g := Logical(physical, sectorsLow, translation);
    CallNames(g, al, c, s, ch, cl, dh);
    if Accepted(g, al, ch, cl, dh) { AcceptedOnDrive(physical, sectorsLow, translation, c, dh, s, heads, spt); }
  }

  /** From detection to the call: on the geometry chosen for a drive, a call for cylinder c, head dh and
      sector s moves its sectors at the sector which that address stands for, and that lies on the drive. */
  method DetectedDisk(driver: Driver, physical: Geometry, sectorsLow: nat, translation: Translation,
                      ah: nat, al: nat, c: nat, s: nat, dh: nat, es: nat, bx: nat)
    returns (logical: Geometry, ahOut: nat, alOut: nat, carry: bool)
    requires driver.Valid() && driver.drive.heads <= 16 && (ah == 0x02 || ah == 0x03)
    requires physical.cylinders < 0x1_0000 && physical.heads <= 16 && physical.spt <= 0xFF
    requires sectorsLow < 0x1_0000_0000
    requires al < 0x100 && c < 0x400 && s < 0x40 && dh < 0x100 && es < 0x1_0000 && bx < 0x1_0000
    requires es * 16 + bx + 512 * al <= ONE_MB
    modifies driver`trsfsectors, driver.drive, driver.drive.port, driver.mem
    ensures logical == Logical(physical, sectorsLow, translation)
    ensures var accepted := 0 < al <= 128 && c < logical.cylinders && dh < logical.heads && 0 < s <= logical.spt;
      if accepted then
        var from := (c * logical.heads + dh) * logical.spt + s - 1;
        && 0 <= from < (if translation == Lba then sectorsLow else Sectors(physical))
        && (carry <==> !Succeeds(driver.drive.statusAt, old(driver.drive.polls), al, ah == 0x03))
        && Transferred(ah == 0x03, old(driver.drive.port.medium), driver.drive.port.medium,
                       old(driver.mem[..]), driver.mem[..], es * 16 + bx, 512 * from, 512 * alOut)
      else
        carry && driver.mem[..] == old(driver.mem[..]) && driver.drive.port.medium == old(driver.drive.port.medium)
  {
    logical := Translate(physical, sectorsLow, translation);
    var ch, cl := c % 0x100, c / 0x100 * 0x40 + s;
    CallReaches(physical, sectorsLow, translation, al, c, s, ch, cl, dh, driver.drive.heads, driver.drive.spt);
    ghost var from := (c * logical.heads + dh) * logical.spt + s - 1;
    ahOut, alOut, carry := CallAt(driver, logical, ah, al, ch, cl, dh, es, bx, from);
  }

  /** A call for an address that goes out as sector `from`. */
  method CallAt(driver: Driver, logical: Geometry, ah: nat, al: nat, ch: nat, cl: nat, dh: nat, es: nat, bx: nat,
                ghost from: int) returns (ahOut: nat, alOut: nat, carry: bool)
    requires driver.Valid() && driver.drive.heads <= 16 && (ah == 0x02 || ah == 0x03)
    requires al < 0x100 && ch < 0x100 && cl < 0x100 && dh < 0x100 && es < 0x1_0000 && bx < 0x1_0000
    requires es * 16 + bx + 512 * al <= ONE_MB
    requires Accepted(logical, al, ch, cl, dh) ==>
      Addressed(logical, driver.drive.heads, driver.drive.spt, Cylinder(ch, cl), dh, cl % 0x40) == from
    modifies driver`trsfsectors, driver.drive, driver.drive.port, driver.mem
    ensures Accepted(logical, al, ch, cl, dh) ==>
      && (carry <==> !Succeeds(driver.drive.statusAt, old(driver.drive.polls), al, ah == 0x03))
      && Transferred(ah == 0x03, old(driver.drive.port.medium), driver.drive.port.medium,
                     old(driver.mem[..]), driver.mem[..], es * 16 + bx, 512 * from, 512 * alOut)
    ensures !Accepted(logical, al, ch, cl, dh) ==>
      carry && driver.mem[..] == old(driver.mem[..]) && driver.drive.port.medium == old(driver.drive.port.medium)
  {
    ghost var accepted := Accepted(logical, al, ch, cl, dh);
    ghost var at := Addressed(logical, driver.drive.heads, driver.drive.spt, Cylinder(ch, cl), dh, cl % 0x40);
    assert accepted ==> at == from;
    ghost var good := CodeIsSuccess(driver.drive.statusAt, driver.drive.polls, al, ah == WRITE_FUNCTION);
    ahOut, alOut, carry := HardDisk(driver, logical, ah, al, ch, cl, dh, es, bx);
  }

  lemma CodeIsSuccess(statusAt: nat -> bv8, poll: nat, al: nat, write: bool) returns (good: bool)
    ensures good == (Outcome(statusAt, poll, al, write).1 == 0)
    ensures 0 < al < 0x100 ==> good == Succeeds(statusAt, poll, al, write)
  {
    OutcomeMeans(statusAt, poll, al, write);
    good := Outcome(statusAt, poll, al, write).1 == 0;
  }

  // ------------------------------------------------------------------ functions 42h, 43h, 44h and 47h

  const EXTENDED_WRITE := 0x43
  const EXTENDED_VERIFY := 0x44
  const EXTENDED_SEEK := 0x47

  function Wide(low: nat, high: nat): nat {
    low + 0x1_0000_0000 * high
  }

  lemma WideOrder(low: nat, high: nat, limitLow: nat, limitHigh: nat)
    requires low < 0x1_0000_0000 && limitLow < 0x1_0000_0000
    ensures Wide(low, high) < Wide(limitLow, limitHigh) <==> high < limitHigh || (high == limitHigh && low < limitLow)
  {
  }

  method MoveExtended(driver: Driver, write: bool, count: nat, lbaLow: nat, lbaHigh: nat, segment: nat, offset: nat)
    returns (ahOut: nat, countOut: nat, ghost moved: nat)
    requires driver.Valid() && count < 0x1_0000 && lbaLow < 0x1_0000_0000 && lbaHigh < 0x1_0000
    requires segment < 0x1_0000 && offset < 0x1_0000
    requires segment * 16 + offset + 512 * Outcome(driver.drive.statusAt, driver.drive.polls, count, write).0 <= ONE_MB
    modifies driver`trsfsectors, driver.drive, driver.drive.port, driver.mem
    ensures var end := Outcome(driver.drive.statusAt, old(driver.drive.polls), count, write);
            && moved == end.0 && countOut == moved % 0x100 && ahOut == (if end.1 == 0 then 0 else 0x0C)
            && Transferred(write, old(driver.drive.port.medium), driver.drive.port.medium, old(driver.mem[..]),
                           driver.mem[..], segment * 16 + offset, 512 * Wide(lbaLow, lbaHigh), 512 * moved)
  {
    var status;
    status, moved := driver.DataIo(write, if write then WRITE_SECTORS else READ_SECTORS, count, 0, 0, 0,
                                   lbaLow, lbaHigh, segment, offset, Wide(lbaLow, lbaHigh));
    countOut := driver.trsfsectors;
    ahOut := if status != 0 then 0x0C else 0;
  }

  /** The same with a logical block address and a 16-bit count from an address packet. The count is put
      back as the sectors moved, cut to 8 bits; `CountHonoured` says when that is the count asked for. */
  method ExtendedDisk(driver: Driver, sectorsLow: nat, sectorsHigh: nat, ah: nat, count: nat, lbaLow: nat, lbaHigh: nat,
                      segment: nat, offset: nat) returns (ahOut: nat, countOut: nat, carry: bool, ghost moved: nat)
    requires driver.Valid() && sectorsLow < 0x1_0000_0000 && sectorsHigh < 0x1_0000
    requires ah == 0x42 || ah == 0x43 || ah == 0x44 || ah == 0x47
    requires count < 0x1_0000 && lbaLow < 0x1_0000_0000 && segment < 0x1_0000 && offset < 0x1_0000
    requires ah == 0x42 || ah == 0x43 ==>
      segment * 16 + offset
      + 512 * Outcome(driver.drive.statusAt, driver.drive.polls, count, ah == 0x43).0 <= ONE_MB
    modifies driver`trsfsectors, driver.drive, driver.drive.port, driver.mem
    ensures carry <==> ahOut != 0
    ensures var lba := Wide(lbaLow, lbaHigh);
            var onDisk := lba < Wide(sectorsLow, sectorsHigh);
            var seek := ah == 0x44 || ah == 0x47;
            var write := ah == 0x43;
            if !onDisk || seek then
              && ahOut == (if onDisk then 0 else 1) && countOut == count
              && driver.mem[..] == old(driver.mem[..]) && driver.drive.port.medium == old(driver.drive.port.medium)
              && driver.drive.commands == old(driver.drive.commands)
            else
              var end := Outcome(driver.drive.statusAt, old(driver.drive.polls), count, write);
              && moved == end.0 && countOut == moved % 0x100 && ahOut == (if end.1 == 0 then 0 else 0x0C)
              && Transferred(write, old(driver.drive.port.medium), driver.drive.port.medium,
                             old(driver.mem[..]), driver.mem[..], segment * 16 + offset, 512 * lba, 512 * moved)
  {
    countOut, moved := count, 0;
    WideOrder(lbaLow, lbaHigh, sectorsLow, sectorsHigh);
    if lbaHigh > sectorsHigh { return 1, countOut, true, moved; }
    if lbaHigh == sectorsHigh && lbaLow >= sectorsLow { return 1, countOut, true, moved; }
    if ah == EXTENDED_VERIFY || ah == EXTENDED_SEEK { return 0, countOut, false, moved; }
    ahOut, countOut, moved := MoveExtended(driver, ah == EXTENDED_WRITE, count, lbaLow, lbaHigh, segment, offset);
    carry := ahOut != 0;
  }
}
