/** ata_cmd_data_io of the system BIOS (sw/sysbios/rombios.c): the task file of one command and the
    sector loop that moves its data between the drive and segmented memory. */
module AtaDataIo {
  import opened Basics
  import opened AtaDrive

  const ONE_MB := 0x10_0000

  // ------------------------------------------------------------------ task file

  /** What the 8-bit device/head byte becomes when a head number is or-ed into it. */
  function DeviceHead(slave: bool, head: nat): (dh: nat)
    ensures dh < 0x100
  {
    0xA0 + (if slave || head / 16 % 2 == 1 then 0x10 else 0)
    + (if head / 64 % 2 == 1 then 0x40 else 0) + head % 16
  }

  /** The opcode with bit 2 set. */
  function Extended(opcode: nat): nat {
    if opcode / 4 % 2 == 1 then opcode else opcode + 4
  }

  /** The sum of the bytes of a 24-bit number at their places. */
  lemma ThreeBytes(v: nat)
    requires v < 0x100_0000
    ensures v % 0x100 + 0x100 * (v / 0x100 % 0x1_0000 % 0x100) + 0x1_0000 * (v / 0x100 % 0x1_0000 / 0x100) == v
  {
    var w := v / 0x100;
    assert w < 0x1_0000 && w % 0x1_0000 == w;
  }

  lemma FourDigits(v: nat)
    requires v < 0x1000_0000
    ensures v % 0x100 + 0x100 * (v / 0x100 % 0x1_0000 % 0x100) + 0x1_0000 * (v / 0x100 % 0x1_0000 / 0x100)
            + 0x100_0000 * (v / 0x100 / 0x1_0000 % 16) == v
  {
    var w := v / 0x100;
    var mid, top := w % 0x1_0000, w / 0x1_0000;
    assert w == 0x1_0000 * top + mid && top < 16;
    assert mid == 0x100 * (mid / 0x100) + mid % 0x100;
  }

  lemma HeadBits(slave: bool, nibble: nat)
    requires nibble < 16
    ensures var dh := DeviceHead(slave, nibble);
            dh / 16 % 2 == (if slave then 1 else 0) && dh / 64 % 2 == 0 && dh % 16 == nibble
    ensures var dh := DeviceHead(slave, nibble + 0x40);
            dh / 16 % 2 == (if slave then 1 else 0) && dh / 64 % 2 == 1 && dh % 16 == nibble
  {
  }

  /** How many sectors a drive is asked for: a count of 0 stands for all that its field can count. */
  function Asked28(count: nat): nat { if count == 0 then 0x100 else count }

  function Asked48(count: nat): nat { if count == 0 then 0x1_0000 else count }

  lemma Decode28(t: TaskFile, opcode: nat, slave: bool, lba: nat, count: nat)
    requires opcode == READ_SECTORS || opcode == WRITE_SECTORS
    requires lba < 0x1000_0000 && count < 0x100 && t.sc.cur == count
    requires t.sn.cur == lba % 0x100
    requires t.cl.cur == lba / 0x100 % 0x1_0000 % 0x100 && t.ch.cur == lba / 0x100 % 0x1_0000 / 0x100
    requires t.dh == DeviceHead(slave, lba / 0x100 / 0x1_0000 % 16 + 0x40)
    ensures Decode(t, opcode) == Command(opcode, slave, Lba28(lba), Asked28(count))
  {
    HeadBits(slave, lba / 0x100 / 0x1_0000 % 16);
    FourDigits(lba);
  }

  lemma Decode48(t: TaskFile, opcode: nat, slave: bool, lbaLow: nat, lbaHigh: nat, count: nat)
    requires opcode == READ_SECTORS_EXT || opcode == WRITE_SECTORS_EXT
    requires lbaLow < 0x1_0000_0000 && lbaHigh < 0x1_0000 && count < 0x1_0000
    requires t.sc == Latch(count / 0x100, count % 0x100)
    requires var low := lbaLow % 0x100_0000;
             && t.sn == Latch(lbaLow / 0x1_0000 / 0x100, low % 0x100)
             && t.cl == Latch(lbaHigh % 0x100, low / 0x100 % 0x1_0000 % 0x100)
             && t.ch == Latch(lbaHigh / 0x100, low / 0x100 % 0x1_0000 / 0x100)
    requires t.dh / 16 % 2 == (if slave then 1 else 0)
    ensures Decode(t, opcode) == Command(opcode, slave, Lba48(lbaLow + 0x1_0000_0000 * lbaHigh), Asked48(count))
  {
    ThreeBytes(lbaLow % 0x100_0000);
    assert lbaLow / 0x1_0000 / 0x100 == lbaLow / 0x100_0000;
  }

  /** The task file after the registers every command writes. */
  function Filled(t: TaskFile, slave: bool, count: nat, sector: nat, cylinder: nat, head: nat): TaskFile {
    TaskFile(Latch(t.sc.cur, count), Latch(t.sn.cur, sector), Latch(t.cl.cur, cylinder % 0x100),
             Latch(t.ch.cur, cylinder / 0x100), DeviceHead(slave, head))
  }

  method Fill(drive: Drive, slave: bool, count: nat, sector: nat, cylinder: nat, head: nat)
    requires count < 0x100 && sector < 0x100 && cylinder < 0x1_0000
    modifies drive`regs, drive`commands, drive.port`cursor
    ensures drive.regs == Filled(old(drive.regs), slave, count, sector, cylinder, head)
    ensures drive.commands == old(drive.commands) && drive.port.cursor == old(drive.port.cursor)
  {
    drive.Outb(FR, 0x00);
    drive.Outb(SC, count);
    drive.Outb(SN, sector);
    drive.Outb(CL, cylinder % 0x100);
    drive.Outb(CH, cylinder / 0x100);
    drive.Outb(DH, DeviceHead(slave, head));
  }

  /** The high half of a 48-bit task file, written first. */
  method FillHigh(drive: Drive, count: nat, lbaLow: nat, lbaHigh: nat)
    requires count < 0x1_0000 && lbaLow < 0x1_0000_0000 && lbaHigh < 0x1_0000
    modifies drive`regs, drive`commands, drive.port`cursor
    ensures drive.regs.sc.cur == count / 0x100 && drive.regs.sn.cur == lbaLow / 0x1_0000 / 0x100
    ensures drive.regs.cl.cur == lbaHigh % 0x100 && drive.regs.ch.cur == lbaHigh / 0x100
    ensures drive.commands == old(drive.commands) && drive.port.cursor == old(drive.port.cursor)
  {
    drive.Outb(FR, 0x00);
    drive.Outb(SC, count / 0x100);
    drive.Outb(SN, lbaLow / 0x1_0000 / 0x100);
    drive.Outb(CL, lbaHigh % 0x100);
    drive.Outb(CH, lbaHigh / 0x100);
  }

  /** Whether the 28-bit form can hold the transfer: its last sector lies below 2^28 and its count
      fits one register. */
  predicate Fits28(lba: nat, count: nat) {
    lba + count < 0x1000_0000 && count < 0x100
  }

  /** The command the drive is meant to receive. Sector 0 asks for logical block addressing. */
  function Intended(command: nat, slave: bool, count: nat, cylinder: nat, head: nat, sector: nat, lba: nat): Command {
    if sector != 0 then Command(command, slave, Chs(cylinder, head, sector), Asked28(count))
    else if Fits28(lba, count) then Command(command, slave, Lba28(lba), Asked28(count))
    else Command(Extended(command), slave, Lba48(lba), Asked48(count))
  }

  /** Writes the task file and starts the command. The drive decodes exactly the address and the
      count that were asked for. `loopCount` is what the sector loop will count down. */
  method Issue(drive: Drive, slave: bool, command: nat, count: nat, cylinder: nat, head: nat, sector: nat,
               lbaLow: nat, lbaHigh: nat) returns (loopCount: nat)
    requires command == READ_SECTORS || command == WRITE_SECTORS
    requires count < 0x1_0000 && lbaLow < 0x1_0000_0000 && lbaHigh < 0x1_0000
    requires cylinder < 0x1_0000 && sector < 0x100 && (sector != 0 ==> head < 16 && count < 0x100)
    modifies drive`regs, drive`commands, drive.port`cursor
    ensures var c := Intended(command, slave, count, cylinder, head, sector, lbaLow + 0x1_0000_0000 * lbaHigh);
            drive.commands == old(drive.commands) + [c]
            && drive.port.cursor == 512 * FirstSector(c.address, drive.heads, drive.spt)
    ensures loopCount == count % 0x100
  {
    ghost var lba := lbaLow + 0x1_0000_0000 * lbaHigh;
    ghost var intended := Intended(command, slave, count, cylinder, head, sector, lba);
    var cmd, cyl, hd, sec, low := command, cylinder, head, sector, lbaLow;
    loopCount := count;
    if sec == 0 {
      if count / 0x100 >= 1 || lbaHigh != 0 || low >= 0x1000_0000 - count {
        FillHigh(drive, count, low, lbaHigh);
        cmd := Extended(cmd);
        loopCount := loopCount % 0x100;
        low := low % 0x100_0000;
      }
      sec := low % 0x100;
      low := low / 0x100;
      cyl := low % 0x1_0000;
      hd := low / 0x1_0000 % 16 + 0x40;
    }
    Fill(drive, slave, loopCount, sec, cyl, hd);
    assert cmd < 0x100 && Decode(drive.regs, cmd) == intended by {
      if sector != 0 {
        HeadBits(slave, head);
      } else if Fits28(lba, count) {
        Decode28(drive.regs, command, slave, lbaLow, count);
      } else {
        HeadBits(slave, 0);
        Decode48(drive.regs, Extended(command), slave, lbaLow, lbaHigh, count);
      }
    }
    drive.Outb(CMD, cmd);
  }

  // ------------------------------------------------------------------ the sector loop

  const BSY: bv8 := 0x80
  const RDY: bv8 := 0x40
  const DF: bv8 := 0x20
  const DRQ: bv8 := 0x08
  const ERR: bv8 := 0x01

  /** The status accepted after a sector when more follow. */
  predicate MoreExpected(status: bv8) {
    status & (BSY | RDY | DRQ | ERR) == RDY | DRQ
  }

  /** The status accepted after the last sector; a write also looks at the fault bit. */
  predicate Finished(status: bv8, write: bool) {
    if write then status & (BSY | RDY | DF | DRQ | ERR) == RDY else status & (BSY | RDY | DRQ | ERR) == RDY
  }

  /** How often the loop goes round: it counts a 16-bit variable down to zero, of which the command
      keeps the low byte. */
  function Rounds(count: nat): (rounds: nat)
    ensures 0 < rounds <= 0x1_0000
  {
    if count % 0x100 == 0 then 0x1_0000 else count % 0x100
  }

  /** How the sector loop ends when `moved` of `rounds` sectors have been moved and the status after
      them is poll number `poll`: the sectors moved in the end and the return code. */
  function LoopEnd(statusAt: nat -> bv8, poll: nat, moved: nat, rounds: nat, write: bool): (r: (nat, nat))
    requires 0 < moved <= rounds
    ensures moved <= r.0 <= rounds && (r.1 == 0 ==> r.0 == rounds) && (r.1 == 0 || r.1 >= 4)
    decreases rounds - moved
  {
    if moved == rounds then (moved, if Finished(statusAt(poll), write) then 0 else if write then 6 else 4)
    else if !MoreExpected(statusAt(poll)) then (moved, if write then 7 else 5)
    else LoopEnd(statusAt, poll + 1, moved + 1, rounds, write)
  }

  /** The status after a sector in terms of its bits: ready and asking for data, neither busy nor failed;
      after the last one ready and done, and for a write without a fault. */
  lemma StatusBits(status: bv8, write: bool)
    ensures MoreExpected(status) <==> status & 0xC9 == 0x48
    ensures Finished(status, write) <==> status & 0xC9 == 0x40 && (write ==> status & 0x20 == 0)
  {
    assert status & 0xE9 == 0x40 <==> status & 0xC9 == 0x40 && status & 0x20 == 0;
  }

  /** After every sector but the last the drive asked for more; the code says whether all sectors were
      moved, and whether the last status was the one hoped for. */
  lemma {:induction false} LoopEndMeans(statusAt: nat -> bv8, poll: nat, moved: nat, rounds: nat, write: bool)
    requires 0 < moved <= rounds
    ensures var (all, code) := LoopEnd(statusAt, poll, moved, rounds, write);
            var last := statusAt(poll + (all - moved));
            var good := last & 0xC9 == 0x40 && (write ==> last & 0x20 == 0);
            && (forall i :: poll <= i < poll + (all - moved) ==> statusAt(i) & 0xC9 == 0x48)
            && (code == 0 <==> all == rounds && good)
            && (code == (if write then 6 else 4) <==> all == rounds && !good)
            && (code == (if write then 7 else 5) <==> all < rounds)
            && (all < rounds ==> last & 0xC9 != 0x48)
    decreases rounds - moved
  {
    StatusBits(statusAt(poll), write);
    if moved < rounds && MoreExpected(statusAt(poll)) {
      LoopEndMeans(statusAt, poll + 1, moved + 1, rounds, write);
    }
  }

  /** After each of the first n sectors the drive asked for more. */
  predicate Asking(statusAt: nat -> bv8, poll: nat, n: nat) {
    forall i :: poll <= i < poll + n ==> MoreExpected(statusAt(i))
  }

  /** The end of the loop, seen from the round after n sectors. */
  lemma LoopEndSeen(statusAt: nat -> bv8, poll: nat, n: nat, rounds: nat, write: bool)
    requires n < rounds && Asking(statusAt, poll, n)
    ensures var end, status := LoopEnd(statusAt, poll, 1, rounds, write), statusAt(poll + n);
            && n + 1 <= end.0
            && (n + 1 == rounds ==> end == (rounds, if Finished(status, write) then 0 else if write then 6 else 4))
            && (n + 1 < rounds && !MoreExpected(status) ==> end == (n + 1, if write then 7 else 5))
  {
    LoopEndMeans(statusAt, poll, 1, rounds, write);
    forall status ensures MoreExpected(status) <==> status & 0xC9 == 0x48 {
      StatusBits(status, write);
    }
    StatusBits(statusAt(poll + n), write);
  }

  /** A drive that has `asked` sectors to move and shows as much after each. */
  ghost predicate Obliging(statusAt: nat -> bv8, poll: nat, asked: nat, write: bool) {
    && asked > 0
    && (forall i :: poll <= i < poll + (asked - 1) ==> MoreExpected(statusAt(i)))
    && Finished(statusAt(poll + (asked - 1)), write)
  }

  lemma NotBoth(status: bv8, write: bool)
    ensures !(MoreExpected(status) && Finished(status, write))
  {
    assert status & (BSY | RDY | DF | DRQ | ERR) == RDY ==> status & DRQ == 0;
    assert status & (BSY | RDY | DRQ | ERR) == RDY ==> status & DRQ == 0;
    assert MoreExpected(status) ==> status & DRQ != 0;
  }

  /** With an obliging drive the loop moves what it counts or what the drive has, whichever is less,
      and reports success only when the two are equal. */
  lemma LoopEndObliging(statusAt: nat -> bv8, poll: nat, asked: nat, rounds: nat, write: bool)
    requires Obliging(statusAt, poll, asked, write) && rounds > 0
    ensures LoopEnd(statusAt, poll, 1, rounds, write)
         == if rounds == asked then (asked, 0)
            else if rounds < asked then (rounds, if write then 6 else 4)
            else (asked, if write then 7 else 5)
  {
    LoopEndMeans(statusAt, poll, 1, rounds, write);
    NotBoth(statusAt(poll + (LoopEnd(statusAt, poll, 1, rounds, write).0 - 1)), write);
    NotBoth(statusAt(poll + (asked - 1)), write);
  }

  /** A drive that obliges is read or written in full, and the number reported is the number asked
      for, exactly when the count is between 1 and 255. With more, the low byte of the count is moved
      and an error reported; when that byte is zero all sectors are moved, and none is reported. */
  lemma CountHonoured(statusAt: nat -> bv8, poll: nat, count: nat, asked: nat, write: bool)
    requires count < 0x1_0000 && (asked == Asked48(count) || (asked == Asked28(count) && count < 0x100))
    requires Obliging(statusAt, poll, asked, write)
    ensures var (moved, code) := LoopEnd(statusAt, poll, 1, Rounds(count), write);
            && (code == 0 && moved % 0x100 == asked <==> 0 < count < 0x100)
            && (count >= 0x100 && count % 0x100 != 0 ==> moved == count % 0x100 && code != 0)
            && (count >= 0x100 && count % 0x100 == 0 ==> moved == count && code != 0)
            && (count % 0x100 == 0 ==> moved == asked && moved % 0x100 == 0)
  {
    LoopEndObliging(statusAt, poll, asked, Rounds(count), write);
  }

  /** How the whole command ends: sectors moved and return code. */
  function Outcome(statusAt: nat -> bv8, poll: nat, count: nat, write: bool): (r: (nat, nat))
    ensures r.0 <= Rounds(count) && (r.1 == 0 ==> r.0 == Rounds(count))
  {
    if statusAt(poll) & BSY != 0 then (0, 1)
    else if statusAt(poll + 1) & ERR != 0 then (0, 2)
    else if statusAt(poll + 1) & DRQ == 0 then (0, 3)
    else LoopEnd(statusAt, poll + 2, 1, Rounds(count), write)
  }

  /** All sectors go over without an error: not busy at first, then asking for data without an error, and
      so on after each sector but the last, after which the drive is ready, without error or fault. */
  ghost predicate Succeeds(statusAt: nat -> bv8, poll: nat, rounds: nat, write: bool)
    requires rounds > 0
  {
    var last := statusAt(poll + 1 + rounds);
    && statusAt(poll) & 0x80 == 0 && statusAt(poll + 1) & 0x09 == 0x08
    && (forall i :: poll + 2 <= i < poll + 1 + rounds ==> statusAt(i) & 0xC9 == 0x48)
    && last & 0xC9 == 0x40 && (write ==> last & 0x20 == 0)
  }

  /** The code is 0 exactly then; 1 to 3 are the early ends. */
  lemma OutcomeMeans(statusAt: nat -> bv8, poll: nat, count: nat, write: bool)
    ensures var (moved, code) := Outcome(statusAt, poll, count, write);
            && (code == 0 <==> Succeeds(statusAt, poll, Rounds(count), write))
            && (code == 1 <==> statusAt(poll) & 0x80 != 0)
            && (code == 2 <==> statusAt(poll) & 0x80 == 0 && statusAt(poll + 1) & 0x01 != 0)
            && (code == 3 <==> statusAt(poll) & 0x80 == 0 && statusAt(poll + 1) & 0x09 == 0)
            && (0 < code < 4 ==> moved == 0)
  {
    var second := statusAt(poll + 1);
    assert second & 0x09 == 0x08 <==> second & 0x01 == 0 && second & 0x08 != 0;
    assert second & 0x09 == 0 <==> second & 0x01 == 0 && second & 0x08 == 0;
    if statusAt(poll) & BSY == 0 && second & ERR == 0 && second & DRQ != 0 {
      LoopEndMeans(statusAt, poll + 2, 1, Rounds(count), write);
      SuccessSeen(statusAt, poll, Rounds(count), write, LoopEnd(statusAt, poll + 2, 1, Rounds(count), write));
    }
  }

  lemma SuccessSeen(statusAt: nat -> bv8, poll: nat, rounds: nat, write: bool, end: (nat, nat))
    requires 0 < end.0 <= rounds && statusAt(poll) & 0x80 == 0 && statusAt(poll + 1) & 0x09 == 0x08
    requires var last := statusAt(poll + 1 + end.0);
             && (forall i :: poll + 2 <= i < poll + 1 + end.0 ==> statusAt(i) & 0xC9 == 0x48)
             && (end.1 == 0 <==> end.0 == rounds && last & 0xC9 == 0x40 && (write ==> last & 0x20 == 0))
             && (end.0 < rounds ==> last & 0xC9 != 0x48)
    ensures end.1 == 0 <==> Succeeds(statusAt, poll, rounds, write)
  {
  }

  /** The bytes that cx transfers of one word or one double word move. */
  function Moved(cx: nat, pio32: bool): nat {
    if pio32 then 4 * cx else 2 * cx
  }

  /** One word or double word from the data port to memory. */
  method In(port: DataPort, mem: array<byte>, at: nat, width: nat)
    requires at + width <= mem.Length
    modifies port`cursor, mem
    ensures port.cursor == old(port.cursor) + width
    ensures mem[..] == Splice(old(mem[..]), at, Stretch(port.medium, old(port.cursor), width))
  {
    for b := 0 to width
      invariant port.cursor == old(port.cursor) + b && port.medium == old(port.medium)
      invariant forall i :: 0 <= i < mem.Length ==>
        mem[i] == if at <= i < at + b then Stretch(port.medium, old(port.cursor), width)[i - at] else old(mem[i])
    {
      mem[at + b] := port.DataIn();
    }
  }

  /** Memory `now` is memory `m` with n bytes of the medium stored from `at` on. */
  ghost predicate Received(m: seq<byte>, now: seq<byte>, at: nat, medium: nat -> byte, cursor: int, n: nat) {
    at + n <= |m| && now == Splice(m, at, Stretch(medium, cursor, n))
  }

  lemma ReceivedNone(m: seq<byte>, at: nat, medium: nat -> byte, cursor: int)
    requires at <= |m|
    ensures Received(m, m, at, medium, cursor, 0)
  {
    assert Stretch(medium, cursor, 0) == [];
  }

  /** Two stretches of the medium stored back to back. */
  lemma StoredAppend(m: seq<byte>, at: nat, medium: nat -> byte, cursor: int, a: nat, b: nat)
    requires at + a + b <= |m|
    ensures Splice(Splice(m, at, Stretch(medium, cursor, a)), at + a, Stretch(medium, cursor + a, b))
         == Splice(m, at, Stretch(medium, cursor, a + b))
  {
    StretchAppend(medium, cursor, a, b);
    SpliceAppend(m, at, Stretch(medium, cursor, a), Stretch(medium, cursor + a, b));
  }

  lemma ReceivedMore(m: seq<byte>, now: seq<byte>, later: seq<byte>, at: nat, medium: nat -> byte, cursor: int,
                     a: nat, b: nat)
    requires Received(m, now, at, medium, cursor, a) && at + a + b <= |m|
    requires later == Splice(now, at + a, Stretch(medium, cursor + a, b))
    ensures Received(m, later, at, medium, cursor, a + b)
  {
    StoredAppend(m, at, medium, cursor, a, b);
  }

  /** `rep insw` or `rep insd`: cx transfers from the data port to ES:DI, DI moving on. */
  method RepIns(port: DataPort, mem: array<byte>, es: nat, di: nat, cx: nat, pio32: bool) returns (diAfter: nat)
    requires di + Moved(cx, pio32) <= 0x1_0000 && es * 16 + di + Moved(cx, pio32) <= mem.Length
    modifies port`cursor, mem
    ensures diAfter == di + Moved(cx, pio32)
    ensures port.cursor == old(port.cursor) + Moved(cx, pio32)
    ensures mem[..] == Splice(old(mem[..]), es * 16 + di, Stretch(port.medium, old(port.cursor), Moved(cx, pio32)))
  {
    diAfter := di;
    var width := if pio32 then 4 else 2;
    ghost var m, at, medium, cursor := mem[..], es * 16 + di, port.medium, port.cursor;
    for k := 0 to cx
      invariant diAfter == di + Moved(k, pio32)
      invariant port.cursor == cursor + Moved(k, pio32) && port.medium == medium
      invariant Received(m, mem[..], at, medium, cursor, Moved(k, pio32))
    {
      ghost var done, now := Moved(k, pio32), mem[..];
      assert Moved(k + 1, pio32) == done + width <= Moved(cx, pio32);
      In(port, mem, es * 16 + diAfter, width);
      ReceivedMore(m, now, mem[..], at, medium, cursor, done, width);
      diAfter := diAfter + width;
    }
  }

  /** One word or double word from memory to the data port. */
  method Out(port: DataPort, mem: array<byte>, at: nat, width: nat)
    requires at + width <= mem.Length
    modifies port
    ensures port.cursor == old(port.cursor) + width
    ensures forall p: nat :: port.medium(p) == Patched(old(port.medium), old(port.cursor), mem[at..at + width])(p)
  {
    for b := 0 to width
      invariant port.cursor == old(port.cursor) + b
      invariant forall p: nat :: port.medium(p) == Patched(old(port.medium), old(port.cursor), mem[at..at + b])(p)
    {
      port.DataOut(mem[at + b]);
    }
  }

  /** `rep outsw` or `rep outsd`: cx transfers from ES:SI to the data port, SI moving on. */
  method RepOuts(port: DataPort, mem: array<byte>, es: nat, si: nat, cx: nat, pio32: bool) returns (siAfter: nat)
    requires si + Moved(cx, pio32) <= 0x1_0000 && es * 16 + si + Moved(cx, pio32) <= mem.Length
    modifies port
    ensures siAfter == si + Moved(cx, pio32)
    ensures port.cursor == old(port.cursor) + Moved(cx, pio32)
    ensures var at := es * 16 + si;
            forall p: nat :: port.medium(p)
                          == Patched(old(port.medium), old(port.cursor), mem[at..at + Moved(cx, pio32)])(p)
  {
    siAfter := si;
    var at := es * 16 + si;
    var width := if pio32 then 4 else 2;
    for k := 0 to cx
      invariant siAfter == si + Moved(k, pio32)
      invariant port.cursor == old(port.cursor) + Moved(k, pio32)
      invariant forall p: nat :: port.medium(p)
                              == Patched(old(port.medium), old(port.cursor), mem[at..at + Moved(k, pio32)])(p)
    {
      Out(port, mem, at + Moved(k, pio32), width);
      siAfter := siAfter + width;
    }
  }

  /** A segment and an offset that leave room for a whole transfer in the segment, for the same
      linear address. */
  method Adjust(segment: nat, offset: nat) returns (es: nat, di: nat)
    requires offset < 0x1_0000
    ensures es * 16 + di == segment * 16 + offset && di <= 0xF800
    ensures es == if offset > 0xF800 then segment + 0x80 else segment
  {
    es, di := segment, offset;
    if di > 0xF800 {
      di := di - 0x0800;
      es := es + 0x0080;
    }
  }

  /** One sector from the drive to memory. */
  method SectorIn(port: DataPort, mem: array<byte>, segment: nat, offset: nat, pio32: bool) returns (es: nat, di: nat)
    requires mem.Length == ONE_MB && segment < 0x1_0000 && offset < 0x1_0000 && segment * 16 + offset + 512 <= ONE_MB
    modifies port`cursor, mem
    ensures es < 0x1_0000 && di < 0x1_0000 && es * 16 + di == segment * 16 + offset + 512
    ensures port.cursor == old(port.cursor) + 512
    ensures mem[..] == Splice(old(mem[..]), segment * 16 + offset, Stretch(port.medium, old(port.cursor), 512))
  {
    es, di := Adjust(segment, offset);
    di := RepIns(port, mem, es, di, if pio32 then 0x200 / 4 else 0x200 / 2, pio32);
  }

  /** One sector from memory to the port. */
  method SectorOut(port: DataPort, mem: array<byte>, segment: nat, offset: nat, pio32: bool) returns (es: nat, di: nat)
    requires mem.Length == ONE_MB && segment < 0x1_0000 && offset < 0x1_0000 && segment * 16 + offset + 512 <= ONE_MB
    modifies port
    ensures es < 0x1_0000 && di < 0x1_0000 && es * 16 + di == segment * 16 + offset + 512
    ensures port.cursor == old(port.cursor) + 512
    ensures var at := segment * 16 + offset;
            forall p: nat :: port.medium(p) == Patched(old(port.medium), old(port.cursor), mem[at..at + 512])(p)
  {
    es, di := Adjust(segment, offset);
    di := RepOuts(port, mem, es, di, if pio32 then 0x200 / 4 else 0x200 / 2, pio32);
  }

  /** The medium `now` is `medium` with n bytes of memory from `at` on written at the cursor. */
  ghost predicate Sent(medium: nat -> byte, now: nat -> byte, cursor: int, m: seq<byte>, at: nat, n: nat) {
    at + n <= |m| && forall p: nat :: now(p) == Patched(medium, cursor, m[at..at + n])(p)
  }

  /** The loop's two counters: 16 bits count down what is left, 8 bits count what has been moved. */
  predicate Counting(moved: nat, rounds: nat, left: nat, current: nat, wraps: nat) {
    && moved < rounds <= 0x1_0000 && left == (if rounds - moved == 0x1_0000 then 0 else rounds - moved)
    && moved == 0x100 * wraps + current && current < 0x100
  }

  /** Both counters after one more sector. */
  method CountOn(left: nat, current: nat, ghost moved: nat, ghost rounds: nat, ghost wraps: nat)
    returns (left': nat, current': nat, ghost wraps': nat)
    requires Counting(moved, rounds, left, current, wraps)
    ensures left' == 0 <==> moved + 1 == rounds
    ensures moved + 1 < rounds ==> Counting(moved + 1, rounds, left', current', wraps')
    ensures current' == (moved + 1) % 0x100
  {
    left' := (left + 0xFFFF) % 0x1_0000;
    current' := (current + 1) % 0x100;
    wraps' := wraps + (if current' == 0 then 1 else 0);
  }

  class Driver {
    const drive: Drive
    const mem: array<byte>
    const slave: bool
    const pio32: bool
    var trsfsectors: nat

    ghost predicate Valid() { mem.Length == ONE_MB }

    constructor (drive: Drive, mem: array<byte>, slave: bool, pio32: bool)
      requires mem.Length == ONE_MB
      ensures Valid() && this.drive == drive && this.mem == mem && this.slave == slave && this.pio32 == pio32
    {
      this.drive, this.mem, this.slave, this.pio32 := drive, mem, slave, pio32;
      trsfsectors := 0;
    }

    /** One round of the sector loop of a read, up to and including the status that follows. */
    method ReadRound(segment: nat, offset: nat, left: nat, current: nat, ghost moved: nat, ghost rounds: nat,
                     ghost wraps: nat, ghost m: seq<byte>, ghost at: nat, ghost cursor: int)
      returns (es: nat, di: nat, left': nat, current': nat, ghost wraps': nat, status: bv8)
      requires Valid() && segment < 0x1_0000 && offset < 0x1_0000 && segment * 16 + offset == at + 512 * moved
      requires |m| == ONE_MB && at + 512 * (moved + 1) <= ONE_MB && drive.port.cursor == cursor + 512 * moved
      requires Received(m, mem[..], at, drive.port.medium, cursor, 512 * moved)
      requires Counting(moved, rounds, left, current, wraps)
      modifies this`trsfsectors, drive`polls, drive.port`cursor, mem
      ensures es < 0x1_0000 && di < 0x1_0000 && es * 16 + di == at + 512 * (moved + 1)
      ensures drive.port.cursor == cursor + 512 * (moved + 1)
      ensures Received(m, mem[..], at, drive.port.medium, cursor, 512 * (moved + 1))
      ensures left' == 0 <==> moved + 1 == rounds
      ensures moved + 1 < rounds ==> Counting(moved + 1, rounds, left', current', wraps')
      ensures trsfsectors == (moved + 1) % 0x100
      ensures drive.polls == old(drive.polls) + 1 && status == drive.statusAt(old(drive.polls))
    {
      ghost var now := mem[..];
      es, di := SectorIn(drive.port, mem, segment, offset, pio32);
      ReceivedMore(m, now, mem[..], at, drive.port.medium, cursor, 512 * moved, 512);
      left', current', wraps' := CountOn(left, current, moved, rounds, wraps);
      trsfsectors := current';
      status := drive.Status();
    }

    /** The sector loop of a read. Whatever the statuses, the sectors counted are the sectors moved,
        they lie back to back from segment:offset on, and nothing else changes. */
    method ReadLoop(count: nat, segment: nat, offset: nat) returns (code: nat, ghost moved: nat)
      requires Valid() && count < 0x100 && segment < 0x1_0000 && offset < 0x1_0000
      requires segment * 16 + offset + 512 * LoopEnd(drive.statusAt, drive.polls, 1, Rounds(count), false).0 <= ONE_MB
      modifies this`trsfsectors, drive`polls, drive.port`cursor, mem
      ensures (moved, code) == LoopEnd(drive.statusAt, old(drive.polls), 1, Rounds(count), false)
      ensures trsfsectors == moved % 0x100
      ensures drive.port.cursor == old(drive.port.cursor) + 512 * moved
      ensures Received(old(mem[..]), mem[..], segment * 16 + offset,
                       drive.port.medium, old(drive.port.cursor), 512 * moved)
    {
      var es, di, left: nat, current: nat := segment, offset, count, 0;
      moved := 0;
      ghost var wraps := 0;
      ghost var m, at, polls := mem[..], segment * 16 + offset, drive.polls;
      ghost var medium, cursor := drive.port.medium, drive.port.cursor;
      ghost var rounds := Rounds(count);
      ReceivedNone(m, at, medium, cursor);
      while true
        invariant Counting(moved, rounds, left, current, wraps)
        invariant es < 0x1_0000 && di < 0x1_0000 && es * 16 + di == at + 512 * moved
        invariant drive.port.medium == medium && drive.port.cursor == cursor + 512 * moved
        invariant drive.polls == polls + moved
        invariant Asking(drive.statusAt, polls, moved)
        invariant Received(m, mem[..], at, drive.port.medium, cursor, 512 * moved)
        decreases rounds - moved
      {
        LoopEndSeen(drive.statusAt, polls, moved, rounds, false);
        var status;
        es, di, left, current, wraps, status := ReadRound(es, di, left, current, moved, rounds, wraps, m, at, cursor);
        moved := moved + 1;
        if left == 0 { return if Finished(status, false) then 0 else 4, moved; }
        if !MoreExpected(status) { return 5, moved; }
      }
    }

    /** One round of the sector loop of a write. */
    method WriteRound(segment: nat, offset: nat, left: nat, current: nat, ghost moved: nat, ghost rounds: nat,
                     ghost wraps: nat, ghost medium: nat -> byte, ghost at: nat, ghost cursor: int)
      returns (es: nat, di: nat, left': nat, current': nat, ghost wraps': nat, status: bv8)
      requires Valid() && segment < 0x1_0000 && offset < 0x1_0000 && segment * 16 + offset == at + 512 * moved
      requires at + 512 * (moved + 1) <= ONE_MB && drive.port.cursor == cursor + 512 * moved
      requires Sent(medium, drive.port.medium, cursor, mem[..], at, 512 * moved)
      requires Counting(moved, rounds, left, current, wraps)
      modifies this`trsfsectors, drive`polls, drive.port
      ensures es < 0x1_0000 && di < 0x1_0000 && es * 16 + di == at + 512 * (moved + 1)
      ensures drive.port.cursor == cursor + 512 * (moved + 1)
      ensures Sent(medium, drive.port.medium, cursor, mem[..], at, 512 * (moved + 1))
      ensures left' == 0 <==> moved + 1 == rounds
      ensures moved + 1 < rounds ==> Counting(moved + 1, rounds, left', current', wraps')
      ensures trsfsectors == (moved + 1) % 0x100
      ensures drive.polls == old(drive.polls) + 1 && status == drive.statusAt(old(drive.polls))
    {
      es, di := SectorOut(drive.port, mem, segment, offset, pio32);
      left', current', wraps' := CountOn(left, current, moved, rounds, wraps);
      trsfsectors := current';
      status := drive.Status();
    }

    /** The sector loop of a write: the drive receives memory from segment:offset on, memory stays. */
    method WriteLoop(count: nat, segment: nat, offset: nat) returns (code: nat, ghost moved: nat)
      requires Valid() && count < 0x100 && segment < 0x1_0000 && offset < 0x1_0000
      requires segment * 16 + offset + 512 * LoopEnd(drive.statusAt, drive.polls, 1, Rounds(count), true).0 <= ONE_MB
      modifies this`trsfsectors, drive`polls, drive.port
      ensures (moved, code) == LoopEnd(drive.statusAt, old(drive.polls), 1, Rounds(count), true)
      ensures trsfsectors == moved % 0x100
      ensures drive.port.cursor == old(drive.port.cursor) + 512 * moved
      ensures Sent(old(drive.port.medium), drive.port.medium, old(drive.port.cursor), mem[..],
                   segment * 16 + offset, 512 * moved)
    {
      var es, di, left: nat, current: nat := segment, offset, count, 0;
      moved := 0;
      ghost var wraps := 0;
      ghost var medium, at, cursor, polls := drive.port.medium, segment * 16 + offset, drive.port.cursor, drive.polls;
      ghost var rounds := Rounds(count);
      while true
        invariant Counting(moved, rounds, left, current, wraps)
        invariant es < 0x1_0000 && di < 0x1_0000 && es * 16 + di == at + 512 * moved
        invariant drive.port.cursor == cursor + 512 * moved && drive.polls == polls + moved
        invariant Asking(drive.statusAt, polls, moved)
        invariant Sent(medium, drive.port.medium, cursor, mem[..], at, 512 * moved)
        decreases rounds - moved
      {
        LoopEndSeen(drive.statusAt, polls, moved, rounds, true);
        var status;
        es, di, left, current, wraps, status := WriteRound(es, di, left, current, moved, rounds, wraps,
                                                           medium, at, cursor);
        moved := moved + 1;
        if left == 0 { return if Finished(status, true) then 0 else 6, moved; }
        if !MoreExpected(status) { return 7, moved; }
      }
    }

    /** ata_cmd_data_io. Three early ends move nothing; otherwise `moved` sectors pass between
        memory and the disk, from the first sector of the address on, and trsfsectors is their number
        cut to 8 bits. */
    method DataIo(write: bool, command: nat, count: nat, cylinder: nat, head: nat, sector: nat,
                  lbaLow: nat, lbaHigh: nat, segment: nat, offset: nat, ghost from: int)
      returns (code: nat, ghost moved: nat)
      requires Valid() && command == (if write then WRITE_SECTORS else READ_SECTORS)
      requires count < 0x1_0000 && lbaLow < 0x1_0000_0000 && lbaHigh < 0x1_0000
      requires cylinder < 0x1_0000 && sector < 0x100 && (sector != 0 ==> head < 16 && count < 0x100)
      requires segment < 0x1_0000 && offset < 0x1_0000
      requires var c := Intended(command, slave, count, cylinder, head, sector, lbaLow + 0x1_0000_0000 * lbaHigh);
               from == FirstSector(c.address, drive.heads, drive.spt)
      requires segment * 16 + offset + 512 * Outcome(drive.statusAt, drive.polls, count, write).0 <= ONE_MB
      modifies this`trsfsectors, drive, drive.port, mem
      ensures (moved, code) == Outcome(drive.statusAt, old(drive.polls), count, write)
      ensures code == 0 <==> Succeeds(drive.statusAt, old(drive.polls), Rounds(count), write)
      ensures trsfsectors == moved % 0x100
      ensures var c := Intended(command, slave, count, cylinder, head, sector, lbaLow + 0x1_0000_0000 * lbaHigh);
              && drive.commands == old(drive.commands) + (if code == 1 then [] else [c])
              && c.opcode == (if write then 0x30 else 0x20) + (if c.address.Lba48? then 4 else 0)
      ensures Transferred(write, old(drive.port.medium), drive.port.medium, old(mem[..]), mem[..],
                          segment * 16 + offset, 512 * from, 512 * moved)
    {
      OutcomeMeans(drive.statusAt, drive.polls, count, write);
      trsfsectors := 0;
      var status := drive.Status();
      if status & BSY != 0 { return 1, 0; }
      var loopCount := Issue(drive, slave, command, count, cylinder, head, sector, lbaLow, lbaHigh);
      assert Rounds(loopCount) == Rounds(count);
      status := drive.Status();
      if status & ERR != 0 { return 2, 0; }
      if status & DRQ == 0 { return 3, 0; }
      if write {
        code, moved := WriteLoop(loopCount, segment, offset);
      } else {
        code, moved := ReadLoop(loopCount, segment, offset);
      }
    }
  }

  /** `n` bytes have passed between the disk at `from` and memory at `at`, and nothing else changed. */
  ghost predicate Transferred(write: bool, diskBefore: nat -> byte, diskAfter: nat -> byte,
                              memBefore: seq<byte>, memAfter: seq<byte>, at: nat, from: int, n: nat)
  {
    if write
    then memAfter == memBefore && Sent(diskBefore, diskAfter, from, memBefore, at, n)
    else diskAfter == diskBefore && Received(memBefore, memAfter, at, diskBefore, from, n)
  }

  /** What a write has put on the disk a later read of the same sectors brings back. */
  lemma WriteThenRead(d0: nat -> byte, d1: nat -> byte, d2: nat -> byte, m0: seq<byte>, m1: seq<byte>, m2: seq<byte>,
                      source: nat, target: nat, from: nat, n: nat)
    requires Transferred(true, d0, d1, m0, m0, source, from, n)
    requires Transferred(false, d1, d2, m1, m2, target, from, n)
    ensures m2 == Splice(m1, target, m0[source..source + n])
  {
    assert Stretch(d1, from, n) == m0[source..source + n];
  }
}
