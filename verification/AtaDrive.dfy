/** The drive side of the ATA task file: what the registers written by the BIOS mean to the
    device. Register pairs and the 28/48-bit forms follow section 6.20 of ATA/ATAPI-6, cylinder,
    head and sector addressing section 6.2. */
module AtaDrive {
  import opened Basics

  /** A task-file register of the 48-bit feature set: the last two values written. */
  datatype Latch = Latch(prev: nat, cur: nat)

  datatype Register = FR | SC | SN | CL | CH | DH | CMD

  datatype TaskFile = TaskFile(sc: Latch, sn: Latch, cl: Latch, ch: Latch, dh: nat)

  function Written(t: TaskFile, r: Register, v: nat): TaskFile {
    match r
    case SC => t.(sc := Latch(t.sc.cur, v))
    case SN => t.(sn := Latch(t.sn.cur, v))
    case CL => t.(cl := Latch(t.cl.cur, v))
    case CH => t.(ch := Latch(t.ch.cur, v))
    case DH => t.(dh := v)
    case FR => t
    case CMD => t
  }

  datatype Address = Lba28(lba: nat) | Lba48(lba: nat) | Chs(cylinder: nat, head: nat, sector: nat)

  /** A command as the drive understands it. */
  datatype Command = Command(opcode: nat, slave: bool, address: Address, count: nat)

  const READ_SECTORS := 0x20
  const WRITE_SECTORS := 0x30
  const READ_SECTORS_EXT := 0x24
  const WRITE_SECTORS_EXT := 0x34

  function Decode(t: TaskFile, opcode: nat): Command {
    var slave := t.dh / 16 % 2 == 1;
    if opcode == READ_SECTORS_EXT || opcode == WRITE_SECTORS_EXT then
      var low := t.sn.cur + 0x100 * t.cl.cur + 0x1_0000 * t.ch.cur;
      var high := t.sn.prev + 0x100 * t.cl.prev + 0x1_0000 * t.ch.prev;
      var count := t.sc.cur + 0x100 * t.sc.prev;
      Command(opcode, slave, Lba48(low + 0x100_0000 * high), if count == 0 then 0x1_0000 else count)
    else
      var count := if t.sc.cur == 0 then 0x100 else t.sc.cur;
      if t.dh / 64 % 2 == 1 then
        var lba := t.sn.cur + 0x100 * t.cl.cur + 0x1_0000 * t.ch.cur + 0x100_0000 * (t.dh % 16);
        Command(opcode, slave, Lba28(lba), count)
      else
        Command(opcode, slave, Chs(t.cl.cur + 0x100 * t.ch.cur, t.dh % 16, t.sn.cur), count)
  }

  /** The first sector a command addresses on a drive of the given geometry. */
  function FirstSector(a: Address, heads: nat, spt: nat): int {
    match a
    case Lba28(lba) => lba
    case Lba48(lba) => lba
    case Chs(c, h, s) => (c * heads + h) * spt + s - 1
  }

  /** A disk with the bytes of one stretch replaced. */
  function Patched(medium: nat -> byte, at: int, bs: seq<byte>): nat -> byte {
    (p: nat) => if at <= p < at + |bs| then bs[p - at] else medium(p)
  }

  /** `n` bytes of the medium from position `at`; what lies before the medium reads as zero. */
  function Stretch(medium: nat -> byte, at: int, n: nat): (bs: seq<byte>)
    ensures |bs| == n
  {
    seq(n, i requires 0 <= i < n => if at + i >= 0 then medium(at + i) else 0)
  }

  lemma StretchAppend(medium: nat -> byte, at: int, m: nat, n: nat)
    ensures Stretch(medium, at, m) + Stretch(medium, at + m, n) == Stretch(medium, at, m + n)
  {
  }

  /** The data port of a drive: the medium behind it and the position of the next byte. */
  class DataPort {
    var medium: nat -> byte
    var cursor: int

    constructor (medium: nat -> byte)
      ensures this.medium == medium && cursor == 0
    {
      this.medium, cursor := medium, 0;
    }

    method DataIn() returns (b: byte)
      modifies this`cursor
      ensures b == (if old(cursor) >= 0 then medium(old(cursor)) else 0) && cursor == old(cursor) + 1
    {
      b := if cursor >= 0 then medium(cursor) else 0;
      cursor := cursor + 1;
    }

    method DataOut(b: byte)
      modifies this
      ensures cursor == old(cursor) + 1
      ensures forall p: nat :: medium(p) == if p == old(cursor) then b else old(medium)(p)
    {
      medium := Patched(medium, cursor, [b]);
      cursor := cursor + 1;
    }
  }

  /** An ATA hard disk at the other end of the ports. Which status it shows at each poll that the
      driver acts on is left open. */
  class Drive {
    const heads: nat
    const spt: nat
    const statusAt: nat -> bv8
    const port: DataPort
    var polls: nat
    var regs: TaskFile
    var commands: seq<Command>

    constructor (heads: nat, spt: nat, statusAt: nat -> bv8, medium: nat -> byte)
      ensures this.heads == heads && this.spt == spt && this.statusAt == statusAt
      ensures fresh(port) && port.medium == medium && polls == 0 && commands == []
    {
      this.heads, this.spt, this.statusAt, polls, commands := heads, spt, statusAt, 0, [];
      port := new DataPort(medium);
      var zero := Latch(0, 0);
      regs := TaskFile(zero, zero, zero, zero, 0);
    }

    method Status() returns (s: bv8)
      modifies this`polls
      ensures s == statusAt(old(polls)) && polls == old(polls) + 1
    {
      s := statusAt(polls);
      polls := polls + 1;
    }

    /** A byte written to a register; the command register starts the command. */
    method Outb(r: Register, v: nat)
      requires v < 0x100
      modifies this`regs, this`commands, port`cursor
      ensures regs == Written(old(regs), r, v)
      ensures r != CMD ==> commands == old(commands) && port.cursor == old(port.cursor)
      ensures r == CMD ==>
        var c := Decode(old(regs), v);
        commands == old(commands) + [c] && port.cursor == 512 * FirstSector(c.address, heads, spt)
    {
      if r == CMD {
        var c := Decode(regs, v);
        commands := commands + [c];
        port.cursor := 512 * FirstSector(c.address, heads, spt);
      }
      regs := Written(regs, r, v);
    }
  }
}
