/** ata_cmd_packet of the system BIOS (sw/sysbios/rombios.c): a packet command whose data arrives in
    DRQ blocks of the drive's choosing, of which only a window is wanted. */
module AtapiPacket {
  import opened Basics
  import opened AtaDrive
  import opened AtaDataIo

  datatype Direction = DataNo | DataIn | DataOut

  /** How the drive will answer a packet: the sizes of its DRQ blocks, and the status and sector
      count (interrupt reason) registers at each round of the driver's loop. */
  datatype Plan = Plan(blocks: seq<nat>, statusAt: nat -> bv8, reasonAt: nat -> bv8) {
    predicate Completed(k: nat) {
      reasonAt(k) & 0x7 == 0x3 && statusAt(k) & (RDY | ERR) == RDY
    }

    predicate Failed(k: nat) {
      statusAt(k) & ERR != 0
    }

    /** Blocks are even and within the limit the driver has set, and come without an error; after them the
        drive ends, in the status phase and ready, or with an error. */
    ghost predicate Proper() {
      && (forall k :: 0 <= k < |blocks| ==> blocks[k] % 2 == 0 && blocks[k] <= 0xFFF0)
      && (forall k :: 0 <= k < |blocks| ==> statusAt(k) & 0x01 == 0 && !Ended(k))
      && (Ended(|blocks|) || statusAt(|blocks|) & 0x01 != 0)
    }

    /** The interrupt reason names the status phase, and the drive is ready without an error. */
    predicate Ended(k: nat) {
      reasonAt(k) & 0x07 == 0x03 && statusAt(k) & 0x41 == 0x40
    }
  }

  /** The bytes of the first n blocks. */
  function Sum(s: seq<nat>, n: nat): nat
    requires n <= |s|
  {
    if n == 0 then 0 else Sum(s, n - 1) + s[n - 1]
  }

  function Total(s: seq<nat>): nat {
    Sum(s, |s|)
  }

  const READ_10: byte := 0x28
  const CD_SECTOR := 2048

  /** Big-endian address and length of a READ (10) packet. */
  function PacketLba(p: seq<byte>): nat
    requires |p| == 12
  {
    0x100_0000 * p[2] as nat + 0x1_0000 * p[3] as nat + 0x100 * p[4] as nat + p[5] as nat
  }

  function PacketCount(p: seq<byte>): nat
    requires |p| == 12
  {
    0x100 * p[7] as nat + p[8] as nat
  }

  class CdDrive {
    const port: DataPort
    const statusAt: nat -> bv8
    const planFor: seq<byte> -> Plan
    var polls: nat
    var plan: Plan

    constructor (medium: nat -> byte, statusAt: nat -> bv8, planFor: seq<byte> -> Plan)
      ensures fresh(port) && port.medium == medium
      ensures this.statusAt == statusAt && this.planFor == planFor && polls == 0
    {
      port := new DataPort(medium);
      this.statusAt, this.planFor, polls, plan := statusAt, planFor, 0, Plan([], _ => 0, _ => 0);
    }

    /** A drive that keeps to the standard: a READ (10) that completes has sent all its sectors. */
    ghost predicate Honest() {
      forall p: seq<byte> | |p| == 12 && p[0] == READ_10 ::
        var plan := planFor(p);
        plan.Proper() && (plan.Ended(|plan.blocks|) ==> Total(plan.blocks) == CD_SECTOR * PacketCount(p))
    }

    /** Where on the medium the data of a packet begins. */
    function Start(p: seq<byte>): nat
      requires |p| == 12
    {
      if p[0] == READ_10 then CD_SECTOR * PacketLba(p) else 0
    }

    method Status() returns (s: bv8)
      modifies this`polls
      ensures s == statusAt(old(polls)) && polls == old(polls) + 1
    {
      s := statusAt(polls);
      polls := polls + 1;
    }

    /** The drive takes the packet and prepares its answer. */
    method Take(p: seq<byte>)
      requires |p| == 12
      modifies this`plan, port`cursor
      ensures plan == planFor(p)
      ensures port.cursor == Start(p)
    {
      plan := planFor(p);
      port.cursor := Start(p);
    }
  }

  // ------------------------------------------------------------------ one DRQ block

  /** The next even number. */
  function Padded(n: nat): nat {
    n + n % 2
  }

  /** `in` in a loop: words or double words read and dropped. */
  method Skip(port: DataPort, cx: nat, pio32: bool)
    modifies port`cursor
    ensures port.cursor == old(port.cursor) + Moved(cx, pio32)
  {
    for k := 0 to cx
      invariant port.cursor == old(port.cursor) + Moved(k, pio32)
    {
      port.cursor := port.cursor + (if pio32 then 4 else 2);
    }
  }

  /** What a block of `block` bytes is cut into: bytes before the window, bytes wanted, bytes after. */
  function Before(block: nat, header: nat): nat { Min(header, block) }

  function Wanted(block: nat, header: nat, length: nat): nat { Min(length, block - Before(block, header)) }

  function After(block: nat, header: nat, length: nat): nat {
    block - Before(block, header) - Wanted(block, header, length)
  }

  /** The byte counts of one block, and what is left of the window after it. */
  method Cut(block: nat, header: nat, length: nat)
    returns (header': nat, length': nat, lbefore: nat, lcount: nat, lafter: nat)
    ensures lbefore == Before(block, header) && lcount == Wanted(block, header, length)
    ensures lbefore + lcount + lafter == block
    ensures header' == header - lbefore && length' == length - lcount
  {
    header', length', lcount, lafter := header, length, block, 0;
    if header' > lcount {
      lbefore := lcount;
      header' := header' - lcount;
      lcount := 0;
    } else {
      lbefore := header';
      header' := 0;
      lcount := lcount - lbefore;
    }
    if lcount > length' {
      lafter := lcount - length';
      lcount := length';
      length' := 0;
    } else {
      lafter := 0;
      length' := length' - lcount;
    }
  }

  /** The same counts in transfers of the chosen width. An odd byte is rounded up at the cost of the
      bytes after it, so that the transfers are the whole block. */
  method InTransfers(lbefore: nat, lcount: nat, lafter: nat, pio32: bool)
    returns (before: nat, wanted: nat, after: nat, wide: bool)
    requires lbefore % 2 == 0 && (lbefore + lcount + lafter) % 2 == 0
    ensures Moved(before, wide) == lbefore && Moved(wanted, wide) == Padded(lcount)
    ensures Moved(before, wide) + Moved(wanted, wide) + Moved(after, wide) == lbefore + lcount + lafter
  {
    before, wanted, after := lbefore, lcount, lafter;
    wide := pio32 && before % 4 == 0 && wanted % 4 == 0 && after % 4 == 0;
    if wanted % 2 == 1 {
      wanted := wanted + 1;
      if after > 0 && after % 2 == 1 {
        after := after - 1;
      }
    }
    if wide {
      wanted, before, after := wanted / 4, before / 4, after / 4;
    } else {
      wanted, before, after := wanted / 2, before / 2, after / 2;
    }
  }

  /** Memory m is m0 with `kept` bytes of the medium, and the byte after an odd number, stored at `at`. */
  ghost predicate Window(m0: seq<byte>, m: seq<byte>, at: nat, medium: nat -> byte, from: int, kept: nat) {
    at + Padded(kept) <= |m0| && m == Windowed(m0, at, medium, from, Padded(kept))
  }

  function Windowed(m0: seq<byte>, at: nat, medium: nat -> byte, from: int, n: nat): seq<byte>
    requires at + n <= |m0|
  {
    Splice(m0, at, Stretch(medium, from, n))
  }

  /** One round of the loop. The block is consumed to the byte; the wanted bytes go to bufseg:bufoff,
      and one more byte when their number is odd. */
  method Round(port: DataPort, mem: array<byte>, pio32: bool, block: nat, header: nat, length: nat,
               bufseg: nat, bufoff: nat)
    returns (header': nat, length': nat, bufseg': nat, bufoff': nat, count: nat)
    requires mem.Length == ONE_MB && block % 2 == 0 && block <= 0xFFF0 && header % 2 == 0
    requires bufseg < 0x1_0000 && bufoff < 0x1_0000 && bufseg * 16 + bufoff + Padded(length) < ONE_MB
    modifies port`cursor, mem
    ensures header' == header - Before(block, header) && length' == length - count
    ensures count == Wanted(block, header, length)
    ensures bufseg' < 0x1_0000 && bufoff' < 0x1_0000
    ensures bufseg' * 16 + bufoff' == bufseg * 16 + bufoff + count
    ensures port.cursor == old(port.cursor) + block
    ensures Window(old(mem[..]), mem[..], bufseg * 16 + bufoff,
                   port.medium, old(port.cursor) + Before(block, header), count)
  {
    bufseg' := bufseg + bufoff / 16;
    bufoff' := bufoff % 16;
    assert bufseg' * 16 + bufoff' == bufseg * 16 + bufoff;
    var lbefore, lafter;
    header', length', lbefore, count, lafter := Cut(block, header, length);
    var before, wanted, after, wide := InTransfers(lbefore, count, lafter, pio32);
    assert Padded(count) <= Padded(length) && Padded(count) <= 0xFFF0;
    Skip(port, before, wide);
    var di := RepIns(port, mem, bufseg', bufoff', wanted, wide);
    Skip(port, after, wide);
    bufoff' := bufoff' + count;
  }

  // ------------------------------------------------------------------ the whole command

  /** How many bytes of the window lie in the first `total` bytes of the stream. */
  function Kept(total: nat, header: nat, length: nat): nat {
    if total <= header then 0 else Min(length, total - header)
  }

  /** What is left of the header after the first `total` bytes. */
  function HeaderLeft(total: nat, header: nat): nat {
    header - Min(header, total)
  }

  /** Counting block by block is counting the whole. */
  lemma KeptStep(total: nat, block: nat, header: nat, length: nat)
    ensures var left := HeaderLeft(total, header);
            && HeaderLeft(total + block, header) == left - Before(block, left)
            && Kept(total + block, header, length)
               == Kept(total, header, length) + Wanted(block, left, length - Kept(total, header, length))
  {
  }

  /** The wanted bytes of the next block start where the window so far has ended, and an odd number
      of bytes is only ever kept at the very end. */
  lemma WindowMeets(total: nat, block: nat, header: nat, length: nat)
    requires total % 2 == 0 && header % 2 == 0
    ensures var kept := Kept(total, header, length);
            var left := HeaderLeft(total, header);
            Wanted(block, left, length - kept) > 0 ==>
              kept % 2 == 0 && total + Before(block, left) == header + kept
    ensures var kept := Kept(total, header, length); kept + Padded(length - kept) <= Padded(length)
    ensures HeaderLeft(total, header) % 2 == 0
  {
    if total <= header {
      EvenDifference(header, total);
    } else {
      EvenDifference(total, header);
      var kept := Min(length, total - header);
      PaddedSum(if kept < length then kept else 0, length - kept);
    }
  }

  lemma EvenDifference(a: nat, b: nat)
    requires a % 2 == 0 && b % 2 == 0 && b <= a
    ensures (a - b) % 2 == 0
  {
  }

  lemma WindowSame(m0: seq<byte>, m: seq<byte>, m': seq<byte>, at: nat, medium: nat -> byte, from: int, kept: nat,
                   here: nat, next: int)
    requires Window(m0, m, at, medium, from, kept) && Window(m, m', here, medium, next, 0)
    ensures Window(m0, m', at, medium, from, kept)
  {
    assert Stretch(medium, next, 0) == [];
  }

  lemma PaddedSum(kept: nat, count: nat)
    requires kept % 2 == 0
    ensures Padded(kept) == kept && Padded(kept + count) == kept + Padded(count)
  {
  }

  lemma WindowGrows(m0: seq<byte>, m: seq<byte>, m': seq<byte>, at: nat, medium: nat -> byte, from: int, kept: nat,
                    here: nat, next: int, count: nat)
    requires Window(m0, m, at, medium, from, kept) && Window(m, m', here, medium, next, count)
    requires kept % 2 == 0 && here == at + kept && next == from + kept
    ensures Window(m0, m', at, medium, from, kept + count)
  {
    PaddedSum(kept, count);
    StoredAppend(m0, at, medium, from, kept, Padded(count));
  }

  /** The window and what the next block adds to it. */
  lemma WindowJoins(m0: seq<byte>, m: seq<byte>, m': seq<byte>, at: nat, medium: nat -> byte, from: int, kept: nat,
                    here: nat, next: int, count: nat, kept': nat)
    requires Window(m0, m, at, medium, from, kept) && Window(m, m', here, medium, next, count)
    requires count > 0 ==> kept % 2 == 0 && here == at + kept && next == from + kept
    requires kept' == kept + count
    ensures Window(m0, m', at, medium, from, kept')
  {
    if count == 0 {
      WindowSame(m0, m, m', at, medium, from, kept, here, next);
    } else {
      WindowGrows(m0, m, m', at, medium, from, kept, here, next, count);
    }
  }

  /** Where one command stands: what it was asked for and what memory and the stream were when its
      data began. */
  datatype Job = Job(header: nat, length: nat, at: nat, medium: nat -> byte, start: int)

  /** `total` bytes of the stream lie behind; the driver's variables say what they should. */
  ghost predicate Reached(job: Job, total: nat, head: nat, len: nat, seg: nat, off: nat, transfer: nat,
                          medium: nat -> byte, cursor: int, m0: seq<byte>, m: seq<byte>)
  {
    && job.header % 2 == 0 && total % 2 == 0 && job.at + Padded(job.length) < ONE_MB
    && head == HeaderLeft(total, job.header)
    && transfer == Kept(total, job.header, job.length) && len == job.length - transfer
    && seg < 0x1_0000 && off < 0x1_0000 && seg * 16 + off == job.at + transfer
    && medium == job.medium && cursor == job.start + total
    && Window(m0, m, job.at, medium, job.start + job.header, transfer)
  }

  lemma RoomForRound(job: Job, total: nat, head: nat, len: nat, seg: nat, off: nat, transfer: nat,
                     medium: nat -> byte, cursor: int, m0: seq<byte>, m: seq<byte>)
    requires Reached(job, total, head, len, seg, off, transfer, medium, cursor, m0, m)
    ensures head % 2 == 0 && seg * 16 + off + Padded(len) < ONE_MB
  {
    WindowMeets(total, 0, job.header, job.length);
  }

  lemma EvenSum(a: nat, b: nat)
    requires a % 2 == 0 && b % 2 == 0
    ensures (a + b) % 2 == 0
  {
  }

  /** What a round does to the driver's variables and to memory is one step of the command. */
  lemma ReachedStep(job: Job, total: nat, block: nat, head: nat, len: nat, seg: nat, off: nat, transfer: nat,
                    medium: nat -> byte, cursor: int, m0: seq<byte>, m: seq<byte>, count: nat,
                    head': nat, len': nat, seg': nat, off': nat, transfer': nat, cursor': int, m': seq<byte>)
    requires Reached(job, total, head, len, seg, off, transfer, medium, cursor, m0, m)
    requires block % 2 == 0 && count == Wanted(block, head, len)
    requires head' == head - Before(block, head) && len' == len - count
    requires transfer' == transfer + count && cursor' == cursor + block
    requires seg' < 0x1_0000 && off' < 0x1_0000 && seg' * 16 + off' == seg * 16 + off + count
    requires Window(m, m', seg * 16 + off, medium, cursor + Before(block, head), count)
    ensures Reached(job, total + block, head', len', seg', off', transfer', medium, cursor', m0, m')
  {
    KeptStep(total, block, job.header, job.length);
    WindowMeets(total, block, job.header, job.length);
    EvenSum(total, block);
    WindowJoins(m0, m, m', job.at, medium, job.start + job.header, transfer, seg * 16 + off,
                cursor + Before(block, head), count, transfer');
  }

  lemma ReachedStart(job: Job, seg: nat, off: nat, m0: seq<byte>)
    requires job.header % 2 == 0 && seg < 0x1_0000 && off < 0x1_0000 && seg * 16 + off == job.at
    requires job.at + Padded(job.length) < ONE_MB && job.at <= |m0|
    ensures Reached(job, 0, job.header, job.length, seg, off, 0, job.medium, job.start, m0, m0)
  {
    assert Stretch(job.medium, job.start + job.header, 0) == [];
  }

  /** What has been reached when the drive ends, said without the variables of the loop. */
  lemma ReachedEnd(job: Job, plan: Plan, k: nat, total: nat, head: nat, len: nat, seg: nat, off: nat, transfer: nat,
                   medium: nat -> byte, cursor: int, m0: seq<byte>, m: seq<byte>, at: nat, from: int)
    requires Reached(job, total, head, len, seg, off, transfer, medium, cursor, m0, m)
    requires at == job.at && from == job.start + job.header
    requires plan.Proper() && k <= |plan.blocks| && total == Sum(plan.blocks, k)
    requires plan.Completed(k) || plan.Failed(k)
    ensures transfer == Kept(Total(plan.blocks), job.header, job.length) && cursor == job.start + Total(plan.blocks)
    ensures plan.Completed(k) == plan.Completed(|plan.blocks|)
    ensures Window(m0, m, at, medium, from, transfer)
  {
    EndsAfterBlocks(plan, k);
  }

  /** One round within the whole command. */
  method Advance(port: DataPort, mem: array<byte>, pio32: bool, block: nat, head: nat, len: nat, seg: nat, off: nat,
                 transfer: nat, ghost job: Job, ghost total: nat, ghost m0: seq<byte>)
    returns (head': nat, len': nat, seg': nat, off': nat, transfer': nat)
    requires mem.Length == ONE_MB && block % 2 == 0 && block <= 0xFFF0
    requires Reached(job, total, head, len, seg, off, transfer, port.medium, port.cursor, m0, mem[..])
    modifies port`cursor, mem
    ensures Reached(job, total + block, head', len', seg', off', transfer', port.medium, port.cursor, m0, mem[..])
  {
    ghost var m, cursor, medium := mem[..], port.cursor, port.medium;
    RoomForRound(job, total, head, len, seg, off, transfer, medium, cursor, m0, m);
    var count;
    head', len', seg', off', count := Round(port, mem, pio32, block, head, len, seg, off);
    transfer' := transfer + count;
    ReachedStep(job, total, block, head, len, seg, off, transfer, medium, cursor, m0, m, count,
                head', len', seg', off', transfer', port.cursor, mem[..]);
  }

  lemma EndsAfterBlocks(plan: Plan, k: nat)
    requires plan.Proper() && k <= |plan.blocks|
    ensures plan.Completed(k) || plan.Failed(k) <==> k == |plan.blocks|
    ensures k < |plan.blocks| ==> plan.blocks[k] % 2 == 0 && plan.blocks[k] <= 0xFFF0
  {
  }

  /** The rounds of one command, from the packet on. Returns the bytes kept, and whether an error ended
      the loop. */
  method Rounds(drive: CdDrive, mem: array<byte>, pio32: bool, header: nat, length: nat, bufseg: nat, bufoff: nat)
    returns (transfer: nat, failed: bool)
    requires mem.Length == ONE_MB && header % 2 == 0 && drive.plan.Proper()
    requires bufseg < 0x1_0000 && bufoff < 0x1_0000 && bufseg * 16 + bufoff + Padded(length) < ONE_MB
    modifies drive.port`cursor, mem
    ensures transfer == Kept(Total(drive.plan.blocks), header, length)
    ensures failed == !drive.plan.Completed(|drive.plan.blocks|)
    ensures drive.port.cursor == old(drive.port.cursor) + Total(drive.plan.blocks)
    ensures Window(old(mem[..]), mem[..], bufseg * 16 + bufoff,
                   drive.port.medium, old(drive.port.cursor) + header, transfer)
  {
    var plan := drive.plan;
    var n := |plan.blocks|;
    var head, len, seg, off, k := header, length, bufseg, bufoff, 0;
    transfer := 0;
    ghost var total := 0;
    ghost var m0 := mem[..];
    ghost var job := Job(header, length, bufseg * 16 + bufoff, drive.port.medium, drive.port.cursor);
    ReachedStart(job, seg, off, m0);
    while true
      invariant k <= n && total == Sum(plan.blocks, k)
      invariant Reached(job, total, head, len, seg, off, transfer, drive.port.medium, drive.port.cursor, m0, mem[..])
      decreases n - k
    {
      if plan.Completed(k) { failed := false; break; }
      if plan.Failed(k) { failed := true; break; }
      EndsAfterBlocks(plan, k);
      head, len, seg, off, transfer := Advance(drive.port, mem, pio32, plan.blocks[k], head, len, seg, off, transfer,
                                               job, total, m0);
      total := total + plan.blocks[k];
      k := k + 1;
    }
    ReachedEnd(job, plan, k, total, head, len, seg, off, transfer, drive.port.medium, drive.port.cursor, m0, mem[..],
               bufseg * 16 + bufoff, old(drive.port.cursor) + header);
  }

  /** The status the driver wants to see at the end. */
  predicate Idle(status: bv8) {
    status & (BSY | RDY | DF | DRQ | ERR) == RDY
  }

  /** Whether the drive takes the packet, and the return code when it does not. */
  function Refusal(statusAt: nat -> bv8, poll: nat): (code: Option<nat>) {
    if statusAt(poll) & BSY != 0 then Some(2)
    else if statusAt(poll + 1) & ERR != 0 then Some(3)
    else if statusAt(poll + 1) & DRQ == 0 then Some(4)
    else None
  }

  /** How a taken data-in command ends. */
  function PlanEnd(plan: Plan): (code: nat) {
    var n := |plan.blocks|;
    if !plan.Completed(n) then 3 else if Idle(plan.statusAt(n)) then 0 else 4
  }

  /** A packet is taken when the drive is not busy at first and then asks for it without an error. */
  predicate Taken(statusAt: nat -> bv8, poll: nat) {
    statusAt(poll) & 0x80 == 0 && statusAt(poll + 1) & 0x09 == 0x08
  }

  /** A data-in command is done when, after its blocks, the drive names the status phase and is ready, not
      busy, without data, error or fault. */
  predicate Done(plan: Plan) {
    var n := |plan.blocks|;
    plan.reasonAt(n) & 0x07 == 0x03 && plan.statusAt(n) & 0xE9 == 0x40
  }

  /** The codes in bits of the statuses. */
  lemma CodesMean(statusAt: nat -> bv8, poll: nat, plan: Plan)
    ensures Refusal(statusAt, poll).None? <==> Taken(statusAt, poll)
    ensures Refusal(statusAt, poll) == Some(2) <==> statusAt(poll) & 0x80 != 0
    ensures Refusal(statusAt, poll) == Some(3) <==> statusAt(poll) & 0x80 == 0 && statusAt(poll + 1) & 0x01 != 0
    ensures PlanEnd(plan) == 0 <==> Done(plan)
    ensures var n := |plan.blocks|;
            PlanEnd(plan) == 3 <==> plan.reasonAt(n) & 0x07 != 0x03 || plan.statusAt(n) & 0x41 != 0x40
  {
    var second, last := statusAt(poll + 1), plan.statusAt(|plan.blocks|);
    assert second & 0x09 == 0x08 <==> second & 0x01 == 0 && second & 0x08 != 0;
    assert last & 0xE9 == 0x40 ==> last & 0x41 == 0x40;
  }

  /** ata_cmd_packet. A data-in command that is taken consumes every block to the byte and leaves in
      memory, from bufseg:bufoff on, the bytes of the stream from `header` on, as many as were asked
      for and sent; `trsfbytes` is their number. */
  method AtaCmdPacket(drive: CdDrive, mem: array<byte>, pio32: bool, packet: seq<byte>, header: nat, length: nat,
                      inout: Direction, bufseg: nat, bufoff: nat) returns (code: nat, trsfbytes: nat)
    requires mem.Length == ONE_MB && |packet| == 12 && drive.planFor(packet).Proper()
    requires bufseg < 0x1_0000 && bufoff < 0x1_0000 && bufseg * 16 + bufoff + Padded(length) < ONE_MB
    modifies drive, drive.port`cursor, mem
    ensures inout == DataOut || header % 2 == 1 ==> code == 1 && trsfbytes == 0 && mem[..] == old(mem[..])
    ensures inout == DataIn && header % 2 == 0 ==>
      var refusal := Refusal(drive.statusAt, old(drive.polls));
      var plan := drive.planFor(packet);
      if refusal.Some?
      then code == refusal.value && trsfbytes == 0 && mem[..] == old(mem[..])
      else code == PlanEnd(plan) && trsfbytes == Kept(Total(plan.blocks), header, length)
           && drive.port.cursor == drive.Start(packet) + Total(plan.blocks)
    ensures inout == DataIn && header % 2 == 0 ==>
      (code == 0 <==> Taken(drive.statusAt, old(drive.polls)) && Done(drive.planFor(packet)))
    ensures inout == DataNo && header % 2 == 0 ==>
      var refusal := Refusal(drive.statusAt, old(drive.polls));
      && trsfbytes == 0 && mem[..] == old(mem[..])
      && code == if refusal.Some? then refusal.value else if Idle(drive.statusAt(old(drive.polls) + 2)) then 0 else 4
    ensures Window(old(mem[..]), mem[..], bufseg * 16 + bufoff,
                   drive.port.medium, drive.Start(packet) + header, trsfbytes)
  {
    trsfbytes := 0;
    CodesMean(drive.statusAt, drive.polls, drive.planFor(packet));
    assert Stretch(drive.port.medium, drive.Start(packet) + header, 0) == [];
    if inout == DataOut { return 1, 0; }
    if header % 2 == 1 { return 1, 0; }
    var status := drive.Status();
    if status & BSY != 0 { return 2, 0; }
    status := drive.Status();
    if status & ERR != 0 { return 3, 0; }
    if status & DRQ == 0 { return 4, 0; }
    drive.Take(packet);
    if inout == DataNo {
      status := drive.Status();
    } else {
      var failed;
      trsfbytes, failed := Rounds(drive, mem, pio32, header, length, bufseg, bufoff);
      if failed { return 3, trsfbytes; }
      status := drive.plan.statusAt(|drive.plan.blocks|);
    }
    if !Idle(status) { return 4, trsfbytes; }
    return 0, trsfbytes;
  }

  // ------------------------------------------------------------------ odd numbers of bytes

  /** Memory outside the bytes that are reported stays as it was. */
  ghost predicate KeepsOutside(m0: seq<byte>, m: seq<byte>, at: nat, medium: nat -> byte, from: int, kept: nat) {
    Window(m0, m, at, medium, from, kept) ==>
      |m| == |m0| && forall i :: 0 <= i < |m0| && !(at <= i < at + kept) ==> m[i] == m0[i]
  }

  /** The byte behind the window is overwritten exactly when an odd number of bytes is kept. */
  lemma OddByte(at: nat, from: nat, kept: nat)
    ensures (forall m0, m, medium :: KeepsOutside(m0, m, at, medium, from, kept)) <==> kept % 2 == 0
  {
    if kept % 2 == 1 {
      var m0: seq<byte> := seq(at + kept + 1, _ => 0);
      var ones := (p: nat) => 1 as byte;
      var m := Windowed(m0, at, ones, from, kept + 1);
      assert m[at + kept] == 1;
      assert !KeepsOutside(m0, m, at, ones, from, kept);
    }
  }

  lemma {:induction false} EvenTotal(plan: Plan, n: nat)
    requires plan.Proper() && n <= |plan.blocks|
    ensures Sum(plan.blocks, n) % 2 == 0
  {
    if n > 0 { EvenTotal(plan, n - 1); }
  }

  /** A request for an even number of bytes, as all callers make it, keeps an even number. */
  lemma EvenRequests(plan: Plan, header: nat, length: nat)
    requires plan.Proper() && header % 2 == 0 && length % 2 == 0
    ensures Kept(Total(plan.blocks), header, length) % 2 == 0
  {
    EvenTotal(plan, |plan.blocks|);
    if Total(plan.blocks) > header { EvenDifference(Total(plan.blocks), header); }
  }
}
