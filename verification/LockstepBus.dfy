/** The shared-memory bus of the simulation: two CPUs, the arbiter of sim/sim_pc/main.cpp in its
    lock-step mode, and the devices behind it, as one state machine over single accesses to shared
    memory. The CPU side is that of sim/verilator/ao486/main.cpp. */
module LockstepBus {
  import opened Basics

  datatype StepFlag = Idle | Req | Ack

  /** One transaction a CPU asks for. */
  datatype Request = Request(address: nat, byteenable: nat, isWrite: bool, data: nat)

  /** The fields of one processor record that one channel uses. */
  datatype Slot = Slot(address: nat, data: nat, byteenable: nat, isWrite: bool, step: StepFlag)

  /** A completed transaction as a CPU saw it; a write returns nothing. */
  datatype Completed = Completed(request: Request, value: Option<nat>)

  /** The next access of a CPU. */
  datatype CpuPc = Free | SetByteenable | SetDirection | SetData | SetReq | Wait | Release(value: Option<nat>)

  datatype Cpu = Cpu(slot: Slot, pc: CpuPc, want: Request, done: seq<Completed>)

  /** The next access of the arbiter; the transfer of a read answers with a fixed value when the port
      is answered early. */
  datatype ArbiterPc =
    | ReadGuard | ReadAddress | ReadByteenable | ReadDirection | ReadReq | ReadCheck
    | AoData(early: bool) | AoReadAck(early: bool) | PcData(early: bool) | PcReadAck
    | WriteGuard | WriteAddress | WriteData | WriteByteenable | WriteDirection | WriteReq | WriteCheck
    | AoWriteAck | PcWriteAck
    | Commit

  /** The device either watches the combined record, is about to store the value of a read, or is
      about to acknowledge. */
  datatype DevicePc = Watching | Answering(request: Request) | Acking(request: Request, value: nat)

  datatype Kind = Io | Mem

  /** Everything shared or local, and the history: the transactions granted, the values read at
      their acknowledgement, and how often each CPU was acknowledged, and what was
      carried out behind the combined record. */
  datatype State = State(
    ao: Cpu, pc: Cpu, combined: Slot, device: DevicePc,
    arbiter: ArbiterPc, ctrlRead: bool, ctrlWrite: bool, memory: nat -> byte,
    granted: seq<Request>, answers: seq<nat>, aoAcks: nat, pcAcks: nat, served: seq<Completed>)

  /** One access by one party; the parameters are what that party is free to choose. */
  datatype Action = AoAct(want: Request) | PcAct(want: Request) | ArbiterAct | DeviceAct(value: nat)

  const EARLY_READ_PORT := 0x888C
  const EARLY_WRITE_PORT := 0x8888

  // ------------------------------------------------------------------ the parties

  function CpuStep(c: Cpu, want: Request): Cpu {
    match c.pc
    case Free => c.(want := want, slot := c.slot.(address := want.address), pc := SetByteenable)
    case SetByteenable => c.(slot := c.slot.(byteenable := c.want.byteenable), pc := SetDirection)
    case SetDirection =>
      c.(slot := c.slot.(isWrite := c.want.isWrite), pc := if c.want.isWrite then SetData else SetReq)
    case SetData => c.(slot := c.slot.(data := c.want.data), pc := SetReq)
    case SetReq => c.(slot := c.slot.(step := Req), pc := Wait)
    case Wait => if c.slot.step == Ack then c.(pc := Release(if c.want.isWrite then None else Some(c.slot.data))) else c
    case Release(value) => c.(slot := c.slot.(step := Idle), pc := Free, done := c.done + [Completed(c.want, value)])
  }

  function RequestOf(s: Slot): Request {
    Request(s.address, s.byteenable, s.isWrite, s.data)
  }

  /** What a CPU gets back for a granted transaction. */
  function Result(r: Request, answer: nat): Option<nat> {
    if r.isWrite then None else Some(answer)
  }

  /** Video memory is written by a device, all other memory by the arbiter. */
  predicate VideoWindow(address: nat) {
    0xA_0000 <= address < 0xC_0000
  }

  predicate DeviceServes(kind: Kind, s: Slot) {
    s.step == Req && (kind == Io || !s.isWrite || VideoWindow(s.address))
  }

  function DeviceStep(kind: Kind, s: State, value: nat): State {
    match s.device
    case Watching =>
      if DeviceServes(kind, s.combined) then
        var r := RequestOf(s.combined);
        s.(device := if r.isWrite then Acking(r, 0) else Answering(r))
      else s
    case Answering(r) => s.(combined := s.combined.(data := value), device := Acking(r, value))
    case Acking(r, v) =>
      s.(combined := s.combined.(step := Ack), device := Watching, served := s.served + [Completed(r, Result(r, v))])
  }

  /** The lock-step test of a read: both CPUs ask for the same. */
  predicate BothRead(a: Slot, p: Slot) {
    a.step == Req && p.step == Req && !a.isWrite
    && a.address == p.address && a.byteenable == p.byteenable && a.isWrite == p.isWrite
  }

  predicate BothWrite(a: Slot, p: Slot) {
    a.step == Req && p.step == Req && a.isWrite
    && a.address == p.address && a.data == p.data && a.byteenable == p.byteenable && a.isWrite == p.isWrite
  }

  /** Byte i of a word, and whether it is enabled. */
  function ByteOf(word: nat, i: nat): byte {
    if i == 0 then (word % 0x100) as byte else ByteOf(word / 0x100, i - 1)
  }

  predicate Enabled(byteenable: nat, i: nat) {
    Bit(byteenable, i)
  }

  /** Memory after the enabled bytes of a word have been stored. */
  function Stored(memory: nat -> byte, address: nat, byteenable: nat, data: nat): nat -> byte {
    (p: nat) =>
      if address <= p < address + 4 && Enabled(byteenable, p - address) then ByteOf(data, p - address)
      else memory(p)
  }

  predicate CommitsHere(kind: Kind, s: Slot) {
    kind == Mem && s.step == Req && s.isWrite && !VideoWindow(s.address)
  }

  function ArbiterStep(kind: Kind, s: State): State {
    var a, p, c := s.ao.slot, s.pc.slot, s.combined;
    match s.arbiter
    case ReadGuard =>
      if s.ctrlRead then s.(arbiter := ReadCheck)
      else if BothRead(a, p) then
        s.(ctrlRead := true, arbiter := ReadAddress, granted := s.granted + [s.pc.want])
      else s.(arbiter := WriteGuard)
    case ReadAddress => s.(combined := c.(address := p.address), arbiter := ReadByteenable)
    case ReadByteenable => s.(combined := c.(byteenable := p.byteenable), arbiter := ReadDirection)
    case ReadDirection => s.(combined := c.(isWrite := false), arbiter := ReadReq)
    case ReadReq => s.(combined := c.(step := Req), arbiter := ReadCheck)
    case ReadCheck =>
      if kind == Io && c.address == EARLY_READ_PORT then
        s.(ctrlRead := false, arbiter := AoData(true), answers := s.answers + [0xFFFF_FFFF])
      else if c.step == Ack && !c.isWrite then
        s.(ctrlRead := false, arbiter := AoData(false), answers := s.answers + [c.data])
      else s.(arbiter := WriteGuard)
    case AoData(early) =>
      s.(ao := s.ao.(slot := a.(data := if early then 0xFFFF_FFFF else c.data)), arbiter := AoReadAck(early))
    case AoReadAck(early) => s.(ao := s.ao.(slot := a.(step := Ack)), arbiter := PcData(early), aoAcks := s.aoAcks + 1)
    case PcData(early) =>
      s.(pc := s.pc.(slot := p.(data := if early then 0xFFFF_FFFF else c.data)), arbiter := PcReadAck)
    case PcReadAck => s.(pc := s.pc.(slot := p.(step := Ack)), arbiter := WriteGuard, pcAcks := s.pcAcks + 1)
    case WriteGuard =>
      if s.ctrlWrite then s.(arbiter := WriteCheck)
      else if BothWrite(a, p) then
        s.(ctrlWrite := true, arbiter := WriteAddress, granted := s.granted + [s.pc.want])
      else s.(arbiter := Commit)
    case WriteAddress => s.(combined := c.(address := p.address), arbiter := WriteData)
    case WriteData => s.(combined := c.(data := p.data), arbiter := WriteByteenable)
    case WriteByteenable => s.(combined := c.(byteenable := p.byteenable), arbiter := WriteDirection)
    case WriteDirection => s.(combined := c.(isWrite := true), arbiter := WriteReq)
    case WriteReq => s.(combined := c.(step := Req), arbiter := WriteCheck)
    case WriteCheck =>
      if (kind == Io && c.address == EARLY_WRITE_PORT) || (c.step == Ack && c.isWrite) then
        s.(ctrlWrite := false, arbiter := AoWriteAck, answers := s.answers + [0])
      else s.(arbiter := Commit)
    case AoWriteAck => s.(ao := s.ao.(slot := a.(step := Ack)), arbiter := PcWriteAck, aoAcks := s.aoAcks + 1)
    case PcWriteAck => s.(pc := s.pc.(slot := p.(step := Ack)), arbiter := Commit, pcAcks := s.pcAcks + 1)
    case Commit =>
      if CommitsHere(kind, c) then
        s.(memory := Stored(s.memory, c.address, c.byteenable, c.data), arbiter := ReadGuard,
           combined := c.(byteenable := c.byteenable / 16, data := 0, step := Ack),
           served := s.served + [Completed(RequestOf(c), None)])
      else s.(arbiter := ReadGuard)
  }

  function Do(kind: Kind, s: State, act: Action): State {
    match act
    case AoAct(want) => s.(ao := CpuStep(s.ao, want))
    case PcAct(want) => s.(pc := CpuStep(s.pc, want))
    case ArbiterAct => ArbiterStep(kind, s)
    case DeviceAct(value) => DeviceStep(kind, s, value)
  }

  /** The state after a run: any accesses in any order. */
  function Exec(kind: Kind, s: State, run: seq<Action>): State {
    if run == [] then s else Do(kind, Exec(kind, s, run[..|run| - 1]), run[|run| - 1])
  }

  /** All of shared memory is zero at the start. */
  function Initial(memory: nat -> byte): State {
    var slot := Slot(0, 0, 0, false, Idle);
    var cpu := Cpu(slot, Free, Request(0, 0, false, 0), []);
    State(cpu, cpu, slot, Watching, ReadGuard, false, false, memory, [], [], 0, 0, [])
  }

  /** Neither CPU asks for one of the two ports that are answered without the device. */
  predicate Ordinary(kind: Kind, act: Action) {
    (act.AoAct? || act.PcAct?) && kind == Io ==>
      act.want.address != 0x888C && act.want.address != 0x8888
  }

  // ------------------------------------------------------------------ the invariant

  /** Two requests the arbiter cannot tell apart: a read carries no data. */
  predicate Same(a: Request, b: Request) {
    a.address == b.address && a.byteenable == b.byteenable && a.isWrite == b.isWrite && (a.isWrite ==> a.data == b.data)
  }

  /** What a CPU's record holds at each of its accesses. */
  predicate CpuConsistent(kind: Kind, c: Cpu) {
    && (c.slot.step == Idle <==> !c.pc.Wait? && !c.pc.Release?)
    && (c.pc.Release? ==> c.slot.step == Ack)
    && (c.pc != Free && kind == Io ==> c.want.address != EARLY_READ_PORT && c.want.address != EARLY_WRITE_PORT)
    && (c.pc != Free ==> c.slot.address == c.want.address)
    && (c.pc != Free && c.pc != SetByteenable ==> c.slot.byteenable == c.want.byteenable)
    && (c.pc.SetData? || c.pc.SetReq? || c.pc.Wait? || c.pc.Release? ==> c.slot.isWrite == c.want.isWrite)
    && ((c.pc.SetReq? || c.pc.Wait? || c.pc.Release?) && c.want.isWrite ==> c.slot.data == c.want.data)
    && (c.pc.SetData? ==> c.want.isWrite)
  }

  /** The CPU's history is the granted transactions with their common answers. */
  predicate HistoryMatches(c: Cpu, granted: seq<Request>, answers: seq<nat>) {
    |c.done| <= |answers| && |answers| <= |granted|
    && forall i :: 0 <= i < |c.done| ==>
         Same(c.done[i].request, granted[i]) && c.done[i].value == Result(granted[i], answers[i])
  }

  /** The CPU waits for the last granted transaction, which it has not been answered. */
  predicate Waiting(c: Cpu, last: Request, n: nat) {
    c.slot.step == Req && Same(c.want, last) && |c.done| + 1 == n
  }

  /** The CPU has been answered, and may or may not have noticed. */
  predicate Answered(c: Cpu, granted: seq<Request>, answers: seq<nat>) {
    var n := |granted|;
    |answers| == n
    && (|c.done| == n ==> c.slot.step != Ack)
    && (|c.done| != n ==>
          && |c.done| + 1 == n && c.slot.step == Ack && Same(c.want, granted[n - 1])
          && (!c.want.isWrite ==> c.slot.data == answers[n - 1])
          && (c.pc.Release? ==> c.pc.value == Result(c.want, answers[n - 1])))
  }

  /** The arbiter is between its decision and the request it passes on. */
  predicate ReadSetup(a: ArbiterPc) {
    a == ReadAddress || a == ReadByteenable || a == ReadDirection || a == ReadReq
  }

  predicate WriteSetup(a: ArbiterPc) {
    a == WriteAddress || a == WriteData || a == WriteByteenable || a == WriteDirection || a == WriteReq
  }

  predicate Setup(a: ArbiterPc) {
    ReadSetup(a) || WriteSetup(a)
  }

  /** How much of the combined record the set-up has filled in. */
  predicate FilledIn(a: ArbiterPc, c: Slot, last: Request) {
    && (a != ReadAddress && a != WriteAddress ==> c.address == last.address)
    && (a == ReadDirection || a == ReadReq || a == WriteDirection || a == WriteReq ==> c.byteenable == last.byteenable)
    && (a == ReadReq || a == WriteReq ==> c.isWrite == last.isWrite)
    && (a == WriteByteenable || a == WriteDirection || a == WriteReq ==> c.data == last.data)
  }

  /** A transaction is in flight: both CPUs wait for it, and the combined record is being filled in,
      stands as a request, or has been acknowledged. */
  predicate InFlight(kind: Kind, s: State) {
    var n := |s.granted|;
    && n == |s.answers| + 1
    && var last := s.granted[n - 1];
       && s.ctrlRead == !last.isWrite && s.ctrlWrite == last.isWrite
       && Waiting(s.ao, last, n) && Waiting(s.pc, last, n)
       && (ReadSetup(s.arbiter) || s.arbiter == ReadCheck ==> !last.isWrite)
       && (WriteSetup(s.arbiter) || s.arbiter == WriteCheck ==> last.isWrite)
       && (if Setup(s.arbiter)
           then s.combined.step != Req && s.device == Watching && FilledIn(s.arbiter, s.combined, last)
           else
             && s.combined.step != Idle && s.combined.address == last.address && s.combined.isWrite == last.isWrite
             && (s.combined.step == Req ==> s.combined.byteenable == last.byteenable)
             && (s.combined.step == Req && last.isWrite ==> s.combined.data == last.data)
             && (s.device != Watching ==> DeviceServes(kind, s.combined) && Same(s.device.request, last)
                                          && (s.device.Answering? ==> !last.isWrite)))
  }

  /** No transaction is in flight; the answer of the last one is handed out, first to the ao486. */
  predicate Settled(s: State) {
    AtRest(s) && if PcPending(s.arbiter) then HandingOut(s) else BothAnswered(s)
  }

  /** Nothing is open between the CPUs and the device. */
  predicate AtRest(s: State) {
    && |s.granted| == |s.answers| && !s.ctrlRead && !s.ctrlWrite
    && !Setup(s.arbiter) && s.arbiter != ReadCheck && s.arbiter != WriteCheck
    && s.combined.step != Req && s.device == Watching
  }

  predicate BothAnswered(s: State) {
    Answered(s.ao, s.granted, s.answers) && Answered(s.pc, s.granted, s.answers)
  }

  predicate HandingOut(s: State)
    requires |s.granted| == |s.answers|
  {
    var n := |s.granted|;
    && n > 0 && Waiting(s.pc, s.granted[n - 1], n)
    && s.granted[n - 1].isWrite == (s.arbiter == AoWriteAck || s.arbiter == PcWriteAck)
    && (if AoPending(s.arbiter) then Waiting(s.ao, s.granted[n - 1], n) else Answered(s.ao, s.granted, s.answers))
    && (s.arbiter.AoReadAck? ==> s.ao.slot.data == s.answers[n - 1])
    && (s.arbiter == PcReadAck ==> s.pc.slot.data == s.answers[n - 1])
    && (s.arbiter.AoData? || s.arbiter.AoReadAck? || s.arbiter.PcData? ==>
          !s.arbiter.early && s.combined.data == s.answers[n - 1])
  }

  predicate AoPending(a: ArbiterPc) {
    a.AoData? || a.AoReadAck? || a == AoWriteAck
  }

  predicate PcPending(a: ArbiterPc) {
    AoPending(a) || a.PcData? || a == PcReadAck || a == PcWriteAck
  }

  predicate Inv(kind: Kind, s: State) {
    && CpuConsistent(kind, s.ao) && CpuConsistent(kind, s.pc)
    && HistoryMatches(s.ao, s.granted, s.answers) && HistoryMatches(s.pc, s.granted, s.answers)
    && (InFlight(kind, s) || Settled(s))
    && (InFlight(kind, s) ==> !PcPending(s.arbiter))
    && s.aoAcks == Acknowledged(s.ao) && s.pcAcks == Acknowledged(s.pc)
  }

  /** The acknowledgements a CPU has used up or is holding. */
  function Acknowledged(c: Cpu): nat {
    |c.done| + (if c.slot.step == Ack then 1 else 0)
  }

  lemma InvInitial(kind: Kind, memory: nat -> byte)
    ensures Inv(kind, Initial(memory))
  {
  }

  /** A CPU's own access never disturbs a standing request and completes only what was answered. */
  lemma CpuKeeps(kind: Kind, c: Cpu, want: Request, granted: seq<Request>, answers: seq<nat>)
    requires CpuConsistent(kind, c) && HistoryMatches(c, granted, answers) && Ordinary(kind, AoAct(want))
    ensures var d := CpuStep(c, want);
            && CpuConsistent(kind, d) && Acknowledged(d) == Acknowledged(c)
            && (c.slot.step == Req ==> d == c)
            && (Answered(c, granted, answers) ==> Answered(d, granted, answers) && HistoryMatches(d, granted, answers))
  {
  }

  lemma InvAo(kind: Kind, s: State, want: Request)
    requires Inv(kind, s) && Ordinary(kind, AoAct(want))
    ensures Inv(kind, Do(kind, s, AoAct(want)))
  {
    var t := Do(kind, s, AoAct(want));
    CpuKeeps(kind, s.ao, want, s.granted, s.answers);
    if s.ao.slot.step == Req {
      assert t == s;
    } else {
      assert Settled(s) && Settled(t);
    }
  }

  lemma InvPc(kind: Kind, s: State, want: Request)
    requires Inv(kind, s) && Ordinary(kind, PcAct(want))
    ensures Inv(kind, Do(kind, s, PcAct(want)))
  {
    var t := Do(kind, s, PcAct(want));
    CpuKeeps(kind, s.pc, want, s.granted, s.answers);
    if s.pc.slot.step == Req {
      assert t == s;
    } else {
      assert Settled(s) && Settled(t);
    }
  }

  /** A step that leaves the CPUs and the history alone need only be looked at for its own record. */
  lemma StillInFlight(kind: Kind, s: State, t: State)
    requires Inv(kind, s)
    requires t.ao == s.ao && t.pc == s.pc && t.granted == s.granted && t.answers == s.answers
    requires t.aoAcks == s.aoAcks && t.pcAcks == s.pcAcks
    requires InFlight(kind, t) && !PcPending(t.arbiter)
    ensures Inv(kind, t)
  {
  }

  /** Where the arbiter looks again at what is in flight. */
  predicate Checking(s: State, a: ArbiterPc) {
    (a == ReadCheck && s.ctrlRead) || (a == WriteCheck && s.ctrlWrite)
  }

  /** The arbiter moves on and does nothing else. */
  lemma StillThere(kind: Kind, s: State, t: State)
    requires Inv(kind, s) && !Setup(s.arbiter) && !PcPending(s.arbiter)
    requires t.arbiter == ReadGuard || t.arbiter == WriteGuard || t.arbiter == Commit || Checking(s, t.arbiter)
    requires t == s.(arbiter := t.arbiter)
    ensures Inv(kind, t)
  {
    if InFlight(kind, s) {
      MovedOn(kind, s, t.arbiter);
      StillInFlight(kind, s, t);
    } else {
      assert AtRest(s) && BothAnswered(s);
      SettledOn(s, t.arbiter);
      StillSettled(kind, s, t);
    }
  }

  lemma SettledOn(s: State, a: ArbiterPc)
    requires AtRest(s) && BothAnswered(s) && (a == ReadGuard || a == WriteGuard || a == Commit)
    ensures AtRest(s.(arbiter := a)) && BothAnswered(s.(arbiter := a)) && !PcPending(a)
  {
  }

  lemma StillSettled(kind: Kind, s: State, t: State)
    requires Inv(kind, s) && t == s.(arbiter := t.arbiter) && AtRest(t) && BothAnswered(t) && !PcPending(t.arbiter)
    ensures Inv(kind, t)
  {
  }

  lemma MovedOn(kind: Kind, s: State, a: ArbiterPc)
    requires InFlight(kind, s) && !Setup(s.arbiter)
    requires a == ReadGuard || a == WriteGuard || a == Commit || Checking(s, a)
    ensures InFlight(kind, s.(arbiter := a))
  {
  }

  /** An acknowledgement, once the data is there. */
  lemma AckedCpu(kind: Kind, c: Cpu, granted: seq<Request>, answers: seq<nat>)
    requires CpuConsistent(kind, c) && HistoryMatches(c, granted, answers) && |granted| == |answers| > 0
    requires Waiting(c, granted[|granted| - 1], |granted|)
    requires !c.want.isWrite ==> c.slot.data == answers[|granted| - 1]
    ensures var d := c.(slot := c.slot.(step := Ack));
            && CpuConsistent(kind, d) && HistoryMatches(d, granted, answers) && Answered(d, granted, answers)
            && Acknowledged(d) == Acknowledged(c) + 1
  {
  }

  lemma InvDevice(kind: Kind, s: State, value: nat)
    requires Inv(kind, s)
    ensures Inv(kind, Do(kind, s, DeviceAct(value)))
  {
    var t := Do(kind, s, DeviceAct(value));
    if InFlight(kind, s) {
      DeviceInFlight(kind, s, value);
      StillInFlight(kind, s, t);
    } else {
      assert t == s;
    }
  }

  lemma DeviceInFlight(kind: Kind, s: State, value: nat)
    requires InFlight(kind, s)
    ensures InFlight(kind, DeviceStep(kind, s, value))
  {
    assert Setup(s.arbiter) ==> DeviceStep(kind, s, value) == s;
  }

  /** What the arbiter's test finds cannot be a transaction it is already busy with. */
  lemma TestFindsNew(kind: Kind, s: State)
    requires Inv(kind, s)
    requires (!s.ctrlRead && BothRead(s.ao.slot, s.pc.slot)) || (!s.ctrlWrite && BothWrite(s.ao.slot, s.pc.slot))
    ensures Settled(s) && !InFlight(kind, s)
  {
  }

  lemma InvAtReadGuard(kind: Kind, s: State)
    requires Inv(kind, s) && s.arbiter == ReadGuard
    ensures Inv(kind, ArbiterStep(kind, s))
  {
    if !s.ctrlRead && BothRead(s.ao.slot, s.pc.slot) {
      TestFindsNew(kind, s);
      assert InFlight(kind, ArbiterStep(kind, s));
    } else {
      StillThere(kind, s, ArbiterStep(kind, s));
    }
  }

  lemma InvAtReadSetup(kind: Kind, s: State)
    requires Inv(kind, s) && ReadSetup(s.arbiter)
    ensures Inv(kind, ArbiterStep(kind, s))
  {
    var t := ArbiterStep(kind, s);
    assert InFlight(kind, s) && InFlight(kind, t);
    StillInFlight(kind, s, t);
  }

  lemma HistoryGrows(c: Cpu, granted: seq<Request>, answers: seq<nat>, answer: nat)
    requires HistoryMatches(c, granted, answers) && |answers| < |granted|
    ensures HistoryMatches(c, granted, answers + [answer])
  {
  }

  /** No transaction here is answered early. */
  lemma ChecksEarly(kind: Kind, s: State)
    requires Inv(kind, s) && (s.arbiter == ReadCheck || s.arbiter == WriteCheck)
    ensures InFlight(kind, s)
    ensures kind == Io ==> s.combined.address != EARLY_READ_PORT && s.combined.address != EARLY_WRITE_PORT
  {
  }

  lemma InvAtReadCheck(kind: Kind, s: State)
    requires Inv(kind, s) && s.arbiter == ReadCheck
    ensures Inv(kind, ArbiterStep(kind, s))
  {
    var t := ArbiterStep(kind, s);
    ChecksEarly(kind, s);
    if s.combined.step == Ack && !s.combined.isWrite {
      HistoryGrows(s.ao, s.granted, s.answers, s.combined.data);
      HistoryGrows(s.pc, s.granted, s.answers, s.combined.data);
      assert Settled(t);
    } else {
      StillThere(kind, s, t);
    }
  }

  lemma InvAtAoRead(kind: Kind, s: State)
    requires Inv(kind, s) && (s.arbiter.AoData? || s.arbiter.AoReadAck?)
    ensures Inv(kind, ArbiterStep(kind, s))
  {
    assert Settled(s);
    if s.arbiter.AoReadAck? { AckedCpu(kind, s.ao, s.granted, s.answers); }
    assert Settled(ArbiterStep(kind, s));
  }

  lemma InvAtPcRead(kind: Kind, s: State)
    requires Inv(kind, s) && (s.arbiter.PcData? || s.arbiter == PcReadAck)
    ensures Inv(kind, ArbiterStep(kind, s))
  {
    assert Settled(s);
    if s.arbiter == PcReadAck { AckedCpu(kind, s.pc, s.granted, s.answers); }
    assert Settled(ArbiterStep(kind, s));
  }

  lemma InvAtWriteGuard(kind: Kind, s: State)
    requires Inv(kind, s) && s.arbiter == WriteGuard
    ensures Inv(kind, ArbiterStep(kind, s))
  {
    if !s.ctrlWrite && BothWrite(s.ao.slot, s.pc.slot) {
      TestFindsNew(kind, s);
      assert InFlight(kind, ArbiterStep(kind, s));
    } else {
      StillThere(kind, s, ArbiterStep(kind, s));
    }
  }

  lemma InvAtWriteSetup(kind: Kind, s: State)
    requires Inv(kind, s) && WriteSetup(s.arbiter)
    ensures Inv(kind, ArbiterStep(kind, s))
  {
    var t := ArbiterStep(kind, s);
    assert InFlight(kind, s) && InFlight(kind, t);
    StillInFlight(kind, s, t);
  }

  lemma InvAtWriteCheck(kind: Kind, s: State)
    requires Inv(kind, s) && s.arbiter == WriteCheck
    ensures Inv(kind, ArbiterStep(kind, s))
  {
    var t := ArbiterStep(kind, s);
    ChecksEarly(kind, s);
    if s.combined.step == Ack && s.combined.isWrite {
      HistoryGrows(s.ao, s.granted, s.answers, 0);
      HistoryGrows(s.pc, s.granted, s.answers, 0);
      assert Settled(t);
    } else {
      StillThere(kind, s, t);
    }
  }

  lemma InvAtAoWrite(kind: Kind, s: State)
    requires Inv(kind, s) && s.arbiter == AoWriteAck
    ensures Inv(kind, ArbiterStep(kind, s))
  {
    assert Settled(s);
    AckedCpu(kind, s.ao, s.granted, s.answers);
    assert Settled(ArbiterStep(kind, s));
  }

  lemma InvAtPcWrite(kind: Kind, s: State)
    requires Inv(kind, s) && s.arbiter == PcWriteAck
    ensures Inv(kind, ArbiterStep(kind, s))
  {
    assert Settled(s);
    AckedCpu(kind, s.pc, s.granted, s.answers);
    assert Settled(ArbiterStep(kind, s));
  }

  lemma RequestInFlight(kind: Kind, s: State)
    requires Inv(kind, s) && s.combined.step == Req
    ensures InFlight(kind, s)
  {
  }

  lemma InFlightAfterStore(kind: Kind, s: State)
    requires InFlight(kind, s) && s.arbiter == Commit && CommitsHere(kind, s.combined)
    ensures InFlight(kind, ArbiterStep(kind, s))
  {
  }

  lemma InvAtCommit(kind: Kind, s: State)
    requires Inv(kind, s) && s.arbiter == Commit
    ensures Inv(kind, ArbiterStep(kind, s))
  {
    if CommitsHere(kind, s.combined) {
      InvAtStore(kind, s);
    } else {
      NoStore(kind, s);
      StillThere(kind, s, s.(arbiter := ReadGuard));
    }
  }

  lemma NoStore(kind: Kind, s: State)
    requires s.arbiter == Commit && !CommitsHere(kind, s.combined)
    ensures ArbiterStep(kind, s) == s.(arbiter := ReadGuard)
  {
  }

  lemma InvAtStore(kind: Kind, s: State)
    requires Inv(kind, s) && s.arbiter == Commit && CommitsHere(kind, s.combined)
    ensures Inv(kind, ArbiterStep(kind, s))
  {
    RequestInFlight(kind, s);
    InFlightAfterStore(kind, s);
    StillInFlight(kind, s, ArbiterStep(kind, s));
  }

  lemma InvArbiter(kind: Kind, s: State)
    requires Inv(kind, s)
    ensures Inv(kind, ArbiterStep(kind, s))
  {
    match s.arbiter
    case ReadGuard => InvAtReadGuard(kind, s);
    case ReadAddress | ReadByteenable | ReadDirection | ReadReq => InvAtReadSetup(kind, s);
    case ReadCheck => InvAtReadCheck(kind, s);
    case AoData(_) | AoReadAck(_) => InvAtAoRead(kind, s);
    case PcData(_) | PcReadAck => InvAtPcRead(kind, s);
    case WriteGuard => InvAtWriteGuard(kind, s);
    case WriteAddress | WriteData | WriteByteenable | WriteDirection | WriteReq => InvAtWriteSetup(kind, s);
    case WriteCheck => InvAtWriteCheck(kind, s);
    case AoWriteAck => InvAtAoWrite(kind, s);
    case PcWriteAck => InvAtPcWrite(kind, s);
    case Commit => InvAtCommit(kind, s);
  }

  lemma InvStep(kind: Kind, s: State, act: Action)
    requires Inv(kind, s) && Ordinary(kind, act)
    ensures Inv(kind, Do(kind, s, act))
  {
    match act
    case AoAct(want) => InvAo(kind, s, want);
    case PcAct(want) => InvPc(kind, s, want);
    case ArbiterAct => InvArbiter(kind, s);
    case DeviceAct(value) => InvDevice(kind, s, value);
  }

  lemma RequestKept(kind: Kind, c: Cpu, want: Request)
    requires CpuConsistent(kind, c) && c.slot.step == Req
    ensures CpuStep(c, want) == c
  {
  }

  /** The arbiter may read the fields of two standing requests one by one: nobody else changes a
      request until it is answered. */
  lemma RequestStands(kind: Kind, s: State, act: Action)
    requires Inv(kind, s) && act != ArbiterAct
    ensures s.ao.slot.step == Req ==> Do(kind, s, act).ao.slot == s.ao.slot
    ensures s.pc.slot.step == Req ==> Do(kind, s, act).pc.slot == s.pc.slot
  {
    match act
    case AoAct(want) => if s.ao.slot.step == Req { RequestKept(kind, s.ao, want); }
    case PcAct(want) => if s.pc.slot.step == Req { RequestKept(kind, s.pc, want); }
    case DeviceAct(value) => DeviceLeavesCpus(kind, s, value);
  }

  lemma DeviceLeavesCpus(kind: Kind, s: State, value: nat)
    ensures DeviceStep(kind, s, value).ao == s.ao && DeviceStep(kind, s, value).pc == s.pc
  {
  }

  // ------------------------------------------------------------------ memory

  /** Memory after granted transactions, in order: the arbiter stores the writes that no device does. */
  function Replay(kind: Kind, memory: nat -> byte, granted: seq<Request>): nat -> byte {
    if granted == [] then memory
    else
      var n := |granted| - 1;
      var r, before := granted[n], Replay(kind, memory, granted[..n]);
      if kind == Mem && r.isWrite && !VideoWindow(r.address)
        then Stored(before, r.address, r.byteenable, r.data)
      else before
  }

  /** The transactions whose effect on memory has taken place. */
  function Settling(s: State): nat {
    if |s.answers| < |s.granted| && (Setup(s.arbiter) || s.combined.step == Req) then |s.answers| else |s.granted|
  }

  /** The invariant's two situations are told apart by the answers alone. */
  lemma AnswersTell(kind: Kind, s: State)
    requires Inv(kind, s)
    ensures if |s.answers| < |s.granted| then InFlight(kind, s) else Settled(s)
  {
  }

  ghost predicate MemoryInv(kind: Kind, m0: nat -> byte, s: State)
    requires |s.answers| <= |s.granted|
  {
    forall p: nat :: s.memory(p) == Replay(kind, m0, s.granted[..Settling(s)])(p)
  }

  /** Only a write outside the video window can leave memory to be changed at its acknowledgement. */
  lemma ReplayQuiet(kind: Kind, m0: nat -> byte, granted: seq<Request>)
    requires granted != []
    requires var r := granted[|granted| - 1]; kind == Io || !r.isWrite || VideoWindow(r.address)
    ensures Replay(kind, m0, granted) == Replay(kind, m0, granted[..|granted| - 1])
  {
  }

  lemma MemoryKept(kind: Kind, m0: nat -> byte, s: State, t: State)
    requires |s.answers| <= |s.granted| && |t.answers| <= |t.granted| && MemoryInv(kind, m0, s) && t.memory == s.memory
    requires s.granted <= t.granted && Settling(s) == Settling(t)
    ensures MemoryInv(kind, m0, t)
  {
    assert t.granted[..Settling(t)] == s.granted[..Settling(s)];
  }

  /** An acknowledgement by the device settles a transaction that leaves memory alone. */
  lemma MemoryDevice(kind: Kind, m0: nat -> byte, s: State, value: nat)
    requires Inv(kind, s) && Inv(kind, Do(kind, s, DeviceAct(value))) && MemoryInv(kind, m0, s)
    ensures MemoryInv(kind, m0, Do(kind, s, DeviceAct(value)))
  {
    var t := Do(kind, s, DeviceAct(value));
    if s.device.Acking? {
      var n := |s.granted|;
      assert InFlight(kind, s) && Settling(s) == n - 1 && Settling(t) == n;
      ReplayQuiet(kind, m0, s.granted);
      assert s.granted[..n] == s.granted;
    } else {
      MemoryKept(kind, m0, s, t);
    }
  }

  /** The arbiter's own store settles the write it performs. */
  lemma MemoryCommit(kind: Kind, m0: nat -> byte, s: State)
    requires Inv(kind, s) && Inv(kind, ArbiterStep(kind, s)) && MemoryInv(kind, m0, s)
    requires s.arbiter == Commit && CommitsHere(kind, s.combined)
    ensures MemoryInv(kind, m0, ArbiterStep(kind, s))
  {
    RequestInFlight(kind, s);
    StoreSettles(kind, s);
    StoreReplayed(kind, m0, s.memory, s.granted);
  }

  lemma StoreSettles(kind: Kind, s: State)
    requires InFlight(kind, s) && s.arbiter == Commit && CommitsHere(kind, s.combined)
    ensures var t, n := ArbiterStep(kind, s), |s.granted|;
            && Settling(s) == n - 1 && Settling(t) == n
            && s.granted[..n] == s.granted == t.granted && |t.answers| <= n
            && var last := s.granted[n - 1];
               last.isWrite && !VideoWindow(last.address)
               && t.memory == Stored(s.memory, last.address, last.byteenable, last.data)
  {
  }

  lemma StoreReplayed(kind: Kind, m0: nat -> byte, memory: nat -> byte, granted: seq<Request>)
    requires kind == Mem && granted != []
    requires var last := granted[|granted| - 1]; last.isWrite && !VideoWindow(last.address)
    requires forall p: nat :: memory(p) == Replay(kind, m0, granted[..|granted| - 1])(p)
    ensures var last := granted[|granted| - 1];
            forall p: nat :: Stored(memory, last.address, last.byteenable, last.data)(p) == Replay(kind, m0, granted)(p)
  {
  }

  lemma SettlingAtCpu(kind: Kind, s: State, act: Action)
    requires act.AoAct? || act.PcAct?
    ensures Settling(Do(kind, s, act)) == Settling(s)
  {
  }

  lemma SettlingAtArbiter(kind: Kind, s: State)
    requires Inv(kind, s) && !(s.arbiter == Commit && CommitsHere(kind, s.combined))
    ensures Settling(ArbiterStep(kind, s)) == Settling(s)
  {
    AnswersTell(kind, s);
    if s.arbiter == ReadGuard || s.arbiter == WriteGuard {
      if (!s.ctrlRead && BothRead(s.ao.slot, s.pc.slot)) || (!s.ctrlWrite && BothWrite(s.ao.slot, s.pc.slot)) {
        TestFindsNew(kind, s);
      }
    } else if s.arbiter == ReadCheck || s.arbiter == WriteCheck {
      ChecksEarly(kind, s);
    } else {
      SettlingElsewhere(kind, s);
    }
  }

  lemma SettlingElsewhere(kind: Kind, s: State)
    requires PcPending(s.arbiter) || Setup(s.arbiter) || s.arbiter == Commit
    requires PcPending(s.arbiter) ==> |s.answers| == |s.granted|
    requires !(s.arbiter == Commit && CommitsHere(kind, s.combined))
    ensures Settling(ArbiterStep(kind, s)) == Settling(s)
  {
  }

  lemma ArbiterLeavesMemory(kind: Kind, s: State)
    requires !(s.arbiter == Commit && CommitsHere(kind, s.combined))
    ensures ArbiterStep(kind, s).memory == s.memory && s.granted <= ArbiterStep(kind, s).granted
  {
  }

  lemma MemoryStep(kind: Kind, m0: nat -> byte, s: State, act: Action)
    requires Inv(kind, s) && Inv(kind, Do(kind, s, act)) && MemoryInv(kind, m0, s)
    ensures MemoryInv(kind, m0, Do(kind, s, act))
  {
    var t := Do(kind, s, act);
    if act.DeviceAct? {
      MemoryDevice(kind, m0, s, act.value);
    } else if act.ArbiterAct? && s.arbiter == Commit && CommitsHere(kind, s.combined) {
      MemoryCommit(kind, m0, s);
    } else {
      if act.ArbiterAct? {
        SettlingAtArbiter(kind, s);
        ArbiterLeavesMemory(kind, s);
      } else {
        SettlingAtCpu(kind, s, act);
      }
      MemoryKept(kind, m0, s, t);
    }
  }

  // ------------------------------------------------------------------ what the device carries out

  /** Each granted transaction is carried out once, in order, and its value is the answer given. */
  predicate ServedInv(s: State) {
    var n := |s.served|;
    && n == Settling(s) && |s.answers| <= n <= |s.granted|
    && (forall i :: 0 <= i < n ==> Same(s.served[i].request, s.granted[i]))
    && (forall i :: 0 <= i < |s.answers| ==> s.served[i].value == Result(s.granted[i], s.answers[i]))
    && (|s.answers| < n ==> s.served[n - 1].value == Result(s.granted[n - 1], s.combined.data))
    && (s.device.Acking? && !s.device.request.isWrite ==> s.combined.data == s.device.value)
  }

  lemma ServedDevice(kind: Kind, s: State, value: nat)
    requires Inv(kind, s) && ServedInv(s)
    ensures ServedInv(DeviceStep(kind, s, value))
  {
    if s.device != Watching {
      assert InFlight(kind, s);
      ServedAnswer(kind, s, value);
    }
  }

  lemma ServedAnswer(kind: Kind, s: State, value: nat)
    requires InFlight(kind, s) && ServedInv(s) && s.device != Watching
    ensures ServedInv(DeviceStep(kind, s, value))
  {
  }

  lemma ServedCommit(kind: Kind, s: State)
    requires Inv(kind, s) && Inv(kind, ArbiterStep(kind, s)) && ServedInv(s)
    requires s.arbiter == Commit && CommitsHere(kind, s.combined)
    ensures ServedInv(ArbiterStep(kind, s))
  {
    var t := ArbiterStep(kind, s);
    assert InFlight(kind, s) && InFlight(kind, t);
  }

  /** The check hands on the data of the combined record as the answer, or does nothing. */
  lemma ServedAnswered(s: State, t: State)
    requires ServedInv(s) && Settling(t) == Settling(s) && |s.granted| == |s.answers| + 1
    requires t.served == s.served && t.granted == s.granted && t.device == s.device && t.combined == s.combined
    requires t.answers == s.answers ||
             (s.combined.step == Ack && !Setup(s.arbiter) && |t.answers| == |s.granted| && s.answers <= t.answers
              && (s.granted[|s.granted| - 1].isWrite || t.answers[|s.answers|] == s.combined.data))
    ensures ServedInv(t)
  {
  }

  lemma ServedChecks(kind: Kind, s: State)
    requires Inv(kind, s) && ServedInv(s) && (s.arbiter == ReadCheck || s.arbiter == WriteCheck)
    ensures ServedInv(ArbiterStep(kind, s))
  {
    assert InFlight(kind, s);
    ChecksEarly(kind, s);
    SettlingAtArbiter(kind, s);
    ServedAnswered(s, ArbiterStep(kind, s));
  }

  /** Elsewhere neither the transactions, nor the answers, nor the data of an acknowledged read move. */
  lemma ServedQuiet(s: State, t: State)
    requires ServedInv(s) && Settling(t) == Settling(s)
    requires t.served == s.served && t.answers == s.answers && s.granted <= t.granted && t.device == s.device
    requires if Setup(s.arbiter) then s.device == Watching else t.combined == s.combined
    ensures ServedInv(t)
  {
  }

  lemma ArbiterQuiet(kind: Kind, s: State)
    requires s.arbiter != ReadCheck && s.arbiter != WriteCheck
    requires !(s.arbiter == Commit && CommitsHere(kind, s.combined))
    ensures var t := ArbiterStep(kind, s);
            && t.served == s.served && t.answers == s.answers && s.granted <= t.granted && t.device == s.device
            && (!Setup(s.arbiter) ==> t.combined == s.combined)
  {
  }

  lemma ServedStep(kind: Kind, s: State, act: Action)
    requires Inv(kind, s) && Inv(kind, Do(kind, s, act)) && ServedInv(s)
    ensures ServedInv(Do(kind, s, act))
  {
    if act.DeviceAct? {
      ServedDevice(kind, s, act.value);
    } else if act.ArbiterAct? && s.arbiter == Commit && CommitsHere(kind, s.combined) {
      ServedCommit(kind, s);
    } else if act.ArbiterAct? && (s.arbiter == ReadCheck || s.arbiter == WriteCheck) {
      ServedChecks(kind, s);
    } else {
      if act.ArbiterAct? {
        SettlingAtArbiter(kind, s);
        ArbiterQuiet(kind, s);
      } else {
        SettlingAtCpu(kind, s, act);
      }
      AnswersTell(kind, s);
      ServedQuiet(s, Do(kind, s, act));
    }
  }

  // ------------------------------------------------------------------ every run

  lemma {:induction false} InvExec(kind: Kind, m0: nat -> byte, run: seq<Action>)
    requires forall i :: 0 <= i < |run| ==> Ordinary(kind, run[i])
    ensures var s := Exec(kind, Initial(m0), run); Inv(kind, s) && MemoryInv(kind, m0, s) && ServedInv(s)
    decreases |run|
  {
    if run == [] {
      InvInitial(kind, m0);
    } else {
      var n := |run| - 1;
      InvExec(kind, m0, run[..n]);
      var s := Exec(kind, Initial(m0), run[..n]);
      InvStep(kind, s, run[n]);
      MemoryStep(kind, m0, s, run[n]);
      ServedStep(kind, s, run[n]);
    }
  }

  /** The arbiter does not have a read and a write open at once. Every granted transaction but at
      most the last has been completed by both CPUs, who asked for the same and got the same; a CPU
      that has not completed the last one is asking for it. Each CPU has been acknowledged once for
      each transaction it has completed or is about to. */
  predicate InStep(s: State) {
    var n := |s.granted|;
    && !(s.ctrlRead && s.ctrlWrite)
    && n - 1 <= |s.ao.done| <= n && n - 1 <= |s.pc.done| <= n
    && s.aoAcks == Acknowledged(s.ao) && s.pcAcks == Acknowledged(s.pc)
    && (forall i :: 0 <= i < |s.ao.done| && i < |s.pc.done| ==>
          Same(s.ao.done[i].request, s.pc.done[i].request) && s.ao.done[i].value == s.pc.done[i].value)
    && (|s.ao.done| < n ==> Same(s.ao.want, s.granted[n - 1]) && s.ao.slot.step != Idle)
    && (|s.pc.done| < n ==> Same(s.pc.want, s.granted[n - 1]) && s.pc.slot.step != Idle)
  }

  lemma InvInStep(kind: Kind, s: State)
    requires Inv(kind, s)
    ensures InStep(s)
  {
    forall i | 0 <= i < |s.ao.done| && i < |s.pc.done|
      ensures Same(s.ao.done[i].request, s.pc.done[i].request) && s.ao.done[i].value == s.pc.done[i].value
    {
      assert Same(s.ao.done[i].request, s.granted[i]) && Same(s.pc.done[i].request, s.granted[i]);
    }
  }

  /** Whatever the order of accesses, the two CPUs stay in step. */
  lemma LockStep(kind: Kind, m0: nat -> byte, run: seq<Action>)
    requires forall i :: 0 <= i < |run| ==> Ordinary(kind, run[i])
    ensures InStep(Exec(kind, Initial(m0), run))
  {
    InvExec(kind, m0, run);
    InvInStep(kind, Exec(kind, Initial(m0), run));
  }

  /** What either CPU has completed is what was carried out behind the combined record, transaction by
      transaction, and a read returned the value that was produced for it. */
  lemma CompletedWasServed(kind: Kind, m0: nat -> byte, run: seq<Action>, c: Cpu, i: nat)
    requires forall k :: 0 <= k < |run| ==> Ordinary(kind, run[k])
    requires var s := Exec(kind, Initial(m0), run); (c == s.ao || c == s.pc) && i < |c.done|
    ensures var s := Exec(kind, Initial(m0), run);
            i < |s.served| && Same(c.done[i].request, s.served[i].request) && c.done[i].value == s.served[i].value
  {
    InvExec(kind, m0, run);
  }

  /** Between transactions memory is exactly what the granted writes, replayed in order, make of it. */
  lemma MemoryIsReplay(kind: Kind, m0: nat -> byte, run: seq<Action>, p: nat)
    requires forall i :: 0 <= i < |run| ==> Ordinary(kind, run[i])
    requires var s := Exec(kind, Initial(m0), run); !s.ctrlRead && !s.ctrlWrite
    ensures var s := Exec(kind, Initial(m0), run); s.memory(p) == Replay(kind, m0, s.granted)(p)
  {
    InvExec(kind, m0, run);
    var s := Exec(kind, Initial(m0), run);
    assert s.granted[..|s.granted|] == s.granted;
  }

  /** A request stores a byte at p: one of the four from its address on, outside the video memory, whose bit
      is set. */
  predicate Stores(kind: Kind, r: Request, p: nat) {
    && kind == Mem && r.isWrite && (r.address < 0xA_0000 || r.address >= 0xC_0000)
    && r.address <= p < r.address + 4 && r.byteenable / [1, 2, 4, 8][p - r.address] % 2 == 1
  }

  lemma StoredBit(v: nat, i: nat)
    requires i < 4
    ensures Bit(v, i) == (v / [1, 2, 4, 8][i] % 2 == 1)
  {
    if i > 0 { assert Bit(v, i) == Bit(v / 2, i - 1); }
    if i > 1 { assert Bit(v / 2, i - 1) == Bit(v / 2 / 2, i - 2); }
    if i > 2 { assert Bit(v / 2 / 2, i - 2) == Bit(v / 2 / 2 / 2, i - 3); }
  }

  lemma {:induction false} StoredByte(v: nat, i: nat)
    requires i < 4
    ensures ByteOf(v, i) as nat == v / [1, 0x100, 0x1_0000, 0x100_0000][i] % 0x100
  {
    if i > 0 {
      StoredByte(v / 0x100, i - 1);
      ShiftedTwice(v);
    }
  }

  lemma ShiftedTwice(v: nat)
    ensures v / 0x100 / 0x100 == v / 0x1_0000 && v / 0x100 / 0x1_0000 == v / 0x100_0000
  {
  }

  /** Request i is the last to store a byte at p. */
  predicate LastToStore(kind: Kind, granted: seq<Request>, i: nat, p: nat) {
    && i < |granted| && Stores(kind, granted[i], p)
    && forall j :: i < j < |granted| ==> !Stores(kind, granted[j], p)
  }

  /** A byte is the one that the last write to it stored, or what it was at the start. */
  ghost predicate LastStands(kind: Kind, m0: nat -> byte, granted: seq<Request>, p: nat, now: byte) {
    && ((forall j :: 0 <= j < |granted| ==> !Stores(kind, granted[j], p)) ==> now == m0(p))
    && forall i: nat :: LastToStore(kind, granted, i, p) ==>
         now as nat == granted[i].data / [1, 0x100, 0x1_0000, 0x100_0000][p - granted[i].address] % 0x100
  }

  lemma {:induction false} ReplayAt(kind: Kind, m0: nat -> byte, granted: seq<Request>, p: nat)
    ensures LastStands(kind, m0, granted, p, Replay(kind, m0, granted)(p))
    decreases |granted|
  {
    if granted != [] {
      var before, last := granted[..|granted| - 1], granted[|granted| - 1];
      assert granted == before + [last];
      ReplayAt(kind, m0, before, p);
      ReplayMore(kind, m0, before, last, p);
    }
  }

  lemma ReplayMore(kind: Kind, m0: nat -> byte, before: seq<Request>, r: Request, p: nat)
    requires LastStands(kind, m0, before, p, Replay(kind, m0, before)(p))
    ensures LastStands(kind, m0, before + [r], p, Replay(kind, m0, before + [r])(p))
  {
    assert (before + [r])[..|before + [r]| - 1] == before;
    LastStored(kind, Replay(kind, m0, before), r, p);
    StandsOn(kind, m0, before, r, p, Replay(kind, m0, before)(p), Replay(kind, m0, before + [r])(p));
  }

  lemma LastStored(kind: Kind, before: nat -> byte, r: Request, p: nat)
    ensures var now := if kind == Mem && r.isWrite && !VideoWindow(r.address)
                       then Stored(before, r.address, r.byteenable, r.data)(p) else before(p);
            if Stores(kind, r, p) then now as nat == r.data / [1, 0x100, 0x1_0000, 0x100_0000][p - r.address] % 0x100
            else now == before(p)
  {
    if r.address <= p < r.address + 4 {
      StoredBit(r.byteenable, p - r.address);
      StoredByte(r.data, p - r.address);
    }
  }

  lemma StandsOn(kind: Kind, m0: nat -> byte, granted: seq<Request>, r: Request, p: nat, before: byte, now: byte)
    requires LastStands(kind, m0, granted, p, before)
    requires if Stores(kind, r, p) then now as nat == r.data / [1, 0x100, 0x1_0000, 0x100_0000][p - r.address] % 0x100
             else now == before
    ensures LastStands(kind, m0, granted + [r], p, now)
  {
    var longer := granted + [r];
    forall i: nat | i < |granted| && LastToStore(kind, longer, i, p) ensures LastToStore(kind, granted, i, p) {
      assert longer[i] == granted[i];
      assert forall j :: i < j < |granted| ==> granted[j] == longer[j];
    }
    assert forall j :: 0 <= j < |granted| ==> granted[j] == longer[j];
    assert longer[|granted|] == r;
  }

  /** Between transactions every byte of memory is the one that the last write to it stored, or what it was
      at the start. */
  lemma LastWriteStands(kind: Kind, m0: nat -> byte, run: seq<Action>, p: nat)
    requires forall i :: 0 <= i < |run| ==> Ordinary(kind, run[i])
    requires var s := Exec(kind, Initial(m0), run); !s.ctrlRead && !s.ctrlWrite
    ensures var s := Exec(kind, Initial(m0), run); LastStands(kind, m0, s.granted, p, s.memory(p))
  {
    MemoryIsReplay(kind, m0, run, p);
    ReplayAt(kind, m0, Exec(kind, Initial(m0), run).granted, p);
  }

  // ------------------------------------------------------------------ the byte loop

  lemma ByteShift(word: nat, i: nat)
    ensures ByteOf(word / 0x100, i) == ByteOf(word, i + 1)
    ensures Bit(word / 2, i) == Bit(word, i + 1)
  {
  }

  function Before(m: seq<byte>): nat -> byte {
    (p: nat) => if p < |m| then m[p] else 0
  }

  /** The arbiter's loop over the four bytes of a word, both registers shifted as it goes. */
  method CommitWord(mem: array<byte>, address: nat, byteenable: nat, data: nat)
    returns (enableAfter: nat, dataAfter: nat)
    requires address + 4 <= mem.Length && data < 0x1_0000_0000
    modifies mem
    ensures enableAfter == byteenable / 16 && dataAfter == 0
    ensures forall p :: 0 <= p < mem.Length ==> mem[p] == Stored(Before(old(mem[..])), address, byteenable, data)(p)
  {
    enableAfter, dataAfter := byteenable, data;
    for i := 0 to 4
      invariant forall k: nat :: Bit(enableAfter, k) == Bit(byteenable, i + k)
      invariant forall k: nat :: ByteOf(dataAfter, k) == ByteOf(data, i + k)
      invariant enableAfter == byteenable / [1, 2, 4, 8, 16][i]
      invariant dataAfter < [0x1_0000_0000, 0x100_0000, 0x1_0000, 0x100, 1][i]
      invariant forall p :: 0 <= p < mem.Length ==>
        mem[p] == if address <= p < address + i && Enabled(byteenable, p - address) then ByteOf(data, p - address)
                  else old(mem[p])
    {
      assert Bit(enableAfter, 0) == Bit(byteenable, i + 0) && ByteOf(dataAfter, 0) == ByteOf(data, i + 0);
      if enableAfter % 2 == 1 {
        mem[address + i] := (dataAfter % 0x100) as byte;
      }
      forall k: nat
        ensures Bit(enableAfter / 2, k) == Bit(byteenable, i + 1 + k)
        ensures ByteOf(dataAfter / 0x100, k) == ByteOf(data, i + 1 + k)
      {
        ByteShift(enableAfter, k);
        ByteShift(dataAfter, k);
        assert Bit(enableAfter, k + 1) == Bit(byteenable, i + (k + 1));
        assert ByteOf(dataAfter, k + 1) == ByteOf(data, i + (k + 1));
      }
      enableAfter := enableAfter / 2;
      dataAfter := dataAfter / 0x100;
    }
  }
}
