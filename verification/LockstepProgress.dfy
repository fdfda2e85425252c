/** The lock-step bus moves on: what both CPUs ask for is granted, carried out and acknowledged to both,
    however the accesses of the four parties are interleaved. */
module LockstepProgress {
  import opened Basics
  import opened LockstepBus

  // ------------------------------------------------------------------ how far it still is

  /** How long the arbiter's cycle of tests takes to come to the test of reads, or of writes. */
  function ToReadTest(a: ArbiterPc): nat {
    if a == ReadGuard then 0 else if a == Commit then 1 else 2
  }

  function ToWriteTest(a: ArbiterPc): nat {
    if a == WriteGuard then 0 else if a == ReadGuard then 1 else 2
  }

  /** The same for its look at what has been passed on, and for its own store. */
  function ToReadCheck(a: ArbiterPc): nat {
    if a == ReadCheck then 0 else if a == ReadGuard then 1 else if a == Commit then 2 else 3
  }

  function ToWriteCheck(a: ArbiterPc): nat {
    if a == WriteCheck then 0 else if a == WriteGuard then 1 else if a == ReadGuard then 2 else 3
  }

  function ToCommit(a: ArbiterPc): nat {
    if a == Commit then 0 else if a == WriteCheck then 1 else if a == WriteGuard then 2 else 3
  }

  function SetupLeft(a: ArbiterPc): nat {
    match a
    case ReadReq | WriteReq => 1
    case ReadDirection | WriteDirection => 2
    case ReadByteenable | WriteByteenable => 3
    case ReadAddress | WriteData => 4
    case _ => 5
  }

  function HandingLeft(a: ArbiterPc): nat {
    match a
    case PcReadAck | PcWriteAck => 1
    case PcData(_) | AoWriteAck => 2
    case AoReadAck(_) => 3
    case _ => 4
  }

  function DeviceLeft(d: DevicePc): nat {
    match d
    case Acking(_, _) => 1
    case Answering(_) => 2
    case Watching => 3
  }

  /** Only an access of the device leads further. */
  predicate DevicesTurn(kind: Kind, s: State) {
    |s.answers| < |s.granted| && !Setup(s.arbiter) && DeviceServes(kind, s.combined)
  }

  /** How many accesses of the party that leads further before transaction n is acknowledged to the
      bochs CPU, at most. */
  function Left(kind: Kind, s: State, n: nat): (left: nat)
    ensures 1 <= left <= 32
  {
    if |s.granted| < n then 30 + if s.pc.want.isWrite then ToWriteTest(s.arbiter) else ToReadTest(s.arbiter)
    else if |s.answers| == |s.granted| then HandingLeft(s.arbiter)
    else if Setup(s.arbiter) then 20 + SetupLeft(s.arbiter)
    else if DevicesTurn(kind, s) then 10 + DeviceLeft(s.device)
    else if s.combined.step == Req then 10 + ToCommit(s.arbiter)
    else 5 + if s.pc.want.isWrite then ToWriteCheck(s.arbiter) else ToReadCheck(s.arbiter)
  }

  /** The record holds what is asked for. */
  predicate Asks(c: Cpu) {
    && c.slot.step == Req && c.slot.address == c.want.address && c.slot.byteenable == c.want.byteenable
    && c.slot.isWrite == c.want.isWrite && (c.want.isWrite ==> c.slot.data == c.want.data)
  }

  /** Transaction n is the next for the bochs CPU, which asks for it. As long as it has not been granted
      the ao486 asks for the same. */
  predicate Pending(kind: Kind, s: State, n: nat) {
    && Inv(kind, s) && s.pc.slot.step == Req && |s.pc.done| + 1 == n
    && n - 1 <= |s.granted| <= n
    && (|s.granted| < n ==> s.ao.slot.step == Req && |s.ao.done| + 1 == n && Same(s.ao.want, s.pc.want))
  }

  predicate Writes(s: State, isWrite: bool) {
    s.pc.want.isWrite == isWrite && s.pc.slot.isWrite == isWrite && s.ao.slot.isWrite == isWrite
  }

  lemma PendingHere(kind: Kind, s: State, n: nat)
    requires Pending(kind, s, n)
    ensures Asks(s.pc) && (|s.granted| < n ==> Asks(s.ao))
    ensures if |s.granted| < n then AtRest(s) && !PcPending(s.arbiter)
            else if |s.answers| == |s.granted| then Settled(s) && PcPending(s.arbiter)
            else InFlight(kind, s) && Writes(s, s.granted[n - 1].isWrite) && !PcPending(s.arbiter)
  {
    AnswersTell(kind, s);
  }

  // ------------------------------------------------------------------ the arbiter

  /** The arbiter grants what both ask for when it comes to its test, and comes nearer to it before. */
  lemma ArbiterGrants(kind: Kind, s: State, n: nat)
    requires AtRest(s) && !PcPending(s.arbiter) && Asks(s.ao) && Asks(s.pc) && Same(s.ao.want, s.pc.want)
    requires |s.granted| + 1 == n
    ensures var t := ArbiterStep(kind, s);
            && t.ao == s.ao && t.pc == s.pc && n - 1 <= |t.granted| <= n && t.answers == s.answers
            && Left(kind, t, n) < Left(kind, s, n)
  {
  }

  lemma ArbiterHandsOut(kind: Kind, s: State, n: nat)
    requires |s.answers| == |s.granted| == n && PcPending(s.arbiter) && s.pc.slot.step == Req
    ensures var t := ArbiterStep(kind, s);
            && t.granted == s.granted && t.answers == s.answers && t.pc.done == s.pc.done
            && (t.pc.slot.step == Ack || (t.pc.slot.step == Req && Left(kind, t, n) < Left(kind, s, n)))
  {
  }

  lemma ArbiterSetsUp(kind: Kind, s: State, n: nat)
    requires |s.answers| < |s.granted| == n && Setup(s.arbiter)
    ensures var t := ArbiterStep(kind, s);
            && t.ao == s.ao && t.pc == s.pc && t.granted == s.granted && t.answers == s.answers
            && Left(kind, t, n) < Left(kind, s, n)
  {
    SetupGoesOn(kind, s);
  }

  lemma SetupGoesOn(kind: Kind, s: State)
    requires Setup(s.arbiter)
    ensures var t := ArbiterStep(kind, s);
            && t.ao == s.ao && t.pc == s.pc && t.granted == s.granted && t.answers == s.answers
            && if SetupLeft(s.arbiter) == 1
               then t.combined.step == Req && (t.arbiter == ReadCheck || t.arbiter == WriteCheck)
               else Setup(t.arbiter) && SetupLeft(t.arbiter) < SetupLeft(s.arbiter)
  {
  }

  /** What is in flight, seen by the arbiter where it tests and looks again. */
  predicate LooksAgain(kind: Kind, s: State, n: nat) {
    && InFlight(kind, s) && |s.granted| == n && !Setup(s.arbiter) && !PcPending(s.arbiter)
    && Writes(s, s.granted[n - 1].isWrite)
    && (kind == Io ==> s.combined.address != EARLY_READ_PORT && s.combined.address != EARLY_WRITE_PORT)
  }

  /** Waiting for the device the arbiter goes round; it stores by itself what no device does, and finds
      the acknowledgement when it is there. */
  lemma ArbiterWaits(kind: Kind, s: State, n: nat)
    requires LooksAgain(kind, s, n)
    ensures var t := ArbiterStep(kind, s);
            && t.ao == s.ao && t.pc == s.pc && t.granted == s.granted
            && if DevicesTurn(kind, s) then Left(kind, t, n) == Left(kind, s, n) && DevicesTurn(kind, t)
               else Left(kind, t, n) < Left(kind, s, n)
  {
    if s.arbiter == Commit { WaitsAtCommit(kind, s, n); }
    else if s.arbiter == ReadCheck || s.arbiter == WriteCheck { WaitsAtCheck(kind, s, n); }
    else { WaitsAtTest(kind, s, n); }
  }

  lemma WaitsAtTest(kind: Kind, s: State, n: nat)
    requires LooksAgain(kind, s, n) && (s.arbiter == ReadGuard || s.arbiter == WriteGuard)
    ensures var t := ArbiterStep(kind, s);
            && t == s.(arbiter := t.arbiter)
            && if DevicesTurn(kind, s) then Left(kind, t, n) == Left(kind, s, n) && DevicesTurn(kind, t)
               else Left(kind, t, n) < Left(kind, s, n)
  {
  }

  lemma WaitsAtCheck(kind: Kind, s: State, n: nat)
    requires LooksAgain(kind, s, n) && (s.arbiter == ReadCheck || s.arbiter == WriteCheck)
    ensures var t := ArbiterStep(kind, s);
            && t.ao == s.ao && t.pc == s.pc && t.granted == s.granted
            && if DevicesTurn(kind, s) then Left(kind, t, n) == Left(kind, s, n) && DevicesTurn(kind, t)
               else Left(kind, t, n) < Left(kind, s, n)
  {
  }

  lemma WaitsAtCommit(kind: Kind, s: State, n: nat)
    requires LooksAgain(kind, s, n) && s.arbiter == Commit
    ensures var t := ArbiterStep(kind, s);
            && t.ao == s.ao && t.pc == s.pc && t.granted == s.granted
            && if DevicesTurn(kind, s) then Left(kind, t, n) == Left(kind, s, n) && DevicesTurn(kind, t)
               else Left(kind, t, n) < Left(kind, s, n)
  {
    var t := ArbiterStep(kind, s);
    if CommitsHere(kind, s.combined) {
      StoresAtCommit(kind, s);
      StoredOn(kind, s, t, n);
    } else {
      NoStore(kind, s);
      WaitsOn(kind, s, t, n);
    }
  }

  lemma WaitsOn(kind: Kind, s: State, t: State, n: nat)
    requires LooksAgain(kind, s, n) && s.arbiter == Commit && !CommitsHere(kind, s.combined)
    requires t == s.(arbiter := ReadGuard)
    ensures if DevicesTurn(kind, s) then Left(kind, t, n) == Left(kind, s, n) && DevicesTurn(kind, t)
            else Left(kind, t, n) < Left(kind, s, n)
  {
  }

  lemma StoredOn(kind: Kind, s: State, t: State, n: nat)
    requires LooksAgain(kind, s, n) && s.arbiter == Commit && CommitsHere(kind, s.combined)
    requires t.pc == s.pc && t.granted == s.granted && t.answers == s.answers
    requires t.arbiter == ReadGuard && t.combined.step == Ack && !DevicesTurn(kind, t)
    ensures Left(kind, t, n) < Left(kind, s, n)
  {
  }

  lemma StoresAtCommit(kind: Kind, s: State)
    requires s.arbiter == Commit && CommitsHere(kind, s.combined)
    ensures var t := ArbiterStep(kind, s);
            && t.ao == s.ao && t.pc == s.pc && t.granted == s.granted && t.answers == s.answers
            && t.arbiter == ReadGuard && t.combined.step == Ack && t.combined.isWrite
            && !DevicesTurn(kind, s) && !DevicesTurn(kind, t)
  {
  }

  lemma NoEarlyPort(kind: Kind, s: State)
    requires Inv(kind, s) && InFlight(kind, s) && !Setup(s.arbiter)
    ensures kind == Io ==> s.combined.address != EARLY_READ_PORT && s.combined.address != EARLY_WRITE_PORT
  {
  }

  /** Whether anything is granted or not, the arbiter leads further, or keeps what the device is to do. */
  lemma ArbiterLeads(kind: Kind, s: State, n: nat)
    requires Pending(kind, s, n)
    ensures var t := ArbiterStep(kind, s);
            && t.pc.done == s.pc.done && (t.pc.slot.step == Ack || Pending(kind, t, n))
            && (t.pc.slot.step != Ack ==>
                  if DevicesTurn(kind, s) then Left(kind, t, n) == Left(kind, s, n) && DevicesTurn(kind, t)
                  else Left(kind, t, n) < Left(kind, s, n))
  {
    PendingHere(kind, s, n);
    InvArbiter(kind, s);
    if |s.granted| < n { ArbiterGrants(kind, s, n); }
    else if |s.answers| == |s.granted| { ArbiterHandsOut(kind, s, n); }
    else if Setup(s.arbiter) { ArbiterSetsUp(kind, s, n); }
    else {
      NoEarlyPort(kind, s);
      ArbiterWaits(kind, s, n);
    }
  }

  // ------------------------------------------------------------------ the others

  /** When it is its turn the device leads further; otherwise it does nothing. */
  lemma DeviceLeads(kind: Kind, s: State, n: nat, value: nat)
    requires Pending(kind, s, n)
    ensures var t := DeviceStep(kind, s, value);
            && Pending(kind, t, n)
            && if DevicesTurn(kind, s) then Left(kind, t, n) < Left(kind, s, n) else t == s
  {
    PendingHere(kind, s, n);
    InvDevice(kind, s, value);
    if |s.granted| == n && |s.answers| < n && !Setup(s.arbiter) { DeviceAnswers(kind, s, n, value); }
  }

  lemma DeviceAnswers(kind: Kind, s: State, n: nat, value: nat)
    requires InFlight(kind, s) && |s.granted| == n && !Setup(s.arbiter)
    requires s.pc.want.isWrite == s.granted[n - 1].isWrite
    ensures var t := DeviceStep(kind, s, value);
            if DevicesTurn(kind, s) then Left(kind, t, n) < Left(kind, s, n) else t == s
  {
  }

  /** A CPU that waits does nothing; the ao486 may go on once it has been answered. */
  lemma CpusKeep(kind: Kind, s: State, n: nat, act: Action)
    requires Pending(kind, s, n) && Ordinary(kind, act) && (act.AoAct? || act.PcAct?)
    ensures var t := Do(kind, s, act);
            && Pending(kind, t, n) && Left(kind, t, n) == Left(kind, s, n)
            && DevicesTurn(kind, t) == DevicesTurn(kind, s)
  {
    InvStep(kind, s, act);
    RequestStands(kind, s, act);
    if s.pc.slot.step == Req { RequestKept(kind, s.pc, act.want); }
    if s.ao.slot.step == Req { RequestKept(kind, s.ao, act.want); }
  }

  /** The party that leads further acts. */
  predicate Awaited(kind: Kind, s: State, act: Action) {
    if DevicesTurn(kind, s) then act.DeviceAct? else act.ArbiterAct?
  }

  /** After some accesses the bochs CPU has its acknowledgement, or it has come nearer, or nothing has
      changed who leads further. */
  predicate Nearer(kind: Kind, s: State, t: State, n: nat) {
    t.pcAcks >= n || (Pending(kind, t, n) && Left(kind, t, n) < Left(kind, s, n))
  }

  predicate AsNear(kind: Kind, s: State, t: State, n: nat) {
    Pending(kind, t, n) && Left(kind, t, n) == Left(kind, s, n) && DevicesTurn(kind, t) == DevicesTurn(kind, s)
  }

  lemma OneAccess(kind: Kind, s: State, n: nat, act: Action)
    requires Pending(kind, s, n) && Ordinary(kind, act)
    ensures var t := Do(kind, s, act);
            Nearer(kind, s, t, n) || (AsNear(kind, s, t, n) && !Awaited(kind, s, act))
  {
    InvStep(kind, s, act);
    match act
    case ArbiterAct => ArbiterLeads(kind, s, n);
    case DeviceAct(value) => DeviceLeads(kind, s, n, value);
    case _ => CpusKeep(kind, s, n, act);
  }

  lemma ArbiterAcks(kind: Kind, s: State)
    ensures var t := ArbiterStep(kind, s);
            t.pcAcks >= s.pcAcks && t.aoAcks >= s.aoAcks && t.ao.done == s.ao.done && t.pc.done == s.pc.done
  {
    if PcPending(s.arbiter) { HandsOutAcks(kind, s); } else { OthersAck(kind, s); }
  }

  lemma HandsOutAcks(kind: Kind, s: State)
    requires PcPending(s.arbiter)
    ensures var t := ArbiterStep(kind, s);
            t.pcAcks >= s.pcAcks && t.aoAcks >= s.aoAcks && t.ao.done == s.ao.done && t.pc.done == s.pc.done
  {
  }

  lemma OthersAck(kind: Kind, s: State)
    requires !PcPending(s.arbiter)
    ensures var t := ArbiterStep(kind, s);
            t.pcAcks == s.pcAcks && t.aoAcks == s.aoAcks && t.ao == s.ao && t.pc == s.pc
  {
  }

  lemma AcksStay(kind: Kind, s: State, act: Action)
    ensures Do(kind, s, act).pcAcks >= s.pcAcks && Do(kind, s, act).aoAcks >= s.aoAcks
  {
    if act.ArbiterAct? { ArbiterAcks(kind, s); }
  }

  lemma NearerYet(kind: Kind, s: State, t: State, n: nat, act: Action)
    requires t.pcAcks >= n || (Pending(kind, t, n) && Left(kind, t, n) <= Left(kind, s, n))
    requires Ordinary(kind, act)
    ensures Nearer(kind, s, t, n) ==> Nearer(kind, s, Do(kind, t, act), n)
    ensures AsNear(kind, s, t, n) && t.pcAcks < n ==>
      Nearer(kind, s, Do(kind, t, act), n) || (AsNear(kind, s, Do(kind, t, act), n) && !Awaited(kind, s, act))
  {
    AcksStay(kind, t, act);
    if t.pcAcks < n { OneAccess(kind, t, n, act); }
  }

  /** After a run: nearer, or nobody has acted who leads further. */
  predicate Led(kind: Kind, s: State, t: State, n: nat, run: seq<Action>) {
    Nearer(kind, s, t, n) || (AsNear(kind, s, t, n) && forall i :: 0 <= i < |run| ==> !Awaited(kind, s, run[i]))
  }

  lemma LedOn(kind: Kind, s: State, t: State, n: nat, run: seq<Action>, act: Action)
    requires Led(kind, s, t, n, run) && Ordinary(kind, act)
    ensures Led(kind, s, Do(kind, t, act), n, run + [act])
  {
    NearerYet(kind, s, t, n, act);
  }

  lemma {:induction false} SomeAccesses(kind: Kind, s: State, n: nat, run: seq<Action>)
    requires Pending(kind, s, n) && forall i :: 0 <= i < |run| ==> Ordinary(kind, run[i])
    ensures Led(kind, s, Exec(kind, s, run), n, run)
    decreases |run|
  {
    if run != [] {
      var before, last := run[..|run| - 1], run[|run| - 1];
      assert run == before + [last];
      SomeAccesses(kind, s, n, before);
      OneMore(kind, s, n, before, last);
    }
  }

  lemma OneMore(kind: Kind, s: State, n: nat, run: seq<Action>, act: Action)
    requires Led(kind, s, Exec(kind, s, run), n, run) && Ordinary(kind, act)
    ensures Led(kind, s, Exec(kind, s, run + [act]), n, run + [act])
  {
    LedOn(kind, s, Exec(kind, s, run), n, run, act);
    assert (run + [act])[..|run + [act]| - 1] == run;
  }

  // ------------------------------------------------------------------ every fair run

  /** The arbiter and the device both act, among anything else. */
  predicate Round(run: seq<Action>) {
    (exists i :: 0 <= i < |run| && run[i].ArbiterAct?) && exists i :: 0 <= i < |run| && run[i].DeviceAct?
  }

  /** The run can be cut into k stretches in each of which both act. */
  ghost predicate Rounds(run: seq<Action>, k: nat) {
    k == 0 || exists i :: 0 <= i <= |run| && Round(run[i..]) && Rounds(run[..i], k - 1)
  }

  lemma {:induction false} ExecAppend(kind: Kind, s: State, a: seq<Action>, b: seq<Action>)
    ensures Exec(kind, s, a + b) == Exec(kind, Exec(kind, s, a), b)
    decreases |b|
  {
    if b == [] {
      assert a + b == a;
    } else {
      var k := |b| - 1;
      ExecAppend(kind, s, a, b[..k]);
      assert (a + b)[..|a + b| - 1] == a + b[..k] && (a + b)[|a + b| - 1] == b[k];
    }
  }

  lemma {:induction false} AcksGrow(kind: Kind, s: State, run: seq<Action>)
    ensures Exec(kind, s, run).pcAcks >= s.pcAcks && Exec(kind, s, run).aoAcks >= s.aoAcks
    decreases |run|
  {
    if run != [] {
      AcksGrow(kind, s, run[..|run| - 1]);
      AcksStay(kind, Exec(kind, s, run[..|run| - 1]), run[|run| - 1]);
    }
  }

  /** In a round the party that leads further acts. */
  lemma RoundLeads(kind: Kind, s: State, n: nat, run: seq<Action>)
    requires Pending(kind, s, n) && Round(run) && forall i :: 0 <= i < |run| ==> Ordinary(kind, run[i])
    ensures Nearer(kind, s, Exec(kind, s, run), n)
  {
    SomeAccesses(kind, s, n, run);
    NotIdle(kind, s, Exec(kind, s, run), n, run);
  }

  lemma NotIdle(kind: Kind, s: State, t: State, n: nat, run: seq<Action>)
    requires Led(kind, s, t, n, run) && Round(run)
    ensures Nearer(kind, s, t, n)
  {
    var i, j :| 0 <= i < |run| && run[i].ArbiterAct? && 0 <= j < |run| && run[j].DeviceAct?;
    assert Awaited(kind, s, run[i]) || Awaited(kind, s, run[j]);
  }

  /** Transaction n has been acknowledged, or is k accesses nearer. */
  predicate NearerBy(kind: Kind, s: State, t: State, n: nat, k: nat) {
    t.pcAcks >= n || (Pending(kind, t, n) && Left(kind, t, n) + k <= Left(kind, s, n))
  }

  lemma LastRound(run: seq<Action>, k: nat) returns (i: nat)
    requires k > 0 && Rounds(run, k)
    ensures i <= |run| && Round(run[i..]) && Rounds(run[..i], k - 1)
  {
    i :| 0 <= i <= |run| && Round(run[i..]) && Rounds(run[..i], k - 1);
  }

  lemma {:induction false} RoundsLead(kind: Kind, s: State, n: nat, run: seq<Action>, k: nat)
    requires Pending(kind, s, n) && Rounds(run, k) && forall i :: 0 <= i < |run| ==> Ordinary(kind, run[i])
    ensures NearerBy(kind, s, Exec(kind, s, run), n, k)
    decreases k
  {
    if k == 0 {
      SomeAccesses(kind, s, n, run);
      ByNone(kind, s, Exec(kind, s, run), n, run);
    } else {
      var i := LastRound(run, k);
      var before, last := run[..i], run[i..];
      assert run == before + last;
      RoundsLead(kind, s, n, before, k - 1);
      OneRound(kind, s, before, n, last, k);
    }
  }

  lemma ByNone(kind: Kind, s: State, t: State, n: nat, run: seq<Action>)
    requires Led(kind, s, t, n, run)
    ensures NearerBy(kind, s, t, n, 0)
  {
  }

  lemma OneRound(kind: Kind, s: State, before: seq<Action>, n: nat, run: seq<Action>, k: nat)
    requires k > 0 && NearerBy(kind, s, Exec(kind, s, before), n, k - 1)
    requires Round(run) && forall i :: 0 <= i < |run| ==> Ordinary(kind, run[i])
    ensures NearerBy(kind, s, Exec(kind, s, before + run), n, k)
  {
    var t := Exec(kind, s, before);
    ExecAppend(kind, s, before, run);
    AcksGrow(kind, t, run);
    if t.pcAcks < n { RoundLeads(kind, t, n, run); }
  }

  /** The ao486 is acknowledged first. */
  lemma AoFirst(kind: Kind, s: State)
    requires Inv(kind, s)
    ensures s.aoAcks >= s.pcAcks
  {
    AnswersTell(kind, s);
  }

  lemma {:induction false} InvKept(kind: Kind, s: State, run: seq<Action>)
    requires Inv(kind, s) && forall i :: 0 <= i < |run| ==> Ordinary(kind, run[i])
    ensures Inv(kind, Exec(kind, s, run))
    decreases |run|
  {
    if run != [] {
      InvKept(kind, s, run[..|run| - 1]);
      InvStep(kind, Exec(kind, s, run[..|run| - 1]), run[|run| - 1]);
    }
  }

  /** Both ask for the same. */
  predicate BothAsk(s: State) {
    s.ao.slot.step == Req && s.pc.slot.step == Req && Same(s.ao.want, s.pc.want)
  }

  /** The bochs CPU has completed as much as the ao486, or one transaction less, and is waited for. */
  lemma AskedMeansPending(kind: Kind, s: State)
    requires Inv(kind, s) && BothAsk(s)
    ensures Pending(kind, s, |s.pc.done| + 1) && s.pcAcks == |s.pc.done| && s.aoAcks == |s.ao.done|
    ensures |s.pc.done| <= |s.ao.done| <= |s.pc.done| + 1
  {
    AnswersTell(kind, s);
  }

  /** When both ask for the same, then however all accesses go on, after 32 rounds in which the arbiter and
      the device have acted, the bochs CPU has been acknowledged, and so has the ao486 unless it had been
      before and asks for the next transaction already. */
  lemma AnsweredInTime(kind: Kind, m0: nat -> byte, run: seq<Action>, more: seq<Action>)
    requires forall i :: 0 <= i < |run| ==> Ordinary(kind, run[i])
    requires forall i :: 0 <= i < |more| ==> Ordinary(kind, more[i])
    requires BothAsk(Exec(kind, Initial(m0), run)) && Rounds(more, 32)
    ensures var s := Exec(kind, Initial(m0), run);
            var t := Exec(kind, Initial(m0), run + more);
            t.pcAcks > s.pcAcks && (|s.ao.done| == |s.pc.done| ==> t.aoAcks > s.aoAcks)
  {
    var s := Exec(kind, Initial(m0), run);
    InvExec(kind, m0, run);
    AskedMeansPending(kind, s);
    RoundsLead(kind, s, |s.pc.done| + 1, more, 32);
    ExecAppend(kind, Initial(m0), run, more);
    InvKept(kind, s, more);
    AoFirst(kind, Exec(kind, s, more));
  }

  // ------------------------------------------------------------------ without the CPUs

  /** Accesses of the arbiter and the device alone. */
  predicate Behind(run: seq<Action>) {
    forall i :: 0 <= i < |run| ==> run[i].ArbiterAct? || run[i].DeviceAct?
  }

  lemma BehindStep(kind: Kind, s: State, act: Action)
    requires act.ArbiterAct? || act.DeviceAct?
    ensures Do(kind, s, act).ao.done == s.ao.done && Do(kind, s, act).pc.done == s.pc.done
  {
    match act
    case ArbiterAct => ArbiterAcks(kind, s);
    case DeviceAct(value) => DeviceLeavesCpus(kind, s, value);
  }

  lemma {:induction false} BehindKeeps(kind: Kind, s: State, run: seq<Action>)
    requires Behind(run)
    ensures Exec(kind, s, run).ao.done == s.ao.done && Exec(kind, s, run).pc.done == s.pc.done
    decreases |run|
  {
    if run != [] {
      BehindKeeps(kind, s, run[..|run| - 1]);
      BehindStep(kind, Exec(kind, s, run[..|run| - 1]), run[|run| - 1]);
    }
  }

  /** Letting the party act that leads further. */
  lemma {:induction false} Served(kind: Kind, s: State, n: nat, value: nat) returns (more: seq<Action>)
    requires Pending(kind, s, n)
    ensures Behind(more) && Exec(kind, s, more).pcAcks >= n
    decreases Left(kind, s, n)
  {
    var act := if DevicesTurn(kind, s) then DeviceAct(value) else ArbiterAct;
    var t := Do(kind, s, act);
    OneAccess(kind, s, n, act);
    assert Exec(kind, s, [act]) == t;
    if t.pcAcks >= n {
      more := [act];
    } else {
      more := Served(kind, t, n, value);
      ExecAppend(kind, s, [act], more);
      more := [act] + more;
    }
  }

  /** The ao486 is ahead: it has been acknowledged for what the bochs CPU still waits for, and asks for
      the next. */
  predicate AoAhead(kind: Kind, s: State) {
    Inv(kind, s) && s.ao.slot.step == Req && |s.ao.done| == |s.granted| && |s.pc.done| < |s.granted|
  }

  lemma {:induction false} StaysAhead(kind: Kind, s: State, more: seq<Action>)
    requires AoAhead(kind, s) && Behind(more)
    ensures AoAhead(kind, Exec(kind, s, more))
    decreases |more|
  {
    if more != [] {
      var k := |more| - 1;
      var t := Exec(kind, s, more[..k]);
      StaysAhead(kind, s, more[..k]);
      InvStep(kind, t, more[k]);
      AheadStep(kind, t, more[k]);
    }
  }

  lemma AheadStep(kind: Kind, s: State, act: Action)
    requires AoAhead(kind, s) && (act.ArbiterAct? || act.DeviceAct?)
    ensures var t := Do(kind, s, act);
            t.ao == s.ao && t.pc.done == s.pc.done && t.granted == s.granted
  {
    AnswersTell(kind, s);
    if act.ArbiterAct? { AheadArbiter(kind, s); }
  }

  /** There is nothing to grant, and nothing to hand to the ao486. */
  lemma AheadArbiter(kind: Kind, s: State)
    requires AtRest(s) && !AoPending(s.arbiter) && (s.pc.slot.step == Ack || PcPending(s.arbiter))
    ensures var t := ArbiterStep(kind, s);
            t.ao == s.ao && t.pc.done == s.pc.done && t.granted == s.granted
  {
  }

  /** The arbiter and the device, left alone, can bring both CPUs their acknowledgement. */
  ghost predicate CanAnswerBoth(kind: Kind, s: State) {
    exists more :: Behind(more) && Exec(kind, s, more).ao.slot.step == Ack && Exec(kind, s, more).pc.slot.step == Ack
  }

  /** When both ask for the same, the arbiter and the device can bring both to their acknowledgement
      without them, exactly when both have completed the same number of transactions. */
  lemma AnsweredTogether(kind: Kind, m0: nat -> byte, run: seq<Action>)
    requires forall i :: 0 <= i < |run| ==> Ordinary(kind, run[i])
    requires BothAsk(Exec(kind, Initial(m0), run))
    ensures var s := Exec(kind, Initial(m0), run);
            CanAnswerBoth(kind, s) <==> |s.ao.done| == |s.pc.done|
  {
    var s := Exec(kind, Initial(m0), run);
    InvExec(kind, m0, run);
    AskedMeansPending(kind, s);
    if |s.ao.done| == |s.pc.done| {
      var more := Served(kind, s, |s.pc.done| + 1, 0);
      BehindKeeps(kind, s, more);
      InvKept(kind, s, more);
      AoFirst(kind, Exec(kind, s, more));
      assert Exec(kind, s, more).ao.slot.step == Ack;
    } else {
      AnswersTell(kind, s);
      assert AoAhead(kind, s);
      forall more | Behind(more) ensures Exec(kind, s, more).ao.slot.step != Ack {
        StaysAhead(kind, s, more);
      }
    }
  }

  // ------------------------------------------------------------------ the ao486 ahead

  const ZERO_READ := Request(0, 0, false, 0)

  /** A run under construction and the state it leads to. */
  ghost predicate Reached(m0: nat -> byte, run: seq<Action>, s: State) {
    s == Exec(Mem, Initial(m0), run) && forall i :: 0 <= i < |run| ==> Ordinary(Mem, run[i])
  }

  lemma Next(m0: nat -> byte, run: seq<Action>, s: State, act: Action) returns (longer: seq<Action>, t: State)
    requires Reached(m0, run, s)
    ensures t == Do(Mem, s, act) && Reached(m0, longer, t)
  {
    longer, t := run + [act], Do(Mem, s, act);
    assert longer[..|longer| - 1] == run;
  }

  /** The ao486 asks to read. */
  lemma AoAsks(m0: nat -> byte, run: seq<Action>, s: State) returns (longer: seq<Action>, t: State)
    requires Reached(m0, run, s) && s.ao.pc == Free
    ensures Reached(m0, longer, t)
    ensures t == s.(ao := Cpu(Slot(0, s.ao.slot.data, 0, false, Req), Wait, ZERO_READ, s.ao.done))
  {
    longer, t := Next(m0, run, s, AoAct(ZERO_READ));
    longer, t := Next(m0, longer, t, AoAct(ZERO_READ));
    longer, t := Next(m0, longer, t, AoAct(ZERO_READ));
    longer, t := Next(m0, longer, t, AoAct(ZERO_READ));
  }

  lemma PcAsks(m0: nat -> byte, run: seq<Action>, s: State) returns (longer: seq<Action>, t: State)
    requires Reached(m0, run, s) && s.pc.pc == Free
    ensures Reached(m0, longer, t)
    ensures t == s.(pc := Cpu(Slot(0, s.pc.slot.data, 0, false, Req), Wait, ZERO_READ, s.pc.done))
  {
    longer, t := Next(m0, run, s, PcAct(ZERO_READ));
    longer, t := Next(m0, longer, t, PcAct(ZERO_READ));
    longer, t := Next(m0, longer, t, PcAct(ZERO_READ));
    longer, t := Next(m0, longer, t, PcAct(ZERO_READ));
  }

  /** What both ask for is granted. */
  lemma Grants(m0: nat -> byte, run: seq<Action>, s: State) returns (longer: seq<Action>, t: State)
    requires Reached(m0, run, s) && s.arbiter == ReadGuard && !s.ctrlRead
    requires s.ao.slot == s.pc.slot == Slot(0, 0, 0, false, Req)
    ensures Reached(m0, longer, t)
    ensures t == s.(arbiter := ReadAddress, ctrlRead := true, granted := s.granted + [s.pc.want])
  {
    longer, t := Next(m0, run, s, ArbiterAct);
  }

  /** The request is passed on. */
  lemma PassesOn(m0: nat -> byte, run: seq<Action>, s: State) returns (longer: seq<Action>, t: State)
    requires Reached(m0, run, s) && s.arbiter == ReadAddress && s.pc.slot == Slot(0, 0, 0, false, Req)
    requires s.combined == Slot(0, 0, 0, false, Idle)
    ensures Reached(m0, longer, t) && t == s.(arbiter := ReadCheck, combined := Slot(0, 0, 0, false, Req))
  {
    longer, t := Next(m0, run, s, ArbiterAct);
    longer, t := Next(m0, longer, t, ArbiterAct);
    longer, t := Next(m0, longer, t, ArbiterAct);
    longer, t := Next(m0, longer, t, ArbiterAct);
  }

  lemma Answers(m0: nat -> byte, run: seq<Action>, s: State) returns (longer: seq<Action>, t: State)
    requires Reached(m0, run, s) && s.device == Watching && s.combined == Slot(0, 0, 0, false, Req)
    ensures Reached(m0, longer, t)
    ensures t == s.(combined := Slot(0, 0, 0, false, Ack), served := t.served)
  {
    longer, t := Next(m0, run, s, DeviceAct(0));
    longer, t := Next(m0, longer, t, DeviceAct(0));
    longer, t := Next(m0, longer, t, DeviceAct(0));
  }

  /** The answer is handed to the ao486. */
  lemma HandsToAo(m0: nat -> byte, run: seq<Action>, s: State) returns (longer: seq<Action>, t: State)
    requires Reached(m0, run, s) && s.arbiter == ReadCheck && s.combined == Slot(0, 0, 0, false, Ack)
    ensures Reached(m0, longer, t) && t.pc == s.pc && t.ao == s.ao.(slot := s.ao.slot.(data := 0, step := Ack))
  {
    longer, t := Next(m0, run, s, ArbiterAct);
    longer, t := Next(m0, longer, t, ArbiterAct);
    longer, t := Next(m0, longer, t, ArbiterAct);
  }

  lemma AoCompletes(m0: nat -> byte, run: seq<Action>, s: State) returns (longer: seq<Action>, t: State)
    requires Reached(m0, run, s) && s.ao.pc == Wait && s.ao.slot.step == Ack && s.ao.done == []
    ensures Reached(m0, longer, t) && t.pc == s.pc && t.ao.pc == Free && |t.ao.done| == 1
  {
    longer, t := Next(m0, run, s, AoAct(ZERO_READ));
    longer, t := Next(m0, longer, t, AoAct(ZERO_READ));
  }

  /** Such a run: both ask for the same, but the ao486 for the second time, and the arbiter and the device
      alone cannot bring it its acknowledgement. */
  lemma AheadRun(m0: nat -> byte) returns (run: seq<Action>)
    ensures forall i :: 0 <= i < |run| ==> Ordinary(Mem, run[i])
    ensures BothAsk(Exec(Mem, Initial(m0), run)) && !CanAnswerBoth(Mem, Exec(Mem, Initial(m0), run))
  {
    var s := Initial(m0);
    run := [];
    run, s := AoAsks(m0, run, s);
    run, s := PcAsks(m0, run, s);
    run, s := Grants(m0, run, s);
    run, s := PassesOn(m0, run, s);
    run, s := Answers(m0, run, s);
    run, s := HandsToAo(m0, run, s);
    run, s := AoCompletes(m0, run, s);
    run, s := AoAsks(m0, run, s);
    AnsweredTogether(Mem, m0, run);
  }
}
