/** The checksum patcher of the VGA BIOS image (sw/vgabios/biossums.c): the size in byte 2, the PMID
    entry's checksum, the size in the PCI data structure, and the image's own checksum. When something
    must change in an image that was not padded already, the image grows by one block of 512 bytes. */
module VgaBiosSums {
  import opened Basics
  import opened ByteSums

  const SIZE := 0x1_0000
  const BLOCK := 0x200
  const PMID_LEN := 20
  const PMID_CHKSUM := 19
  const PCIR_LEN := 24

  type Memory = d: seq<byte> | |d| == 0x1_0000 witness seq(0x1_0000, _ => 0)

  /** The program's variables. The file written in the end is d[..len], and only if modified. */
  datatype State = State(d: Memory, len: nat, modified: bool)

  /** Outside: the image outgrows the 64 KB array and the next step indexes past its end. */
  datatype Outcome = Outside | Done(state: State)

  function Blocks(len: nat): byte {
    (len / BLOCK % 0x100) as byte
  }

  function Next(b: byte): byte {
    ((b as nat + 1) % 0x100) as byte
  }

  function Rounded(size: nat): nat {
    if size < 0x8000 then 0x8000
    else if size % BLOCK != 0 then (size + BLOCK) / BLOCK * BLOCK
    else size
  }

  function Start(d: Memory, size: nat): State {
    State(d, Rounded(size), Rounded(size) != size)
  }

  // ------------------------------------------------------------------ the steps as functions

  function Sized(s: State): State {
    if Blocks(s.len) == s.d[2] then s
    else
      var len := if s.modified then s.len else s.len + BLOCK;
      State(s.d[2 := Blocks(len)], len, true)
  }

  predicate Named(d: Memory, p: nat, a: byte, b: byte) {
    p + 4 <= SIZE && d[p] == 0x50 && d[p + 1] == a && d[p + 2] == b
  }

  predicate PmidAt(d: Memory, p: nat) {
    Named(d, p, 0x4D, 0x49) && d[p + 3] == 0x44
  }

  predicate PcirAt(d: Memory, p: nat) {
    Named(d, p, 0x43, 0x49) && d[p + 3] == 0x52
  }

  /** The PMID entries from p on; entries lie before the last byte. */
  function PmidsFrom(d: Memory, len: nat, p: nat): (ps: seq<nat>)
    ensures forall i :: 0 <= i < |ps| ==> p <= ps[i] && ps[i] + PMID_LEN < len && PmidAt(d, ps[i])
    decreases len - p
  {
    if p + PMID_LEN >= len then []
    else if PmidAt(d, p) then [p] + PmidsFrom(d, len, p + 1)
    else PmidsFrom(d, len, p + 1)
  }

  /** The first PCI data structure from p on. */
  function PcirFrom(d: Memory, len: nat, p: nat): (r: Option<nat>)
    ensures r.Some? ==> p <= r.value && r.value + PCIR_LEN < len && PcirAt(d, r.value)
    ensures forall q :: p <= q && q + PCIR_LEN < len && (r.Some? ==> q < r.value) ==> !PcirAt(d, q)
    decreases len - p
  {
    if p + PCIR_LEN >= len then None
    else if PcirAt(d, p) then Some(p)
    else PcirFrom(d, len, p + 1)
  }

  /** The image grows, unless it has been modified before; the sizes stored in it follow. */
  function Grown(s: State, pcir: Option<nat>): State
    requires pcir.Some? ==> pcir.value + PCIR_LEN < SIZE
  {
    if s.modified then s
    else
      var d := s.d[2 := Next(s.d[2])];
      State(if pcir.Some? then d[pcir.value + 16 := Next(d[pcir.value + 16])] else d, s.len + BLOCK, true)
  }

  function PmidFixed(s: State): State
    requires s.len <= SIZE
  {
    var ps := PmidsFrom(s.d, s.len, 1);
    if |ps| == 1 && s.d[ps[0] + PMID_CHKSUM] != Needed(s.d, ps[0], PMID_LEN, PMID_CHKSUM)
      then Grown(s.(d := s.d[ps[0] + PMID_CHKSUM := Needed(s.d, ps[0], PMID_LEN, PMID_CHKSUM)]), None)
    else s
  }

  function PcirFixed(s: State): State
    requires s.len <= SIZE
  {
    match PcirFrom(s.d, s.len, 1)
    case None => s
    case Some(p) => if s.d[p + 16] == s.d[2] then s else Grown(s.(d := s.d[p + 16 := s.d[2]]), Some(p))
  }

  predicate Balanced(s: State)
    requires 0 < s.len <= SIZE
  {
    s.d[s.len - 1] == Needed(s.d, 0, s.len - 1, s.len - 1)
  }

  function Sealed(s: State): State
    requires 0 < s.len <= SIZE
  {
    if Balanced(s) then s
    else State(s.d[s.len - 1 := Needed(s.d, 0, s.len - 1, s.len - 1)], s.len, true)
  }

  function Finished(s: State, pcir: Option<nat>): Outcome
    requires 0 < s.len <= SIZE
    requires pcir.Some? ==> pcir.value + PCIR_LEN < SIZE
  {
    if Balanced(s) then Done(s)
    else
      var g := Grown(s, pcir);
      if g.len > SIZE then Outside else Done(Sealed(g))
  }

  /** The image as it is when the PCI data structure is looked for. */
  function BeforePcir(d: Memory, size: nat): State
    requires size <= SIZE
  {
    var s := Sized(Start(d, size));
    if s.len > SIZE then s else PmidFixed(s)
  }

  function Result(d: Memory, size: nat): Outcome
    requires size <= SIZE
  {
    var s := BeforePcir(d, size);
    if s.len > SIZE then Outside
    else
      var pcir := PcirFrom(s.d, s.len, 1);
      var t := PcirFixed(s);
      if t.len > SIZE then Outside else Finished(t, pcir)
  }

  // ------------------------------------------------------------------ the program

  class Patcher {
    const data: array<byte>
    var len: nat
    var modified: bool

    predicate Valid()
      reads this
    {
      data.Length == SIZE
    }

    function Now(): State
      requires Valid()
      reads this, data
    {
      State(data[..], len, modified)
    }

    constructor (data: array<byte>, size: nat)
      requires data.Length == SIZE && size <= SIZE
      ensures this.data == data && Valid()
      ensures Now() == Start(data[..], size)
    {
      this.data := data;
      if size < 0x8000 {
        len := 0x8000;
        modified := true;
      } else if size % BLOCK != 0 {
        len := (size + BLOCK) / BLOCK * BLOCK;
        modified := true;
      } else {
        len := size;
        modified := false;
      }
    }

    method FixSize()
      requires Valid()
      modifies this, data
      ensures Valid() && Now() == Sized(old(Now()))
    {
      if Blocks(len) != data[2] {
        if !modified {
          len := len + BLOCK;
        }
        data[2] := Blocks(len);
        modified := true;
      }
    }

    /** The search goes on after the given offset. */
    method GetPmid(offset: nat) returns (result: Option<nat>)
      requires Valid() && len <= SIZE
      ensures var rest := PmidsFrom(data[..], len, offset + 1);
              if result.None? then rest == []
              else offset < result.value && rest == [result.value] + PmidsFrom(data[..], len, result.value + 1)
    {
      var at := offset;
      ghost var d: Memory := data[..];
      ghost var rest := PmidsFrom(d, len, offset + 1);
      while at + PMID_LEN < len - 1
        invariant offset <= at && rest == PmidsFrom(d, len, at + 1)
        decreases len - at
      {
        at := at + 1;
        if data[at] == 0x50 && data[at + 1] == 0x4D && data[at + 2] == 0x49 && data[at + 3] == 0x44 {
          assert PmidAt(d, at);
          return Some(at);
        }
        assert !PmidAt(d, at);
      }
      return None;
    }

    method GetPcir() returns (result: Option<nat>)
      requires Valid() && len <= SIZE
      ensures result == PcirFrom(data[..], len, 1)
    {
      var at: nat := 0;
      ghost var d: Memory := data[..];
      while at + PCIR_LEN < len - 1
        invariant PcirFrom(d, len, 1) == PcirFrom(d, len, at + 1)
        decreases len - at
      {
        at := at + 1;
        if data[at] == 0x50 && data[at + 1] == 0x43 && data[at + 2] == 0x49 && data[at + 3] == 0x52 {
          assert PcirAt(d, at);
          return Some(at);
        }
        assert !PcirAt(d, at);
      }
      return None;
    }

    method Grow(pcir: Option<nat>)
      requires Valid() && (pcir.Some? ==> pcir.value + PCIR_LEN < SIZE)
      modifies this, data
      ensures Valid() && Now() == Grown(old(Now()), pcir)
    {
      if !modified {
        len := len + BLOCK;
        data[2] := Next(data[2]);
        if pcir.Some? {
          data[pcir.value + 16] := Next(data[pcir.value + 16]);
        }
      }
      modified := true;
    }

    method FixPmid()
      requires Valid() && len <= SIZE
      modifies this, data
      ensures Valid() && Now() == PmidFixed(old(Now()))
    {
      ghost var d: Memory := data[..];
      ghost var ps := PmidsFrom(d, len, 1);
      var hits: nat, offset: nat := 0, 0;
      var curVal, newVal: byte := 0, 0;
      while true
        invariant Valid() && data[..] == d && len == old(len) && modified == old(modified)
        invariant Scanned(d, len, ps, hits, offset)
        invariant hits > 0 ==> Judged(d, len, offset, curVal, newVal)
        decreases |ps| - hits
      {
        var next := GetPmid(offset);
        if next.None? { break; }
        NextScanned(d, len, ps, hits, offset, next.value);
        offset := next.value;
        curVal := data[offset + PMID_CHKSUM];
        newVal := Balance(data, offset, PMID_LEN, PMID_CHKSUM);
        hits := hits + 1;
      }
      if hits == 1 && curVal != newVal {
        data[offset + PMID_CHKSUM] := newVal;
        Grow(None);
      }
    }

    method FixPcir() returns (pcir: Option<nat>)
      requires Valid() && len <= SIZE
      modifies this, data
      ensures Valid() && Now() == PcirFixed(old(Now()))
      ensures pcir == old(PcirFrom(data[..], len, 1))
    {
      pcir := GetPcir();
      if pcir.Some? && data[pcir.value + 16] != data[2] {
        data[pcir.value + 16] := data[2];
        Grow(pcir);
      }
    }

    /** The loop that sets the image's checksum: one round, or two when the first one makes it grow. */
    method Finish(pcir: Option<nat>) returns (inside: bool)
      requires Valid() && 0 < len <= SIZE && (pcir.Some? ==> pcir.value + PCIR_LEN < SIZE)
      modifies this, data
      ensures Valid()
      ensures var r := Finished(old(Now()), pcir);
              && (inside <==> r.Done?)
              && (inside ==> Now() == r.state)
    {
      ghost var s := Now();
      ghost var grown := false;
      while true
        invariant Valid() && 0 < len <= SIZE && (grown ==> modified && !Balanced(s))
        invariant Now() == if grown then Grown(s, pcir) else s
        decreases if grown then 0 else 1
      {
        var curVal := data[len - 1];
        var newVal := Balance(data, 0, len - 1, len - 1);
        if curVal != newVal && !modified {
          Grow(pcir);
          grown := true;
          if len > SIZE { return false; }
        } else {
          if curVal != newVal {
            data[len - 1] := newVal;
            modified := true;
          }
          return true;
        }
      }
    }

    method Run() returns (inside: bool)
      requires Valid() && 0 < len <= SIZE
      modifies this, data
      ensures var s := Sized(old(Now()));
              if s.len > SIZE then !inside
              else
                var t := PmidFixed(s);
                if t.len > SIZE then !inside
                else
                  var u := PcirFixed(t);
                  if u.len > SIZE then !inside
                  else
                    var r := Finished(u, PcirFrom(t.d, t.len, 1));
                    Valid() && (inside <==> r.Done?) && (inside ==> Now() == r.state)
    {
      FixSize();
      if len > SIZE { return false; }
      FixPmid();
      if len > SIZE { return false; }
      var pcir := FixPcir();
      if len > SIZE { return false; }
      inside := Finish(pcir);
    }
  }

  predicate Judged(d: Memory, len: nat, p: nat, curVal: byte, newVal: byte) {
    && p + PMID_LEN < len <= SIZE
    && curVal == d[p + PMID_CHKSUM]
    && newVal == Needed(d, p, PMID_LEN, PMID_CHKSUM)
  }

  predicate Scanned(d: Memory, len: nat, ps: seq<nat>, hits: nat, offset: nat) {
    && hits <= |ps| && PmidsFrom(d, len, offset + 1) == ps[hits..]
    && (hits > 0 ==> offset == ps[hits - 1])
  }

  lemma NextScanned(d: Memory, len: nat, ps: seq<nat>, hits: nat, offset: nat, next: nat)
    requires Scanned(d, len, ps, hits, offset)
    requires PmidsFrom(d, len, offset + 1) == [next] + PmidsFrom(d, len, next + 1)
    ensures hits < |ps| && Scanned(d, len, ps, hits + 1, next) && next + PMID_LEN < len
  {
    assert ps[hits..][0] == next && ps[hits..][1..] == ps[hits + 1..];
  }

  /** The whole program on the bytes read from a file. */
  method Patch(data: array<byte>, size: nat) returns (outcome: Outcome)
    requires data.Length == SIZE && size <= SIZE
    modifies data
    ensures outcome == Result(old(data[..]), size)
    ensures outcome.Done? ==> data[..] == outcome.state.d
  {
    var patcher := new Patcher(data, size);
    var inside := patcher.Run();
    if inside {
      outcome := Done(State(data[..], patcher.len, patcher.modified));
    } else {
      outcome := Outside;
    }
  }

  // ------------------------------------------------------------------ what every run does

  predicate EntriesRight(d: Memory, len: nat) {
    var ps, pcir := PmidsFrom(d, len, 1), PcirFrom(d, len, 1);
    && (|ps| == 1 ==> ps[0] + PMID_LEN <= SIZE && Sum(d, ps[0], PMID_LEN) % 0x100 == 0)
    && (pcir.Some? ==> pcir.value + 16 < SIZE && d[pcir.value + 16] == d[2])
  }

  /** Nothing is to be done: all sizes and sums are right as the image stands. */
  predicate Tidy(d: Memory, size: nat)
    requires size <= SIZE
  {
    && size >= 0x8000 && size % BLOCK == 0
    && d[2] == Blocks(size)
    && EntriesRight(d, size)
    && Sum(d, 0, size) % 0x100 == 0
  }

  /** Where the entries are found. The PMID entries are looked for once byte 2 is right. */
  function Pmids(d: Memory, size: nat): seq<nat>
    requires size <= SIZE
  {
    var s := Sized(Start(d, size));
    PmidsFrom(s.d, s.len, 1)
  }

  function Pcir(d: Memory, size: nat): Option<nat>
    requires size <= SIZE
  {
    PcirFrom(BeforePcir(d, size).d, BeforePcir(d, size).len, 1)
  }

  /** The length the image must have in the end: a whole number of blocks, and one more than it was
      when something changed that no padding had made room for. */
  function FinalLength(d: Memory, size: nat): nat
    requires size <= SIZE
  {
    if Rounded(size) == size && !Tidy(d, size) then size + BLOCK else Rounded(size)
  }

  lemma BlocksFollow(len: nat)
    ensures Next(Blocks(len)) == Blocks(len + BLOCK)
  {
    assert (len + BLOCK) / BLOCK == len / BLOCK + 1;
  }

  /** What holds between any two steps. */
  predicate Steady(d: Memory, size: nat, s: State) {
    && size <= SIZE
    && s.d[2] == Blocks(s.len)
    && (!s.modified ==> s.d == d && s.len == size == Rounded(size))
    && (s.modified ==> !Tidy(d, size) && s.len == FinalLength(d, size))
  }

  lemma GrownSteady(d: Memory, size: nat, s: State, t: State, pcir: Option<nat>)
    requires Steady(d, size, s) && t.len == s.len && t.modified == s.modified && t.d[2] == s.d[2]
    requires !Tidy(d, size)
    requires pcir.Some? ==> 1 <= pcir.value && pcir.value + PCIR_LEN < SIZE
    ensures Steady(d, size, Grown(t, pcir)) && Grown(t, pcir).modified
  {
    BlocksFollow(s.len);
  }

  lemma SizedSteady(d: Memory, size: nat)
    requires size <= SIZE
    ensures Steady(d, size, Sized(Start(d, size)))
  {
    var s := Start(d, size);
    assert Rounded(size) == size ==> size >= 0x8000 && size % BLOCK == 0;
    if size >= 0x8000 && size % BLOCK == 0 { assert !s.modified; }
  }

  lemma PmidSteady(d: Memory, size: nat, s: State)
    requires Steady(d, size, s) && s.len <= SIZE
    ensures Steady(d, size, PmidFixed(s))
    ensures !PmidFixed(s).modified ==>
      var ps := PmidsFrom(d, size, 1); |ps| == 1 ==> Sum(d, ps[0], PMID_LEN) % 0x100 == 0
  {
    var ps := PmidsFrom(s.d, s.len, 1);
    if |ps| == 1 {
      NeededBalances(s.d, ps[0], PMID_LEN, PMID_CHKSUM);
      if s.d[ps[0] + PMID_CHKSUM] != Needed(s.d, ps[0], PMID_LEN, PMID_CHKSUM) {
        GrownSteady(d, size, s, s.(d := s.d[ps[0] + PMID_CHKSUM := Needed(s.d, ps[0], PMID_LEN, PMID_CHKSUM)]), None);
      }
    }
  }

  lemma PcirSteady(d: Memory, size: nat, s: State)
    requires Steady(d, size, s) && s.len <= SIZE
    ensures var pcir, t := PcirFrom(s.d, s.len, 1), PcirFixed(s);
            && Steady(d, size, t)
            && (pcir.Some? ==> t.d[pcir.value + 16] == t.d[2])
            && (!t.modified ==> t == s)
  {
    var pcir := PcirFrom(s.d, s.len, 1);
    if pcir.Some? && s.d[pcir.value + 16] != s.d[2] {
      GrownSteady(d, size, s, s.(d := s.d[pcir.value + 16 := s.d[2]]), pcir);
    }
  }

  lemma FinishedSteady(d: Memory, size: nat, s: State, pcir: Option<nat>)
    requires Steady(d, size, s) && 0 < s.len <= SIZE
    requires pcir.Some? ==> 1 <= pcir.value && pcir.value + PCIR_LEN < s.len
    requires !s.modified && Balanced(s) ==> Tidy(d, size)
    requires !s.modified && !Balanced(s) ==> !Tidy(d, size)
    requires pcir.Some? ==> s.d[pcir.value + 16] == s.d[2]
    ensures match Finished(s, pcir)
            case Outside => !Tidy(d, size) && FinalLength(d, size) > SIZE
            case Done(r) =>
              && 0 < r.len <= SIZE && Steady(d, size, r) && (!r.modified ==> Tidy(d, size))
              && Balanced(r) && (pcir.Some? ==> r.d[pcir.value + 16] == r.d[2])
  {
    if !Balanced(s) {
      GrownSteady(d, size, s, s, pcir);
      var g := Grown(s, pcir);
      if g.len <= SIZE { SealedBalanced(g); }
    }
  }

  lemma SealedBalanced(s: State)
    requires 0 < s.len <= SIZE
    ensures Balanced(Sealed(s))
  {
    if !Balanced(s) {
      SumSame(s.d, Sealed(s).d, 0, s.len - 1, s.len - 1);
    }
  }

  lemma BalancedSum(s: State)
    requires 0 < s.len <= SIZE
    ensures Balanced(s) <==> Sum(s.d, 0, s.len) % 0x100 == 0
  {
    NeededBalances(s.d, 0, s.len, s.len - 1);
    assert SumSkip(s.d, 0, s.len, s.len - 1) == SumSkip(s.d, 0, s.len - 1, s.len - 1);
  }

  /** Every run of the program. It leaves the array exactly when an image that fills it needs a change;
      otherwise the image left sums to zero, byte 2 and the PCI data structure give its length, the
      length is the one expected, and an image that was right is left alone and not rewritten. */
  lemma EveryRun(d: Memory, size: nat)
    requires size <= SIZE
    ensures match Result(d, size)
            case Outside => size == SIZE && !Tidy(d, size)
            case Done(r) =>
              && !(size == SIZE && !Tidy(d, size))
              && r.len == FinalLength(d, size) <= SIZE
              && Sum(r.d, 0, r.len) % 0x100 == 0
              && r.d[2] == Blocks(r.len)
              && (r.modified <==> !Tidy(d, size))
              && (Tidy(d, size) ==> r.d == d)
              && (var pcir := Pcir(d, size);
                  pcir.Some? ==> pcir.value + PCIR_LEN < SIZE && r.d[pcir.value + 16] == r.d[2])
  {
    FitsUnlessFull(d, size);
    SizedSteady(d, size);
    var s0 := Sized(Start(d, size));
    if s0.len <= SIZE {
      PmidSteady(d, size, s0);
      if PmidFixed(s0).len <= SIZE { EndSteady(d, size, PmidFixed(s0)); }
    }
  }

  /** The second half of a run, from the search for the PCI data structure on. */
  function EndFrom(s: State): Outcome
    requires 0 < s.len <= SIZE
  {
    var t := PcirFixed(s);
    if t.len > SIZE then Outside else Finished(t, PcirFrom(s.d, s.len, 1))
  }

  lemma EndSteady(d: Memory, size: nat, s: State)
    requires Steady(d, size, s) && 0 < s.len <= SIZE
    requires !s.modified ==> var ps := PmidsFrom(d, size, 1); |ps| == 1 ==> Sum(d, ps[0], PMID_LEN) % 0x100 == 0
    ensures match EndFrom(s)
            case Outside => !Tidy(d, size) && FinalLength(d, size) > SIZE
            case Done(r) =>
              && 0 < r.len <= SIZE && Steady(d, size, r) && (!r.modified ==> Tidy(d, size))
              && Sum(r.d, 0, r.len) % 0x100 == 0
              && var pcir := PcirFrom(s.d, s.len, 1); pcir.Some? ==> r.d[pcir.value + 16] == r.d[2]
  {
    PcirSteady(d, size, s);
    var t, pcir := PcirFixed(s), PcirFrom(s.d, s.len, 1);
    if t.len <= SIZE {
      BalancedSum(t);
      FinishedSteady(d, size, t, pcir);
      var r := Finished(t, pcir);
      if r.Done? { BalancedSum(r.state); }
    }
  }

  lemma FitsUnlessFull(d: Memory, size: nat)
    requires size <= SIZE
    ensures FinalLength(d, size) > SIZE <==> size == SIZE && !Tidy(d, size)
  {
  }

  predicate MayChange(d: Memory, size: nat, i: nat)
    requires size <= SIZE
  {
    || i == 2 || i == FinalLength(d, size) - 1
    || (|Pmids(d, size)| == 1 && i == Pmids(d, size)[0] + PMID_CHKSUM)
    || (Pcir(d, size).Some? && i == Pcir(d, size).value + 16)
  }

  predicate SameBut(d: Memory, e: Memory, places: set<nat>) {
    forall i :: 0 <= i < SIZE && i !in places ==> e[i] == d[i]
  }

  /** The byte that gives the length in the PCI data structure. */
  function PcirPlace(pcir: Option<nat>): set<nat> {
    if pcir.Some? then {pcir.value + 16} else {}
  }

  function PmidPlace(ps: seq<nat>): set<nat> {
    if |ps| == 1 then {ps[0] + PMID_CHKSUM} else {}
  }

  lemma PmidFixedPlaces(s: State)
    requires s.len <= SIZE
    ensures SameBut(s.d, PmidFixed(s).d, {2} + PmidPlace(PmidsFrom(s.d, s.len, 1)))
  {
  }

  lemma PcirFixedPlaces(s: State)
    requires s.len <= SIZE
    ensures SameBut(s.d, PcirFixed(s).d, {2} + PcirPlace(PcirFrom(s.d, s.len, 1)))
  {
  }

  lemma FinishedPlaces(s: State, pcir: Option<nat>)
    requires 0 < s.len <= SIZE && (pcir.Some? ==> pcir.value + PCIR_LEN < SIZE) && Finished(s, pcir).Done?
    ensures var r := Finished(s, pcir).state;
            0 < r.len <= SIZE && SameBut(s.d, r.d, {2, r.len - 1} + PcirPlace(pcir))
  {
  }

  /** What the second half of a run leaves as it is. */
  lemma EndPlaces(d: Memory, size: nat)
    requires size <= SIZE && Result(d, size).Done?
    ensures var s, r := BeforePcir(d, size), Result(d, size).state;
            && s.len <= r.len <= SIZE && s == PmidFixed(Sized(Start(d, size))) && Sized(Start(d, size)).len <= SIZE
            && SameBut(s.d, r.d, {2, FinalLength(d, size) - 1} + PcirPlace(Pcir(d, size)))
  {
    EveryRun(d, size);
    var s := BeforePcir(d, size);
    PcirFixedPlaces(s);
    FinishedPlaces(PcirFixed(s), Pcir(d, size));
  }

  /** No other byte of the image changes, and none behind its end. */
  lemma OnlyTheseChange(d: Memory, size: nat)
    requires size <= SIZE && Result(d, size).Done?
    ensures var r := Result(d, size).state;
            forall i :: 0 <= i < SIZE && r.d[i] != d[i] ==> i < r.len && MayChange(d, size, i)
  {
    EveryRun(d, size);
    EndPlaces(d, size);
    var s := Sized(Start(d, size));
    PmidFixedPlaces(s);
    Places(d, s.d, BeforePcir(d, size).d, Result(d, size).state.d, {2} + PmidPlace(Pmids(d, size)),
           {2, FinalLength(d, size) - 1} + PcirPlace(Pcir(d, size)));
  }

  lemma Places(d: Memory, e: Memory, f: Memory, g: Memory, early: set<nat>, late: set<nat>)
    requires SameBut(d, e, {2}) && SameBut(e, f, early) && SameBut(f, g, late) && 2 in early
    ensures SameBut(d, g, early + late)
  {
  }

  /** Once the PMID entry has its checksum, it sums to zero. */
  lemma PmidFixedSum(s: State)
    requires s.len <= SIZE && |PmidsFrom(s.d, s.len, 1)| == 1 && PmidsFrom(s.d, s.len, 1)[0] > 2
    ensures var q, e := PmidsFrom(s.d, s.len, 1)[0], PmidFixed(s).d;
            && Sum(e, q, PMID_LEN) % 0x100 == 0
            && e[q + PMID_CHKSUM] == Needed(s.d, q, PMID_LEN, PMID_CHKSUM)
  {
    var q, e := PmidsFrom(s.d, s.len, 1)[0], PmidFixed(s).d;
    PmidFixedPlaces(s);
    SumSame(s.d, e, q, PMID_LEN, PMID_CHKSUM);
    NeededBalances(e, q, PMID_LEN, PMID_CHKSUM);
  }

  /** A single PMID entry, clear of byte 2 and of the PCI data structure's length, sums to zero. */
  lemma PmidSumsToZero(d: Memory, size: nat)
    requires size <= SIZE && Result(d, size).Done?
    requires |Pmids(d, size)| == 1
    requires var q := Pmids(d, size)[0];
             && 2 < q
             && (Pcir(d, size).Some? ==> !(q <= Pcir(d, size).value + 16 < q + PMID_LEN))
    ensures var q := Pmids(d, size)[0];
            q + PMID_LEN <= SIZE && Sum(Result(d, size).state.d, q, PMID_LEN) % 0x100 == 0
  {
    EveryRun(d, size);
    EndPlaces(d, size);
    PmidFixedSum(Sized(Start(d, size)));
    SumSame(BeforePcir(d, size).d, Result(d, size).state.d, Pmids(d, size)[0], PMID_LEN, PMID_LEN);
  }

  /** The program leaves its own result alone exactly when no entry is wrong in it. */
  lemma LeftAlone(d: Memory, size: nat)
    requires size <= SIZE && Result(d, size).Done?
    ensures
      var r := Result(d, size).state;
      r.len <= SIZE && (Result(r.d, r.len) == Done(r.(modified := false)) <==> EntriesRight(r.d, r.len))
  {
    EveryRun(d, size);
    var r := Result(d, size).state;
    RoundedFits(size);
    assert r.len >= 0x8000 && r.len % BLOCK == 0;
    EveryRun(r.d, r.len);
  }

  lemma RoundedFits(size: nat)
    ensures Rounded(size) >= 0x8000 && Rounded(size) % BLOCK == 0 && (Rounded(size) + BLOCK) % BLOCK == 0
  {
  }
}
