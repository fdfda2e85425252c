/** What a second run of the checksum patcher of the VGA BIOS image (sw/vgabios/biossums.c) does to the
    result of the first. */
module VgaBiosAgain {
  import opened Basics
  import opened ByteSums
  import opened VgaBiosSums

  // ------------------------------------------------------------------ when nothing is left to do

  predicate MayBe(d: Memory, size: nat, i: nat, b: byte)
    requires size <= SIZE && i < SIZE
  {
    MayChange(d, size, i) || d[i] == b
  }

  /** The four bytes at p, of which one may be changed, could make up a name "P...". */
  predicate MayMatch(d: Memory, size: nat, p: nat, b1: byte, b2: byte, b3: byte)
    requires size <= SIZE
  {
    && p + 4 <= SIZE
    && (MayChange(d, size, p) || MayChange(d, size, p + 1) || MayChange(d, size, p + 2) || MayChange(d, size, p + 3))
    && MayBe(d, size, p, 0x50) && MayBe(d, size, p + 1, b1) && MayBe(d, size, p + 2, b2) && MayBe(d, size, p + 3, b3)
  }

  /** No name is where a byte may change. */
  predicate NamesClear(d: Memory, size: nat)
    requires size <= SIZE
  {
    forall p :: 0 <= p < SIZE ==>
      !MayMatch(d, size, p, 0x4D, 0x49, 0x44) && !MayMatch(d, size, p, 0x43, 0x49, 0x52)
  }

  /** Some time during a run: only bytes that may change have changed. */
  predicate During(d: Memory, size: nat, e: Memory)
    requires size <= SIZE
  {
    forall i :: 0 <= i < SIZE && e[i] != d[i] ==> MayChange(d, size, i)
  }

  lemma NamesStay(d: Memory, size: nat, e: Memory, p: nat)
    requires size <= SIZE && NamesClear(d, size) && During(d, size, e)
    ensures PmidAt(e, p) == PmidAt(d, p) && PcirAt(e, p) == PcirAt(d, p)
  {
    if p + 4 <= SIZE {
      NameStays(d, size, e, p, 0x4D, 0x49, 0x44);
      NameStays(d, size, e, p, 0x43, 0x49, 0x52);
    }
  }

  lemma NameStays(d: Memory, size: nat, e: Memory, p: nat, b1: byte, b2: byte, b3: byte)
    requires size <= SIZE && p + 4 <= SIZE && !MayMatch(d, size, p, b1, b2, b3)
    requires forall i :: 0 <= i < SIZE && e[i] != d[i] ==> MayChange(d, size, i)
    ensures (e[p] == 0x50 && e[p + 1] == b1 && e[p + 2] == b2 && e[p + 3] == b3)
       <==> (d[p] == 0x50 && d[p + 1] == b1 && d[p + 2] == b2 && d[p + 3] == b3)
  {
  }

  lemma {:induction false} PmidsStay(d: Memory, size: nat, e: Memory, len: nat, p: nat)
    requires size <= SIZE && NamesClear(d, size) && During(d, size, e)
    ensures PmidsFrom(e, len, p) == PmidsFrom(d, len, p)
    decreases len - p
  {
    if p + PMID_LEN < len {
      NamesStay(d, size, e, p);
      PmidsStay(d, size, e, len, p + 1);
    }
  }

  lemma {:induction false} PcirStays(d: Memory, size: nat, e: Memory, len: nat, p: nat)
    requires size <= SIZE && NamesClear(d, size) && During(d, size, e)
    ensures PcirFrom(e, len, p) == PcirFrom(d, len, p)
    decreases len - p
  {
    if p + PCIR_LEN < len {
      NamesStay(d, size, e, p);
      PcirStays(d, size, e, len, p + 1);
    }
  }

  /** In a longer image the entries found before are found again, before any others. */
  lemma {:induction false} PmidsGrow(d: Memory, len: nat, longer: nat, p: nat)
    requires len <= longer
    ensures PmidsFrom(d, len, p) <= PmidsFrom(d, longer, p)
    decreases len - p
  {
    if p + PMID_LEN < len {
      PmidsGrow(d, len, longer, p + 1);
    }
  }

  lemma {:induction false} PcirGrows(d: Memory, len: nat, longer: nat, p: nat)
    requires len <= longer && PcirFrom(d, len, p).Some?
    ensures PcirFrom(d, longer, p) == PcirFrom(d, len, p)
    decreases len - p
  {
    if !PcirAt(d, p) { PcirGrows(d, len, longer, p + 1); }
  }

  // ------------------------------------------------------------------ the entries of the result

  lemma Stages(d: Memory, size: nat)
    requires size <= SIZE && Result(d, size).Done?
    ensures var s := Sized(Start(d, size));
            && s.len <= SIZE && BeforePcir(d, size) == PmidFixed(s) && SameBut(d, s.d, {2})
            && s.len <= BeforePcir(d, size).len <= FinalLength(d, size) <= SIZE
            && Result(d, size).state.len == FinalLength(d, size)
  {
    EveryRun(d, size);
    EndPlaces(d, size);
  }

  /** Where the first run found them, in terms of the image as it is read. */
  lemma EntriesAtFirst(d: Memory, size: nat)
    requires size <= SIZE && NamesClear(d, size) && Result(d, size).Done?
    ensures Pmids(d, size) == PmidsFrom(d, Sized(Start(d, size)).len, 1)
    ensures Pcir(d, size) == PcirFrom(d, BeforePcir(d, size).len, 1)
  {
    var s, t := Sized(Start(d, size)), BeforePcir(d, size);
    Stages(d, size);
    assert During(d, size, s.d);
    PmidsStay(d, size, s.d, s.len, 1);
    PmidFixedPlaces(s);
    assert During(d, size, t.d);
    PcirStays(d, size, t.d, t.len, 1);
  }

  /** Where the second run finds them. */
  lemma EntriesAtEnd(d: Memory, size: nat)
    requires size <= SIZE && NamesClear(d, size) && Result(d, size).Done?
    ensures var r := Result(d, size).state;
            && PmidsFrom(r.d, r.len, 1) == PmidsFrom(d, FinalLength(d, size), 1)
            && PcirFrom(r.d, r.len, 1) == PcirFrom(d, FinalLength(d, size), 1)
  {
    var r := Result(d, size).state;
    Stages(d, size);
    OnlyTheseChange(d, size);
    assert During(d, size, r.d);
    PmidsStay(d, size, r.d, r.len, 1);
    PcirStays(d, size, r.d, r.len, 1);
  }

  /** What growing adds: entries behind those found first. */
  lemma EntriesAdded(d: Memory, size: nat)
    requires size <= SIZE && NamesClear(d, size) && Result(d, size).Done?
    ensures var len := FinalLength(d, size);
            && Pmids(d, size) <= PmidsFrom(d, len, 1)
            && (Pcir(d, size).Some? ==> PcirFrom(d, len, 1) == Pcir(d, size))
  {
    var len := FinalLength(d, size);
    Stages(d, size);
    EntriesAtFirst(d, size);
    PmidsGrow(d, Sized(Start(d, size)).len, len, 1);
    if Pcir(d, size).Some? { PcirGrows(d, BeforePcir(d, size).len, len, 1); }
  }

  // ------------------------------------------------------------------ the PCI data structure

  /** A checksum's place is not a length's, for a name would have to end in a P. */
  lemma NotChecksum(d: Memory, q: nat, p: nat)
    requires PmidAt(d, q) && PcirAt(d, p)
    ensures p + 16 != q + PMID_CHKSUM
  {
  }

  /** The length byte of a data structure that the first run did not find stays as it was read. */
  lemma LateLengthStays(d: Memory, size: nat, p: nat)
    requires size <= SIZE && NamesClear(d, size) && Result(d, size).Done? && Pcir(d, size).None?
    requires PcirFrom(d, FinalLength(d, size), 1) == Some(p)
    ensures p + 16 < SIZE && Result(d, size).state.d[p + 16] == d[p + 16]
  {
    Stages(d, size);
    OnlyTheseChange(d, size);
    EntriesAtFirst(d, size);
    if |Pmids(d, size)| == 1 { NotChecksum(d, Pmids(d, size)[0], p); }
  }

  /** The data structure of the result is right when the first run found it, or its length byte was
      read as it ought to be. */
  predicate PcirRight(d: Memory, size: nat)
    requires size <= SIZE
  {
    var pcir := PcirFrom(d, FinalLength(d, size), 1);
    pcir.Some? && Pcir(d, size).None? && pcir.value + 16 < SIZE ==>
      d[pcir.value + 16] == Blocks(FinalLength(d, size))
  }

  lemma PcirInResult(d: Memory, size: nat)
    requires size <= SIZE && NamesClear(d, size) && Result(d, size).Done?
    ensures var r, pcir := Result(d, size).state, PcirFrom(d, FinalLength(d, size), 1);
            pcir.Some? ==> pcir.value + 16 < SIZE && (r.d[pcir.value + 16] == r.d[2] <==> PcirRight(d, size))
  {
    EveryRun(d, size);
    EntriesAdded(d, size);
    var pcir := PcirFrom(d, FinalLength(d, size), 1);
    if pcir.Some? && Pcir(d, size).None? { LateLengthStays(d, size, pcir.value); }
  }

  // ------------------------------------------------------------------ the PMID entry

  /** A name found where nothing changes lies clear of byte 2. */
  lemma EntryAboveTwo(d: Memory, size: nat, q: nat)
    requires size <= SIZE && NamesClear(d, size) && 1 <= q && PmidAt(d, q)
    ensures 2 < q
  {
    assert q <= 2 ==> MayMatch(d, size, q, 0x4D, 0x49, 0x44);
  }

  /** The length byte that the first run sets lies in an entry at q. */
  predicate LengthIn(d: Memory, size: nat, q: nat)
    requires size <= SIZE
  {
    var pcir := Pcir(d, size);
    pcir.Some? && q <= pcir.value + 16 < q + PMID_LEN && pcir.value + 16 < SIZE
  }

  /** The image as it is read, but for that length. */
  function WithLength(d: Memory, size: nat): Memory
    requires size <= SIZE
  {
    var pcir := Pcir(d, size);
    if pcir.Some? && pcir.value + 16 < SIZE then d[pcir.value + 16 := Blocks(FinalLength(d, size))] else d
  }

  /** The single PMID entry of the result is right: when the first run found it, the length in it, if
      any, was read as it ought to be; otherwise it sums to zero with that length. */
  predicate PmidRight(d: Memory, size: nat)
    requires size <= SIZE
  {
    var ps := PmidsFrom(d, FinalLength(d, size), 1);
    |ps| == 1 && ps[0] + PMID_LEN <= SIZE ==>
      if Pmids(d, size) == ps
        then LengthIn(d, size, ps[0]) ==> d[Pcir(d, size).value + 16] == Blocks(FinalLength(d, size))
      else Sum(WithLength(d, size), ps[0], PMID_LEN) % 0x100 == 0
  }

  /** The entry has just been summed up, and the length byte of the PCI data structure not been touched. */
  lemma PmidSummed(d: Memory, size: nat)
    requires size <= SIZE && NamesClear(d, size) && Result(d, size).Done? && |Pmids(d, size)| == 1
    ensures var q, e := Pmids(d, size)[0], BeforePcir(d, size).d;
            && 2 < q && q + PMID_LEN <= SIZE && Sum(e, q, PMID_LEN) % 0x100 == 0
            && (LengthIn(d, size, q) ==> e[Pcir(d, size).value + 16] == d[Pcir(d, size).value + 16])
  {
    var q, s := Pmids(d, size)[0], Sized(Start(d, size));
    EntriesAtFirst(d, size);
    EntryAboveTwo(d, size, q);
    Stages(d, size);
    PmidFixedSum(s);
    PmidFixedPlaces(s);
    if Pcir(d, size).Some? { NotChecksum(d, q, Pcir(d, size).value); }
  }

  /** Of a sum only the length byte of the PCI data structure has changed. */
  lemma OneByteCounts(e: Memory, r: Memory, q: nat, pcir: Option<nat>)
    requires q + PMID_LEN <= SIZE && Sum(e, q, PMID_LEN) % 0x100 == 0
    requires forall i :: q <= i < q + PMID_LEN && i !in PcirPlace(pcir) ==> r[i] == e[i]
    ensures Sum(r, q, PMID_LEN) % 0x100 == 0
       <==> (pcir.Some? && q <= pcir.value + 16 < q + PMID_LEN ==> r[pcir.value + 16] == e[pcir.value + 16])
  {
    if pcir.Some? && q <= pcir.value + 16 < q + PMID_LEN {
      var k := pcir.value + 16 - q;
      NeededBalances(e, q, PMID_LEN, k);
      NeededBalances(r, q, PMID_LEN, k);
      SumSame(e, r, q, PMID_LEN, k);
    } else {
      SumSame(e, r, q, PMID_LEN, PMID_LEN);
    }
  }

  /** An entry that the first run found. */
  lemma EarlyPmid(d: Memory, size: nat)
    requires size <= SIZE && NamesClear(d, size) && Result(d, size).Done? && |Pmids(d, size)| == 1
    ensures var r, q := Result(d, size).state, Pmids(d, size)[0];
            && q + PMID_LEN <= SIZE
            && (Sum(r.d, q, PMID_LEN) % 0x100 == 0
                <==> (LengthIn(d, size, q) ==> d[Pcir(d, size).value + 16] == Blocks(FinalLength(d, size))))
  {
    Stages(d, size);
    PmidSummed(d, size);
    EveryRun(d, size);
    EndPlaces(d, size);
    OneByteCounts(BeforePcir(d, size).d, Result(d, size).state.d, Pmids(d, size)[0], Pcir(d, size));
  }

  /** The result within an entry that the first run did not find. */
  lemma LatePmid(d: Memory, size: nat)
    requires size <= SIZE && NamesClear(d, size) && Result(d, size).Done? && Pmids(d, size) == []
    requires |PmidsFrom(d, FinalLength(d, size), 1)| == 1
    ensures var r, q := Result(d, size).state, PmidsFrom(d, FinalLength(d, size), 1)[0];
            q + PMID_LEN <= SIZE && Sum(r.d, q, PMID_LEN) == Sum(WithLength(d, size), q, PMID_LEN)
  {
    var r, q := Result(d, size).state, PmidsFrom(d, FinalLength(d, size), 1)[0];
    Stages(d, size);
    EntryAboveTwo(d, size, q);
    EveryRun(d, size);
    OnlyTheseChange(d, size);
    SumSame(r.d, WithLength(d, size), q, PMID_LEN, PMID_LEN);
  }

  lemma PmidInResult(d: Memory, size: nat)
    requires size <= SIZE && NamesClear(d, size) && Result(d, size).Done?
    requires |PmidsFrom(d, FinalLength(d, size), 1)| == 1
    ensures var r, q := Result(d, size).state, PmidsFrom(d, FinalLength(d, size), 1)[0];
            q + PMID_LEN <= SIZE && (Sum(r.d, q, PMID_LEN) % 0x100 == 0 <==> PmidRight(d, size))
  {
    var ps := PmidsFrom(d, FinalLength(d, size), 1);
    EntriesAdded(d, size);
    if Pmids(d, size) == ps {
      EarlyPmid(d, size);
    } else {
      assert Pmids(d, size) == [];
      LatePmid(d, size);
    }
  }

  /** A second run changes nothing exactly when two things hold of the image as it is read. A PCI data
      structure that comes up only in the longer image has the right length in it. And the single PMID
      entry of the longer image, when the first run found it, is clear of the PCI data structure's
      length or that length was right; when it comes up only now, it sums to zero. */
  lemma RunAgain(d: Memory, size: nat)
    requires size <= SIZE && NamesClear(d, size) && Result(d, size).Done?
    ensures var r := Result(d, size).state;
            && r.len <= SIZE
            && (Result(r.d, r.len) == Done(r.(modified := false)) <==> PcirRight(d, size) && PmidRight(d, size))
  {
    LeftAlone(d, size);
    EntriesAtEnd(d, size);
    Stages(d, size);
    PcirInResult(d, size);
    if |PmidsFrom(d, FinalLength(d, size), 1)| == 1 { PmidInResult(d, size); }
  }

  // ------------------------------------------------------------------ an image patched twice

  /** A PCI data structure that ends exactly where the image does, so that it is only found once the
      image has grown; byte 2 is right, the sum is not. */
  function LateEntry(): Memory {
    seq(0x1_0000, i => if i == 2 then 0x40
                       else if i == 0x7FE8 then 0x50 else if i == 0x7FE9 then 0x43
                       else if i == 0x7FEA then 0x49 else if i == 0x7FEB then 0x52 else 0)
  }

  lemma {:induction false} NoPmids(d: Memory, len: nat, p: nat)
    requires forall q :: p <= q < SIZE ==> !PmidAt(d, q)
    ensures PmidsFrom(d, len, p) == []
    decreases len - p
  {
    if p + PMID_LEN < len {
      NoPmids(d, len, p + 1);
    }
  }

  lemma {:induction false} SumZeros(d: seq<byte>, n: nat, more: nat, skip: nat)
    requires n + more <= |d| && forall i :: n <= i < n + more ==> d[i] == 0
    ensures SumSkip(d, 0, n + more, skip) == SumSkip(d, 0, n, skip)
  {
    if more > 0 { SumZeros(d, n, more - 1, skip); }
  }

  lemma LateEntrySum()
    ensures Sum(LateEntry(), 0, 0x8000) == 0x16E
  {
    var d := LateEntry();
    assert SumSkip(d, 0, 1, 0x8000) == 0;
    assert SumSkip(d, 0, 2, 0x8000) == 0;
    assert SumSkip(d, 0, 3, 0x8000) == 0x40;
    SumZeros(d, 3, 0x7FE5, 0x8000);
    assert SumSkip(d, 0, 0x7FE9, 0x8000) == 0x90;
    assert SumSkip(d, 0, 0x7FEA, 0x8000) == 0xD3;
    assert SumSkip(d, 0, 0x7FEB, 0x8000) == 0x11C;
    assert SumSkip(d, 0, 0x7FEC, 0x8000) == 0x16E;
    SumZeros(d, 0x7FEC, 0x14, 0x8000);
  }

  lemma LateEntryUnseen()
    ensures var d := LateEntry(); PmidsFrom(d, 0x8000, 1) == [] && PcirFrom(d, 0x8000, 1) == None
  {
    var d := LateEntry();
    NoPmids(d, 0x8000, 1);
    assert forall q :: 0 <= q && q + PCIR_LEN < 0x8000 ==> !PcirAt(d, q);
  }

  lemma LateEntryStart()
    ensures var d := LateEntry(); Sized(Start(d, 0x8000)) == Start(d, 0x8000) == State(d, 0x8000, false)
  {
  }

  lemma LateEntryRun()
    ensures var d := LateEntry();
            && Result(d, 0x8000).Done? && Result(d, 0x8000).state.len == 0x8200 == FinalLength(d, 0x8000)
  {
    var d := LateEntry();
    LateEntryUnseen();
    LateEntryStart();
    LateEntrySum();
    EveryRun(d, 0x8000);
  }

  lemma LateEntryPlaces()
    ensures var d := LateEntry();
            && Pmids(d, 0x8000) == [] && Pcir(d, 0x8000) == None
            && forall i :: MayChange(d, 0x8000, i) ==> i == 2 || i == 0x81FF
  {
    LateEntryUnseen();
    LateEntryStart();
    LateEntryRun();
  }

  /** Next to the bytes that change there are only zeros. */
  lemma LateEntryNames(p: nat, b1: byte, b2: byte, b3: byte)
    requires forall i :: MayChange(LateEntry(), 0x8000, i) ==> i == 2 || i == 0x81FF
    requires b1 != 0 && b2 != 0 && b3 != 0
    ensures !MayMatch(LateEntry(), 0x8000, p, b1, b2, b3)
  {
    var d := LateEntry();
    assert p == 0 || p == 1 ==> d[p] == 0;
    assert p == 2 ==> d[p + 1] == 0;
    assert 0x81FC <= p < 0x81FF ==> d[p] == 0;
    assert p == 0x81FF ==> d[p + 1] == 0;
  }

  lemma LateEntryClear()
    ensures NamesClear(LateEntry(), 0x8000)
  {
    LateEntryPlaces();
    forall p | 0 <= p < SIZE
      ensures !MayMatch(LateEntry(), 0x8000, p, 0x4D, 0x49, 0x44)
      ensures !MayMatch(LateEntry(), 0x8000, p, 0x43, 0x49, 0x52)
    {
      LateEntryNames(p, 0x4D, 0x49, 0x44);
      LateEntryNames(p, 0x43, 0x49, 0x52);
    }
  }

  lemma OnlyPcir(q: nat)
    requires PcirAt(LateEntry(), q)
    ensures q == 0x7FE8
  {
    assert LateEntry()[q] == 0x50;
  }

  lemma LateEntryFound()
    ensures PcirFrom(LateEntry(), 0x8200, 1) == Some(0x7FE8)
  {
    assert PcirAt(LateEntry(), 0x7FE8);
    var pcir := PcirFrom(LateEntry(), 0x8200, 1);
    if pcir.Some? { OnlyPcir(pcir.value); }
  }

  /** `RunAgain` applies to this image, and its first condition fails: a second run finds more to do, the
      length in a PCI data structure that the first run left wrong. */
  lemma SecondRunChanges()
    ensures var d := LateEntry();
            && Result(d, 0x8000).Done? && NamesClear(d, 0x8000) && !PcirRight(d, 0x8000)
            && var r := Result(d, 0x8000).state;
               r.len <= SIZE && Result(r.d, r.len) != Done(r.(modified := false))
  {
    LateEntryWrong();
    LateEntryClear();
    NotAgain(LateEntry(), 0x8000);
  }

  lemma LateEntryWrong()
    ensures Result(LateEntry(), 0x8000).Done? && !PcirRight(LateEntry(), 0x8000)
  {
    LateEntryRun();
    LateEntryPlaces();
    LateEntryFound();
    LateEntryByte();
    PcirWrong(LateEntry(), 0x8000, 0x8200, 0x7FE8);
  }

  lemma LateEntryByte()
    ensures LateEntry()[0x7FF8] != Blocks(0x8200)
  {
  }

  lemma PcirWrong(d: Memory, size: nat, len: nat, p: nat)
    requires size <= SIZE && len == FinalLength(d, size) && Pcir(d, size).None?
    requires PcirFrom(d, len, 1) == Some(p) && p + 16 < SIZE && d[p + 16] != Blocks(len)
    ensures !PcirRight(d, size)
  {
  }

  lemma NotAgain(d: Memory, size: nat)
    requires size <= SIZE && NamesClear(d, size) && Result(d, size).Done? && !PcirRight(d, size)
    ensures var r := Result(d, size).state; r.len <= SIZE && Result(r.d, r.len) != Done(r.(modified := false))
  {
    RunAgain(d, size);
  }
}
