/** What a run of the checksum patcher of the VGA BIOS image (sw/vgabios/biossums.c) does, said of the bytes
    of the image: the length, the names, and the bytes at their places behind them. */
module VgaBiosLayout {
  import opened Basics
  import opened ByteSums
  import opened VgaBiosSums

  /** An entry of a name and a size lies in the image, but not at its beginning, and before its last byte. */
  predicate EntryAt(d: Memory, len: nat, name: string, size: nat, p: nat) {
    1 <= p && p + size < len && NameAt(d, name, p)
  }

  ghost predicate OnlyPmid(d: Memory, len: nat, p: nat) {
    EntryAt(d, len, "PMID", 20, p) && forall q: nat :: EntryAt(d, len, "PMID", 20, q) ==> q == p
  }

  ghost predicate FirstPcir(d: Memory, len: nat, p: nat) {
    EntryAt(d, len, "PCIR", 24, p) && forall q: nat :: EntryAt(d, len, "PCIR", 24, q) ==> q >= p
  }

  // ------------------------------------------------------------------ names and what is found

  lemma NameOfFour(d: Memory, name: string, p: nat)
    requires |name| == 4
    ensures NameAt(d, name, p) <==>
      p + 4 <= SIZE && d[p] as int == name[0] as int && d[p + 1] as int == name[1] as int
      && d[p + 2] as int == name[2] as int && d[p + 3] as int == name[3] as int
  {
    if NameAt(d, name, p) {
      assert d[p + 0] as int == name[0] as int && d[p + 1] as int == name[1] as int;
    } else if p + 4 <= SIZE {
      var j :| 0 <= j < 4 && d[p + j] as int != name[j] as int;
      assert j == 0 || j == 1 || j == 2 || j == 3;
    }
  }

  lemma PmidName(d: Memory, p: nat)
    ensures NameAt(d, "PMID", p) <==> PmidAt(d, p)
  {
    NameOfFour(d, "PMID", p);
  }

  lemma PcirName(d: Memory, p: nat)
    ensures NameAt(d, "PCIR", p) <==> PcirAt(d, p)
  {
    NameOfFour(d, "PCIR", p);
  }

  lemma {:induction false} PmidFound(d: Memory, len: nat, p: nat, q: nat)
    requires p <= q && q + 20 < len <= SIZE && PmidAt(d, q)
    ensures q in PmidsFrom(d, len, p)
    decreases len - p
  {
    if p < q { PmidFound(d, len, p + 1, q); }
  }

  lemma {:induction false} PmidsApart(d: Memory, len: nat, p: nat)
    requires |PmidsFrom(d, len, p)| > 1
    ensures PmidsFrom(d, len, p)[0] < PmidsFrom(d, len, p)[1]
    decreases len - p
  {
    if !PmidAt(d, p) { PmidsApart(d, len, p + 1); }
  }

  lemma OnlyPmidMeans(d: Memory, len: nat, p: nat)
    requires len <= SIZE
    ensures OnlyPmid(d, len, p) <==> PmidsFrom(d, len, 1) == [p]
  {
    var ps := PmidsFrom(d, len, 1);
    forall q: nat ensures EntryAt(d, len, "PMID", 20, q) <==> q in ps {
      PmidName(d, q);
      if EntryAt(d, len, "PMID", 20, q) { PmidFound(d, len, 1, q); }
    }
    if |ps| > 1 {
      PmidsApart(d, len, 1);
      assert ps[0] in ps && ps[1] in ps;
    } else if |ps| == 1 {
      assert ps[0] in ps;
    }
  }

  lemma FirstPcirMeans(d: Memory, len: nat, p: nat)
    requires len <= SIZE
    ensures FirstPcir(d, len, p) <==> PcirFrom(d, len, 1) == Some(p)
  {
    forall q: nat ensures EntryAt(d, len, "PCIR", 24, q) <==> 1 <= q && q + 24 < len && PcirAt(d, q) {
      PcirName(d, q);
    }
  }

  // ------------------------------------------------------------------ every run

  /** The image as the PMID entries are looked for: byte 2 has been set. */
  function Early(d: Memory, size: nat): State
    requires size <= SIZE
  {
    Sized(Start(d, size))
  }

  /** The length is a whole number of blocks of 512 bytes, at least 32 KB, byte 2 counts them, and the image
      sums to zero. An image that was not padded is at most one block longer than it was. */
  lemma ImageByPlace(d: Memory, size: nat)
    requires size <= SIZE && Result(d, size).Done?
    ensures var r := Result(d, size).state;
            && 0x8000 <= r.len <= 0x1_0000 && r.len % 0x200 == 0 && Sum(r.d, 0, r.len) % 0x100 == 0
            && r.d[2] as nat == r.len / 0x200 % 0x100
            && (if size < 0x8000 then r.len == 0x8000
                else if size % 0x200 != 0 then size < r.len < size + 0x200
                else r.len == size || r.len == size + 0x200)
  {
    EveryRun(d, size);
    RoundedFits(size);
  }

  /** The first PCI data structure has the length in its byte 16. */
  lemma PcirByPlace(d: Memory, size: nat, p: nat)
    requires size <= SIZE && Result(d, size).Done?
    requires BeforePcir(d, size).len <= SIZE && FirstPcir(BeforePcir(d, size).d, BeforePcir(d, size).len, p)
    ensures p + 16 < SIZE && Result(d, size).state.d[p + 16] == Result(d, size).state.d[2]
  {
    FirstPcirMeans(BeforePcir(d, size).d, BeforePcir(d, size).len, p);
    EveryRun(d, size);
  }

  /** The 20 bytes of the only PMID entry, clear of byte 2 and of that length, sum to zero. */
  lemma PmidByPlace(d: Memory, size: nat, q: nat)
    requires size <= SIZE && Result(d, size).Done? && q > 2
    requires Early(d, size).len <= SIZE && OnlyPmid(Early(d, size).d, Early(d, size).len, q)
    requires forall p: nat :: BeforePcir(d, size).len <= SIZE
                              && FirstPcir(BeforePcir(d, size).d, BeforePcir(d, size).len, p) ==>
                                !(q <= p + 16 < q + 20)
    ensures q + 20 <= SIZE && Sum(Result(d, size).state.d, q, 20) % 0x100 == 0
  {
    OnlyPmidMeans(Early(d, size).d, Early(d, size).len, q);
    EndPlaces(d, size);
    if Pcir(d, size).Some? {
      FirstPcirMeans(BeforePcir(d, size).d, BeforePcir(d, size).len, Pcir(d, size).value);
    }
    PmidSumsToZero(d, size);
  }

  /** Nothing changes but byte 2, the last byte, byte 19 of the only PMID entry and byte 16 of the first PCI
      data structure. */
  lemma ChangesByPlace(d: Memory, size: nat, i: nat)
    requires size <= SIZE && Result(d, size).Done? && i < SIZE && Result(d, size).state.d[i] != d[i]
    ensures Early(d, size).len <= SIZE && BeforePcir(d, size).len <= SIZE
    ensures || i == 2 || i == Result(d, size).state.len - 1
            || (i >= 19 && OnlyPmid(Early(d, size).d, Early(d, size).len, i - 19))
            || (i >= 16 && FirstPcir(BeforePcir(d, size).d, BeforePcir(d, size).len, i - 16))
  {
    OnlyTheseChange(d, size);
    EveryRun(d, size);
    EndPlaces(d, size);
    if i >= 19 { OnlyPmidMeans(Early(d, size).d, Early(d, size).len, i - 19); }
    if i >= 16 { FirstPcirMeans(BeforePcir(d, size).d, BeforePcir(d, size).len, i - 16); }
  }
}
