/** An image that the checksum patcher of the system BIOS (sw/sysbios/biossums.c) patches once and
    refuses the next time. */
module SystemBiosRefused {
  import opened Basics
  import opened ByteSums
  import opened SystemBiosSums

  /** A run succeeds on an image without headers of the first two kinds whose headers all pass. */
  lemma {:induction false} RunSucceeds(n: nat, d: Image)
    requires n <= 5 && Found(Pci32, d) == [] && Found(Mp, d) == [] && forall k :: AllPass(k, d, Found(k, d))
    ensures After(n, d).Some? && (n <= 2 ==> After(n, d) == Some(d))
  {
    if n > 0 {
      RunSucceeds(n - 1, d);
      var k, c := Order(n - 1), After(n - 1, d).value;
      OnlySumsChange(n - 1, d);
      PlacesFromSums(n - 1, d, c);
      FoundStays(k, d, c, 16);
      forall i | 0 <= i < |Found(k, c)| ensures ChecksPass(k, c, Found(k, c)[i]) {
        assert ChecksPass(k, d, Found(k, d)[i]);
        FoundAreHeaders(k, d, 16, i);
        LengthStays(k, d, c, Found(k, d)[i]);
      }
    }
  }

  /** Zeros but for a 16-byte PCMP table and a 16-byte $PnP header 32 bytes after it. */
  function ShortTable(): Image {
    seq(0x1_0000, i => if i == 0x100 || i == 0x103 || i == 0x121 || i == 0x123 then 0x50
                       else if i == 0x101 then 0x43 else if i == 0x102 then 0x4D
                       else if i == 0x120 then 0x24 else if i == 0x122 then 0x6E
                       else if i == 0x104 || i == 0x125 then 16 else 0)
  }

  lemma {:induction false} FoundOnly(k: Kind, d: Image, p: nat, only: Option<nat>)
    requires forall q: nat :: SignatureAt(k, d, q) ==> only == Some(q)
    requires only.Some? ==> SignatureAt(k, d, only.value) && only.value % 16 == 0 && only.value <= 0xFFF0
    requires p % 16 == 0
    ensures FoundFrom(k, d, p) == if only.Some? && p <= only.value then [only.value] else []
    decreases SIZE - p
  {
    if p <= 0xFFF0 { FoundOnly(k, d, p + 16, only); }
  }

  lemma TwoSignatures(k: Kind, q: nat)
    requires SignatureAt(k, ShortTable(), q)
    ensures (k == Pcmp && q == 0x100) || (k == Pnp && q == 0x120)
  {
    var d := ShortTable();
    assert d[q] == Signature(k)[0] && d[q + 1] == Signature(k)[1] && d[q + 2] == Signature(k)[2];
  }

  lemma HeadersOf(k: Kind)
    ensures var d := ShortTable();
            Found(k, d) == if k == Pcmp then [0x100] else if k == Pnp then [0x120] else []
  {
    var d := ShortTable();
    var only := if k == Pcmp then Some(0x100) else if k == Pnp then Some(0x120) else None;
    forall q: nat | SignatureAt(k, d, q) ensures only == Some(q) {
      TwoSignatures(k, q);
    }
    FoundOnly(k, d, 16, only);
  }

  lemma {:induction false} SumZeros(d: seq<byte>, at: nat, n: nat, more: nat, skip: nat)
    requires at + n + more <= |d| && forall i :: at + n <= i < at + n + more ==> d[i] == 0
    ensures SumSkip(d, at, n + more, skip) == SumSkip(d, at, n, skip)
  {
    if more > 0 { SumZeros(d, at, n, more - 1, skip); }
  }

  lemma PnpSum()
    ensures Wanted(Pnp, ShortTable(), 0x120) == Some(0xBE)
  {
    var d := ShortTable();
    assert SumSkip(d, 0x120, 1, 8) == 0x24;
    assert SumSkip(d, 0x120, 2, 8) == 0x74;
    assert SumSkip(d, 0x120, 3, 8) == 0xE2;
    assert SumSkip(d, 0x120, 4, 8) == 0x132;
    assert SumSkip(d, 0x120, 5, 8) == 0x132;
    assert SumSkip(d, 0x120, 6, 8) == 0x142;
    SumZeros(d, 0x120, 6, 10, 8);
  }

  lemma ShortTableApart()
    ensures var d := ShortTable(); Apart(d) && forall k :: AllPass(k, d, Found(k, d))
  {
    var d := ShortTable();
    forall k
      ensures Found(k, d) == (if k == Pcmp then [0x100] else if k == Pnp then [0x120] else [])
    {
      HeadersOf(k);
    }
    HeadersPass();
  }

  lemma HeadersPass()
    ensures var d := ShortTable();
            && HeaderLength(Pcmp, d, 0x100) == 16 && HeaderLength(Pnp, d, 0x120) == 16
            && ChecksPass(Pcmp, d, 0x100) && ChecksPass(Pnp, d, 0x120)
  {
  }

  /** The failing case of `SecondRun` occurs. */
  lemma SecondRunFails()
    ensures var d := ShortTable();
            Apart(d) && Result(d).Some? && !KeepsExtensions(d) && Result(Result(d).value) == None
  {
    var d := ShortTable();
    ShortTableApart();
    HeadersOf(Pci32);
    HeadersOf(Mp);
    HeadersOf(Pcmp);
    HeadersOf(Pnp);
    RunSucceeds(5, d);
    PnpSum();
    assert !KeepsExtension(d, 0x100);
    SecondRun(d);
  }
}
