/** What a run of the checksum patcher of the system BIOS image (sw/sysbios/biossums.c) does, said of the
    bytes of the image: names, lengths and checksums at their places in the five kinds of header. */
module SystemBiosLayout {
  import opened Basics
  import opened ByteSums
  import opened SystemBiosSums

  /** A name on a paragraph boundary, but not the first, where headers are looked for. */
  predicate HeaderAt(d: Image, name: string, p: nat) {
    p % 16 == 0 && 16 <= p <= 0xFFF0 && NameAt(d, name, p)
  }

  /** There is one such header and no other. */
  ghost predicate OnlyAt(d: Image, name: string, p: nat) {
    HeaderAt(d, name, p) && forall q: nat :: HeaderAt(d, name, q) ==> q == p
  }

  function Word16(d: Image, p: nat): nat
    requires p + 2 <= 0x1_0000
  {
    d[p] as nat + 0x100 * d[p + 1] as nat
  }

  // ------------------------------------------------------------------ names and what is found

  function Name(k: Kind): string {
    match k
    case Pci32 => "_32_"
    case Mp => "_MP_"
    case Pcmp => "PCMP"
    case Pir => "$PIR"
    case Pnp => "$PnP"
  }

  lemma NameIsSignature(k: Kind, d: Image, p: nat)
    ensures NameAt(d, Name(k), p) <==> SignatureAt(k, d, p)
  {
    var name, s := Name(k), Signature(k);
    assert forall j :: 0 <= j < 4 ==> name[j] as int == s[j] as int by {
      forall j | 0 <= j < 4 ensures name[j] as int == s[j] as int {
        assert j == 0 || j == 1 || j == 2 || j == 3;
      }
    }
    if SignatureAt(k, d, p) {
      forall j | 0 <= j < 4 ensures d[p + j] as int == name[j] as int {
        assert j == 0 || j == 1 || j == 2 || j == 3;
      }
    }
    if NameAt(d, name, p) {
      assert d[p + 0] as int == s[0] as int && d[p + 1] as int == s[1] as int;
      assert d[p + 2] as int == s[2] as int && d[p + 3] as int == s[3] as int;
    }
  }

  lemma {:induction false} AllAreFound(k: Kind, d: Image, p: nat, q: nat)
    requires p % 16 == 0 && q % 16 == 0 && p <= q <= 0xFFF0 && SignatureAt(k, d, q)
    ensures q in FoundFrom(k, d, p)
    decreases SIZE - p
  {
    if p < q { AllAreFound(k, d, p + 16, q); }
  }

  lemma {:induction false} FoundApart(k: Kind, d: Image, p: nat)
    requires p % 16 == 0 && p >= 16 && |FoundFrom(k, d, p)| > 1
    ensures FoundFrom(k, d, p)[0] < FoundFrom(k, d, p)[1]
    decreases SIZE - p
  {
    if SignatureAt(k, d, p) {
      FoundAreHeaders(k, d, p + 16, 0);
    } else {
      FoundApart(k, d, p + 16);
    }
  }

  /** What is found is what bears the name. */
  lemma FoundMeans(k: Kind, d: Image, p: nat)
    ensures HeaderAt(d, Name(k), p) <==> p in Found(k, d)
  {
    NameIsSignature(k, d, p);
    if HeaderAt(d, Name(k), p) { AllAreFound(k, d, 16, p); }
    if p in Found(k, d) {
      var i :| 0 <= i < |Found(k, d)| && Found(k, d)[i] == p;
      FoundAreHeaders(k, d, 16, i);
    }
  }

  lemma OnlyMeans(k: Kind, d: Image, p: nat)
    ensures OnlyAt(d, Name(k), p) <==> Found(k, d) == [p]
  {
    var ps := Found(k, d);
    forall q: nat ensures HeaderAt(d, Name(k), q) <==> q in ps { FoundMeans(k, d, q); }
    if |ps| > 1 {
      FoundApart(k, d, 16);
      assert ps[0] in ps && ps[1] in ps;
    } else if |ps| == 1 {
      assert ps[0] in ps;
    }
  }

  // ------------------------------------------------------------------ every successful run

  /** The byte at i is the checksum byte of the one header of its kind. */
  ghost predicate ChecksumOfOne(d: Image, i: nat) {
    || (i >= 10 && OnlyAt(d, "_32_", i - 10)) || (i >= 10 && OnlyAt(d, "_MP_", i - 10))
    || (i >= 7 && OnlyAt(d, "PCMP", i - 7)) || (i >= 31 && OnlyAt(d, "$PIR", i - 31))
    || (i >= 8 && OnlyAt(d, "$PnP", i - 8))
  }

  /** Only checksum bytes change, and the last byte of the image. */
  lemma ChangesByPlace(d: Image, i: nat)
    requires Result(d).Some? && i < 0xFFFF && Result(d).value[i] != d[i]
    ensures ChecksumOfOne(d, i)
  {
    RunChangesOnlySums(d);
    var k :| ChecksumByte(k, d) == Some(i);
    PlaceOfSum(k, d, i);
  }

  lemma PlaceOfSum(k: Kind, d: Image, i: nat)
    requires ChecksumByte(k, d) == Some(i)
    ensures ChecksumOfOne(d, i)
  {
    var p := Found(k, d)[0];
    OnlyMeans(k, d, p);
    assert i == p + ChecksumIndex(k) && OnlyAt(d, Name(k), p);
  }

  /** When no checksum byte lies in another header, in the result the one header of each kind sums to zero
      over the length that it gives. */
  lemma SumsByPlace(d: Image, p: nat)
    requires Apart(d) && Result(d).Some?
    ensures var e := Result(d).value;
            && (OnlyAt(d, "_32_", p) ==> ZeroSum(e, p, 16 * e[p + 9] as nat))
            && (OnlyAt(d, "_MP_", p) ==> ZeroSum(e, p, 16 * e[p + 8] as nat))
            && (OnlyAt(d, "PCMP", p) ==> ZeroSum(e, p, Word16(e, p + 4)))
            && (OnlyAt(d, "$PIR", p) ==> ZeroSum(e, p, Word16(e, p + 6)))
            && (OnlyAt(d, "$PnP", p) ==> ZeroSum(e, p, e[p + 5] as nat))
  {
    if OnlyAt(d, "_32_", p) { SumOfHeader(d, Pci32, p); }
    if OnlyAt(d, "_MP_", p) { SumOfHeader(d, Mp, p); }
    if OnlyAt(d, "PCMP", p) { SumOfHeader(d, Pcmp, p); }
    if OnlyAt(d, "$PIR", p) { SumOfHeader(d, Pir, p); }
    if OnlyAt(d, "$PnP", p) { SumOfHeader(d, Pnp, p); }
  }

  lemma SumOfHeader(d: Image, k: Kind, p: nat)
    requires Apart(d) && Result(d).Some? && OnlyAt(d, Name(k), p)
    ensures ZeroSum(Result(d).value, p, HeaderLength(k, Result(d).value, p))
  {
    OnlyMeans(k, d, p);
    HeadersSumToZero(d, k);
  }

  predicate ZeroSum(e: Image, p: nat, n: nat) {
    p + n <= 0x1_0000 && Sum(e, p, n) % 0x100 == 0
  }

  // ------------------------------------------------------------------ which runs succeed

  /** Every header of a name has room for `least` bytes, and for as many as it says. */
  ghost predicate KindFits(k: Kind, d: Image) {
    forall p: nat :: HeaderAt(d, Name(k), p) ==> p + MinHeader(k) <= 0xFFFF && p + HeaderLength(k, d, p) <= 0xFFFF
  }

  /** Every table ends in three zero bytes: there are no extensions. */
  ghost predicate TablesEnd(c: Image) {
    forall p: nat :: HeaderAt(c, "PCMP", p) && p + 42 <= 0xFFFF ==> c[p + 40] == 0 && c[p + 41] == 0 && c[p + 42] == 0
  }

  lemma MoreSums(n: nat, d: Image, e: Image)
    requires n <= 5 && DiffersInSums(n, d, e)
    ensures DiffersInSums(5, d, e)
  {
  }

  /** One header passes its checks. */
  lemma HeaderPasses(k: Kind, d: Image, c: Image, p: nat)
    requires DiffersInSums(5, d, c) && HeaderAt(d, Name(k), p)
    ensures ChecksPass(k, c, p) <==>
      && p + MinHeader(k) <= 0xFFFF && p + HeaderLength(k, d, p) <= 0xFFFF
      && (k == Pcmp ==> c[p + 40] == 0 && c[p + 41] == 0 && c[p + 42] == 0)
  {
    NameIsSignature(k, d, p);
    LengthStays(k, d, c, p);
  }

  lemma PassSucceeds(n: nat, d: Image)
    requires n < 5 && After(n, d).Some?
    ensures var k, c := Order(n), After(n, d).value;
            AllPass(k, c, Found(k, c)) <==> KindFits(k, d) && (k == Pcmp ==> TablesEnd(c))
  {
    var k, c := Order(n), After(n, d).value;
    OnlySumsChange(n, d);
    MoreSums(n, d, c);
    PlacesFromSums(n, d, c);
    FoundStays(k, d, c, 16);
    HeadersPass(k, d, c);
    AllOfThem(k, c, Found(k, c));
  }

  lemma HeadersPass(k: Kind, d: Image, c: Image)
    requires DiffersInSums(5, d, c) && Found(k, c) == Found(k, d)
    ensures (forall p: nat :: p in Found(k, c) ==> ChecksPass(k, c, p))
       <==> KindFits(k, d) && (k == Pcmp ==> TablesEnd(c))
  {
    forall p: nat
      ensures HeaderAt(d, Name(k), p) == (p in Found(k, c)) && HeaderAt(c, Name(k), p) == (p in Found(k, c))
    {
      FoundMeans(k, d, p);
      FoundMeans(k, c, p);
    }
    forall p: nat | HeaderAt(d, Name(k), p)
      ensures ChecksPass(k, c, p) <==>
        && p + MinHeader(k) <= 0xFFFF && p + HeaderLength(k, d, p) <= 0xFFFF
        && (k == Pcmp ==> c[p + 40] == 0 && c[p + 41] == 0 && c[p + 42] == 0)
    {
      HeaderPasses(k, d, c, p);
    }
    assert Name(Pcmp) == "PCMP";
    if forall p: nat :: p in Found(k, c) ==> ChecksPass(k, c, p) {
      assert KindFits(k, d) && (k == Pcmp ==> TablesEnd(c));
    }
    if KindFits(k, d) && (k == Pcmp ==> TablesEnd(c)) {
      forall p: nat | p in Found(k, c) ensures ChecksPass(k, c, p) {
        assert HeaderAt(d, Name(k), p) && HeaderAt(c, Name(k), p);
      }
    }
  }

  lemma AllOfThem(k: Kind, c: Image, ps: seq<nat>)
    ensures AllPass(k, c, ps) <==> forall p: nat :: p in ps ==> ChecksPass(k, c, p)
  {
    if forall p: nat :: p in ps ==> ChecksPass(k, c, p) {
      forall i | 0 <= i < |ps| ensures ChecksPass(k, c, ps[i]) {
        assert ps[i] in ps;
      }
    }
  }

  lemma {:induction false} PassesSucceed(n: nat, d: Image)
    requires n <= 5
    ensures After(n, d).Some?
       <==> (forall i :: 0 <= i < n ==> KindFits(Order(i), d))
            && (n > 2 && After(2, d).Some? ==> TablesEnd(After(2, d).value))
  {
    if n > 0 {
      PassesSucceed(n - 1, d);
      if After(n - 1, d).Some? { PassSucceeds(n - 1, d); }
    }
  }

  /** Every header has room in the image for its fixed part and for the length that it gives. */
  ghost predicate Room(d: Image) {
    && (forall p: nat :: HeaderAt(d, "_32_", p) ==> p + 16 <= 0xFFFF && p + 16 * d[p + 9] as nat <= 0xFFFF)
    && (forall p: nat :: HeaderAt(d, "_MP_", p) ==> p + 16 <= 0xFFFF && p + 16 * d[p + 8] as nat <= 0xFFFF)
    && (forall p: nat :: HeaderAt(d, "PCMP", p) ==> p + 42 <= 0xFFFF && p + Word16(d, p + 4) <= 0xFFFF)
    && (forall p: nat :: HeaderAt(d, "$PIR", p) ==> p + 32 <= 0xFFFF && p + Word16(d, p + 6) <= 0xFFFF)
    && forall p: nat :: HeaderAt(d, "$PnP", p) ==> p + 32 <= 0xFFFF && p + d[p + 5] as nat <= 0xFFFF
  }

  lemma RoomMeans(d: Image)
    ensures Room(d) <==>
      KindFits(Pci32, d) && KindFits(Mp, d) && KindFits(Pcmp, d) && KindFits(Pir, d) && KindFits(Pnp, d)
  {
    assert Name(Pci32) == "_32_" && Name(Mp) == "_MP_" && Name(Pcmp) == "PCMP" && Name(Pir) == "$PIR";
    assert Name(Pnp) == "$PnP";
  }

  /** A run succeeds exactly when every header has room, whether it is the only one or not, and the tables
      end in zeros after the checksums of the first two kinds have been set. */
  lemma RunSucceeds(d: Image)
    ensures Result(d).Some? <==> Room(d) && After(2, d).Some? && TablesEnd(After(2, d).value)
  {
    PassesSucceed(2, d);
    PassesSucceed(5, d);
    RoomMeans(d);
    assert Order(0) == Pci32 && Order(1) == Mp && Order(2) == Pcmp && Order(3) == Pir && Order(4) == Pnp;
    if Result(d).Some? { EarlierPasses(2, 5, d); }
  }
}
