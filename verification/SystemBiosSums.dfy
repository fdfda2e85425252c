/** The checksum patcher of the system BIOS image (sw/sysbios/biossums.c): five kinds of header are
    searched for, the checksum byte of each uniquely found one is set, and last the image's own. */
module SystemBiosSums {
  import opened Basics
  import opened ByteSums

  const SIZE := 0x1_0000
  const MAX_OFFSET := 0xFFFF

  type Image = d: seq<byte> | |d| == 0x1_0000 witness seq(0x1_0000, _ => 0)

  datatype Kind = Pci32 | Mp | Pcmp | Pir | Pnp

  function Signature(k: Kind): (s: seq<byte>)
    ensures |s| == 4
  {
    match k
    case Pci32 => [0x5F, 0x33, 0x32, 0x5F]
    case Mp => [0x5F, 0x4D, 0x50, 0x5F]
    case Pcmp => [0x50, 0x43, 0x4D, 0x50]
    case Pir => [0x24, 0x50, 0x49, 0x52]
    case Pnp => [0x24, 0x50, 0x6E, 0x50]
  }

  /** Where in a header its checksum byte lies. */
  function ChecksumIndex(k: Kind): nat {
    match k
    case Pci32 => 10
    case Mp => 10
    case Pcmp => 7
    case Pir => 31
    case Pnp => 8
  }

  function MinHeader(k: Kind): nat {
    match k
    case Pci32 => 16
    case Mp => 16
    case Pcmp => 42
    case Pir => 32
    case Pnp => 32
  }

  /** The length field: a count of paragraphs, a word or a byte, at its own place for each kind. */
  function HeaderLength(k: Kind, d: Image, p: nat): nat
    requires p + 16 <= SIZE
  {
    match k
    case Pci32 => d[p + 9] as nat * 16
    case Mp => d[p + 8] as nat * 16
    case Pcmp => d[p + 4] as nat + 0x100 * d[p + 5] as nat
    case Pir => d[p + 6] as nat + 0x100 * d[p + 7] as nat
    case Pnp => d[p + 5] as nat
  }

  /** The checks that end the program when they fail. */
  predicate ChecksPass(k: Kind, d: Image, p: nat) {
    && p + MinHeader(k) <= MAX_OFFSET
    && p + HeaderLength(k, d, p) <= MAX_OFFSET
    && (k == Pcmp ==> d[p + 40] == 0 && d[p + 41] == 0 && d[p + 42] == 0)
  }

  // ------------------------------------------------------------------ searching

  predicate SignatureAt(k: Kind, d: Image, p: nat) {
    var s := Signature(k);
    p + 4 <= SIZE && d[p] == s[0] && d[p + 1] == s[1] && d[p + 2] == s[2] && d[p + 3] == s[3]
  }

  /** The positions where the search can find a header: paragraph boundaries, but never the first. */
  predicate Paragraph(p: nat) {
    p % 16 == 0 && 16 <= p <= 0xFFF0
  }

  /** The headers of a kind from paragraph p on. */
  function FoundFrom(k: Kind, d: Image, p: nat): (ps: seq<nat>)
    decreases SIZE - p
  {
    if p > 0xFFF0 then []
    else if SignatureAt(k, d, p) then [p] + FoundFrom(k, d, p + 16)
    else FoundFrom(k, d, p + 16)
  }

  function Found(k: Kind, d: Image): seq<nat> {
    FoundFrom(k, d, 16)
  }

  lemma {:induction false} FoundAreHeaders(k: Kind, d: Image, p: nat, i: nat)
    requires p % 16 == 0 && p >= 16 && i < |FoundFrom(k, d, p)|
    ensures var q := FoundFrom(k, d, p)[i]; Paragraph(q) && q >= p && SignatureAt(k, d, q)
    decreases SIZE - p
  {
    if SignatureAt(k, d, p) {
      if i > 0 { FoundAreHeaders(k, d, p + 16, i - 1); }
    } else {
      FoundAreHeaders(k, d, p + 16, i);
    }
  }

  /** The search routine: the next header after the given one, or after the start. */
  method GetOffset(k: Kind, data: array<byte>, offset: nat) returns (result: Option<nat>)
    requires data.Length == SIZE && offset % 16 == 0
    ensures var rest := FoundFrom(k, data[..], offset + 16);
            if result.None? then rest == []
            else result.value % 16 == 0 && rest == [result.value] + FoundFrom(k, data[..], result.value + 16)
  {
    var at := offset;
    ghost var d: Image := data[..];
    ghost var rest := FoundFrom(k, d, offset + 16);
    var s := Signature(k);
    while at + 16 < MAX_OFFSET
      invariant at % 16 == 0 && rest == FoundFrom(k, d, at + 16)
    {
      at := at + 16;
      if data[at] == s[0] && data[at + 1] == s[1] && data[at + 2] == s[2] && data[at + 3] == s[3] {
        assert SignatureAt(k, d, at);
        return Some(at);
      }
      assert !SignatureAt(k, d, at);
    }
    return None;
  }

  // ------------------------------------------------------------------ one pass

  predicate AllPass(k: Kind, d: Image, ps: seq<nat>) {
    forall i :: 0 <= i < |ps| ==> ChecksPass(k, d, ps[i])
  }

  /** The checksum byte a header should have. */
  function Proper(k: Kind, d: Image, p: nat): byte
    requires ChecksPass(k, d, p)
  {
    Needed(d, p, HeaderLength(k, d, p), ChecksumIndex(k))
  }

  /** What the pass over one kind makes of the image. */
  function Patched(k: Kind, d: Image): (e: Image)
    requires AllPass(k, d, Found(k, d))
  {
    var ps := Found(k, d);
    if |ps| == 1 then
      var p := ps[0];
      assert ChecksPass(k, d, p);
      d[p + ChecksumIndex(k) := Proper(k, d, p)]
    else d
  }

  method CalcValue(k: Kind, data: array<byte>, p: nat) returns (value: byte)
    requires data.Length == SIZE && ChecksPass(k, data[..], p)
    ensures value == Proper(k, data[..], p)
  {
    value := Balance(data, p, HeaderLength(k, data[..], p), ChecksumIndex(k));
  }

  /** The first `hits` headers have been found and checked, the last of them at `offset`. */
  predicate Scanned(k: Kind, d: Image, ps: seq<nat>, hits: nat, offset: nat) {
    && hits <= |ps| && offset % 16 == 0 && FoundFrom(k, d, offset + 16) == ps[hits..]
    && (hits > 0 ==> offset == ps[hits - 1])
    && forall i :: 0 <= i < hits ==> ChecksPass(k, d, ps[i])
  }

  lemma NextScanned(k: Kind, d: Image, ps: seq<nat>, hits: nat, offset: nat, next: nat)
    requires Scanned(k, d, ps, hits, offset) && next % 16 == 0
    requires FoundFrom(k, d, offset + 16) == [next] + FoundFrom(k, d, next + 16)
    ensures hits < |ps| && ps[hits] == next
    ensures ChecksPass(k, d, next) ==> Scanned(k, d, ps, hits + 1, next)
  {
    assert ps[hits..][0] == next && ps[hits..][1..] == ps[hits + 1..];
  }

  predicate Judged(k: Kind, d: Image, p: nat, curVal: byte, newVal: byte) {
    ChecksPass(k, d, p) && curVal == d[p + ChecksumIndex(k)] && newVal == Proper(k, d, p)
  }

  /** The search loop of a pass: checks every header and remembers the last one. */
  method Scan(k: Kind, data: array<byte>, ghost d: Image, ghost ps: seq<nat>)
    returns (ok: bool, hits: nat, offset: nat, curVal: byte, newVal: byte)
    requires data.Length == SIZE && data[..] == d && ps == Found(k, d)
    ensures ok <==> AllPass(k, d, ps)
    ensures ok ==> hits == |ps| && (hits > 0 ==> offset == ps[hits - 1] && Judged(k, d, offset, curVal, newVal))
  {
    hits, offset, curVal, newVal := 0, 0, 0, 0;
    while true
      invariant Scanned(k, d, ps, hits, offset)
      invariant hits > 0 ==> Judged(k, d, offset, curVal, newVal)
      decreases |ps| - hits
    {
      var next := GetOffset(k, data, offset);
      if next.None? { return true, hits, offset, curVal, newVal; }
      NextScanned(k, d, ps, hits, offset, next.value);
      offset := next.value;
      if !ChecksPass(k, data[..], offset) { return false, hits, offset, curVal, newVal; }
      curVal := data[offset + ChecksumIndex(k)];
      newVal := CalcValue(k, data, offset);
      hits := hits + 1;
    }
  }

  /** The pass over one kind: every header found is checked, and a single one gets its checksum. */
  method Pass(k: Kind, data: array<byte>) returns (ok: bool)
    requires data.Length == SIZE
    modifies data
    ensures var d := old(data[..]);
            && (ok <==> AllPass(k, d, Found(k, d)))
            && data[..] == (if ok then Patched(k, d) else d)
  {
    ghost var d: Image := data[..];
    var hits, offset, curVal, newVal;
    ok, hits, offset, curVal, newVal := Scan(k, data, d, Found(k, d));
    if ok && hits == 1 && curVal != newVal {
      data[offset + ChecksumIndex(k)] := newVal;
    }
  }

  // ------------------------------------------------------------------ the whole run

  /** The order in which the kinds are treated. */
  function Order(i: nat): Kind {
    match i
    case 0 => Pci32
    case 1 => Mp
    case 2 => Pcmp
    case 3 => Pir
    case _ => Pnp
  }

  function Rank(k: Kind): (i: nat)
    ensures i < 5 && Order(i) == k
  {
    match k
    case Pci32 => 0
    case Mp => 1
    case Pcmp => 2
    case Pir => 3
    case Pnp => 4
  }

  /** The image after the first n passes, unless a check has ended the program. */
  function After(n: nat, d: Image): Option<Image>
    requires n <= 5
  {
    if n == 0 then Some(d)
    else
      var k := Order(n - 1);
      match After(n - 1, d)
      case None => None
      case Some(e) => if AllPass(k, e, Found(k, e)) then Some(Patched(k, e)) else None
  }

  /** Last of all the image's own checksum, in its last byte. */
  function Sealed(d: Image): (e: Image) {
    d[MAX_OFFSET := Needed(d, 0, MAX_OFFSET, MAX_OFFSET)]
  }

  /** What a run leaves in the file; None when a check ended the program before anything was written. */
  function Result(d: Image): Option<Image> {
    match After(5, d)
    case None => None
    case Some(e) => Some(Sealed(e))
  }

  method Run(data: array<byte>) returns (ok: bool)
    requires data.Length == SIZE
    modifies data
    ensures var r := Result(old(data[..]));
            && (ok <==> r.Some?)
            && (ok ==> data[..] == r.value)
  {
    ghost var d: Image := data[..];
    for i := 0 to 5
      invariant After(i, d) == Some(data[..])
    {
      var fine := Pass(Order(i), data);
      if !fine {
        assert After(i + 1, d) == None;
        AfterStops(i + 1, d);
        return false;
      }
    }
    var value := Balance(data, 0, MAX_OFFSET, MAX_OFFSET);
    if data[MAX_OFFSET] != value {
      data[MAX_OFFSET] := value;
    }
    ok := true;
  }

  lemma {:induction false} AfterStops(n: nat, d: Image)
    requires n <= 5 && After(n, d).None?
    ensures After(5, d).None?
    decreases 5 - n
  {
    if n < 5 { AfterStops(n + 1, d); }
  }

  // ------------------------------------------------------------------ what every run does

  /** The only byte the pass over a kind may change. */
  function ChecksumByte(k: Kind, d: Image): Option<nat> {
    var ps := Found(k, d);
    if |ps| == 1 then Some(ps[0] + ChecksumIndex(k)) else None
  }

  /** Every byte in which the images differ, bar the last, is the checksum byte of one of the first n kinds. */
  predicate DiffersInSums(n: nat, d: Image, e: Image) {
    forall i :: 0 <= i < MAX_OFFSET && e[i] != d[i] ==> exists k :: Rank(k) < n && ChecksumByte(k, d) == Some(i)
  }

  /** Where checksum bytes can lie within a paragraph; signatures take up numbers 0 to 3. */
  predicate SumPlace(i: nat) {
    i % 16 == 7 || i % 16 == 8 || i % 16 == 10 || i % 16 == 15
  }

  predicate DiffersInPlaces(d: Image, e: Image) {
    forall i :: 0 <= i < SIZE && e[i] != d[i] ==> SumPlace(i)
  }

  lemma ChecksumBytePlace(k: Kind, d: Image)
    requires ChecksumByte(k, d).Some?
    ensures var p := Found(k, d)[0];
            Paragraph(p) && SignatureAt(k, d, p) && SumPlace(p + ChecksumIndex(k))
  {
    FoundAreHeaders(k, d, 16, 0);
  }

  lemma PlacesFromSums(n: nat, d: Image, e: Image)
    requires DiffersInSums(n, d, e)
    ensures DiffersInPlaces(d, e)
  {
    forall i | 0 <= i < MAX_OFFSET && e[i] != d[i] ensures SumPlace(i) {
      var k :| Rank(k) < n && ChecksumByte(k, d) == Some(i);
      ChecksumBytePlace(k, d);
    }
  }

  /** No checksum byte can make or break a signature on a paragraph boundary. */
  lemma {:induction false} FoundStays(k: Kind, d: Image, e: Image, p: nat)
    requires DiffersInPlaces(d, e) && p % 16 == 0
    ensures FoundFrom(k, d, p) == FoundFrom(k, e, p)
    decreases SIZE - p
  {
    if p <= 0xFFF0 {
      assert !SumPlace(p) && !SumPlace(p + 1) && !SumPlace(p + 2) && !SumPlace(p + 3);
      assert SignatureAt(k, d, p) == SignatureAt(k, e, p);
      FoundStays(k, d, e, p + 16);
    }
  }

  lemma AllFoundStay(d: Image, e: Image)
    requires DiffersInPlaces(d, e)
    ensures forall k :: Found(k, e) == Found(k, d)
  {
    forall k ensures Found(k, e) == Found(k, d) {
      FoundStays(k, d, e, 16);
    }
  }

  /** The passes change nothing but checksum bytes of uniquely found headers. */
  lemma {:induction false} OnlySumsChange(n: nat, d: Image)
    requires n <= 5 && After(n, d).Some?
    ensures DiffersInSums(n, d, After(n, d).value)
  {
    if n > 0 {
      OnlySumsChange(n - 1, d);
      var k, c := Order(n - 1), After(n - 1, d).value;
      PlacesFromSums(n - 1, d, c);
      FoundStays(k, d, c, 16);
      assert Rank(k) == n - 1;
    }
  }

  lemma OneSignature(k: Kind, other: Kind, d: Image, p: nat)
    requires SignatureAt(k, d, p) && SignatureAt(other, d, p)
    ensures k == other
  {
    assert Signature(k)[1] == Signature(other)[1] && Signature(k)[2] == Signature(other)[2];
  }

  lemma SameParagraph(p: nat, j: nat, q: nat, c: nat)
    requires p % 16 == 0 && q % 16 == 0 && p + j == q + c && j < 10 && (c < 16 || c == 31)
    ensures p == q && j == c
  {
    assert (p + j) % 16 == j && (q + c) % 16 == c % 16;
  }

  /** Among the first ten bytes of a header only its own checksum byte may change: where two kinds put
      a checksum and a length at one place, they would need different signatures at one position. */
  lemma ByteStays(k: Kind, d: Image, e: Image, p: nat, j: nat)
    requires DiffersInSums(5, d, e) && Paragraph(p) && SignatureAt(k, d, p)
    requires j < 10 && j != ChecksumIndex(k)
    ensures e[p + j] == d[p + j]
  {
    if e[p + j] != d[p + j] {
      var other :| ChecksumByte(other, d) == Some(p + j);
      ChecksumBytePlace(other, d);
      SameParagraph(p, j, Found(other, d)[0], ChecksumIndex(other));
      OneSignature(k, other, d, p);
    }
  }

  lemma LengthStays(k: Kind, d: Image, e: Image, p: nat)
    requires DiffersInSums(5, d, e) && Paragraph(p) && SignatureAt(k, d, p)
    ensures HeaderLength(k, d, p) == HeaderLength(k, e, p)
  {
    match k {
      case Pci32 => ByteStays(k, d, e, p, 9);
      case Mp => ByteStays(k, d, e, p, 8);
      case Pcmp => ByteStays(k, d, e, p, 4); ByteStays(k, d, e, p, 5);
      case Pir => ByteStays(k, d, e, p, 6); ByteStays(k, d, e, p, 7);
      case Pnp => ByteStays(k, d, e, p, 5);
    }
  }

  /** After every successful run the whole image sums to zero. */
  lemma ImageSumsToZero(d: Image)
    requires Result(d).Some?
    ensures Sum(Result(d).value, 0, SIZE) % 0x100 == 0
  {
    var e := After(5, d).value;
    SumSame(e, Sealed(e), 0, MAX_OFFSET, MAX_OFFSET);
    assert SumSkip(Sealed(e), 0, SIZE, MAX_OFFSET) == SumSkip(Sealed(e), 0, MAX_OFFSET, MAX_OFFSET);
    NeededBalances(Sealed(e), 0, SIZE, MAX_OFFSET);
  }

  /** And it differs from the image read in at most its last byte and the checksum bytes of uniquely
      found headers; the same headers are found in it. */
  lemma RunChangesOnlySums(d: Image)
    requires Result(d).Some?
    ensures var e := Result(d).value;
            && DiffersInSums(5, d, e)
            && forall k :: Found(k, e) == Found(k, d)
  {
    OnlySumsChange(5, d);
    var c := After(5, d).value;
    PlacesFromSums(5, d, c);
    assert SumPlace(MAX_OFFSET);
    AllFoundStay(d, Sealed(c));
  }

  /** Nor do the lengths of the headers found change, whether unique or not. */
  lemma RunKeepsLengths(d: Image, k: Kind, p: nat)
    requires Result(d).Some? && Paragraph(p) && SignatureAt(k, d, p)
    ensures HeaderLength(k, Result(d).value, p) == HeaderLength(k, d, p)
  {
    OnlySumsChange(5, d);
    LengthStays(k, d, After(5, d).value, p);
  }

  // ------------------------------------------------------------------ headers that lie apart

  /** No checksum byte lies in another header, and each header is longer than its checksum's place. */
  predicate Apart(d: Image) {
    && (forall k :: ChecksumByte(k, d).Some? && Found(k, d)[0] + 16 <= SIZE ==>
          ChecksumIndex(k) < HeaderLength(k, d, Found(k, d)[0]))
    && (forall k, other :: k != other && ChecksumByte(k, d).Some? && ChecksumByte(other, d).Some? ==>
          Outside(k, d, Found(k, d)[0], ChecksumByte(other, d).value))
  }

  predicate Outside(k: Kind, d: Image, p: nat, i: nat) {
    p + 16 <= SIZE ==> i < p || p + HeaderLength(k, d, p) <= i
  }

  /** The checksum that a header asks for, if it lies in the image. */
  function Wanted(k: Kind, d: Image, p: nat): Option<byte> {
    if p + 16 <= SIZE && p + HeaderLength(k, d, p) <= MAX_OFFSET
      then Some(Needed(d, p, HeaderLength(k, d, p), ChecksumIndex(k)))
    else None
  }

  predicate SumSet(k: Kind, d: Image, e: Image)
    requires ChecksumByte(k, d).Some?
  {
    var i := ChecksumByte(k, d).value;
    i < MAX_OFFSET && Wanted(k, d, Found(k, d)[0]) == Some(e[i])
  }

  /** The first n kinds have the checksums that the image read asks for. */
  predicate SumsSet(n: nat, d: Image, e: Image) {
    forall k :: Rank(k) < n && ChecksumByte(k, d).Some? ==> SumSet(k, d, e)
  }

  /** What a header asks for is not changed by the other headers' checksums. */
  lemma WantedStays(k: Kind, d: Image, e: Image)
    requires Apart(d) && DiffersInSums(5, d, e) && ChecksumByte(k, d).Some?
    ensures Wanted(k, e, Found(k, d)[0]) == Wanted(k, d, Found(k, d)[0])
  {
    ChecksumBytePlace(k, d);
    var p := Found(k, d)[0];
    LengthStays(k, d, e, p);
    var n, c := HeaderLength(k, d, p), ChecksumIndex(k);
    if p + n <= MAX_OFFSET {
      forall i | p <= i < p + n && i != p + c ensures d[i] == e[i] {
        assert d[i] != e[i] ==> exists other :: ChecksumByte(other, d) == Some(i);
      }
      SumSame(d, e, p, n, c);
    }
  }

  lemma ChecksumBytesApart(k: Kind, other: Kind, d: Image)
    requires Apart(d) && k != other && ChecksumByte(k, d).Some? && ChecksumByte(other, d).Some?
    ensures ChecksumByte(k, d) != ChecksumByte(other, d)
  {
    ChecksumBytePlace(k, d);
    var p := Found(k, d)[0];
    assert ChecksumIndex(k) < HeaderLength(k, d, p);
  }

  lemma {:induction false} SumsGetSet(n: nat, d: Image)
    requires n <= 5 && Apart(d) && After(n, d).Some?
    ensures SumsSet(n, d, After(n, d).value)
  {
    if n > 0 {
      SumsGetSet(n - 1, d);
      OnlySumsChange(n - 1, d);
      var k, c, e := Order(n - 1), After(n - 1, d).value, After(n, d).value;
      PlacesFromSums(n - 1, d, c);
      FoundStays(k, d, c, 16);
      forall j | Rank(j) < n && ChecksumByte(j, d).Some? ensures SumSet(j, d, e) {
        if j == k {
          WantedStays(k, d, c);
        } else {
          assert Rank(j) < n - 1;
          if ChecksumByte(k, d).Some? { ChecksumBytesApart(j, k, d); }
        }
      }
    }
  }

  /** In the result every uniquely found header sums to zero. */
  lemma HeadersSumToZero(d: Image, k: Kind)
    requires Apart(d) && Result(d).Some? && ChecksumByte(k, d).Some?
    ensures var e, p := Result(d).value, Found(k, d)[0];
            && p + 16 <= SIZE && p + HeaderLength(k, e, p) <= SIZE
            && Sum(e, p, HeaderLength(k, e, p)) % 0x100 == 0
  {
    var e, p := Result(d).value, Found(k, d)[0];
    SumsGetSet(5, d);
    RunChangesOnlySums(d);
    WantedStays(k, d, e);
    assert SumSet(k, d, After(5, d).value);
    ChecksumBytePlace(k, d);
    RunKeepsLengths(d, k, p);
    NeededBalances(e, p, HeaderLength(k, e, p), ChecksumIndex(k));
  }

  // ------------------------------------------------------------------ a second run

  lemma {:induction false} EarlierPasses(n: nat, m: nat, d: Image)
    requires n <= m <= 5 && After(m, d).Some?
    ensures After(n, d).Some?
  {
    if n < m { EarlierPasses(n, m - 1, d); }
  }

  /** The bytes that must be zero in a table found by the third search. */
  predicate NotExtended(d: Image, p: nat) {
    p + 42 < SIZE ==> d[p + 40] == 0 && d[p + 41] == 0 && d[p + 42] == 0
  }

  /** No header's checksum is put at q, unless it is zero. */
  predicate KeepsZero(d: Image, q: nat) {
    forall k :: ChecksumByte(k, d) == Some(q) ==> Wanted(k, d, Found(k, d)[0]) == Some(0)
  }

  /** No $PnP header that needs a checksum begins 32 bytes after a PCMP table, where its checksum byte is
      one of those that must be zero. */
  predicate KeepsExtensions(d: Image) {
    forall i :: 0 <= i < |Found(Pcmp, d)| ==> KeepsExtension(d, Found(Pcmp, d)[i])
  }

  predicate KeepsExtension(d: Image, p: nat) {
    Found(Pnp, d) == [p + 32] ==> Wanted(Pnp, d, p + 32) == Some(0)
  }

  /** In a successful run every header found was checked, in its kind's pass. */
  lemma CheckedInPass(d: Image, k: Kind, i: nat)
    requires Result(d).Some? && i < |Found(k, d)|
    ensures var p, c := Found(k, d)[i], After(Rank(k), d);
            && c.Some? && DiffersInSums(Rank(k), d, c.value)
            && Paragraph(p) && SignatureAt(k, d, p) && ChecksPass(k, c.value, p)
  {
    var n := Rank(k);
    EarlierPasses(n + 1, 5, d);
    EarlierPasses(n, 5, d);
    var c := After(n, d).value;
    OnlySumsChange(n, d);
    PlacesFromSums(n, d, c);
    FoundStays(k, d, c, 16);
    assert AllPass(k, c, Found(k, d));
    FoundAreHeaders(k, d, 16, i);
  }

  /** The checks of the first run on one header, read off the result. */
  lemma ChecksAgain(d: Image, k: Kind, i: nat)
    requires Result(d).Some? && i < |Found(k, d)|
    ensures var e, p := Result(d).value, Found(k, d)[i];
            && Paragraph(p) && SignatureAt(k, d, p)
            && (ChecksPass(k, e, p) <==> (k == Pcmp ==> NotExtended(e, p)))
  {
    CheckedInPass(d, k, i);
    var p := Found(k, d)[i];
    LengthStays(k, d, After(Rank(k), d).value, p);
    RunKeepsLengths(d, k, p);
  }

  lemma ExtensionBefore(d: Image, i: nat, q: nat)
    requires Result(d).Some? && i < |Found(Pcmp, d)|
    requires Found(Pcmp, d)[i] + 40 <= q <= Found(Pcmp, d)[i] + 42
    ensures q < MAX_OFFSET && After(2, d).Some? && After(2, d).value[q] == 0
  {
    CheckedInPass(d, Pcmp, i);
    TableEnds(After(2, d).value, Found(Pcmp, d)[i], q);
  }

  lemma TableEnds(c: Image, p: nat, q: nat)
    requires ChecksPass(Pcmp, c, p) && Paragraph(p) && p + 40 <= q <= p + 42
    ensures q < MAX_OFFSET && c[q] == 0
  {
    assert q == p + 40 || q == p + 41 || q == p + 42;
  }

  lemma OnlyOneThere(k: Kind, d: Image, q: nat)
    requires Apart(d) && ChecksumByte(k, d) == Some(q)
    ensures KeepsZero(d, q) <==> Wanted(k, d, Found(k, d)[0]) == Some(0)
  {
    forall j | ChecksumByte(j, d) == Some(q) ensures j == k {
      if j != k { ChecksumBytesApart(j, k, d); }
    }
  }

  lemma ZeroAfter(d: Image, q: nat)
    requires Apart(d) && Result(d).Some? && q < MAX_OFFSET && After(2, d).Some? && After(2, d).value[q] == 0
    ensures Result(d).value[q] == 0 <==> KeepsZero(d, q)
  {
    if k :| ChecksumByte(k, d) == Some(q) {
      SumsGetSet(5, d);
      assert SumSet(k, d, After(5, d).value);
      OnlyOneThere(k, d, q);
    } else {
      OnlySumsChange(5, d);
      OnlySumsChange(2, d);
    }
  }

  /** Which of the zero bytes of a table the run leaves zero. */
  lemma ExtensionAfter(d: Image, i: nat, q: nat)
    requires Apart(d) && Result(d).Some? && i < |Found(Pcmp, d)|
    requires Found(Pcmp, d)[i] + 40 <= q <= Found(Pcmp, d)[i] + 42
    ensures q < MAX_OFFSET && (Result(d).value[q] == 0 <==> KeepsZero(d, q))
  {
    ExtensionBefore(d, i, q);
    ZeroAfter(d, q);
  }

  predicate StillZero(d: Image, e: Image) {
    forall i :: 0 <= i < |Found(Pcmp, d)| ==> NotExtended(e, Found(Pcmp, d)[i])
  }

  lemma NothingLeftIn(k: Kind, d: Image)
    requires Apart(d) && Result(d).Some? && (k == Pcmp ==> StillZero(d, Result(d).value))
    ensures var e := Result(d).value; AllPass(k, e, Found(k, e)) && Patched(k, e) == e
  {
    var e, ps := Result(d).value, Found(k, d);
    RunChangesOnlySums(d);
    forall i | 0 <= i < |ps| ensures ChecksPass(k, e, ps[i]) {
      ChecksAgain(d, k, i);
    }
    if ChecksumByte(k, d).Some? {
      SumsGetSet(5, d);
      assert SumSet(k, d, After(5, d).value);
      WantedStays(k, d, e);
    }
  }

  lemma OnePass(n: nat, e: Image)
    requires 0 < n <= 5 && After(n - 1, e) == Some(e)
    requires AllPass(Order(n - 1), e, Found(Order(n - 1), e)) && Patched(Order(n - 1), e) == e
    ensures After(n, e) == Some(e)
  {
  }

  lemma {:induction false} NothingLeft(n: nat, d: Image)
    requires n <= 5 && Apart(d) && Result(d).Some?
    requires n <= 2 || StillZero(d, Result(d).value)
    ensures After(n, Result(d).value) == Some(Result(d).value)
  {
    if n > 0 {
      NothingLeft(n - 1, d);
      NothingLeftIn(Order(n - 1), d);
      OnePass(n, Result(d).value);
    }
  }

  /** Of all checksum bytes only that of a $PnP header can spoil a zero byte: by their places within a
      paragraph no others fall there but those of the first two passes, which the check has seen. */
  lemma OnlyPnpSpoils(d: Image, i: nat)
    requires Apart(d) && Result(d).Some? && i < |Found(Pcmp, d)|
    ensures var p := Found(Pcmp, d)[i];
            && KeepsZero(d, p + 41) && KeepsZero(d, p + 42)
            && (KeepsZero(d, p + 40) <==> KeepsExtension(d, p))
  {
    var p := Found(Pcmp, d)[i];
    FoundAreHeaders(Pcmp, d, 16, i);
    forall k, q | p + 40 <= q <= p + 42 && ChecksumByte(k, d) == Some(q)
      ensures (k == Pnp && q == p + 40) || (q == p + 42 && Wanted(k, d, Found(k, d)[0]) == Some(0))
    {
      ChecksumBytePlace(k, d);
      PlaceOfSpoiler(k, Found(k, d)[0], p, q);
      if k != Pnp {
        ExtensionBefore(d, i, q);
        SumsGetSet(2, d);
        assert SumSet(k, d, After(2, d).value);
      }
    }
    assert Found(Pnp, d) == [p + 32] <==> ChecksumByte(Pnp, d) == Some(p + 40);
  }

  lemma PlaceOfSpoiler(k: Kind, at: nat, p: nat, q: nat)
    requires at % 16 == 0 && p % 16 == 0 && at + ChecksumIndex(k) == q && p + 40 <= q <= p + 42
    ensures (k == Pnp && q == p + 40) || ((k == Pci32 || k == Mp) && q == p + 42)
  {
    assert (p + 40) % 16 == 8 && (p + 41) % 16 == 9 && (p + 42) % 16 == 10;
    assert (at + ChecksumIndex(k)) % 16 == ChecksumIndex(k) % 16;
  }

  lemma SpoiltOrKeptAt(d: Image, i: nat)
    requires Apart(d) && Result(d).Some? && i < |Found(Pcmp, d)|
    ensures NotExtended(Result(d).value, Found(Pcmp, d)[i]) <==> KeepsExtension(d, Found(Pcmp, d)[i])
  {
    var p := Found(Pcmp, d)[i];
    ExtensionAfter(d, i, p + 40);
    ExtensionAfter(d, i, p + 41);
    ExtensionAfter(d, i, p + 42);
    OnlyPnpSpoils(d, i);
  }

  lemma SpoiltOrKept(d: Image)
    requires Apart(d) && Result(d).Some?
    ensures StillZero(d, Result(d).value) <==> KeepsExtensions(d)
  {
    forall i | 0 <= i < |Found(Pcmp, d)|
      ensures NotExtended(Result(d).value, Found(Pcmp, d)[i]) <==> KeepsExtension(d, Found(Pcmp, d)[i])
    {
      SpoiltOrKeptAt(d, i);
    }
  }

  lemma SealedTwice(d: Image)
    ensures Sealed(Sealed(d)) == Sealed(d)
  {
    SumSame(d, Sealed(d), 0, MAX_OFFSET, MAX_OFFSET);
  }

  /** Running the program on its own result succeeds exactly when no $PnP header's checksum falls on a
      zero byte of a PCMP table, and then it changes nothing. */
  lemma SecondRun(d: Image)
    requires Apart(d) && Result(d).Some?
    ensures Result(Result(d).value) == (if KeepsExtensions(d) then Some(Result(d).value) else None)
  {
    var e := Result(d).value;
    SpoiltOrKept(d);
    if KeepsExtensions(d) {
      NothingLeft(5, d);
      SealedTwice(After(5, d).value);
    } else {
      var i :| 0 <= i < |Found(Pcmp, d)| && !NotExtended(e, Found(Pcmp, d)[i]);
      NothingLeft(2, d);
      RunChangesOnlySums(d);
      assert !ChecksPass(Pcmp, e, Found(Pcmp, e)[i]);
      AfterStops(3, e);
    }
  }
}
