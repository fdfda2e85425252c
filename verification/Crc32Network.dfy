/** The unrolled network that takes a whole byte at once, and the object that holds its register
    (sim/iverilog/soc/uploader/uploader.cpp). */
module Crc32Network {
  import opened Basics
  import opened BitSerialCrc
  import opened Crc32Checksum

  // ------------------------------------------------------------------ eight steps at once

  lemma ProductOfEight(q: seq<bool>, i: int)
    requires |q| == 8
    ensures ProductAt(q, i) == ((((((((q[0] && Gen(i - 7)) != (q[1] && Gen(i - 6))) != (q[2] && Gen(i - 5)))
                                 != (q[3] && Gen(i - 4))) != (q[4] && Gen(i - 3))) != (q[5] && Gen(i - 2)))
                              != (q[6] && Gen(i - 1))) != (q[7] && Gen(i)))
  {
    ProductFront(q, i);
    ProductFront(q[1..], i);
    ProductFront(q[2..], i);
    ProductFront(q[3..], i);
    ProductFront(q[4..], i);
    ProductFront(q[5..], i);
    ProductFront(q[6..], i);
    ProductFront(q[7..], i);
    assert q[1..][1..] == q[2..] && q[2..][1..] == q[3..] && q[3..][1..] == q[4..] && q[4..][1..] == q[5..];
    assert q[5..][1..] == q[6..] && q[6..][1..] == q[7..] && q[7..][1..] == [];
  }

  /** The register after at most eight steps, from the division. */
  lemma TopAfter(s: seq<bool>, bits: seq<bool>, i: nat)
    requires |s| == 32 && i < 32
    requires |bits| <= 8
    ensures Feed(s, bits)[i] == ((i >= |bits| && s[i - |bits|]) != ProductAt(Quotient(s, bits), i))
  {
    FeedDivides(s, bits);
    assert DividendAt(s, bits, i) == RecombinedAt(Quotient(s, bits), Feed(s, bits), i);
  }

  lemma {:induction false} QuotientPrefix(s: seq<bool>, bits: seq<bool>, k: nat)
    requires |s| == 32 && k <= |bits|
    ensures Quotient(s, bits)[..k] == Quotient(s, bits[..k])
    decreases |bits|
  {
    if k < |bits| {
      var init := bits[..|bits| - 1];
      QuotientPrefix(s, init, k);
      assert init[..k] == bits[..k];
      assert Quotient(s, bits)[..k] == Quotient(s, init)[..k];
    } else {
      assert bits[..k] == bits;
    }
  }

  /** Only the tap at x^26 reaches the top of the register within eight steps. */
  lemma ProductTop(q: seq<bool>)
    requires |q| <= 7
    ensures ProductAt(q, 31) == (|q| >= 6 && q[|q| - 6])
  {
    if |q| > 0 { ProductFront(q, 31); }
    if |q| > 1 { ProductFront(q[1..], 31); }
    if |q| > 2 { ProductFront(q[2..], 31); assert q[1..][1..] == q[2..]; }
    if |q| > 3 { ProductFront(q[3..], 31); assert q[2..][1..] == q[3..]; }
    if |q| > 4 { ProductFront(q[4..], 31); assert q[3..][1..] == q[4..]; }
    if |q| > 5 { ProductFront(q[5..], 31); assert q[4..][1..] == q[5..]; }
    if |q| > 6 { ProductFront(q[6..], 31); assert q[5..][1..] == q[6..]; }
  }

  lemma TopFromProduct(s: seq<bool>, q: seq<bool>, top: bool)
    requires |s| == 32 && |q| <= 7 && top == (s[31 - |q|] != ProductAt(q, 31))
    ensures top == (s[31 - |q|] != (|q| >= 6 && q[|q| - 6]))
  {
    ProductTop(q);
  }

  lemma {:induction false} QuotientAt(s: seq<bool>, bits: seq<bool>, k: nat)
    requires |s| == 32 && k < |bits|
    ensures Quotient(s, bits)[k] == (Feed(s, bits[..k])[31] != bits[k])
    decreases |bits|
  {
    var init := bits[..|bits| - 1];
    if k < |bits| - 1 {
      QuotientAt(s, init, k);
      assert init[..k] == bits[..k];
    }
  }

  lemma TopOfPrefix(s: seq<bool>, input: seq<bool>, k: nat)
    requires |s| == 32 && |input| == 8 && k < 8
    ensures Feed(s, input[..k])[31] == (s[31 - k] != ProductAt(Quotient(s, input)[..k], 31))
  {
    TopOfFew(s, input[..k]);
    QuotientPrefix(s, input, k);
  }

  lemma TopOfFew(s: seq<bool>, bits: seq<bool>)
    requires |s| == 32 && |bits| < 8
    ensures Feed(s, bits)[31] == (s[31 - |bits|] != ProductAt(Quotient(s, bits), 31))
  {
    TopAfter(s, bits, 31);
  }

  /** The k-th feedback bit of a byte in terms of the register before the byte. */
  lemma ByteFeedback(s: seq<bool>, input: seq<bool>, k: nat)
    requires |s| == 32 && |input| == 8 && k < 8
    ensures var q := Quotient(s, input);
            q[k] == ((s[31 - k] != (k >= 6 && q[k - 6])) != input[k])
  {
    QuotientAt(s, input, k);
    TopOfPrefix(s, input, k);
    TopFromProduct(s, Quotient(s, input)[..k], Feed(s, input[..k])[31]);
  }

  /** Bit i after a byte: an old bit moved up by eight, plus the feedback bits that meet a tap. */
  predicate TapSum(s: seq<bool>, q: seq<bool>, i: nat)
    requires |s| == 32 && |q| == 8 && i < 32
  {
    (i >= 8 && s[i - 8])
    != ((((((((q[0] && Gen(i - 7)) != (q[1] && Gen(i - 6))) != (q[2] && Gen(i - 5))) != (q[3] && Gen(i - 4)))
           != (q[4] && Gen(i - 3))) != (q[5] && Gen(i - 2))) != (q[6] && Gen(i - 1))) != (q[7] && Gen(i)))
  }

  lemma ByteStep(s: seq<bool>, input: seq<bool>, i: nat)
    requires |s| == 32 && |input| == 8 && i < 32
    ensures Feed(s, input)[i] == TapSum(s, Quotient(s, input), i)
  {
    TopAfter(s, input, i);
    ProductOfEight(Quotient(s, input), i);
  }

  // ------------------------------------------------------------------ the register object

  /** Row i of the unrolled network: new bit i from the register c and the bits d of a byte.
      `!=` on bits is exclusive or. */
  predicate NetworkRow(c: seq<bool>, d: seq<bool>, i: nat)
    requires |c| == 32 && |d| == 8 && i < 32
  {
    match i
    case 31 => (d[2] != c[23]) != c[29]
    case 30 => (((d[0] != d[3]) != c[22]) != c[28]) != c[31]
    case 29 => (((((d[0] != d[1]) != d[4]) != c[21]) != c[27]) != c[30]) != c[31]
    case 28 => (((((d[1] != d[2]) != d[5]) != c[20]) != c[26]) != c[29]) != c[30]
    case 27 => (((((((d[0] != d[2]) != d[3]) != d[6]) != c[19]) != c[25]) != c[28]) != c[29]) != c[31]
    case 26 => (((((((d[1] != d[3]) != d[4]) != d[7]) != c[18]) != c[24]) != c[27]) != c[28]) != c[30]
    case 25 => (((d[4] != d[5]) != c[17]) != c[26]) != c[27]
    case 24 => (((((d[0] != d[5]) != d[6]) != c[16]) != c[25]) != c[26]) != c[31]
    case 23 => (((((d[1] != d[6]) != d[7]) != c[15]) != c[24]) != c[25]) != c[30]
    case 22 => (d[7] != c[14]) != c[24]
    case 21 => (d[2] != c[13]) != c[29]
    case 20 => (d[3] != c[12]) != c[28]
    case 19 => (((d[0] != d[4]) != c[11]) != c[27]) != c[31]
    case 18 => (((((d[0] != d[1]) != d[5]) != c[10]) != c[26]) != c[30]) != c[31]
    case 17 => (((((d[1] != d[2]) != d[6]) != c[9]) != c[25]) != c[29]) != c[30]
    case 16 => (((((d[2] != d[3]) != d[7]) != c[8]) != c[24]) != c[28]) != c[29]
    case 15 => (((((((d[0] != d[2]) != d[3]) != d[4]) != c[7]) != c[27]) != c[28]) != c[29]) != c[31]
    case 14 => (((((((((d[0] != d[1]) != d[3]) != d[4]) != d[5]) != c[6]) != c[26]) != c[27]) != c[28])
               != c[30]) != c[31]
    case 13 => (((((((((((d[0] != d[1]) != d[2]) != d[4]) != d[5]) != d[6]) != c[5]) != c[25])
               != c[26]) != c[27]) != c[29]) != c[30]) != c[31]
    case 12 => (((((((((((d[1] != d[2]) != d[3]) != d[5]) != d[6]) != d[7]) != c[4]) != c[24])
               != c[25]) != c[26]) != c[28]) != c[29]) != c[30]
    case 11 => (((((((d[3] != d[4]) != d[6]) != d[7]) != c[3]) != c[24]) != c[25]) != c[27]) != c[28]
    case 10 => (((((((d[2] != d[4]) != d[5]) != d[7]) != c[2]) != c[24]) != c[26]) != c[27]) != c[29]
    case 9 => (((((((d[2] != d[3]) != d[5]) != d[6]) != c[1]) != c[25]) != c[26]) != c[28]) != c[29]
    case 8 => (((((((d[3] != d[4]) != d[6]) != d[7]) != c[0]) != c[24]) != c[25]) != c[27]) != c[28]
    case 7 => ((((((((d[0] != d[2]) != d[4]) != d[5]) != d[7]) != c[24]) != c[26]) != c[27]) != c[29]) != c[31]
    case 6 => ((((((((((d[0] != d[1]) != d[2]) != d[3]) != d[5]) != d[6]) != c[25])
              != c[26]) != c[28]) != c[29]) != c[30]) != c[31]
    case 5 => ((((((((((((d[0] != d[1]) != d[2]) != d[3]) != d[4]) != d[6]) != d[7]) != c[24])
              != c[25]) != c[27]) != c[28]) != c[29]) != c[30]) != c[31]
    case 4 => ((((((((d[1] != d[3]) != d[4]) != d[5]) != d[7]) != c[24]) != c[26]) != c[27]) != c[28]) != c[30]
    case 3 => ((((((d[0] != d[4]) != d[5]) != d[6]) != c[25]) != c[26]) != c[27]) != c[31]
    case 2 => ((((((((d[0] != d[1]) != d[5]) != d[6]) != d[7]) != c[24]) != c[25]) != c[26]) != c[30]) != c[31]
    case 1 => ((((((d[0] != d[1]) != d[6]) != d[7]) != c[24]) != c[25]) != c[30]) != c[31]
    case _ => ((d[1] != d[7]) != c[24]) != c[30]
  }

  /** q are the feedback bits of a byte in terms of the register before it. */
  predicate FeedbackBits(s: seq<bool>, input: seq<bool>, q: seq<bool>)
    requires |s| == 32 && |input| == 8
  {
    |q| == 8
    && q[0] == (s[31] != input[0]) && q[1] == (s[30] != input[1])
    && q[2] == (s[29] != input[2]) && q[3] == (s[28] != input[3])
    && q[4] == (s[27] != input[4]) && q[5] == (s[26] != input[5])
    && q[6] == ((s[25] != q[0]) != input[6]) && q[7] == ((s[24] != q[1]) != input[7])
  }

  lemma ByteFeedbacks(s: seq<bool>, input: seq<bool>)
    requires |s| == 32 && |input| == 8
    ensures FeedbackBits(s, input, Quotient(s, input))
  {
    ByteFeedback(s, input, 0);
    ByteFeedback(s, input, 1);
    ByteFeedback(s, input, 2);
    ByteFeedback(s, input, 3);
    ByteFeedback(s, input, 4);
    ByteFeedback(s, input, 5);
    ByteFeedback(s, input, 6);
    ByteFeedback(s, input, 7);
  }

  predicate RowHolds(s: seq<bool>, d: seq<bool>, q: seq<bool>, i: nat)
    requires ByteOf(s, d, q) && i < 32
  {
    NetworkRow(s, d, i) == TapSum(s, q, i)
  }

  predicate ByteOf(s: seq<bool>, d: seq<bool>, q: seq<bool>) {
    |s| == 32 && |d| == 8 && FeedbackBits(s, d, q)
  }

  // The rows in groups, each over its own handful of bits.
  lemma Rows0To3(s: seq<bool>, d: seq<bool>, q: seq<bool>, i: nat)
    requires ByteOf(s, d, q) && 0 <= i < 4
    ensures RowHolds(s, d, q, i)
  {
  }

  lemma Row4(s: seq<bool>, d: seq<bool>, q: seq<bool>, i: nat)
    requires ByteOf(s, d, q) && i == 4
    ensures RowHolds(s, d, q, i)
  {
  }

  lemma Row5(s: seq<bool>, d: seq<bool>, q: seq<bool>, i: nat)
    requires ByteOf(s, d, q) && i == 5
    ensures RowHolds(s, d, q, i)
  {
  }

  lemma Rows6To7(s: seq<bool>, d: seq<bool>, q: seq<bool>, i: nat)
    requires ByteOf(s, d, q) && 6 <= i < 8
    ensures RowHolds(s, d, q, i)
  {
  }

  lemma Rows8To9(s: seq<bool>, d: seq<bool>, q: seq<bool>, i: nat)
    requires ByteOf(s, d, q) && 8 <= i < 10
    ensures RowHolds(s, d, q, i)
  {
  }

  lemma Rows10To11(s: seq<bool>, d: seq<bool>, q: seq<bool>, i: nat)
    requires ByteOf(s, d, q) && 10 <= i < 12
    ensures RowHolds(s, d, q, i)
  {
  }

  lemma Row12(s: seq<bool>, d: seq<bool>, q: seq<bool>, i: nat)
    requires ByteOf(s, d, q) && i == 12
    ensures RowHolds(s, d, q, i)
  {
  }

  lemma Row13(s: seq<bool>, d: seq<bool>, q: seq<bool>, i: nat)
    requires ByteOf(s, d, q) && i == 13
    ensures RowHolds(s, d, q, i)
  {
  }

  lemma Rows14To16(s: seq<bool>, d: seq<bool>, q: seq<bool>, i: nat)
    requires ByteOf(s, d, q) && 14 <= i < 17
    ensures RowHolds(s, d, q, i)
  {
  }

  lemma Rows17To19(s: seq<bool>, d: seq<bool>, q: seq<bool>, i: nat)
    requires ByteOf(s, d, q) && 17 <= i < 20
    ensures RowHolds(s, d, q, i)
  {
  }

  lemma Rows20To22(s: seq<bool>, d: seq<bool>, q: seq<bool>, i: nat)
    requires ByteOf(s, d, q) && 20 <= i < 23
    ensures RowHolds(s, d, q, i)
  {
  }

  lemma Rows23To25(s: seq<bool>, d: seq<bool>, q: seq<bool>, i: nat)
    requires ByteOf(s, d, q) && 23 <= i < 26
    ensures RowHolds(s, d, q, i)
  {
  }

  lemma Rows26To28(s: seq<bool>, d: seq<bool>, q: seq<bool>, i: nat)
    requires ByteOf(s, d, q) && 26 <= i < 29
    ensures RowHolds(s, d, q, i)
  {
  }

  lemma Rows29To31(s: seq<bool>, d: seq<bool>, q: seq<bool>, i: nat)
    requires ByteOf(s, d, q) && 29 <= i < 32
    ensures RowHolds(s, d, q, i)
  {
  }

  lemma NetworkRows(s: seq<bool>, d: seq<bool>, q: seq<bool>, i: nat)
    requires ByteOf(s, d, q) && i < 32
    ensures RowHolds(s, d, q, i)
  {
    if i < 4 { Rows0To3(s, d, q, i); }
    else if i < 5 { Row4(s, d, q, i); }
    else if i < 6 { Row5(s, d, q, i); }
    else if i < 8 { Rows6To7(s, d, q, i); }
    else if i < 10 { Rows8To9(s, d, q, i); }
    else if i < 12 { Rows10To11(s, d, q, i); }
    else if i < 13 { Row12(s, d, q, i); }
    else if i < 14 { Row13(s, d, q, i); }
    else if i < 17 { Rows14To16(s, d, q, i); }
    else if i < 20 { Rows17To19(s, d, q, i); }
    else if i < 23 { Rows20To22(s, d, q, i); }
    else if i < 26 { Rows23To25(s, d, q, i); }
    else if i < 29 { Rows26To28(s, d, q, i); }
    else { Rows29To31(s, d, q, i); }
  }

  lemma NetworkIsEightSteps(s: seq<bool>, d: seq<bool>)
    requires |s| == 32 && |d| == 8
    ensures forall i :: 0 <= i < 32 ==> NetworkRow(s, d, i) == Feed(s, d)[i]
  {
    ByteFeedbacks(s, d);
    forall i | 0 <= i < 32 ensures NetworkRow(s, d, i) == Feed(s, d)[i] {
      NetworkRows(s, d, Quotient(s, d), i);
      ByteStep(s, d, i);
    }
  }

  /** The register of crc32, a static array in the program. */
  class Register {
    const crc: array<bool>

    ghost predicate Valid() { crc.Length == 32 }

    constructor ()
      ensures Valid() && fresh(crc)
    {
      crc := new bool[32];
    }

    /** The four uses of crc32 told apart by which of its two pointers is null. */
    method Crc32(ptr: Option<byte>, wantOutput: bool) returns (output: Option<nat>)
      requires Valid()
      modifies crc
      ensures ptr.Some? && wantOutput ==> crc[..] == old(crc[..]) && output == None
      ensures ptr.None? && !wantOutput ==> crc[..] == Ones(32) && output == None
      ensures ptr.None? && wantOutput ==> crc[..] == old(crc[..]) && output == Some(Output(crc[..]))
      ensures ptr.Some? && !wantOutput ==> crc[..] == Feed(old(crc[..]), ByteBits(ptr.value)) && output == None
    {
      output := None;
      if ptr.Some? && wantOutput { return; }
      if ptr.None? && !wantOutput {
        for i := 0 to 32
          invariant forall k :: 0 <= k < i ==> crc[k]
        {
          crc[i] := true;
        }
        assert crc[..] == Ones(32);
        return;
      }
      if ptr.None? {
        var v := ReadOut();
        output := Some(v);
        return;
      }
      Update(ptr.value);
    }

    /** The unrolled network is eight steps of the bit-serial register. */
    method Update(p: byte)
      requires Valid()
      modifies crc
      ensures crc[..] == Feed(old(crc[..]), ByteBits(p))
    {
      var input := ByteBits(p);
      var state := crc[..];
      var newCrc := new bool[32](i requires 0 <= i < 32 && |state| == 32 && |input| == 8 =>
                                   NetworkRow(state, input, i));
      NetworkIsEightSteps(state, input);
      assert newCrc[..] == Feed(state, input);
      for i := 0 to 32
        invariant forall k :: 0 <= k < i ==> crc[k] == newCrc[k]
        invariant newCrc[..] == Feed(state, input)
      {
        crc[i] := newCrc[i];
      }
      assert crc[..] == newCrc[..];
    }

    /** Entry i goes to bit 31 - i of the word, which is complemented at the end. Setting a bit
        that is still clear is adding its weight. */
    method ReadOut() returns (v: nat)
      requires Valid()
      ensures v == Output(crc[..])
    {
      v := 0;
      for i := 0 to 32
        invariant v == Word(crc[..i]) * Pow2(32 - i)
      {
        ShiftIn(crc[..i + 1], Pow2(31 - i));
        assert crc[..i + 1][..i] == crc[..i];
        v := v + (if crc[i] then Pow2(31 - i) else 0);
      }
      assert crc[..32] == crc[..];
      WordComplement(crc[..]);
      Pow2Of32();
      v := 0xFFFF_FFFF - v;
    }
  }

  lemma Regroup(w: nat, weight: nat)
    ensures 2 * w * weight == w * (2 * weight)
    ensures (2 * w + 1) * weight == w * (2 * weight) + weight
  {
  }

  lemma ShiftIn(bits: seq<bool>, weight: nat)
    requires bits != []
    ensures var n := |bits| - 1;
            Word(bits) * weight == Word(bits[..n]) * (2 * weight) + (if bits[n] then weight else 0)
  {
    var w := Word(bits[..|bits| - 1]);
    Regroup(w, weight);
    assert Word(bits) == 2 * w || Word(bits) == 2 * w + 1;
  }

  lemma {:induction false} WordComplement(bits: seq<bool>)
    ensures Word(Complement(bits)) == Pow2(|bits|) - 1 - Word(bits)
  {
    if bits != [] {
      var init := bits[..|bits| - 1];
      WordComplement(init);
      assert Complement(bits)[..|bits| - 1] == Complement(init);
    }
  }
}
