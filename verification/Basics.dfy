/** Vocabulary shared by the models: bytes, bits of a number, little-endian words
    and the replacement of a stretch of memory. */
module Basics {

  newtype byte = x: int | 0 <= x < 256

  datatype Option<+T> = None | Some(value: T)

  function Pow2(n: nat): (p: nat)
    ensures p > 0
  {
    if n == 0 then 1 else 2 * Pow2(n - 1)
  }

  lemma Pow2Of32()
    ensures Pow2(32) == 0x1_0000_0000
  {
    assert Pow2(8) == 0x100;
    assert Pow2(16) == 0x100 * Pow2(8);
    assert Pow2(24) == 0x100 * Pow2(16);
  }

  /** Bit j of v, bit 0 being the least significant: C's (v >> j) & 1. */
  predicate Bit(v: nat, j: nat)
  {
    if j == 0 then v % 2 == 1 else Bit(v / 2, j - 1)
  }

  /** The number written by a sequence of bits, most significant bit first. */
  function Word(bits: seq<bool>): (v: nat)
  {
    if bits == [] then 0
    else 2 * Word(bits[..|bits| - 1]) + (if bits[|bits| - 1] then 1 else 0)
  }

  lemma {:induction false} WordBound(bits: seq<bool>)
    ensures Word(bits) < Pow2(|bits|)
  {
    if bits != [] {
      WordBound(bits[..|bits| - 1]);
    }
  }

  /** Reading a bit of the number gives back the bit it was written from. */
  lemma {:induction false} WordBit(bits: seq<bool>, j: nat)
    requires j < |bits|
    ensures Bit(Word(bits), j) == bits[|bits| - 1 - j]
  {
    var init := bits[..|bits| - 1];
    assert Word(bits) / 2 == Word(init);
    if j > 0 {
      WordBit(init, j - 1);
    }
  }

  lemma MulTwo(d: nat, p: nat)
    ensures d * (2 * p) == 2 * (d * p)
  {
  }

  /** Numbers that agree modulo 2^n agree in their low n bits. */
  lemma {:induction false} LowBits(v: nat, w: nat, d: nat, n: nat, j: nat)
    requires v == w + d * Pow2(n) && j < n
    ensures Bit(v, j) == Bit(w, j)
  {
    var t := d * Pow2(n - 1);
    MulTwo(d, Pow2(n - 1));
    if j > 0 {
      LowBits(v / 2, w / 2, d, n - 1, j - 1);
    }
  }

  lemma BitOfQuarter(v: nat, j: nat)
    ensures Bit(v / 4, j) == Bit(v, j + 2)
  {
    assert Bit(v, j + 2) == Bit(v / 2, j + 1) == Bit(v / 2 / 2, j);
  }

  lemma BitOfSixteenth(v: nat, j: nat)
    ensures Bit(v / 16, j) == Bit(v, j + 4)
  {
    BitOfQuarter(v, j + 2);
    BitOfQuarter(v / 4, j);
    assert v / 4 / 4 == v / 16;
  }

  /** Shifting a byte out moves every bit down by eight places. */
  lemma BitOfHighPart(v: nat, j: nat)
    ensures Bit(v / 0x100, j) == Bit(v, j + 8)
  {
    BitOfSixteenth(v, j + 4);
    BitOfSixteenth(v / 16, j);
    assert v / 16 / 16 == v / 0x100;
  }

  lemma BitOfLowByte(v: nat, j: nat)
    requires j < 8
    ensures Bit(v % 0x100, j) == Bit(v, j)
  {
    assert Pow2(8) == 0x100;
    LowBits(v, v % 0x100, v / 0x100, 8, j);
  }

  /** The four bytes of a 32-bit word in memory order of a little-endian machine. */
  function Le32(v: nat): (bs: seq<byte>)
    ensures |bs| == 4
  {
    [(v % 0x100) as byte, (v / 0x100 % 0x100) as byte,
     (v / 0x100 / 0x100 % 0x100) as byte, (v / 0x100 / 0x100 / 0x100 % 0x100) as byte]
  }

  lemma BitOfLe32(v: nat, k: nat, j: nat)
    requires k < 4 && j < 8
    ensures Bit(Le32(v)[k] as nat, j) == Bit(v, 8 * k + j)
  {
    var v1 := v / 0x100;
    var v2 := v1 / 0x100;
    match k
    case 0 => BitOfLowByte(v, j);
    case 1 => BitOfLowByte(v1, j); BitOfHighPart(v, j);
    case 2 => BitOfLowByte(v2, j); BitOfHighPart(v1, j); BitOfHighPart(v, 8 + j);
    case _ => BitOfLowByte(v2 / 0x100, j); BitOfHighPart(v2, j); BitOfHighPart(v1, 8 + j); BitOfHighPart(v, 16 + j);
  }

  function FromLe32(bs: seq<byte>): (v: nat)
    requires |bs| == 4
    ensures v < 0x1_0000_0000
  {
    bs[0] as nat + 0x100 * bs[1] as nat + 0x1_0000 * bs[2] as nat + 0x100_0000 * bs[3] as nat
  }

  lemma Le32RoundTrip(v: nat)
    requires v < 0x1_0000_0000
    ensures FromLe32(Le32(v)) == v
  {
    var v1 := v / 0x100;
    var v2 := v1 / 0x100;
    assert v == 0x100 * v1 + v % 0x100 && v1 == 0x100 * v2 + v1 % 0x100;
    assert v2 == 0x100 * (v2 / 0x100) + v2 % 0x100;
  }

  /** The characters of a name stand at p. */
  predicate NameAt(m: seq<byte>, name: string, p: nat) {
    p + |name| <= |m| && forall j :: 0 <= j < |name| ==> m[p + j] as int == name[j] as int
  }

  /** `m` with the bytes from `at` on replaced by `bs`. */
  function Splice<T>(m: seq<T>, at: nat, bs: seq<T>): (r: seq<T>)
    requires at + |bs| <= |m|
    ensures |r| == |m|
    ensures forall i :: 0 <= i < |m| ==> r[i] == if at <= i < at + |bs| then bs[i - at] else m[i]
  {
    seq(|m|, i requires 0 <= i < |m| => if at <= i < at + |bs| then bs[i - at] else m[i])
  }

  lemma SpliceParts<T>(m: seq<T>, at: nat, bs: seq<T>)
    requires at + |bs| <= |m|
    ensures Splice(m, at, bs)[..at] == m[..at] && Splice(m, at, bs)[at..at + |bs|] == bs
  {
  }

  /** Two adjoining replacements are one. */
  lemma SpliceAppend<T>(m: seq<T>, at: nat, a: seq<T>, b: seq<T>)
    requires at + |a| + |b| <= |m|
    ensures Splice(Splice(m, at, a), at + |a|, b) == Splice(m, at, a + b)
  {
  }

  function Min(a: nat, b: nat): nat {
    if a < b then a else b
  }

  lemma MulMono(a: nat, b: nat, c: nat)
    requires a <= b
    ensures a * c <= b * c
  {
  }
}
