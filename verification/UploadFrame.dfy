/** The frame the uploader writes, and the residue that every frame leaves in the register
    (sim/iverilog/soc/uploader/uploader.cpp). */
module UploadFrame {
  import opened Basics
  import opened BitSerialCrc
  import opened Crc32Checksum
  import opened Crc32Network

  // ------------------------------------------------------------------ the frame

  /** What the uploader writes: a command byte, the offset, the length, the file and its checksum. */
  function Frame(offset: nat, data: seq<byte>): (f: seq<byte>)
  {
    [0 as byte] + Le32(offset) + Le32(|data|) + data + Le32(Checksum(data))
  }

  /** A frame taken apart: byte by byte the command, two little-endian words, the file, and a checksum with
      which the file leaves the constant residue. */
  lemma FrameTakenApart(offset: nat, data: seq<byte>)
    requires offset < 0x1_0000_0000 && |data| < 0x1_0000_0000
    ensures var f, n := Frame(offset, data), |data|;
            && |f| == n + 13 && f[0] == 0 && FromLe32(f[1..5]) == offset && FromLe32(f[5..9]) == n
            && f[9..9 + n] == data && FromLe32(f[9 + n..]) == Checksum(data)
            && Checksum(f[9..]) == 0x2144_DF1C
  {
    var f, n := Frame(offset, data), |data|;
    Le32RoundTrip(offset);
    Le32RoundTrip(n);
    ChecksumIsWord(data);
    Le32RoundTrip(Checksum(data));
    assert f[1..5] == Le32(offset) && f[5..9] == Le32(n) && f[9..9 + n] == data && f[9 + n..] == Le32(Checksum(data));
    assert f[9..] == data + Le32(Checksum(data));
    ResidueIsConstant(data);
  }

  lemma ChecksumIsWord(data: seq<byte>)
    ensures Checksum(data) < 0x1_0000_0000
  {
    WordBound(Complement(Feed(Ones(32), MessageBits(data))));
    Pow2Of32();
  }

  /** The uploader after a file has been read; a file of no bytes is refused, because reading one
      item of length zero reports none read. */
  method Upload(offset: nat, data: seq<byte>) returns (frame: Option<seq<byte>>)
    requires |data| < 0x8000_0000
    ensures frame == if data == [] then None else Some(Frame(offset, data))
  {
    if |data| == 0 { return None; }
    var reg := new Register();
    var none := reg.Crc32(None, false);
    for i := 0 to |data|
      invariant reg.crc[..] == Feed(Ones(32), MessageBits(data[..i]))
    {
      none := reg.Crc32(Some(data[i]), false);
      assert data[..i + 1][..i] == data[..i];
      FeedAppend(Ones(32), MessageBits(data[..i]), ByteBits(data[i]));
    }
    assert data[..|data|] == data;
    var crc := reg.Crc32(None, true);
    return Some([0 as byte] + Le32(offset) + Le32(|data|) + data + Le32(crc.value));
  }

  // ------------------------------------------------------------------ the residue

  lemma {:induction false} MessageBitAt(data: seq<byte>, k: nat, j: nat)
    requires k < |data| && j < 8
    ensures MessageBits(data)[8 * k + j] == Bit(data[k] as nat, j)
    decreases |data|
  {
    var n := |data| - 1;
    if k < n {
      MessageBitAt(data[..n], k, j);
      assert data[..n][k] == data[k];
    } else {
      assert MessageBits(data)[8 * n + j] == ByteBits(data[n])[j];
    }
  }

  /** The checksum's bytes, low byte first, are the complemented register from the top down. */
  lemma ChecksumBits(s: seq<bool>)
    requires |s| == 32
    ensures MessageBits(Le32(Output(s))) == seq(32, i requires 0 <= i < 32 => !s[31 - i])
  {
    var bits := MessageBits(Le32(Output(s)));
    forall i: nat | i < 32 ensures bits[i] == !s[31 - i] {
      MessageBitAt(Le32(Output(s)), i / 8, i % 8);
      BitOfLe32(Output(s), i / 8, i % 8);
      WordBit(Complement(s), i);
      assert 8 * (i / 8) + i % 8 == i;
    }
  }

  /** Feeding the complemented register to itself forgets what the register was. */
  lemma SelfFeed(s: seq<bool>)
    requires |s| == 32
    ensures Feed(s, seq(32, i requires 0 <= i < 32 => !s[31 - i])) == Feed(Ones(32), Zeros(32))
  {
    var w := seq(32, i requires 0 <= i < 32 => !s[31 - i]);
    FeedLoaded(s, w);
    assert Xor(s, Load(w)) == Ones(32);
  }

  // The register as one 32-bit word, for running it on given values.

  predicate WordBitAt(v: bv32, i: nat)
    requires i < 32
  {
    match i
    case 0 => v & 0x1 != 0
    case 1 => v & 0x2 != 0
    case 2 => v & 0x4 != 0
    case 3 => v & 0x8 != 0
    case 4 => v & 0x10 != 0
    case 5 => v & 0x20 != 0
    case 6 => v & 0x40 != 0
    case 7 => v & 0x80 != 0
    case 8 => v & 0x100 != 0
    case 9 => v & 0x200 != 0
    case 10 => v & 0x400 != 0
    case 11 => v & 0x800 != 0
    case 12 => v & 0x1000 != 0
    case 13 => v & 0x2000 != 0
    case 14 => v & 0x4000 != 0
    case 15 => v & 0x8000 != 0
    case 16 => v & 0x10000 != 0
    case 17 => v & 0x20000 != 0
    case 18 => v & 0x40000 != 0
    case 19 => v & 0x80000 != 0
    case 20 => v & 0x100000 != 0
    case 21 => v & 0x200000 != 0
    case 22 => v & 0x400000 != 0
    case 23 => v & 0x800000 != 0
    case 24 => v & 0x1000000 != 0
    case 25 => v & 0x2000000 != 0
    case 26 => v & 0x4000000 != 0
    case 27 => v & 0x8000000 != 0
    case 28 => v & 0x10000000 != 0
    case 29 => v & 0x20000000 != 0
    case 30 => v & 0x40000000 != 0
    case _ => v & 0x80000000 != 0
  }

  function WordFlags(v: bv32): (s: seq<bool>)
    ensures |s| == 32
  {
    seq(32, i requires 0 <= i < 32 => WordBitAt(v, i))
  }

  function WordStep(v: bv32): bv32 {
    (v << 1) ^ (if v & 0x8000_0000 != 0 then 0x04C1_1DB7 else 0)
  }

  function WordRun(v: bv32, n: nat): bv32 {
    if n == 0 then v else WordStep(WordRun(v, n - 1))
  }

  lemma WordStepBit(v: bv32, i: nat)
    requires i < 32
    ensures var top := WordBitAt(v, 31);
            WordBitAt(WordStep(v), i) == if i == 0 then top else WordBitAt(v, i - 1) != (top && Tap(i))
  {
    match i
    case 0 => assert WordBitAt(WordStep(v), 0) == WordBitAt(v, 31);
    case 1 => assert WordBitAt(WordStep(v), 1) == (WordBitAt(v, 0) != (WordBitAt(v, 31) && Tap(1)));
    case 2 => assert WordBitAt(WordStep(v), 2) == (WordBitAt(v, 1) != (WordBitAt(v, 31) && Tap(2)));
    case 3 => assert WordBitAt(WordStep(v), 3) == (WordBitAt(v, 2) != (WordBitAt(v, 31) && Tap(3)));
    case 4 => assert WordBitAt(WordStep(v), 4) == (WordBitAt(v, 3) != (WordBitAt(v, 31) && Tap(4)));
    case 5 => assert WordBitAt(WordStep(v), 5) == (WordBitAt(v, 4) != (WordBitAt(v, 31) && Tap(5)));
    case 6 => assert WordBitAt(WordStep(v), 6) == (WordBitAt(v, 5) != (WordBitAt(v, 31) && Tap(6)));
    case 7 => assert WordBitAt(WordStep(v), 7) == (WordBitAt(v, 6) != (WordBitAt(v, 31) && Tap(7)));
    case 8 => assert WordBitAt(WordStep(v), 8) == (WordBitAt(v, 7) != (WordBitAt(v, 31) && Tap(8)));
    case 9 => assert WordBitAt(WordStep(v), 9) == (WordBitAt(v, 8) != (WordBitAt(v, 31) && Tap(9)));
    case 10 => assert WordBitAt(WordStep(v), 10) == (WordBitAt(v, 9) != (WordBitAt(v, 31) && Tap(10)));
    case 11 => assert WordBitAt(WordStep(v), 11) == (WordBitAt(v, 10) != (WordBitAt(v, 31) && Tap(11)));
    case 12 => assert WordBitAt(WordStep(v), 12) == (WordBitAt(v, 11) != (WordBitAt(v, 31) && Tap(12)));
    case 13 => assert WordBitAt(WordStep(v), 13) == (WordBitAt(v, 12) != (WordBitAt(v, 31) && Tap(13)));
    case 14 => assert WordBitAt(WordStep(v), 14) == (WordBitAt(v, 13) != (WordBitAt(v, 31) && Tap(14)));
    case 15 => assert WordBitAt(WordStep(v), 15) == (WordBitAt(v, 14) != (WordBitAt(v, 31) && Tap(15)));
    case 16 => assert WordBitAt(WordStep(v), 16) == (WordBitAt(v, 15) != (WordBitAt(v, 31) && Tap(16)));
    case 17 => assert WordBitAt(WordStep(v), 17) == (WordBitAt(v, 16) != (WordBitAt(v, 31) && Tap(17)));
    case 18 => assert WordBitAt(WordStep(v), 18) == (WordBitAt(v, 17) != (WordBitAt(v, 31) && Tap(18)));
    case 19 => assert WordBitAt(WordStep(v), 19) == (WordBitAt(v, 18) != (WordBitAt(v, 31) && Tap(19)));
    case 20 => assert WordBitAt(WordStep(v), 20) == (WordBitAt(v, 19) != (WordBitAt(v, 31) && Tap(20)));
    case 21 => assert WordBitAt(WordStep(v), 21) == (WordBitAt(v, 20) != (WordBitAt(v, 31) && Tap(21)));
    case 22 => assert WordBitAt(WordStep(v), 22) == (WordBitAt(v, 21) != (WordBitAt(v, 31) && Tap(22)));
    case 23 => assert WordBitAt(WordStep(v), 23) == (WordBitAt(v, 22) != (WordBitAt(v, 31) && Tap(23)));
    case 24 => assert WordBitAt(WordStep(v), 24) == (WordBitAt(v, 23) != (WordBitAt(v, 31) && Tap(24)));
    case 25 => assert WordBitAt(WordStep(v), 25) == (WordBitAt(v, 24) != (WordBitAt(v, 31) && Tap(25)));
    case 26 => assert WordBitAt(WordStep(v), 26) == (WordBitAt(v, 25) != (WordBitAt(v, 31) && Tap(26)));
    case 27 => assert WordBitAt(WordStep(v), 27) == (WordBitAt(v, 26) != (WordBitAt(v, 31) && Tap(27)));
    case 28 => assert WordBitAt(WordStep(v), 28) == (WordBitAt(v, 27) != (WordBitAt(v, 31) && Tap(28)));
    case 29 => assert WordBitAt(WordStep(v), 29) == (WordBitAt(v, 28) != (WordBitAt(v, 31) && Tap(29)));
    case 30 => assert WordBitAt(WordStep(v), 30) == (WordBitAt(v, 29) != (WordBitAt(v, 31) && Tap(30)));
    case _ => assert WordBitAt(WordStep(v), 31) == (WordBitAt(v, 30) != (WordBitAt(v, 31) && Tap(31)));
  }

  lemma StepFromBits(s: seq<bool>, t: seq<bool>)
    requires |s| == |t| == 32
    requires forall i :: 0 <= i < 32 ==> t[i] == if i == 0 then s[31] else s[i - 1] != (s[31] && Tap(i))
    ensures t == Step(s, false)
  {
  }

  lemma WordStepIsStep(v: bv32)
    ensures WordFlags(WordStep(v)) == Step(WordFlags(v), false)
  {
    forall i | 0 <= i < 32
      ensures WordFlags(WordStep(v))[i]
           == if i == 0 then WordFlags(v)[31] else WordFlags(v)[i - 1] != (WordFlags(v)[31] && Tap(i))
    {
      WordStepBit(v, i);
    }
    StepFromBits(WordFlags(v), WordFlags(WordStep(v)));
  }

  lemma {:induction false} WordRunIsFeed(v: bv32, n: nat)
    ensures WordFlags(WordRun(v, n)) == Feed(WordFlags(v), Zeros(n))
  {
    if n > 0 {
      WordRunIsFeed(v, n - 1);
      assert Zeros(n)[..n - 1] == Zeros(n - 1);
      WordStepIsStep(WordRun(v, n - 1));
    }
  }

  lemma RunZeros()
    ensures Feed(Ones(32), Zeros(32)) == WordFlags(0xC704_DD7B)
  {
    var v: bv32 := 0xFFFF_FFFF;
    assert WordRun(v, 2) == 0xF2BCD925;
    assert WordRun(v, 4) == 0xC7B0424D;
    assert WordRun(v, 6) == 0x13822FED;
    assert WordRun(v, 8) == 0x4E08BFB4;
    assert WordRun(v, 10) == 0x3CE3E367;
    assert WordRun(v, 12) == 0xF38F8D9C;
    assert WordRun(v, 14) == 0xC37D10A9;
    assert WordRun(v, 16) == 0x00B7647D;
    assert WordRun(v, 18) == 0x02DD91F4;
    assert WordRun(v, 20) == 0x0B7647D0;
    assert WordRun(v, 22) == 0x2DD91F40;
    assert WordRun(v, 24) == 0xB7647D00;
    assert WordRun(v, 26) == 0xD413CF6E;
    assert WordRun(v, 28) == 0x5D0C1B61;
    assert WordRun(v, 30) == 0x70F17033;
    assert WordRun(v, 32) == 0xC704DD7B;
    WordRunIsFeed(v, 32);
    assert WordFlags(v) == Ones(32);
  }

  lemma ResidueBit(j: nat)
    requires j < 32
    ensures Bit(0x2144_DF1C, j) == !WordBitAt(0xC704_DD7B, 31 - j)
  {
    if j >= 4 { BitOfSixteenth(0x2144DF1C, j - 4); }
    if j >= 8 { BitOfSixteenth(0x2144DF1, j - 8); }
    if j >= 12 { BitOfSixteenth(0x2144DF, j - 12); }
    if j >= 16 { BitOfSixteenth(0x2144D, j - 16); }
    if j >= 20 { BitOfSixteenth(0x2144, j - 20); }
    if j >= 24 { BitOfSixteenth(0x214, j - 24); }
    if j >= 28 { BitOfSixteenth(0x21, j - 28); }
    match j
    case 0 => assert !Bit(0x2144DF1C, 0);
    case 1 => assert !Bit(0x2144DF1C, 1);
    case 2 => assert Bit(0x2144DF1C, 2);
    case 3 => assert Bit(0x2144DF1C, 3);
    case 4 => assert Bit(0x2144DF1, 0);
    case 5 => assert !Bit(0x2144DF1, 1);
    case 6 => assert !Bit(0x2144DF1, 2);
    case 7 => assert !Bit(0x2144DF1, 3);
    case 8 => assert Bit(0x2144DF, 0);
    case 9 => assert Bit(0x2144DF, 1);
    case 10 => assert Bit(0x2144DF, 2);
    case 11 => assert Bit(0x2144DF, 3);
    case 12 => assert Bit(0x2144D, 0);
    case 13 => assert !Bit(0x2144D, 1);
    case 14 => assert Bit(0x2144D, 2);
    case 15 => assert Bit(0x2144D, 3);
    case 16 => assert !Bit(0x2144, 0);
    case 17 => assert !Bit(0x2144, 1);
    case 18 => assert Bit(0x2144, 2);
    case 19 => assert !Bit(0x2144, 3);
    case 20 => assert !Bit(0x214, 0);
    case 21 => assert !Bit(0x214, 1);
    case 22 => assert Bit(0x214, 2);
    case 23 => assert !Bit(0x214, 3);
    case 24 => assert Bit(0x21, 0);
    case 25 => assert !Bit(0x21, 1);
    case 26 => assert !Bit(0x21, 2);
    case 27 => assert !Bit(0x21, 3);
    case 28 => assert !Bit(0x2, 0);
    case 29 => assert Bit(0x2, 1);
    case 30 => assert !Bit(0x2, 2);
    case _ => assert !Bit(0x2, 3);
  }

  lemma ResidueWord()
    ensures Output(WordFlags(0xC704_DD7B)) == 0x2144_DF1C
  {
    var c := Complement(WordFlags(0xC704_DD7B));
    forall j: nat | j < 32 ensures Bit(Word(c), j) == Bit(0x2144_DF1C, j) {
      WordBit(c, j);
      ResidueBit(j);
    }
    WordBound(c);
    Pow2Of32();
    SameBits(Word(c), 0x2144_DF1C, 32);
  }

  /** A receiver that runs a file and its checksum through the register always ends at the same
      value. */
  lemma ResidueIsConstant(data: seq<byte>)
    ensures Checksum(data + Le32(Checksum(data))) == 0x2144_DF1C
  {
    var s := Feed(Ones(32), MessageBits(data));
    var tail := Le32(Checksum(data));
    MessageBitsAppend(data, tail);
    FeedAppend(Ones(32), MessageBits(data), MessageBits(tail));
    ChecksumBits(s);
    SelfFeed(s);
    RunZeros();
    ResidueWord();
  }
}
