/** The checksum of a file as the uploader defines it (sim/iverilog/soc/uploader/uploader.cpp). */
module Crc32Checksum {
  import opened Basics
  import opened BitSerialCrc

  // ------------------------------------------------------------------ bytes

  /** The bits of a byte in the order in[0], ..., in[7]. */
  function ByteBits(p: byte): (bits: seq<bool>)
    ensures |bits| == 8
  {
    seq(8, j requires 0 <= j < 8 => Bit(p as nat, j))
  }

  function MessageBits(data: seq<byte>): (bits: seq<bool>)
    ensures |bits| == 8 * |data|
  {
    if data == [] then [] else MessageBits(data[..|data| - 1]) + ByteBits(data[|data| - 1])
  }

  lemma {:induction false} MessageBitsAppend(a: seq<byte>, b: seq<byte>)
    ensures MessageBits(a + b) == MessageBits(a) + MessageBits(b)
    decreases |b|
  {
    if b == [] {
      assert a + b == a;
    } else {
      var init := b[..|b| - 1];
      assert (a + b)[..|a + b| - 1] == a + init;
      MessageBitsAppend(a, init);
    }
  }

  lemma ByteBitsInjective(p: byte, q: byte)
    requires ByteBits(p) == ByteBits(q)
    ensures p == q
  {
    var v, w := p as nat, q as nat;
    forall j: nat | j < 8 ensures Bit(v, j) == Bit(w, j) {
      assert ByteBits(p)[j] == Bit(v, j) && ByteBits(q)[j] == Bit(w, j);
    }
    assert Pow2(8) == 256;
    SameBits(v, w, 8);
  }

  lemma {:induction false} SameBits(v: nat, w: nat, n: nat)
    requires v < Pow2(n) && w < Pow2(n)
    requires forall j: nat :: j < n ==> Bit(v, j) == Bit(w, j)
    ensures v == w
  {
    if n > 0 {
      assert Bit(v, 0) == Bit(w, 0);
      forall j: nat | j < n - 1 ensures Bit(v / 2, j) == Bit(w / 2, j) {
        assert Bit(v, j + 1) == Bit(w, j + 1);
      }
      SameBits(v / 2, w / 2, n - 1);
    }
  }

  lemma {:induction false} MessageBitsInjective(a: seq<byte>, b: seq<byte>)
    requires |a| == |b| && MessageBits(a) == MessageBits(b)
    ensures a == b
    decreases |a|
  {
    if a != [] {
      var n := |a| - 1;
      var x, y := MessageBits(a), MessageBits(b);
      assert x[..8 * n] == MessageBits(a[..n]) && y[..8 * n] == MessageBits(b[..n]);
      assert x[8 * n..] == ByteBits(a[n]) && y[8 * n..] == ByteBits(b[n]);
      MessageBitsInjective(a[..n], b[..n]);
      ByteBitsInjective(a[n], b[n]);
      assert a == a[..n] + [a[n]] && b == b[..n] + [b[n]];
    }
  }

  // ------------------------------------------------------------------ the checksum of a file

  function Complement(s: seq<bool>): (r: seq<bool>)
    ensures |r| == |s|
    ensures forall i :: 0 <= i < |s| ==> r[i] == !s[i]
  {
    seq(|s|, i requires 0 <= i < |s| => !s[i])
  }

  /** What crc32 hands out for a register: entry i at bit 31 - i, complemented. */
  function Output(s: seq<bool>): (v: nat)
  {
    Word(Complement(s))
  }

  /** The checksum of a file as the uploader computes it. */
  function Checksum(data: seq<byte>): (v: nat)
  {
    Output(Feed(Ones(32), MessageBits(data)))
  }

  lemma OutputInjective(s: seq<bool>, t: seq<bool>)
    requires |s| == |t| == 32 && Output(s) == Output(t)
    ensures s == t
  {
    forall i | 0 <= i < 32 ensures s[i] == t[i] {
      WordBit(Complement(s), 31 - i);
      WordBit(Complement(t), 31 - i);
    }
  }

  /** Two files of one length whose differences lie within 32 consecutive bits never share a
      checksum. */
  lemma ChecksumDetectsBurst(a: seq<byte>, b: seq<byte>, at: nat)
    requires |a| == |b| && a != b && DifferInWindow(MessageBits(a), MessageBits(b), at)
    ensures Checksum(a) != Checksum(b)
  {
    if MessageBits(a) == MessageBits(b) {
      MessageBitsInjective(a, b);
    }
    FeedDetectsBurst(Ones(32), MessageBits(a), MessageBits(b), at);
    if Checksum(a) == Checksum(b) {
      OutputInjective(Feed(Ones(32), MessageBits(a)), Feed(Ones(32), MessageBits(b)));
    }
  }
}
