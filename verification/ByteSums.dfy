/** Sums of bytes modulo 256, as both patchers of BIOS images take them: all bytes of a stretch but one,
    and the value that this one must have for the whole stretch to sum to zero. */
module ByteSums {
  import opened Basics

  /** The sum of n bytes from `at` on, leaving out number `skip`. */
  function SumSkip(d: seq<byte>, at: nat, n: nat, skip: nat): nat
    requires at + n <= |d|
  {
    if n == 0 then 0 else SumSkip(d, at, n - 1, skip) + (if n - 1 == skip then 0 else d[at + n - 1] as nat)
  }

  /** The sum of n bytes from `at` on. */
  function Sum(d: seq<byte>, at: nat, n: nat): nat
    requires at + n <= |d|
  {
    SumSkip(d, at, n, n)
  }

  lemma {:induction false} SumAround(d: seq<byte>, at: nat, n: nat, skip: nat, none: nat)
    requires at + n <= |d| && skip < n <= none
    ensures SumSkip(d, at, n, none) == SumSkip(d, at, n, skip) + d[at + skip] as nat
  {
    if n - 1 > skip {
      SumAround(d, at, n - 1, skip, none);
    } else {
      SumNone(d, at, n - 1, skip, none);
    }
  }

  lemma {:induction false} SumNone(d: seq<byte>, at: nat, n: nat, skip: nat, none: nat)
    requires at + n <= |d| && n <= skip && n <= none
    ensures SumSkip(d, at, n, none) == SumSkip(d, at, n, skip)
  {
    if n > 0 {
      SumNone(d, at, n - 1, skip, none);
    }
  }

  lemma {:induction false} SumSame(d: seq<byte>, e: seq<byte>, at: nat, n: nat, skip: nat)
    requires at + n <= |d| && |d| == |e|
    requires forall i :: at <= i < at + n && i != at + skip ==> d[i] == e[i]
    ensures SumSkip(d, at, n, skip) == SumSkip(e, at, n, skip)
  {
    if n > 0 {
      SumSame(d, e, at, n - 1, skip);
    }
  }

  function Negated(sum: nat): (b: byte) {
    ((0x100 - sum % 0x100) % 0x100) as byte
  }

  /** The byte that brings the sum of n bytes to zero when it is put at `skip`. */
  function Needed(d: seq<byte>, at: nat, n: nat, skip: nat): byte
    requires at + n <= |d|
  {
    Negated(SumSkip(d, at, n, skip))
  }

  lemma NeededBalances(d: seq<byte>, at: nat, n: nat, skip: nat)
    requires at + n <= |d| && skip < n
    ensures Sum(d, at, n) % 0x100 == 0 <==> d[at + skip] == Needed(d, at, n, skip)
  {
    SumAround(d, at, n, skip, n);
    var s := SumSkip(d, at, n, skip);
    assert s == s / 0x100 * 0x100 + s % 0x100;
  }

  lemma SumStep(d: seq<byte>, at: nat, i: nat, skip: nat, sum: nat)
    requires at + i < |d| && sum == SumSkip(d, at, i, skip) % 0x100
    ensures (if i == skip then sum else (sum + d[at + i] as nat) % 0x100) == SumSkip(d, at, i + 1, skip) % 0x100
  {
  }

  /** The loop of every checksum calculation. */
  method Balance(data: array<byte>, at: nat, len: nat, skip: nat) returns (value: byte)
    requires at + len <= data.Length
    ensures value == Needed(data[..], at, len, skip)
  {
    var sum: nat := 0;
    ghost var d := data[..];
    for i := 0 to len
      invariant sum == SumSkip(d, at, i, skip) % 0x100
    {
      SumStep(d, at, i, skip, sum);
      if i != skip {
        sum := (sum + data[at + i] as nat) % 0x100;
      }
    }
    value := Negated(sum);
  }
}
