/** The bit-serial shift register of the frame check sequence of section 3.2.9 of IEEE Std 802.3, as the
    remainder of a polynomial division over GF(2), and the errors it detects. The register is kept as
    32 separate bits; entry i is the coefficient of x^i. */
module BitSerialCrc {
  import opened Basics

  // ------------------------------------------------------------------ the bit-serial register

  /** The generator 0x04C11DB7 without its leading term. */
  predicate Tap(i: int) {
    i == 0 || i == 1 || i == 2 || i == 4 || i == 5 || i == 7 || i == 8 || i == 10 || i == 11 || i == 12
    || i == 16 || i == 22 || i == 23 || i == 26
  }

  /** One clock of the shift register: the bit falling out, added to the input, is the
      feedback into every tap. */
  function Step(s: seq<bool>, b: bool): (r: seq<bool>)
    requires |s| == 32
    ensures |r| == 32
  {
    var feedback := s[31] != b;
    seq(32, i requires 0 <= i < 32 => if i == 0 then feedback else s[i - 1] != (feedback && Tap(i)))
  }

  function Feed(s: seq<bool>, bits: seq<bool>): (r: seq<bool>)
    requires |s| == 32
    ensures |r| == 32
  {
    if bits == [] then s else Step(Feed(s, bits[..|bits| - 1]), bits[|bits| - 1])
  }

  lemma {:induction false} FeedAppend(s: seq<bool>, a: seq<bool>, b: seq<bool>)
    requires |s| == 32
    ensures Feed(s, a + b) == Feed(Feed(s, a), b)
    decreases |b|
  {
    if b == [] {
      assert a + b == a;
    } else {
      var init := b[..|b| - 1];
      assert (a + b)[..|a + b| - 1] == a + init;
      FeedAppend(s, a, init);
    }
  }

  // ------------------------------------------------------------------ polynomial division

  /** Coefficient i of the generator x^32 + x^26 + ... + 1. */
  predicate Gen(i: int) {
    i == 32 || Tap(i)
  }

  /** Coefficient i of the product of q (highest coefficient first) and the generator:
      Horner's rule, (q * x + c) * G = (q * G) * x + c * G. */
  predicate ProductAt(q: seq<bool>, i: int)
    decreases |q|
  {
    q != [] && ProductAt(q[..|q| - 1], i - 1) != (q[|q| - 1] && Gen(i))
  }

  /** Coefficient i of s * x^n + bits * x^32, n the number of bits: the message moved up by 32
      places with the initial register added to its first 32 coefficients. */
  predicate DividendAt(s: seq<bool>, bits: seq<bool>, i: int)
    requires |s| == 32
  {
    (|bits| <= i < |bits| + 32 && s[i - |bits|])
    != (32 <= i < 32 + |bits| && bits[|bits| - 1 - (i - 32)])
  }

  /** q * G + r, coefficient i. */
  predicate RecombinedAt(q: seq<bool>, r: seq<bool>, i: int)
    requires |r| == 32
  {
    ProductAt(q, i) != (0 <= i < 32 && r[i])
  }

  /** q and r are a quotient and a remainder of the dividend. */
  ghost predicate Divides(s: seq<bool>, bits: seq<bool>, q: seq<bool>, r: seq<bool>)
    requires |s| == 32
  {
    |q| == |bits| && |r| == 32 && forall i: int :: DividendAt(s, bits, i) == RecombinedAt(q, r, i)
  }

  /** The feedback bits are the quotient. */
  function Quotient(s: seq<bool>, bits: seq<bool>): (q: seq<bool>)
    requires |s| == 32
    ensures |q| == |bits|
  {
    if bits == [] then []
    else
      var init := bits[..|bits| - 1];
      Quotient(s, init) + [Feed(s, init)[31] != bits[|bits| - 1]]
  }

  lemma {:induction false} FeedDivides(s: seq<bool>, bits: seq<bool>)
    requires |s| == 32
    ensures Divides(s, bits, Quotient(s, bits), Feed(s, bits))
  {
    if bits != [] {
      var n := |bits| - 1;
      var init, b := bits[..n], bits[n];
      FeedDivides(s, init);
      var q, r := Quotient(s, bits), Feed(s, bits);
      assert q[..n] == Quotient(s, init);
      forall i: int ensures DividendAt(s, bits, i) == RecombinedAt(q, r, i) {
        assert DividendAt(s, init, i - 1) == RecombinedAt(q[..n], Feed(s, init), i - 1);
        assert DividendAt(s, bits, i) == (DividendAt(s, init, i - 1) != (i == 32 && b));
        assert ProductAt(q, i) == (ProductAt(q[..n], i - 1) != (q[n] && Gen(i)));
      }
    }
  }

  /** The highest coefficient of q multiplies the generator moved up the whole way. */
  lemma {:induction false} ProductFront(q: seq<bool>, i: int)
    requires q != []
    ensures ProductAt(q, i) == (ProductAt(q[1..], i) != (q[0] && Gen(i - (|q| - 1))))
    decreases |q|
  {
    var n := |q| - 1;
    if n > 0 {
      ProductFront(q[..n], i - 1);
      assert q[..n][1..] == q[1..][..n - 1];
    }
  }

  lemma {:induction false} ProductDegree(q: seq<bool>, i: int)
    requires i >= |q| + 32
    ensures !ProductAt(q, i)
    decreases |q|
  {
    if q != [] {
      ProductDegree(q[..|q| - 1], i - 1);
    }
  }

  /** Division by the generator has one result: equal sums have equal quotients and remainders. */
  lemma {:induction false} DivisionUnique(q: seq<bool>, r: seq<bool>, q': seq<bool>, r': seq<bool>)
    requires |q| == |q'| && |r| == 32 && |r'| == 32
    requires forall i: int :: RecombinedAt(q, r, i) == RecombinedAt(q', r', i)
    ensures q == q' && r == r'
    decreases |q|
  {
    if q == [] {
      forall i | 0 <= i < 32 ensures r[i] == r'[i] {
        assert RecombinedAt(q, r, i) == RecombinedAt(q', r', i);
      }
    } else {
      var top := |q| + 31;
      assert RecombinedAt(q, r, top) == RecombinedAt(q', r', top);
      ProductFront(q, top);
      ProductFront(q', top);
      ProductDegree(q[1..], top);
      ProductDegree(q'[1..], top);
      assert q[0] == q'[0];
      forall i: int ensures RecombinedAt(q[1..], r, i) == RecombinedAt(q'[1..], r', i) {
        assert RecombinedAt(q, r, i) == RecombinedAt(q', r', i);
        ProductFront(q, i);
        ProductFront(q', i);
      }
      DivisionUnique(q[1..], r, q'[1..], r');
      assert q == [q[0]] + q[1..] && q' == [q'[0]] + q'[1..];
    }
  }

  /** The register holds the remainder of the division and nothing else does: for every quotient
      and remainder of the message, the remainder is what the register holds. */
  lemma FeedIsTheRemainder(s: seq<bool>, bits: seq<bool>, q: seq<bool>, r: seq<bool>)
    requires |s| == 32
    ensures Divides(s, bits, q, r) <==> q == Quotient(s, bits) && r == Feed(s, bits)
  {
    FeedDivides(s, bits);
    if Divides(s, bits, q, r) {
      var q0, r0 := Quotient(s, bits), Feed(s, bits);
      forall i: int ensures RecombinedAt(q, r, i) == RecombinedAt(q0, r0, i) {
        assert DividendAt(s, bits, i) == RecombinedAt(q, r, i);
      }
      DivisionUnique(q, r, q0, r0);
    }
  }

  // ------------------------------------------------------------------ linearity and bursts

  function Xor(a: seq<bool>, b: seq<bool>): (r: seq<bool>)
    requires |a| == |b|
    ensures |r| == |a|
    ensures forall i :: 0 <= i < |a| ==> r[i] == (a[i] != b[i])
  {
    seq(|a|, i requires 0 <= i < |a| => a[i] != b[i])
  }

  function Zeros(n: nat): (z: seq<bool>)
    ensures |z| == n && forall i :: 0 <= i < n ==> !z[i]
  {
    seq(n, _ => false)
  }

  function Ones(n: nat): (z: seq<bool>)
    ensures |z| == n && forall i :: 0 <= i < n ==> z[i]
  {
    seq(n, _ => true)
  }

  lemma {:induction false} FeedLinear(s: seq<bool>, t: seq<bool>, u: seq<bool>, v: seq<bool>)
    requires |s| == |t| == 32 && |u| == |v|
    ensures Feed(Xor(s, t), Xor(u, v)) == Xor(Feed(s, u), Feed(t, v))
    decreases |u|
  {
    if u != [] {
      var n := |u| - 1;
      FeedLinear(s, t, u[..n], v[..n]);
      assert Xor(u, v)[..n] == Xor(u[..n], v[..n]);
    }
  }

  /** A step can be undone: the lowest bit is the feedback, because x^0 is a tap. */
  lemma StepInjective(s: seq<bool>, t: seq<bool>, b: bool)
    requires |s| == |t| == 32
    requires Step(s, b) == Step(t, b)
    ensures s == t
  {
    var r := Step(s, b);
    assert r[0] == (s[31] != b) && Step(t, b)[0] == (t[31] != b);
    forall i | 0 <= i < 31 ensures s[i] == t[i] {
      assert r[i + 1] == (s[i] != (r[0] && Tap(i + 1)));
      assert Step(t, b)[i + 1] == (t[i] != (r[0] && Tap(i + 1)));
    }
  }

  lemma {:induction false} FeedInjective(s: seq<bool>, t: seq<bool>, bits: seq<bool>)
    requires |s| == |t| == 32
    requires Feed(s, bits) == Feed(t, bits)
    ensures s == t
    decreases |bits|
  {
    if bits != [] {
      var n := |bits| - 1;
      StepInjective(Feed(s, bits[..n]), Feed(t, bits[..n]), bits[n]);
      FeedInjective(s, t, bits[..n]);
    }
  }

  lemma {:induction false} FeedZeros(n: nat)
    ensures Feed(Zeros(32), Zeros(n)) == Zeros(32)
  {
    if n > 0 {
      FeedZeros(n - 1);
      assert Zeros(n)[..n - 1] == Zeros(n - 1);
    }
  }

  /** At most 32 bits laid into the register, first bit at the top. */
  function Load(w: seq<bool>): (s: seq<bool>)
    requires |w| <= 32
    ensures |s| == 32
  {
    seq(32, i requires 0 <= i < 32 => 31 - i < |w| && w[31 - i])
  }

  lemma FeedFirst(s: seq<bool>, w: seq<bool>)
    requires |s| == 32 && w != []
    ensures Feed(s, w) == Feed(Step(s, w[0]), w[1..])
  {
    assert w == w[..1] + w[1..];
    FeedAppend(s, w[..1], w[1..]);
    assert w[..1][..0] == [] && w[..1][0] == w[0];
  }

  lemma StepLoaded(s: seq<bool>, w: seq<bool>)
    requires |s| == 32 && 0 < |w| <= 32
    ensures Step(Xor(s, Load(w)), false) == Xor(Step(s, w[0]), Load(w[1..]))
  {
    var l, r := Step(Xor(s, Load(w)), false), Xor(Step(s, w[0]), Load(w[1..]));
    forall i | 0 <= i < 32 ensures l[i] == r[i] {
      assert Load(w)[31] == w[0];
      if i > 0 {
        assert Load(w)[i - 1] == Load(w[1..])[i];
      }
    }
  }

  /** Feeding at most 32 bits is the same as adding them to the register and feeding zeros. */
  lemma {:induction false} FeedLoaded(s: seq<bool>, w: seq<bool>)
    requires |s| == 32 && |w| <= 32
    ensures Feed(s, w) == Feed(Xor(s, Load(w)), Zeros(|w|))
    decreases |w|
  {
    var x := Xor(s, Load(w));
    if w == [] {
      assert x == s;
    } else {
      FeedFirst(s, w);
      FeedFirst(x, Zeros(|w|));
      assert Zeros(|w|)[1..] == Zeros(|w| - 1);
      StepLoaded(s, w);
      FeedLoaded(Step(s, w[0]), w[1..]);
    }
  }

  lemma LoadedBit(w: seq<bool>, i: nat)
    requires i < |w| <= 32 && w[i]
    ensures Xor(Zeros(32), Load(w)) != Zeros(32)
  {
    assert Load(w)[31 - i];
    assert Xor(Zeros(32), Load(w))[31 - i];
  }

  lemma ZeroFeedsOnlyZero(x: seq<bool>, n: nat)
    requires |x| == 32 && x != Zeros(32)
    ensures Feed(x, Zeros(n)) != Zeros(32)
  {
    FeedZeros(n);
    if Feed(x, Zeros(n)) == Feed(Zeros(32), Zeros(n)) {
      FeedInjective(x, Zeros(32), Zeros(n));
    }
  }

  /** At most 32 bits, not all zero, never leave a zero register at zero. */
  lemma ShortBurstStays(w: seq<bool>, i: nat)
    requires i < |w| <= 32 && w[i]
    ensures Feed(Zeros(32), w) != Zeros(32)
  {
    FeedLoaded(Zeros(32), w);
    LoadedBit(w, i);
    ZeroFeedsOnlyZero(Xor(Zeros(32), Load(w)), |w|);
  }

  lemma FeedAmongZeros(before: nat, w: seq<bool>, after: nat)
    requires Feed(Zeros(32), w) != Zeros(32)
    ensures Feed(Zeros(32), Zeros(before) + w + Zeros(after)) != Zeros(32)
  {
    FeedAppend(Zeros(32), Zeros(before) + w, Zeros(after));
    FeedAppend(Zeros(32), Zeros(before), w);
    FeedZeros(before);
    ZeroFeedsOnlyZero(Feed(Zeros(32), w), after);
  }

  /** The two bit strings agree outside [at, at + 32). */
  ghost predicate DifferInWindow(u: seq<bool>, v: seq<bool>, at: nat)
  {
    |u| == |v| && forall i :: 0 <= i < |u| && u[i] != v[i] ==> at <= i < at + 32
  }

  /** A difference confined to a window is a short burst among zeros. */
  lemma WindowSplit(u: seq<bool>, v: seq<bool>, at: nat, i: nat) returns (w: seq<bool>, before: nat, after: nat)
    requires DifferInWindow(u, v, at) && i < |u| && u[i] != v[i]
    ensures Xor(u, v) == Zeros(before) + w + Zeros(after)
    ensures before <= i && i - before < |w| <= 32 && w[i - before]
  {
    var n := |u|;
    var hi := if at + 32 < n then at + 32 else n;
    w, before, after := Xor(u, v)[at..hi], at, n - hi;
  }

  lemma FeedDifference(s: seq<bool>, u: seq<bool>, v: seq<bool>)
    requires |s| == 32 && |u| == |v| && Feed(s, u) == Feed(s, v)
    ensures Feed(Zeros(32), Xor(u, v)) == Zeros(32)
  {
    FeedLinear(s, s, u, v);
    assert Xor(s, s) == Zeros(32);
    assert Xor(Feed(s, u), Feed(s, v)) == Zeros(32);
  }

  /** Every burst error of at most 32 bits changes the register, whatever it started from. */
  lemma FeedDetectsBurst(s: seq<bool>, u: seq<bool>, v: seq<bool>, at: nat)
    requires |s| == 32 && DifferInWindow(u, v, at) && u != v
    ensures Feed(s, u) != Feed(s, v)
  {
    var i :| 0 <= i < |u| && u[i] != v[i];
    var w, before, after := WindowSplit(u, v, at, i);
    ShortBurstStays(w, i - before);
    FeedAmongZeros(before, w, after);
    if Feed(s, u) == Feed(s, v) {
      FeedDifference(s, u, v);
    }
  }
}
