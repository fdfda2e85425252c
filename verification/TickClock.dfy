/** The tick counter at 0040:006C of the system BIOS (sw/sysbios/rombios.c): set from the real-time
    clock at boot, counted by the timer interrupt, and waited on across midnight. */
module TickClock {
  import opened Basics

  /** Ticks in a day: the counter never reaches this value. */
  const DAY := 0x1800B0
  const TWO32 := 0x1_0000_0000

  /** Two binary-coded decimal digits; any byte has a value, valid or not. */
  function BcdToBin(al: nat): nat {
    al / 16 * 10 + al % 16
  }

  /** The two decimal digits of a number. */
  function Bcd(v: nat): (al: nat)
    requires v < 100
  {
    v / 10 * 16 + v % 10
  }

  lemma BcdMeans(v: nat)
    requires v < 100
    ensures BcdToBin(Bcd(v)) == v
  {
  }

  /** The three bytes show the time h:m:s. */
  predicate Reads(hours: nat, minutes: nat, seconds: nat, h: nat, m: nat, s: nat) {
    h < 24 && m < 60 && s < 60 && hours == Bcd(h) && minutes == Bcd(m) && seconds == Bcd(s)
  }

  lemma StartsAt(hours: nat, minutes: nat, seconds: nat, h: nat, m: nat, s: nat)
    requires Reads(hours, minutes, seconds, h, m, s)
    ensures SecondOfDay(hours, minutes, seconds) * RATE / TWO32
         == ((h * 60 + m) * 60 + s) * (18 * 0x1_0000_0000 + 886942379) / 0x1_0000_0000
  {
    BcdMeans(h);
    BcdMeans(m);
    BcdMeans(s);
    assert SecondOfDay(hours, minutes, seconds) == (h * 60 + m) * 60 + s;
  }

  predicate ValidBcd(al: nat, limit: nat) {
    al < 0x100 && al / 16 < 10 && al % 16 < 10 && BcdToBin(al) < limit
  }

  function SecondOfDay(hours: nat, minutes: nat, seconds: nat): nat {
    (BcdToBin(hours) * 60 + BcdToBin(minutes)) * 60 + BcdToBin(seconds)
  }

  /** The factor in ticks per second, as a fixed-point number with 32 fractional bits. */
  const RATE := 18 * TWO32 + 886942379

  /** Multiplying the whole and the fractional part of the rate separately loses nothing. */
  lemma SplitRate(s: nat)
    ensures s * RATE / TWO32 == s * 18 + s * 886942379 / TWO32
  {
    var q, r := s * 886942379 / TWO32, s * 886942379 % TWO32;
    assert s * RATE == (s * 18 + q) * TWO32 + r;
  }

  lemma BelowDay(s: nat)
    requires s < 86400
    ensures s * 18 + s * 886942379 / TWO32 < DAY
  {
    assert s * 886942379 <= 86399 * 886942379 < 17843 * TWO32;
  }

  lemma SecondBound(hours: nat, minutes: nat, seconds: nat)
    requires ValidBcd(hours, 24) && ValidBcd(minutes, 60) && ValidBcd(seconds, 60)
    ensures SecondOfDay(hours, minutes, seconds) < 86400
  {
  }

  /** The computation of timer_tick_post, register by register. */
  method TicksAtBoot(hours: nat, minutes: nat, seconds: nat) returns (ecx: nat)
    requires hours < 0x100 && minutes < 0x100 && seconds < 0x100
    ensures ecx == SecondOfDay(hours, minutes, seconds) * RATE / TWO32
  {
    var eax := BcdToBin(hours) * 60;
    var edx := eax;
    eax := (BcdToBin(minutes) + edx) * 60;
    edx := eax;
    eax := BcdToBin(seconds) + edx;
    assert eax == SecondOfDay(hours, minutes, seconds);
    SplitRate(eax);
    ecx := eax * 18;
    edx := eax * 886942379 / TWO32;
    ecx := ecx + edx;
  }

  /** timer_tick_post: for every time of day the counter starts at the number of whole ticks since
      midnight, which lies below a day. */
  method Boot(hours: nat, minutes: nat, seconds: nat) returns (clock: Clock)
    requires ValidBcd(hours, 24) && ValidBcd(minutes, 60) && ValidBcd(seconds, 60)
    ensures fresh(clock) && clock.Valid() && clock.midnights == 0
    ensures clock.ticks == SecondOfDay(hours, minutes, seconds) * RATE / TWO32
    ensures forall h: nat, m: nat, s: nat :: Reads(hours, minutes, seconds, h, m, s) ==>
      clock.ticks == ((h * 60 + m) * 60 + s) * (18 * 0x1_0000_0000 + 886942379) / 0x1_0000_0000
  {
    var ecx := TicksAtBoot(hours, minutes, seconds);
    SecondBound(hours, minutes, seconds);
    SplitRate(SecondOfDay(hours, minutes, seconds));
    BelowDay(SecondOfDay(hours, minutes, seconds));
    clock := new Clock(ecx);
    forall h: nat, m: nat, s: nat | Reads(hours, minutes, seconds, h, m, s)
      ensures ecx == ((h * 60 + m) * 60 + s) * (18 * 0x1_0000_0000 + 886942379) / 0x1_0000_0000
    {
      StartsAt(hours, minutes, seconds, h, m, s);
    }
  }

  // ------------------------------------------------------------------ what a delay counts

  /** The timer interrupts that have come in over the first n wake-ups. */
  function Elapsed(wakes: seq<nat>, n: nat): nat
    requires n <= |wakes|
  {
    if n == 0 then 0 else Elapsed(wakes, n - 1) + wakes[n - 1]
  }

  /** What one wake-up takes off the delay when the counter has gone from `before` to `after`. */
  function Counted(before: nat, after: nat): nat {
    if after > before then after - before else if after < before then after else 0
  }

  /** The counter after the first n wake-ups, having started at `start`. */
  function TickAt(start: nat, wakes: seq<nat>, n: nat): nat
    requires n <= |wakes|
  {
    if n == 0 then start else (TickAt(start, wakes, n - 1) + wakes[n - 1]) % DAY
  }

  /** The midnights that have passed. */
  function Midnights(start: nat, wakes: seq<nat>, n: nat): nat
    requires n <= |wakes|
  {
    if n == 0 then 0 else Midnights(start, wakes, n - 1) + (TickAt(start, wakes, n - 1) + wakes[n - 1]) / DAY
  }

  /** What the first n wake-ups have taken off. */
  function CountedIn(start: nat, wakes: seq<nat>, n: nat): nat
    requires n <= |wakes|
  {
    if n == 0 then 0
    else CountedIn(start, wakes, n - 1) + Counted(TickAt(start, wakes, n - 1), TickAt(start, wakes, n))
  }

  /** No tick goes astray between the counter and the midnights. */
  lemma {:induction false} TicksKept(start: nat, wakes: seq<nat>, n: nat)
    requires n <= |wakes| && start < DAY
    ensures TickAt(start, wakes, n) < DAY
    ensures start + Elapsed(wakes, n) == Midnights(start, wakes, n) * DAY + TickAt(start, wakes, n)
  {
    if n > 0 { TicksKept(start, wakes, n - 1); }
  }

  /** One wake-up takes off no more than the w interrupts that came in, and all of them exactly when
      none of them was midnight; what is lost is at most w for each midnight, and exactly the ticks
      that were left until midnight when less than a day has passed. */
  lemma CountedAtWake(t: nat, w: nat)
    requires t < DAY
    ensures var counted := Counted(t, (t + w) % DAY);
            && counted <= w
            && (counted == w <==> t + w < DAY)
            && w - counted <= w * ((t + w) / DAY)
            && (t + w >= DAY && w < DAY ==> w - counted == DAY - t)
  {
    var q, after := (t + w) / DAY, (t + w) % DAY;
    assert t + w == q * DAY + after;
    if q > 0 {
      MulMono(1, q, w);
    }
  }

  predicate AtMost(wakes: seq<nat>, m: nat) {
    forall i :: 0 <= i < |wakes| ==> wakes[i] <= m
  }

  lemma OneAtATime(t: nat, w: nat)
    requires t < DAY && w <= 1
    ensures w - Counted(t, (t + w) % DAY) == (t + w) / DAY
  {
  }

  /** Nothing is counted twice. */
  lemma {:induction false} NeverTwice(start: nat, wakes: seq<nat>, n: nat)
    requires n <= |wakes| && start < DAY
    ensures CountedIn(start, wakes, n) <= Elapsed(wakes, n)
  {
    if n > 0 {
      NeverTwice(start, wakes, n - 1);
      CountedLast(start, wakes, n);
    }
  }

  lemma CountedLast(start: nat, wakes: seq<nat>, n: nat)
    requires 0 < n <= |wakes| && start < DAY
    ensures var w, counted := wakes[n - 1], CountedIn(start, wakes, n) - CountedIn(start, wakes, n - 1);
            && 0 <= counted <= w
            && Midnights(start, wakes, n - 1) <= Midnights(start, wakes, n)
            && w - counted <= w * (Midnights(start, wakes, n) - Midnights(start, wakes, n - 1))
  {
    TicksKept(start, wakes, n - 1);
    CountedAtWake(TickAt(start, wakes, n - 1), wakes[n - 1]);
  }

  lemma LossAdds(elapsed: nat, counted: nat, w: nat, more: nat, m: nat, before: nat, now: nat)
    requires elapsed <= counted + m * before && before <= now && w <= m && w - more <= w * (now - before)
    ensures elapsed + w <= counted + more + m * now
  {
    MulMono(w, m, now - before);
    assert m * now == m * before + m * (now - before);
  }

  /** Wake-ups that bring at most m interrupts lose at most m for each midnight. */
  lemma {:induction false} LossBound(start: nat, wakes: seq<nat>, n: nat, m: nat)
    requires n <= |wakes| && AtMost(wakes, m) && start < DAY
    ensures Elapsed(wakes, n) <= CountedIn(start, wakes, n) + m * Midnights(start, wakes, n)
  {
    if n > 0 {
      LossBound(start, wakes, n - 1, m);
      CountedLast(start, wakes, n);
      LossAdds(Elapsed(wakes, n - 1), CountedIn(start, wakes, n - 1), wakes[n - 1],
               CountedIn(start, wakes, n) - CountedIn(start, wakes, n - 1), m,
               Midnights(start, wakes, n - 1), Midnights(start, wakes, n));
    }
  }

  /** Brought one at a time, exactly one is lost at each midnight. */
  lemma {:induction false} LossOneByOne(start: nat, wakes: seq<nat>, n: nat)
    requires n <= |wakes| && AtMost(wakes, 1) && start < DAY
    ensures Elapsed(wakes, n) == CountedIn(start, wakes, n) + Midnights(start, wakes, n)
  {
    if n > 0 {
      LossOneByOne(start, wakes, n - 1);
      TicksKept(start, wakes, n - 1);
      OneAtATime(TickAt(start, wakes, n - 1), wakes[n - 1]);
    }
  }

  /** The wake-up after which the delay ends: the first one after which enough has been counted. */
  predicate EndsAt(start: nat, wakes: seq<nat>, ticksWanted: nat, k: nat) {
    0 < k <= |wakes| && CountedIn(start, wakes, k) >= ticksWanted && NotBefore(start, wakes, ticksWanted, k - 1)
  }

  /** The delay does not end within the first n wake-ups. */
  predicate NotBefore(start: nat, wakes: seq<nat>, ticksWanted: nat, n: nat)
    requires n <= |wakes|
  {
    forall j :: 0 < j <= n ==> CountedIn(start, wakes, j) < ticksWanted
  }

  /** How late a delay ends whose wake-ups bring at most m interrupts each: less than m interrupts
      late, and at most another m for each midnight. It never ends early. */
  lemma DelayBounds(start: nat, wakes: seq<nat>, ticksWanted: nat, k: nat, m: nat)
    requires start < DAY && EndsAt(start, wakes, ticksWanted, k) && AtMost(wakes, m)
    ensures var elapsed, midnights := Elapsed(wakes, k), Midnights(start, wakes, k);
            && ticksWanted <= elapsed
            && (ticksWanted > 0 ==> elapsed < ticksWanted + m + m * midnights)
            && (ticksWanted > 0 && m == 1 ==> elapsed == ticksWanted + midnights)
  {
    NeverTwice(start, wakes, k);
    LossBound(start, wakes, k, m);
    if m == 1 { LossOneByOne(start, wakes, k); }
    CountedLast(start, wakes, k);
    assert k > 1 ==> CountedIn(start, wakes, k - 1) < ticksWanted;
  }

  /** And it does end, once enough interrupts have come in to make up for those lost. */
  lemma DelayEnds(start: nat, wakes: seq<nat>, ticksWanted: nat, m: nat)
    requires start < DAY && wakes != [] && AtMost(wakes, m)
    requires Elapsed(wakes, |wakes|) >= ticksWanted + m * Midnights(start, wakes, |wakes|)
    ensures exists k :: EndsAt(start, wakes, ticksWanted, k)
  {
    LossBound(start, wakes, |wakes|, m);
    FirstEnough(start, wakes, ticksWanted, |wakes|);
  }

  lemma {:induction false} FirstEnough(start: nat, wakes: seq<nat>, ticksWanted: nat, n: nat)
    requires 0 < n <= |wakes| && CountedIn(start, wakes, n) >= ticksWanted
    ensures exists k :: EndsAt(start, wakes, ticksWanted, k)
  {
    if j :| 0 < j < n && CountedIn(start, wakes, j) >= ticksWanted {
      FirstEnough(start, wakes, ticksWanted, j);
    } else {
      assert EndsAt(start, wakes, ticksWanted, n);
    }
  }

  // ------------------------------------------------------------------ the counter

  lemma TickOn(start: nat, i: nat)
    ensures ((start + i) % DAY + 1) % DAY == (start + i + 1) % DAY
    ensures (start + i + 1) / DAY == (start + i) / DAY + (if (start + i + 1) % DAY == 0 then 1 else 0)
  {
    var q, r := (start + i) / DAY, (start + i) % DAY;
    assert start + i + 1 == q * DAY + (r + 1);
  }

  class Clock {
    var ticks: nat
    var rollover: nat
    ghost var midnights: nat

    ghost predicate Valid()
      reads this
    {
      ticks < DAY && rollover < 0x100 && rollover == midnights % 0x100
    }

    constructor (start: nat)
      requires start < DAY
      ensures Valid() && ticks == start && midnights == 0
    {
      ticks, rollover, midnights := start, 0, 0;
    }

    /** int08_handler: the counter moves on and starts again at midnight. */
    method Int08()
      requires Valid()
      modifies this
      ensures Valid() && ticks == (old(ticks) + 1) % DAY && ticks < 0x1800B0
      ensures ticks == 0 <==> old(ticks) + 1 == 0x1800B0
      ensures midnights == old(midnights) + (if ticks == 0 then 1 else 0)
    {
      var eax := ticks + 1;
      if eax >= DAY {
        eax := 0;
        rollover := (rollover + 1) % 0x100;
        midnights := midnights + 1;
      }
      ticks := eax;
    }

    /** Any number of timer interrupts, at once or spread over years. */
    method Interrupts(n: nat)
      requires Valid()
      modifies this
      ensures Valid() && ticks == (old(ticks) + n) % DAY
      ensures midnights == old(midnights) + (old(ticks) + n) / DAY
    {
      for i := 0 to n
        invariant Valid() && ticks == (old(ticks) + i) % DAY
        invariant midnights == old(midnights) + (old(ticks) + i) / DAY
      {
        TickOn(old(ticks), i);
        Int08();
      }
    }

    /** One round of the delay: the processor halts until n timer interrupts have come in. */
    method Wake(n: nat, prevTicks: nat, ticksToWait: int) returns (t: nat, left: int)
      requires Valid() && prevTicks == ticks
      modifies this
      ensures Valid() && t == ticks == (prevTicks + n) % DAY && midnights == old(midnights) + (prevTicks + n) / DAY
      ensures left == ticksToWait - Counted(prevTicks, t)
    {
      Interrupts(n);
      t, left := ticks, ticksToWait;
      if t > prevTicks {
        var delta := t - prevTicks;
        left := left - delta;
      } else if t < prevTicks {
        left := left - t;
      }
    }

    /** delay_ticks. wakes[i] is the number of timer interrupts that have come in when the processor
        wakes for the i-th time. The delay ends at the first wake-up after which enough has been
        counted, and at no other; until then it has not ended. */
    method DelayTicks(ticksWanted: nat, wakes: seq<nat>) returns (done: bool, waited: nat)
      requires Valid() && ticksWanted < 0x1_0000
      modifies this
      ensures Valid() && waited <= |wakes|
      ensures ticks == TickAt(old(ticks), wakes, waited)
      ensures midnights == old(midnights) + Midnights(old(ticks), wakes, waited)
      ensures done ==> EndsAt(old(ticks), wakes, ticksWanted, waited)
      ensures !done ==> waited == |wakes| && NotBefore(old(ticks), wakes, ticksWanted, waited)
    {
      var ticksToWait: int := ticksWanted;
      var prevTicks := ticks;
      waited := 0;
      ghost var start, m0 := ticks, midnights;
      while true
        invariant Valid() && waited <= |wakes| && prevTicks == ticks
        invariant ticks == TickAt(start, wakes, waited) && midnights == m0 + Midnights(start, wakes, waited)
        invariant ticksToWait == ticksWanted - CountedIn(start, wakes, waited)
        invariant NotBefore(start, wakes, ticksWanted, waited)
        decreases |wakes| - waited
      {
        if waited == |wakes| { return false, waited; }
        prevTicks, ticksToWait := Wake(wakes[waited], prevTicks, ticksToWait);
        waited := waited + 1;
        if ticksToWait <= 0 { return true, waited; }
      }
    }

    /** The delay as its callers see it, with wake-ups that bring at most m interrupts each: it never
        ends before the requested number; when it ends it is late by less than m and by less than m more
        for each midnight, and while it has not ended fewer than that have come in. */
    method Delay(ticksWanted: nat, wakes: seq<nat>, ghost m: nat) returns (done: bool, waited: nat)
      requires Valid() && ticksWanted < 0x1_0000 && AtMost(wakes, m)
      modifies this
      ensures Valid() && waited <= |wakes| && (!done ==> waited == |wakes|)
      ensures var elapsed, passed := Elapsed(wakes, waited), midnights - old(midnights);
              && (done ==> waited > 0 && ticksWanted <= elapsed)
              && (done && ticksWanted == 0 ==> waited == 1)
              && (done && ticksWanted > 0 ==> elapsed < ticksWanted + m + m * passed)
              && (done && ticksWanted > 0 && m == 1 ==> elapsed == ticksWanted + passed)
              && (!done && waited > 0 ==> elapsed < ticksWanted + m * passed)
    {
      ghost var start := ticks;
      done, waited := DelayTicks(ticksWanted, wakes);
      if done {
        DelayBounds(start, wakes, ticksWanted, waited, m);
        assert waited > 1 ==> CountedIn(start, wakes, 1) < ticksWanted;
      } else {
        LossBound(start, wakes, waited, m);
      }
    }
  }
}
