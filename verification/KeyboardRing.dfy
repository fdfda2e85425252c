/** The keyboard ring of the BIOS data area (sw/sysbios/rombios.c), filled by the keyboard interrupt
    and drained by INT 16h, with interrupts arriving between the accesses of the drain. */
module KeyboardRing {
  import opened Basics

  datatype Key = Key(ascii: byte, scan: byte)

  const HEAD := 0x1A
  const TAIL := 0x1C
  const FIRST := 0x1E
  const LIMIT := 0x3E
  const START_FIELD := 0x80
  const END_FIELD := 0x82
  const CAPACITY := 15

  predicate Position(p: nat) {
    FIRST <= p < LIMIT && p % 2 == 0
  }

  function Next(p: nat): nat {
    if p + 2 >= LIMIT then FIRST else p + 2
  }

  /** The steps from h to t around the ring. */
  function Distance(h: nat, t: nat): nat
    requires Position(h) && Position(t)
  {
    if t >= h then (t - h) / 2 else (t + (LIMIT - FIRST) - h) / 2
  }

  function WordAt(m: seq<byte>, at: nat): nat
    requires at + 1 < |m|
  {
    m[at] as nat + 0x100 * m[at + 1] as nat
  }

  /** The keys stored from h up to but not including t. */
  function Keys(m: seq<byte>, h: nat, t: nat): (keys: seq<Key>)
    requires |m| >= LIMIT && Position(h) && Position(t)
    ensures |keys| == Distance(h, t) <= CAPACITY
    decreases Distance(h, t)
  {
    if h == t then [] else [Key(m[h], m[h + 1])] + Keys(m, Next(h), t)
  }

  /** Storing a key at the tail and moving the tail on adds it at the end, as long as the tail does
      not run into the head. */
  lemma {:induction false} KeysSnoc(m: seq<byte>, m': seq<byte>, h: nat, t: nat)
    requires |m| == |m'| >= LIMIT && Position(h) && Position(t) && Next(t) != h
    requires forall i :: FIRST <= i < LIMIT && i != t && i != t + 1 ==> m'[i] == m[i]
    ensures Keys(m', h, Next(t)) == Keys(m, h, t) + [Key(m'[t], m'[t + 1])]
    decreases Distance(h, t)
  {
    if h == t {
      assert Keys(m', Next(t), Next(t)) == [];
    } else {
      KeysSnoc(m, m', Next(h), t);
    }
  }

  lemma {:induction false} KeysSame(m: seq<byte>, m': seq<byte>, h: nat, t: nat)
    requires |m| == |m'| >= LIMIT && Position(h) && Position(t)
    requires forall i :: FIRST <= i < LIMIT ==> m'[i] == m[i]
    ensures Keys(m', h, t) == Keys(m, h, t)
    decreases Distance(h, t)
  {
    if h != t {
      KeysSame(m, m', Next(h), t);
    }
  }

  /** The ring is full exactly when one more key would make head and tail meet. */
  lemma FullWhenTailMeetsHead(h: nat, t: nat)
    requires Position(h) && Position(t)
    ensures Distance(h, t) <= CAPACITY
    ensures Next(t) == h <==> Distance(h, t) == CAPACITY
  {
  }

  // ------------------------------------------------------------------ the data area as a value

  function WithWord(m: seq<byte>, at: nat, w: nat): (m': seq<byte>)
    requires at + 1 < |m| && w < 0x1_0000
    ensures |m'| == |m|
  {
    m[at := (w % 0x100) as byte][at + 1 := (w / 0x100) as byte]
  }

  predicate Layout(m: seq<byte>) {
    && |m| == 0x100 && WordAt(m, START_FIELD) == FIRST && WordAt(m, END_FIELD) == LIMIT
    && Position(WordAt(m, HEAD)) && Position(WordAt(m, TAIL))
  }

  /** The keys waiting, oldest first. */
  function Waiting(m: seq<byte>): (keys: seq<Key>)
    requires Layout(m)
    ensures |keys| <= CAPACITY
    ensures keys == [] <==> WordAt(m, HEAD) == WordAt(m, TAIL)
    ensures keys != [] ==> keys[0] == Key(m[WordAt(m, HEAD)], m[WordAt(m, HEAD) + 1])
  {
    Keys(m, WordAt(m, HEAD), WordAt(m, TAIL))
  }

  function Stored(m: seq<byte>, key: Key): (m': seq<byte>)
    requires Layout(m)
    ensures |m'| == |m|
  {
    var tail := WordAt(m, TAIL);
    WithWord(m[tail := key.ascii][tail + 1 := key.scan], TAIL, Next(tail))
  }

  function Removed(m: seq<byte>): (m': seq<byte>)
    requires Layout(m)
    ensures |m'| == |m|
  {
    WithWord(m, HEAD, Next(WordAt(m, HEAD)))
  }

  lemma WordStored(m: seq<byte>, at: nat, w: nat, other: nat)
    requires at + 1 < |m| && other + 1 < |m| && w < 0x1_0000
    ensures WordAt(WithWord(m, at, w), at) == w
    ensures other + 1 < at || at + 1 < other ==> WordAt(WithWord(m, at, w), other) == WordAt(m, other)
  {
  }

  lemma StoredLayout(m: seq<byte>, key: Key)
    requires Layout(m)
    ensures Layout(Stored(m, key)) && WordAt(Stored(m, key), HEAD) == WordAt(m, HEAD)
    ensures WordAt(Stored(m, key), TAIL) == Next(WordAt(m, TAIL))
  {
    var tail := WordAt(m, TAIL);
    var n := m[tail := key.ascii][tail + 1 := key.scan];
    WordStored(n, TAIL, Next(tail), HEAD);
    WordStored(n, TAIL, Next(tail), START_FIELD);
    WordStored(n, TAIL, Next(tail), END_FIELD);
  }

  lemma StoredKey(m: seq<byte>, key: Key)
    requires Layout(m) && |Waiting(m)| < CAPACITY
    ensures Layout(Stored(m, key)) && WordAt(Stored(m, key), HEAD) == WordAt(m, HEAD)
    ensures Waiting(Stored(m, key)) == Waiting(m) + [key]
  {
    var head, tail := WordAt(m, HEAD), WordAt(m, TAIL);
    StoredLayout(m, key);
    FullWhenTailMeetsHead(head, tail);
    KeysSnoc(m, Stored(m, key), head, tail);
  }

  lemma RemovedKey(m: seq<byte>)
    requires Layout(m) && Waiting(m) != []
    ensures Layout(Removed(m)) && Waiting(m) == [Waiting(m)[0]] + Waiting(Removed(m))
  {
    KeysSame(m, Removed(m), Next(WordAt(m, HEAD)), WordAt(m, TAIL));
  }

  // ------------------------------------------------------------------ the buffer object

  /** The keyboard part of the BIOS data area. `accepted` and `taken` record the keys that enqueue_key
      has stored and that dequeue_key has removed since the start. */
  class KeyboardBuffer {
    const bda: array<byte>
    ghost var accepted: seq<Key>
    ghost var taken: seq<Key>

    /** Head and tail stay in place and even; the keys taken followed by the keys waiting, at most
        fifteen, are the keys accepted. */
    ghost predicate Valid()
      reads this, bda
    {
      Layout(bda[..]) && accepted == taken + Waiting(bda[..])
    }

    /** The keyboard set-up of the POST code. */
    constructor ()
      ensures Valid() && fresh(bda) && accepted == taken == []
      ensures bda[0x1A] == bda[0x1C] == bda[0x80] == 0x1E && bda[0x82] == 0x3E
      ensures bda[0x1B] == bda[0x1D] == bda[0x81] == bda[0x83] == 0
    {
      bda := new byte[0x100](i => if i == HEAD || i == TAIL || i == START_FIELD then 0x1E
                                  else if i == END_FIELD then 0x3E else 0);
      accepted, taken := [], [];
    }

    method ReadWord(at: nat) returns (w: nat)
      requires at + 1 < bda.Length
      ensures w == WordAt(bda[..], at)
    {
      w := bda[at] as nat + 0x100 * bda[at + 1] as nat;
    }

    method WriteWord(at: nat, w: nat)
      requires at + 1 < bda.Length && w < 0x1_0000
      modifies bda
      ensures bda[..] == WithWord(old(bda[..]), at, w)
    {
      bda[at] := (w % 0x100) as byte;
      bda[at + 1] := (w / 0x100) as byte;
    }

    /** enqueue_key, run by the interrupt as a whole. A key is dropped exactly when fifteen wait. */
    method Enqueue(key: Key) returns (stored: bool)
      requires Valid()
      modifies this`accepted, bda
      ensures Valid() && stored == (|old(Waiting(bda[..]))| < CAPACITY)
      ensures accepted == old(accepted) + (if stored then [key] else [])
      ensures WordAt(bda[..], HEAD) == old(WordAt(bda[..], HEAD))
      ensures Waiting(bda[..]) == old(Waiting(bda[..])) + (if stored then [key] else [])
      ensures forall i :: 0 <= i < 0x1C || 0x3E <= i < 0x100 ==> bda[i] == old(bda[i])
    {
      ghost var m := bda[..];
      var start := ReadWord(START_FIELD);
      var end := ReadWord(END_FIELD);
      var head := ReadWord(HEAD);
      var tail := ReadWord(TAIL);
      var temp := tail;
      tail := tail + 2;
      if tail >= end {
        tail := start;
      }
      FullWhenTailMeetsHead(head, temp);
      if tail == head { return false; }
      StoredKey(m, key);
      bda[temp] := key.ascii;
      bda[temp + 1] := key.scan;
      assert bda[..] == m[temp := key.ascii][temp + 1 := key.scan];
      WriteWord(TAIL, tail);
      assert bda[..] == Stored(m, key);
      accepted := accepted + [key];
      return true;
    }

    /** Keyboard interrupts, one after the other. */
    method Interrupts(keys: seq<Key>)
      requires Valid()
      modifies this`accepted, bda
      ensures Valid() && WordAt(bda[..], HEAD) == old(WordAt(bda[..], HEAD))
      ensures old(accepted) <= accepted && old(Waiting(bda[..])) <= Waiting(bda[..])
    {
      for i := 0 to |keys|
        invariant Valid() && WordAt(bda[..], HEAD) == old(WordAt(bda[..], HEAD))
        invariant old(accepted) <= accepted && old(Waiting(bda[..])) <= Waiting(bda[..])
      {
        var stored := Enqueue(keys[i]);
      }
    }

    /** The four pointers, read one after the other. The tail may be out of date at once, but only
        because more keys wait; the head cannot. */
    method ReadPointers(arriving: seq<seq<Key>>) returns (start: nat, end: nat, head: nat, tail: nat)
      requires Valid() && |arriving| == 4
      modifies this`accepted, bda
      ensures Valid() && old(accepted) <= accepted && old(Waiting(bda[..])) <= Waiting(bda[..])
      ensures start == FIRST && end == LIMIT
      ensures head == WordAt(bda[..], HEAD) == old(WordAt(bda[..], HEAD)) && tail == WordAt(bda[..], TAIL)
    {
      Interrupts(arriving[0]);
      start := ReadWord(START_FIELD);
      Interrupts(arriving[1]);
      end := ReadWord(END_FIELD);
      Interrupts(arriving[2]);
      head := ReadWord(HEAD);
      Interrupts(arriving[3]);
      tail := ReadWord(TAIL);
    }

    /** The two bytes of the oldest key. */
    method ReadKey(head: nat, arriving: seq<seq<Key>>) returns (key: Key)
      requires Valid() && |arriving| == 3 && head == WordAt(bda[..], HEAD) && Waiting(bda[..]) != []
      modifies this`accepted, bda
      ensures Valid() && old(accepted) <= accepted && old(Waiting(bda[..])) <= Waiting(bda[..])
      ensures head == WordAt(bda[..], HEAD) && key == old(Waiting(bda[..]))[0]
    {
      Interrupts(arriving[0]);
      var acode := bda[head];
      Interrupts(arriving[1]);
      var scode := bda[head + 1];
      key := Key(acode, scode);
      Interrupts(arriving[2]);
    }

    /** dequeue_key, with any number of keyboard interrupts before each of its accesses: arriving[i]
        are the keys of the interrupts before access i. It returns the oldest key that is waiting;
        the keys taken and the keys waiting together stay the keys accepted. When it finds none, all
        keys accepted have been taken. */
    method Dequeue(incr: bool, arriving: seq<seq<Key>>) returns (found: bool, key: Key)
      requires Valid() && |arriving| == 7
      modifies this, bda
      ensures Valid() && old(accepted) <= accepted
      ensures old(Waiting(bda[..])) != [] ==> found
      ensures !found ==> accepted == taken
      ensures found ==> |old(taken)| < |accepted| && key == accepted[|old(taken)|]
      ensures taken == old(taken) + (if found && incr then [key] else [])
    {
      var start, end, head, tail := ReadPointers(arriving[..4]);
      if head == tail { return false, Key(0, 0); }
      key := ReadKey(head, arriving[4..]);
      found := true;
      if incr { MoveHead(start, end, head, key); }
    }

    /** The oldest key leaves the ring. */
    method MoveHead(start: nat, end: nat, head: nat, ghost key: Key)
      requires Valid() && start == FIRST && end == LIMIT && head == WordAt(bda[..], HEAD)
      requires Waiting(bda[..]) != [] && key == Waiting(bda[..])[0]
      modifies this`taken, bda
      ensures Valid() && taken == old(taken) + [key]
      ensures forall i :: 0 <= i < 0x1A || 0x1C <= i < 0x100 ==> bda[i] == old(bda[i])
    {
      RemovedKey(bda[..]);
      var next := head + 2;
      if next >= end {
        next := start;
      }
      WriteWord(HEAD, next);
      taken := taken + [key];
    }
  }
}
