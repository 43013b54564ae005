/** The keyboard buffer of a process: a ring of 1024 characters in which an empty slot
    is a zero, with head and tail counters that wrap at 2^32. */
module Keyboard {
  import opened Words

  const NUL := '\0'
  const BUFFER_SIZE := 1024

  datatype Ring = Ring(buffer: seq<char>, head: Word, tail: Word)

  predicate Sized(r: Ring) {
    |r.buffer| == BUFFER_SIZE
  }

  function PushTo(r: Ring, c: char): Ring
    requires Sized(r)
  {
    if c == NUL then r
    else r.(buffer := r.buffer[r.tail % BUFFER_SIZE := c], tail := Wrap(r.tail + 1))
  }

  function PopFrom(r: Ring): (Ring, char)
    requires Sized(r)
  {
    var c := r.buffer[r.head % BUFFER_SIZE];
    if c == NUL then (r, NUL)
    else (r.(buffer := r.buffer[r.head % BUFFER_SIZE := NUL], head := Wrap(r.head + 1)), c)
  }

  function BackspaceOn(r: Ring): Ring
    requires Sized(r)
  {
    var tail := Wrap(r.tail - 1);
    r.(buffer := r.buffer[tail % BUFFER_SIZE := NUL], tail := tail)
  }

  class KeyboardBuffer {
    const buffer: array<char>
    var head: Word
    var tail: Word

    ghost predicate Valid() {
      buffer.Length == BUFFER_SIZE
    }

    ghost function State(): Ring
      reads this, buffer
    {
      Ring(buffer[..], head, tail)
    }

    constructor ()
      ensures Valid() && Queue(State(), [])
    {
      buffer := new char[BUFFER_SIZE](_ => NUL);
      head, tail := 0, 0;
    }

    method Push(c: char)
      requires Valid()
      modifies this, buffer
      ensures Valid() && State() == PushTo(old(State()), c)
    {
      if c == NUL {
        return;
      }
      var realIndex := tail % BUFFER_SIZE;
      buffer[realIndex] := c;
      tail := Wrap(tail + 1);
    }

    method Pop() returns (c: char)
      requires Valid()
      modifies this, buffer
      ensures Valid() && (State(), c) == PopFrom(old(State()))
    {
      var realIndex := head % BUFFER_SIZE;
      c := buffer[realIndex];
      if c == NUL {
        return;
      }
      buffer[realIndex] := NUL;
      head := Wrap(head + 1);
    }

    method Backspace()
      requires Valid()
      modifies this, buffer
      ensures Valid() && State() == BackspaceOn(old(State()))
    {
      tail := Wrap(tail - 1);
      buffer[tail % BUFFER_SIZE] := NUL;
    }
  }

  // ---- the ring is a queue

  function Slot(head: Word, i: nat): nat {
    (head + i) % BUFFER_SIZE
  }

  /** The ring holds the characters q, oldest first, and zeros everywhere else. */
  ghost predicate Queue(r: Ring, q: string) {
    && Sized(r) && |q| <= BUFFER_SIZE && NUL !in q
    && r.tail == Wrap(r.head + |q|)
    && forall i | 0 <= i < BUFFER_SIZE :: r.buffer[Slot(r.head, i)] == if i < |q| then q[i] else NUL
  }

  /** Slots are distinct, wrap with the counters, and cover the buffer. */
  lemma Slots(head: Word, i: nat, j: nat)
    requires i < BUFFER_SIZE && j < BUFFER_SIZE
    ensures Slot(head, i) == Slot(head, j) <==> i == j
  {
  }

  lemma TailSlot(head: Word, n: nat)
    ensures Wrap(head + n) % BUFFER_SIZE == Slot(head, n)
  {
  }

  lemma HeadSlot(head: Word, i: nat)
    ensures Slot(Wrap(head + 1), i) == Slot(head, i + 1)
  {
    hide Wrap;
    NextCounter(head);
    CountersWrapTogether(i);
    assert head + (i + 1) == (head + 1) + i;
  }

  lemma NextCounter(head: Word)
    ensures Wrap(head + 1) == if head + 1 == TWO_32 then 0 else head + 1
  {
  }

  lemma OnceAround(head: Word)
    ensures Slot(head, BUFFER_SIZE) == Slot(head, 0)
  {
  }

  /** 1024 divides 2^32. */
  lemma CountersWrapTogether(i: nat)
    ensures (TWO_32 + i) % BUFFER_SIZE == i % BUFFER_SIZE
  {
  }

  lemma NeverBehind(head: Word, n: nat)
    requires n <= BUFFER_SIZE
    ensures Wrap(head - 1) != Wrap(head + n)
  {
  }

  /** Pushing queues the character exactly when the ring is not full. */
  lemma PushQueues(r: Ring, q: string, c: char)
    requires Queue(r, q) && c != NUL
    ensures Queue(PushTo(r, c), q + [c]) <==> |q| < BUFFER_SIZE
  {
    if |q| < BUFFER_SIZE {
      TailSlot(r.head, |q|);
      var r', q' := PushTo(r, c), q + [c];
      assert r'.tail == Wrap(r.head + |q'|);
      forall i | 0 <= i < BUFFER_SIZE ensures r'.buffer[Slot(r.head, i)] == if i < |q'| then q'[i] else NUL {
        Slots(r.head, i, |q|);
      }
    }
  }

  /** Popping takes the oldest character, and a zero means that there is none. */
  lemma PopQueues(r: Ring, q: string)
    requires Queue(r, q)
    ensures q == [] ==> PopFrom(r) == (r, NUL)
    ensures q != [] ==> PopFrom(r).1 == q[0] && Queue(PopFrom(r).0, q[1..])
  {
    assert Slot(r.head, 0) == r.head % BUFFER_SIZE;
    if q != [] {
      var r', q' := PopFrom(r).0, q[1..];
      assert r'.tail == Wrap(r'.head + |q'|);
      forall i | 0 <= i < BUFFER_SIZE ensures r'.buffer[Slot(r'.head, i)] == if i < |q'| then q'[i] else NUL {
        HeadSlot(r.head, i);
        if i + 1 < BUFFER_SIZE {
          Slots(r.head, i + 1, 0);
        } else {
          OnceAround(r.head);
        }
      }
    }
  }

  /** Backspace takes the newest character back exactly when there is one. */
  lemma BackspaceQueues(r: Ring, q: string)
    requires Queue(r, q)
    ensures q != [] ==> Queue(BackspaceOn(r), q[..|q| - 1])
    ensures q == [] ==> forall q' :: !Queue(BackspaceOn(r), q')
  {
    var r' := BackspaceOn(r);
    if q != [] {
      var q' := q[..|q| - 1];
      assert r'.tail == Wrap(r.head + |q'|);
      TailSlot(r.head, |q'|);
      forall i | 0 <= i < BUFFER_SIZE ensures r'.buffer[Slot(r.head, i)] == if i < |q'| then q'[i] else NUL {
        Slots(r.head, i, |q'|);
      }
    } else {
      forall q' ensures !Queue(r', q') {
        if |q'| <= BUFFER_SIZE { NeverBehind(r.head, |q'|); }
      }
    }
  }

  /** Backspace after a push gives the ring back as it was. */
  lemma BackspaceUndoesPush(r: Ring, q: string, c: char)
    requires Queue(r, q) && |q| < BUFFER_SIZE && c != NUL
    ensures BackspaceOn(PushTo(r, c)) == r
  {
    TailSlot(r.head, |q|);
    assert r.buffer[Slot(r.head, |q|)] == NUL;
    assert Wrap(Wrap(r.tail + 1) - 1) == r.tail;
  }

  // ---- runs

  datatype KeyOp = Push(c: char) | Pop | Backspace

  /** What the pops of a run return, from a ring. */
  function RingRun(r: Ring, ops: seq<KeyOp>): string
    requires Sized(r)
    decreases |ops|
  {
    if ops == [] then ""
    else match ops[0]
      case Push(c) => RingRun(PushTo(r, c), ops[1..])
      case Pop => [PopFrom(r).1] + RingRun(PopFrom(r).0, ops[1..])
      case Backspace => RingRun(BackspaceOn(r), ops[1..])
  }

  /** The same from a first-in first-out queue, where an empty pop returns a zero. */
  function QueueRun(q: string, ops: seq<KeyOp>): string
    decreases |ops|
  {
    if ops == [] then ""
    else match ops[0]
      case Push(c) => QueueRun(if c == NUL then q else q + [c], ops[1..])
      case Pop => if q == [] then [NUL] + QueueRun(q, ops[1..]) else [q[0]] + QueueRun(q[1..], ops[1..])
      case Backspace => QueueRun(if q == [] then q else q[..|q| - 1], ops[1..])
  }

  /** Never more than 1024 characters wait, and backspace always finds one. */
  predicate WithinBounds(q: string, ops: seq<KeyOp>)
    decreases |ops|
  {
    ops == [] ||
    match ops[0]
    case Push(c) => if c == NUL then WithinBounds(q, ops[1..])
                    else |q| < BUFFER_SIZE && WithinBounds(q + [c], ops[1..])
    case Pop => WithinBounds(if q == [] then q else q[1..], ops[1..])
    case Backspace => q != [] && WithinBounds(q[..|q| - 1], ops[1..])
  }

  /** Over every run within the bounds the ring behaves as the queue. */
  lemma {:induction false} RingRefinesQueue(r: Ring, q: string, ops: seq<KeyOp>)
    requires Queue(r, q) && WithinBounds(q, ops)
    ensures RingRun(r, ops) == QueueRun(q, ops)
    decreases |ops|
  {
    if ops != [] {
      match ops[0]
      case Push(c) =>
        if c == NUL { RingRefinesQueue(r, q, ops[1..]); }
        else {
          PushQueues(r, q, c);
          RingRefinesQueue(PushTo(r, c), q + [c], ops[1..]);
        }
      case Pop =>
        PopQueues(r, q);
        RingRefinesQueue(PopFrom(r).0, if q == [] then q else q[1..], ops[1..]);
      case Backspace =>
        BackspaceQueues(r, q);
        RingRefinesQueue(BackspaceOn(r), q[..|q| - 1], ops[1..]);
    }
  }

  // ---- runs out of bounds, as a reader of the keyboard sees them

  function Pops(n: nat): seq<KeyOp> {
    seq(n, _ => Pop)
  }

  lemma {:induction false} QueuePops(q: string, n: nat)
    requires n == |q| + 1
    ensures QueueRun(q, Pops(n)) == q + [NUL]
    decreases n
  {
    assert Pops(n)[1..] == Pops(n - 1);
    if q != [] {
      QueuePops(q[1..], n - 1);
      assert [q[0]] + (q[1..] + [NUL]) == q + [NUL];
    } else {
      assert Pops(0) == [];
    }
  }

  /** Popping never looks at the tail. */
  lemma {:induction false} PopsIgnoreTail(r: Ring, tail: Word, n: nat)
    requires Sized(r)
    ensures RingRun(r.(tail := tail), Pops(n)) == RingRun(r, Pops(n))
    decreases n
  {
    if n > 0 {
      assert Pops(n)[1..] == Pops(n - 1);
      PopsIgnoreTail(PopFrom(r).0, tail, n - 1);
    }
  }

  lemma {:induction false} PopsAreBounded(q: string, n: nat)
    ensures WithinBounds(q, Pops(n))
    decreases n
  {
    if n > 0 {
      assert Pops(n)[1..] == Pops(n - 1);
      PopsAreBounded(if q == [] then q else q[1..], n - 1);
    }
  }

  /** The ring after a push into a full one, but for its tail, holds the new character in
      front of all but the oldest. */
  lemma OverwrittenQueue(r: Ring, q: string, c: char)
    requires Queue(r, q) && |q| == BUFFER_SIZE && c != NUL
    ensures Queue(PushTo(r, c).(tail := r.tail), [c] + q[1..])
  {
    TailSlot(r.head, BUFFER_SIZE);
    OnceAround(r.head);
    var r', q' := PushTo(r, c).(tail := r.tail), [c] + q[1..];
    forall i | 0 <= i < BUFFER_SIZE ensures r'.buffer[Slot(r.head, i)] == if i < |q'| then q'[i] else NUL {
      Slots(r.head, i, 0);
    }
  }

  /** A push into a full ring takes the place of the oldest character: popping everything
      gives the new one first, and the oldest never. */
  lemma FullPushLosesOldest(r: Ring, q: string, c: char)
    requires Queue(r, q) && |q| == 1024 && c != NUL
    ensures RingRun(PushTo(r, c), Pops(1025)) == [c] + q[1..] + [NUL]
    ensures QueueRun(q + [c], Pops(1025)) == q + [c]
  {
    hide Queue, QueueRun, RingRun, Pops;
    var n := BUFFER_SIZE + 1;
    SizeOfRing(r, q);
    OverwrittenQueue(r, q, c);
    PopsIgnoreTail(PushTo(r, c), r.tail, n);
    PopsAreBounded([c] + q[1..], n);
    RingRefinesQueue(PushTo(r, c).(tail := r.tail), [c] + q[1..], Pops(n));
    QueuePops([c] + q[1..], n);
    QueueEmptied(q + [c], n);
  }

  lemma SizeOfRing(r: Ring, q: string)
    requires Queue(r, q)
    ensures Sized(r)
  {
  }

  lemma {:induction false} QueueEmptied(q: string, n: nat)
    requires n == |q|
    ensures QueueRun(q, Pops(n)) == q
    decreases n
  {
    if q != [] {
      assert Pops(n)[1..] == Pops(n - 1);
      QueueEmptied(q[1..], n - 1);
    }
  }

  /** Whether a push is seen as one by every later run within the bounds: exactly when
      the ring was not full. */
  lemma PushSeenExactly(r: Ring, q: string, c: char)
    requires Queue(r, q) && c != NUL
    ensures (exists ops :: WithinBounds(q + [c], ops) && RingRun(PushTo(r, c), ops) != QueueRun(q + [c], ops))
            <==> |q| == 1024
  {
    hide QueueRun, RingRun, WithinBounds, Pops, PushTo;
    if |q| < BUFFER_SIZE {
      PushQueues(r, q, c);
      forall ops | WithinBounds(q + [c], ops) ensures RingRun(PushTo(r, c), ops) == QueueRun(q + [c], ops) {
        RingRefinesQueue(PushTo(r, c), q + [c], ops);
      }
    } else {
      var ops := Pops(BUFFER_SIZE + 1);
      FullPushLosesOldest(r, q, c);
      PopsAreBounded(q + [c], BUFFER_SIZE + 1);
      assert ([c] + q[1..] + [NUL])[BUFFER_SIZE] != (q + [c])[BUFFER_SIZE];
    }
  }

  /** After a backspace on an empty ring the next key is not seen by the next pop. */
  lemma StrayBackspaceLosesKey(r: Ring, c: char)
    requires Queue(r, "") && c != NUL
    ensures RingRun(BackspaceOn(r), [Push(c), Pop]) == [NUL] && QueueRun("", [Push(c), Pop]) == [c]
  {
    var r' := PushTo(BackspaceOn(r), c);
    assert r'.head == r.head && Slot(r.head, 0) == r.head % BUFFER_SIZE;
    SlotBefore(r.head);
    assert PopFrom(r').1 == NUL;
    PushThenPop(BackspaceOn(r), c);
  }

  lemma PushThenPop(r: Ring, c: char)
    requires Sized(r) && c != NUL
    ensures RingRun(r, [Push(c), Pop]) == [PopFrom(PushTo(r, c)).1] && QueueRun("", [Push(c), Pop]) == [c]
  {
    var ops, r' := [KeyOp.Push(c), Pop], PushTo(r, c);
    assert ops[1..] == [Pop] && [KeyOp.Pop][1..] == [];
    assert RingRun(r', [Pop]) == [PopFrom(r').1] + RingRun(PopFrom(r').0, []);
    assert "" + [c] == [c] && QueueRun([c], [Pop]) == [c] + QueueRun([c][1..], []);
  }

  lemma SlotBefore(head: Word)
    ensures Wrap(head - 1) % BUFFER_SIZE != head % BUFFER_SIZE
  {
  }

  /** Whether a backspace is seen as one by every later run within the bounds: exactly when
      there was a character to take back. */
  lemma BackspaceSeenExactly(r: Ring, q: string)
    requires Queue(r, q)
    ensures var q' := if q == [] then q else q[..|q| - 1];
            (exists ops :: WithinBounds(q', ops) && RingRun(BackspaceOn(r), ops) != QueueRun(q', ops)) <==> q == []
  {
    BackspaceQueues(r, q);
    if q != [] {
      var q' := q[..|q| - 1];
      forall ops | WithinBounds(q', ops) ensures RingRun(BackspaceOn(r), ops) == QueueRun(q', ops) {
        RingRefinesQueue(BackspaceOn(r), q', ops);
      }
    } else {
      var ops := [KeyOp.Push('x'), Pop];
      StrayBackspaceLosesKey(r, 'x');
      assert ops[1..] == [Pop] && WithinBounds("x", [Pop]) && "" + ['x'] == "x";
    }
  }
}
