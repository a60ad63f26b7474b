/** The key buffer of a process (src/keyboard/Keyboard.c). head and tail count up for ever and
    are reduced modulo the buffer size at each use; as 1024 divides 2^32 their conversion to
    unsigned does not change the slot, so they are modelled as unbounded integers. */
module Keyboard {
  import opened Machine

  const BUFFER_SIZE := 1024 // KEYBOARD_BUFFER_SIZE

  /** struct { char buffer[]; int tail; int head; } of struct Process. */
  datatype Ring = Ring(buffer: seq<Byte>, head: int, tail: int)

  function Slot(index: int): (s: nat)
    ensures s < BUFFER_SIZE
  {
    index % BUFFER_SIZE
  }

  /** keyboard_push for a current process. */
  function Push(r: Ring, c: Byte): (r': Ring)
    requires |r.buffer| == BUFFER_SIZE
    ensures |r'.buffer| == BUFFER_SIZE
  {
    if c == 0 then r else Ring(r.buffer[Slot(r.tail) := c], r.head, r.tail + 1)
  }

  /** keyboard_pop: the new ring and the character, 0 for none. */
  function Pop(r: Ring): (p: (Ring, Byte))
    requires |r.buffer| == BUFFER_SIZE
    ensures |p.0.buffer| == BUFFER_SIZE
  {
    var c := r.buffer[Slot(r.head)];
    if c == 0 then (r, 0) else (Ring(r.buffer[Slot(r.head) := 0], r.head + 1, r.tail), c)
  }

  /** keyboard_backspace */
  function Backspace(r: Ring): (r': Ring)
    requires |r.buffer| == BUFFER_SIZE
    ensures |r'.buffer| == BUFFER_SIZE
  {
    Ring(r.buffer[Slot(r.tail - 1) := 0], r.head, r.tail - 1)
  }

  // ------------------------------------------------------------ the queue behind the ring

  /** The ring holds q: its characters from head on, and zero in every other slot. */
  ghost predicate Holds(r: Ring, q: seq<Byte>) {
    && |r.buffer| == BUFFER_SIZE && |q| <= BUFFER_SIZE && r.tail == r.head + |q|
    && 0 !in q
    && forall i | 0 <= i < BUFFER_SIZE :: r.buffer[SlotFrom(r.head, i)] == if i < |q| then q[i] else 0
  }

  function SlotFrom(head: int, i: int): (s: nat)
    ensures s < BUFFER_SIZE
  {
    Slot(head + i)
  }

  lemma SlotsDistinct(head: int, i: nat, j: nat)
    requires i < BUFFER_SIZE && j < BUFFER_SIZE
    ensures SlotFrom(head, i) == SlotFrom(head, j) <==> i == j
  {
  }

  /** A zero at head means exactly that nothing is pending. */
  lemma ZeroIffEmpty(r: Ring, q: seq<Byte>)
    requires Holds(r, q)
    ensures r.buffer[Slot(r.head)] == 0 <==> q == []
  {
    assert SlotFrom(r.head, 0) == Slot(r.head);
  }

  /** A ring holds at most one queue. */
  lemma HoldsUnique(r: Ring, q: seq<Byte>, p: seq<Byte>)
    requires Holds(r, q) && Holds(r, p)
    ensures q == p
  {
  }

  /** Push is enqueue, exactly while fewer than 1024 characters are pending; a NUL is ignored. */
  lemma PushIff(r: Ring, q: seq<Byte>, c: Byte)
    requires Holds(r, q)
    ensures c == 0 ==> Push(r, c) == r
    ensures c != 0 && |q| < 1024 ==> Holds(Push(r, c), q + [c])
    ensures c != 0 && |q| == 1024 ==> !exists p :: Holds(Push(r, c), p)
  {
    if c != 0 && |q| < BUFFER_SIZE {
      forall i | 0 <= i < BUFFER_SIZE
        ensures Push(r, c).buffer[SlotFrom(r.head, i)] == if i < |q + [c]| then (q + [c])[i] else 0
      {
        SlotsDistinct(r.head, i, |q|);
      }
    }
  }

  /** Pushing on a full ring replaces the oldest character by the newest. */
  lemma FullPushReplacesOldest(r: Ring, q: seq<Byte>, c: Byte)
    requires Holds(r, q) && c != 0 && |q| == BUFFER_SIZE
    ensures Pop(Push(r, c)).1 == c
    ensures Pop(Push(r, c)).0 == Pop(r).0.(tail := r.tail + 1)
  {
    assert SlotFrom(r.head, 0) == Slot(r.head) == Slot(r.tail);
    ZeroIffEmpty(r, q);
    var s := Slot(r.head);
    assert r.buffer[s := c][s := 0] == r.buffer[s := 0];
  }

  /** Pop is dequeue, or nothing on an empty queue. */
  lemma PopDequeues(r: Ring, q: seq<Byte>)
    requires Holds(r, q)
    ensures q == [] ==> Pop(r) == (r, 0)
    ensures q != [] ==> Pop(r).1 == q[0] && Holds(Pop(r).0, q[1..])
  {
    ZeroIffEmpty(r, q);
    if q != [] {
      assert SlotFrom(r.head, 0) == Slot(r.head);
      assert r.buffer[SlotFrom(r.head, 0)] == q[0];
      var after := Pop(r).0;
      forall i | 0 <= i < BUFFER_SIZE
        ensures after.buffer[SlotFrom(after.head, i)] == if i < |q[1..]| then q[1..][i] else 0
      {
        if i + 1 < BUFFER_SIZE {
          assert SlotFrom(after.head, i) == SlotFrom(r.head, i + 1);
          SlotsDistinct(r.head, i + 1, 0);
        } else {
          assert SlotFrom(after.head, i) == SlotFrom(r.head, 0);
        }
      }
    }
  }

  /** Backspace drops the newest character, exactly if there is one. */
  lemma BackspaceIff(r: Ring, q: seq<Byte>)
    requires Holds(r, q)
    ensures q != [] ==> Holds(Backspace(r), q[..|q| - 1])
    ensures q == [] ==> !exists p :: Holds(Backspace(r), p)
  {
  }

  /** After a backspace on an empty queue the next key typed is not seen by pop. */
  lemma BackspaceOnEmptyLosesKey(r: Ring, c: Byte)
    requires Holds(r, []) && c != 0
    ensures Pop(Push(Backspace(r), c)).1 == 0
  {
    assert SlotFrom(r.head, 0) == Slot(r.head);
    assert SlotFrom(r.head, BUFFER_SIZE - 1) == Slot(r.tail - 1);
    SlotsDistinct(r.head, 0, BUFFER_SIZE - 1);
  }

  // ------------------------------------------------------------ runs

  datatype Action = DoPush(c: Byte) | DoPop | DoBackspace

  predicate Legal(a: Action, q: seq<Byte>) {
    match a
    case DoPush(c) => c == 0 || |q| < BUFFER_SIZE
    case DoPop => true
    case DoBackspace => q != []
  }

  /** What a queue does. */
  function Queued(a: Action, q: seq<Byte>): seq<Byte>
    requires Legal(a, q)
  {
    match a
    case DoPush(c) => if c == 0 then q else q + [c]
    case DoPop => if q == [] then q else q[1..]
    case DoBackspace => q[..|q| - 1]
  }

  function Popped(a: Action, q: seq<Byte>): seq<Byte> {
    if a.DoPop? then [if q == [] then 0 else q[0]] else []
  }

  predicate LegalRun(actions: seq<Action>, q: seq<Byte>)
    decreases |actions|
  {
    actions == [] || (Legal(actions[0], q) && LegalRun(actions[1..], Queued(actions[0], q)))
  }

  function QueueOutput(actions: seq<Action>, q: seq<Byte>): seq<Byte>
    requires LegalRun(actions, q)
    decreases |actions|
  {
    if actions == [] then []
    else Popped(actions[0], q) + QueueOutput(actions[1..], Queued(actions[0], q))
  }

  function RingStep(a: Action, r: Ring): (s: (Ring, seq<Byte>))
    requires |r.buffer| == BUFFER_SIZE
    ensures |s.0.buffer| == BUFFER_SIZE
  {
    match a
    case DoPush(c) => (Push(r, c), [])
    case DoPop => (Pop(r).0, [Pop(r).1])
    case DoBackspace => (Backspace(r), [])
  }

  function RingOutput(actions: seq<Action>, r: Ring): seq<Byte>
    requires |r.buffer| == BUFFER_SIZE
    decreases |actions|
  {
    if actions == [] then []
    else RingStep(actions[0], r).1 + RingOutput(actions[1..], RingStep(actions[0], r).0)
  }

  lemma StepRefines(a: Action, r: Ring, q: seq<Byte>)
    requires Holds(r, q) && Legal(a, q)
    ensures Holds(RingStep(a, r).0, Queued(a, q)) && RingStep(a, r).1 == Popped(a, q)
  {
    match a
    case DoPush(c) => if c != 0 { PushIff(r, q, c); }
    case DoPop => PopDequeues(r, q);
    case DoBackspace => BackspaceIff(r, q);
  }

  /** Over every run of keys, pops and backspaces the ring gives what a queue gives. */
  lemma {:induction false} RunRefinesQueue(actions: seq<Action>, r: Ring, q: seq<Byte>)
    requires Holds(r, q) && LegalRun(actions, q)
    ensures RingOutput(actions, r) == QueueOutput(actions, q)
    decreases |actions|
  {
    if actions != [] {
      hide Holds, Legal, Popped, Queued;
      StepRefines(actions[0], r, q);
      RunRefinesQueue(actions[1..], RingStep(actions[0], r).0, Queued(actions[0], q));
    }
  }

  // ------------------------------------------------------------ code

  class KeyBuffer {
    const buffer: array<Byte>
    var head: int
    var tail: int

    /** As process_load_for_slot leaves it: the structure is zeroed. */
    constructor ()
      ensures fresh(buffer) && buffer.Length == BUFFER_SIZE && Holds(Value(), [])
    {
      buffer := new Byte[BUFFER_SIZE](i => 0);
      head, tail := 0, 0;
    }

    ghost function Value(): Ring
      reads this, buffer
    {
      Ring(buffer[..], head, tail)
    }

    method PushKey(c: Byte)
      requires buffer.Length == BUFFER_SIZE
      modifies this, buffer
      ensures Value() == Push(old(Value()), c)
    {
      if c == 0 {
        return;
      }
      buffer[Slot(tail)] := c;
      tail := tail + 1;
    }

    method PopKey() returns (c: Byte)
      requires buffer.Length == BUFFER_SIZE
      modifies this, buffer
      ensures (Value(), c) == Pop(old(Value()))
    {
      var index := Slot(head);
      c := buffer[index];
      if c == 0 {
        return 0;
      }
      buffer[index] := 0;
      head := head + 1;
    }

    method BackspaceKey()
      requires buffer.Length == BUFFER_SIZE
      modifies this, buffer
      ensures Value() == Backspace(old(Value()))
    {
      tail := tail - 1;
      buffer[Slot(tail)] := 0;
    }
  }
}
