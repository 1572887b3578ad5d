/** The single-producer, single-consumer ring buffer: every interleaving of its individual reads and writes. */
module RingBuffer {

  import opened Common

  const CAPACITY: nat := 1024

  /** Where the producer stands inside TryPush. */
  datatype Producer<V> =
    | Idle
    | HaveTail(point: V, tail: int)
    | HaveBoth(point: V, tail: int, head: int)
    | Written(point: V, tail: int)

  /** Where the consumer stands inside TryPop. */
  datatype Consumer<V> =
    | Resting
    | HaveHead(head: int)
    | HaveIndices(head: int, tail: int)
    | Taken(point: V, head: int)

  /** The shared variables, both threads' positions, and what has been pushed and popped so far. */
  datatype State<V> = State(
    head: int, tail: int, buffer: seq<V>, producer: Producer<V>, consumer: Consumer<V>,
    pushed: seq<V>, popped: seq<V>)

  /** One shared read or write, or the return of a refused call. */
  datatype Action<V> =
    | PushReadTail(point: V) | PushReadHead | PushRefused | PushWriteSlot | PushWriteTail
    | PopReadHead | PopReadTail | PopRefused | PopReadSlot | PopWriteHead

  function Slot(index: int): nat {
    index % CAPACITY
  }

  predicate Enabled<V>(s: State<V>, a: Action<V>) {
    match a
    case PushReadTail(_) => s.producer.Idle?
    case PushReadHead => s.producer.HaveTail?
    case PushRefused => s.producer.HaveBoth? && s.producer.tail - s.producer.head >= CAPACITY
    case PushWriteSlot => s.producer.HaveBoth? && s.producer.tail - s.producer.head < CAPACITY
    case PushWriteTail => s.producer.Written?
    case PopReadHead => s.consumer.Resting?
    case PopReadTail => s.consumer.HaveHead?
    case PopRefused => s.consumer.HaveIndices? && s.consumer.head >= s.consumer.tail
    case PopReadSlot => s.consumer.HaveIndices? && s.consumer.head < s.consumer.tail
    case PopWriteHead => s.consumer.Taken?
  }

  function Do<V>(s: State<V>, a: Action<V>): State<V>
    requires |s.buffer| == CAPACITY && Enabled(s, a)
  {
    match a
    case PushReadTail(point) => s.(producer := HaveTail(point, s.tail))
    case PushReadHead => s.(producer := HaveBoth(s.producer.point, s.producer.tail, s.head))
    case PushRefused => s.(producer := Idle)
    case PushWriteSlot =>
      var p := s.producer;
      s.(producer := Written(p.point, p.tail), buffer := s.buffer[Slot(p.tail) := p.point])
    case PushWriteTail =>
      s.(producer := Idle, tail := s.producer.tail + 1, pushed := s.pushed + [s.producer.point])
    case PopReadHead => s.(consumer := HaveHead(s.head))
    case PopReadTail => s.(consumer := HaveIndices(s.consumer.head, s.tail))
    case PopRefused => s.(consumer := Resting)
    case PopReadSlot =>
      var c := s.consumer;
      s.(consumer := Taken(s.buffer[Slot(c.head)], c.head))
    case PopWriteHead =>
      s.(consumer := Resting, head := s.consumer.head + 1, popped := s.popped + [s.consumer.point])
  }

  function Start<V>(zero: V): State<V> {
    State(0, 0, seq(CAPACITY, _ => zero), Idle, Resting, [], [])
  }

  /** A run of the two threads from s: any order of actions, each enabled when its turn comes. */
  predicate Run<V>(s: State<V>, actions: seq<Action<V>>)
    decreases |actions|
  {
    actions == [] ||
    (|s.buffer| == CAPACITY && Enabled(s, actions[0]) && Run(Do(s, actions[0]), actions[1..]))
  }

  /** The state a run ends in. */
  function After<V>(s: State<V>, actions: seq<Action<V>>): State<V>
    requires Run(s, actions)
    decreases |actions|
  {
    if actions == [] then s else After(Do(s, actions[0]), actions[1..])
  }

  // ---- what every step keeps ----

  ghost predicate Indices<V>(s: State<V>) {
    && |s.buffer| == CAPACITY
    && 0 <= s.head <= s.tail <= s.head + CAPACITY
    && |s.pushed| == s.tail && |s.popped| == s.head
  }

  /** The published part of the buffer holds what was pushed and not yet popped. */
  ghost predicate Published<V>(s: State<V>)
    requires Indices(s)
  {
    && s.popped == s.pushed[..s.head]
    && forall k :: s.head <= k < s.tail ==> s.buffer[Slot(k)] == s.pushed[k]
  }

  /** The producer's copies: its tail is current, its head may be old. */
  ghost predicate ProducerKnows<V>(s: State<V>)
    requires Indices(s)
  {
    match s.producer
    case Idle => true
    case HaveTail(_, t) => t == s.tail
    case HaveBoth(_, t, h) => t == s.tail && h <= s.head
    case Written(point, t) => t == s.tail && t < s.head + CAPACITY && s.buffer[Slot(t)] == point
  }

  /** The consumer's copies: its head is current, its tail may be old. */
  ghost predicate ConsumerKnows<V>(s: State<V>)
    requires Indices(s)
  {
    match s.consumer
    case Resting => true
    case HaveHead(h) => h == s.head
    case HaveIndices(h, t) => h == s.head && t <= s.tail
    case Taken(point, h) => h == s.head && h < s.tail && point == s.pushed[h]
  }

  ghost predicate Inv<V>(s: State<V>) {
    Indices(s) && Published(s) && ProducerKnows(s) && ConsumerKnows(s)
  }

  lemma SlotsDiffer(j: int, k: int)
    requires j < k < j + CAPACITY
    ensures Slot(j) != Slot(k)
  {}

  /** Writing the slot at tail leaves the unread slots alone. */
  lemma WriteKeepsPublished<V>(s: State<V>, a: Action<V>)
    requires Inv(s) && a.PushWriteSlot? && Enabled(s, a)
    ensures Inv(Do(s, a))
  {
    forall k | s.head <= k < s.tail ensures Do(s, a).buffer[Slot(k)] == s.pushed[k] { SlotsDiffer(k, s.tail); }
  }

  lemma StepKeepsInv<V>(s: State<V>, a: Action<V>)
    requires Inv(s) && Enabled(s, a)
    ensures Inv(Do(s, a))
  {
    if a.PushWriteSlot? { WriteKeepsPublished(s, a); }
  }

  lemma {:induction false} RunKeepsInv<V>(s: State<V>, actions: seq<Action<V>>)
    requires Inv(s) && Run(s, actions)
    ensures Inv(After(s, actions))
    decreases |actions|
  {
    if actions != [] {
      StepKeepsInv(s, actions[0]);
      RunKeepsInv(Do(s, actions[0]), actions[1..]);
    }
  }

  // ---- the queue it implements ----

  /** What is in the buffer, oldest first. */
  function Contents<V>(s: State<V>): seq<V> {
    if 0 <= s.head <= s.tail <= |s.pushed| then s.pushed[s.head..s.tail] else []
  }

  /** In every interleaving the popped points are a prefix of the pushed ones, and at most 1024 are in between. */
  lemma EveryRun<V>(zero: V, actions: seq<Action<V>>)
    requires Run(Start(zero), actions)
    ensures var t := After(Start(zero), actions);
      && t.popped <= t.pushed && t.pushed == t.popped + Contents(t)
      && 0 <= t.tail - t.head == |Contents(t)| <= 1024
      && |t.buffer| == 1024
      && forall k :: 0 <= k < |Contents(t)| ==> t.buffer[Slot(t.head + k)] == Contents(t)[k]
  {
    RunKeepsInv(Start(zero), actions);
  }

  /** The slot the producer is about to write is never the one the consumer is about to read, nor any unread one. */
  lemma NoSlotShared<V>(zero: V, actions: seq<Action<V>>)
    requires Run(Start(zero), actions) && Enabled(After(Start(zero), actions), PushWriteSlot)
    ensures var t := After(Start(zero), actions);
      && (Enabled(t, PopReadSlot) ==> Slot(t.producer.tail) != Slot(t.consumer.head))
      && forall k :: t.head <= k < t.tail ==> Slot(t.producer.tail) != Slot(k)
  {
    RunKeepsInv(Start(zero), actions);
    var t := After(Start(zero), actions);
    forall k | t.head <= k < t.tail ensures Slot(t.producer.tail) != Slot(k) { SlotsDiffer(k, t.tail); }
  }

  /** The operations of an atomic bounded queue. */
  datatype Operation<V> = Enqueue(point: V) | Dequeue(point: V) | Silent

  /** The queue after an operation; None where the queue does not allow it. */
  function Perform<V(==)>(q: seq<V>, op: Operation<V>): Option<seq<V>> {
    match op
    case Enqueue(point) => if |q| < 1024 then Some(q + [point]) else None
    case Dequeue(point) => if |q| > 0 && point == q[0] then Some(q[1..]) else None
    case Silent => Some(q)
  }

  function PerformAll<V(==)>(q: seq<V>, ops: seq<Operation<V>>): Option<seq<V>>
    decreases |ops|
  {
    if ops == [] then Some(q)
    else var r := Perform(q, ops[0]); if r.None? then None else PerformAll(r.value, ops[1..])
  }

  /** The queue operation an action completes: the tail write pushes, the head write pops. */
  function Effect<V>(s: State<V>, a: Action<V>): Operation<V>
    requires Enabled(s, a)
  {
    match a
    case PushWriteTail => Enqueue(s.producer.point)
    case PopWriteHead => Dequeue(s.consumer.point)
    case _ => Silent
  }

  function Effects<V>(s: State<V>, actions: seq<Action<V>>): seq<Operation<V>>
    requires Run(s, actions)
    decreases |actions|
  {
    if actions == [] then [] else [Effect(s, actions[0])] + Effects(Do(s, actions[0]), actions[1..])
  }

  /** Each individual read or write is an atomic queue operation or changes nothing a queue user sees. */
  lemma RefinesQueue<V>(s: State<V>, a: Action<V>)
    requires Inv(s) && Enabled(s, a)
    ensures Perform(Contents(s), Effect(s, a)) == Some(Contents(Do(s, a)))
  {
    var t := Do(s, a);
    if a.PushWriteTail? {
      assert t.pushed[t.head..t.tail] == s.pushed[s.head..s.tail] + [s.producer.point];
    }
  }

  /** So every interleaving is a legal history of the atomic bounded queue. */
  lemma {:induction false} RunRefinesQueue<V>(s: State<V>, actions: seq<Action<V>>)
    requires Inv(s) && Run(s, actions)
    ensures PerformAll(Contents(s), Effects(s, actions)) == Some(Contents(After(s, actions)))
    decreases |actions|
  {
    if actions != [] {
      RefinesQueue(s, actions[0]);
      StepKeepsInv(s, actions[0]);
      RunRefinesQueue(Do(s, actions[0]), actions[1..]);
      assert Effects(s, actions)[1..] == Effects(Do(s, actions[0]), actions[1..]);
    }
  }

  /** A push is refused exactly when the queue is full at its head read, a pop exactly when it is empty at its tail
      read; otherwise there is still room, or something to take, when the slot is used. */
  lemma RefusalIsHonest<V>(s: State<V>, a: Action<V>)
    requires Inv(s) && Enabled(s, a)
    ensures a.PushReadHead? ==> (Enabled(Do(s, a), PushRefused) <==> |Contents(s)| == 1024)
    ensures a.PopReadTail? ==> (Enabled(Do(s, a), PopRefused) <==> |Contents(s)| == 0)
    ensures a.PushWriteSlot? || a.PushWriteTail? ==> |Contents(s)| < 1024
    ensures a.PopReadSlot? || a.PopWriteHead? ==> |Contents(s)| > 0
  {}

  // ---- the two calls, uninterrupted, on the shared buffer ----

  class Ring<V> {
    var head: int
    var tail: int
    const buffer: array<V>
    ghost var pushed: seq<V>

    ghost predicate Valid()
      reads this, buffer
    {
      && buffer.Length == CAPACITY && 0 <= head <= tail <= head + CAPACITY && |pushed| == tail
      && forall k :: head <= k < tail ==> buffer[Slot(k)] == pushed[k]
    }

    ghost function Queue(): seq<V>
      requires Valid()
      reads this, buffer
    {
      pushed[head..tail]
    }

    constructor (zero: V)
      ensures Valid() && Queue() == [] && fresh(buffer)
    {
      head, tail, pushed := 0, 0, [];
      buffer := new V[CAPACITY](_ => zero);
    }

    method TryPush(point: V) returns (ok: bool)
      requires Valid()
      modifies this`tail, this`pushed, buffer
      ensures Valid() && ok == (|old(Queue())| < 1024)
      ensures Queue() == if ok then old(Queue()) + [point] else old(Queue())
    {
      var currentTail := tail;
      var currentHead := head;
      if currentTail - currentHead >= CAPACITY { return false; }
      forall k | head <= k < tail ensures Slot(k) != Slot(tail) { SlotsDiffer(k, tail); }
      buffer[currentTail % CAPACITY] := point;
      tail := currentTail + 1;
      pushed := pushed + [point];
      return true;
    }

    method TryPop(zero: V) returns (ok: bool, point: V)
      requires Valid()
      modifies this`head
      ensures Valid() && ok == (|old(Queue())| > 0)
      ensures if ok then old(Queue()) == [point] + Queue() else Queue() == old(Queue()) && point == zero
    {
      var currentHead := head;
      var currentTail := tail;
      if currentHead >= currentTail { return false, zero; }
      point := buffer[currentHead % CAPACITY];
      head := currentHead + 1;
      return true, point;
    }
  }
}
