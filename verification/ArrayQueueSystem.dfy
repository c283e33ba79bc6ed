/** The one-to-one array queue under every interleaving of its producer and its consumer,
    with the construction and destruction of the objects in its slots. */
module ArrayQueueSystem {
  import opened Bits
  import opened Records

  // A slot is raw storage or holds a live object.
  datatype Slot<T> = Raw | Live(value: T)

  datatype Producer<T> =
    | Idle
    | HasTail(value: T, tail: nat)
    | Cleared(value: T, tail: nat)       // there is room
    | Constructed(value: T, tail: nat)

  datatype Consumer =
    | Resting
    | HasHead(head: nat)
    | Filled(head: nat)                  // there is an element
    | MovedOut(head: nat)
    | Destroyed(head: nat)

  /** `fault` is set by constructing over a live object and by moving from or destroying
      raw storage. `enqueued` and `delivered` are the values in order. */
  datatype State<T> = State(
    slots: seq<Slot<T>>, head: nat, tail: nat, producer: Producer<T>, consumer: Consumer,
    fault: bool, enqueued: seq<T>, delivered: seq<T>)

  datatype Action<T> =
    | Enqueue(value: T)      // load the tail
    | CheckRoom              // load the head and compare
    | Construct
    | StoreTail
    | Dequeue                // load the head
    | CheckElement           // load the tail and compare
    | MoveOut(leftover: T)
    | Destroy
    | StoreHead

  function Act<T>(s: State<T>, a: Action<T>): (s': State<T>)
    requires IsPowerOfTwo(|s.slots|)
    ensures |s'.slots| == |s.slots|
  {
    match a
    case Enqueue(v) => if s.producer.Idle? then s.(producer := HasTail(v, s.tail)) else s
    case CheckRoom =>
      if !s.producer.HasTail? then s
      else if s.producer.tail - s.head >= |s.slots| then s.(producer := Idle)
      else s.(producer := Cleared(s.producer.value, s.producer.tail))
    case Construct =>
      if !s.producer.Cleared? then s
      else
        MaskIsIndex(s.producer.tail, |s.slots|);
        var i := And(s.producer.tail, |s.slots| - 1);
        s.(slots := s.slots[i := Live(s.producer.value)], fault := s.fault || s.slots[i].Live?,
           producer := Constructed(s.producer.value, s.producer.tail))
    case StoreTail =>
      if !s.producer.Constructed? then s
      else s.(tail := s.producer.tail + 1, enqueued := s.enqueued + [s.producer.value], producer := Idle)
    case Dequeue => if s.consumer.Resting? then s.(consumer := HasHead(s.head)) else s
    case CheckElement =>
      if !s.consumer.HasHead? then s
      else if s.consumer.head == s.tail then s.(consumer := Resting)
      else s.(consumer := Filled(s.consumer.head))
    case MoveOut(left) =>
      if !s.consumer.Filled? then s
      else
        MaskIsIndex(s.consumer.head, |s.slots|);
        var i := And(s.consumer.head, |s.slots| - 1);
        if s.slots[i].Raw? then s.(fault := true)
        else s.(slots := s.slots[i := Live(left)], delivered := s.delivered + [s.slots[i].value],
                consumer := MovedOut(s.consumer.head))
    case Destroy =>
      if !s.consumer.MovedOut? then s
      else
        MaskIsIndex(s.consumer.head, |s.slots|);
        var i := And(s.consumer.head, |s.slots| - 1);
        s.(slots := s.slots[i := Raw], fault := s.fault || s.slots[i].Raw?, consumer := Destroyed(s.consumer.head))
    case StoreHead =>
      if !s.consumer.Destroyed? then s
      else s.(head := s.consumer.head + 1, consumer := Resting)
  }

  function Run<T>(s: State<T>, run: seq<Action<T>>): (r: State<T>)
    requires IsPowerOfTwo(|s.slots|)
    ensures |r.slots| == |s.slots|
  {
    if run == [] then s else Act(Run(s, run[..|run| - 1]), run[|run| - 1])
  }

  function Init<T>(capacity: nat): (s: State<T>)
    ensures |s.slots| == capacity
  {
    State(seq(capacity, _ => Raw), 0, 0, Idle, Resting, false, [], [])
  }

  // ---- The invariant ----

  /** What the slot of index p holds, for the indices from the head up to one lap further: an
      object exactly when p lies between head and tail, apart from the one slot being
      destroyed at the head and the one being constructed at the tail. */
  ghost predicate SlotOk<T>(s: State<T>, p: nat)
    requires |s.slots| > 0 && |s.enqueued| == s.tail
  {
    var slot := s.slots[Ix(p, |s.slots|)];
    if p < s.tail then
      if p == s.head && s.consumer.Destroyed? then slot.Raw?
      else if p == s.head && s.consumer.MovedOut? then slot.Live?
      else slot == Live(s.enqueued[p])
    else if p == s.tail && s.producer.Constructed? then slot == Live(s.producer.value)
    else slot.Raw?
  }

  ghost predicate Counts<T>(s: State<T>) {
    && 0 < |s.slots| && IsPowerOfTwo(|s.slots|) && !s.fault
    && s.head <= s.tail <= s.head + |s.slots| && |s.enqueued| == s.tail
    && (!s.producer.Idle? ==> s.producer.tail == s.tail)
    && (s.producer.Cleared? || s.producer.Constructed? ==> s.tail < s.head + |s.slots|)
    && (!s.consumer.Resting? ==> s.consumer.head == s.head)
    && (s.consumer.Filled? || s.consumer.MovedOut? || s.consumer.Destroyed? ==> s.head < s.tail)
    && (var d := if s.consumer.MovedOut? || s.consumer.Destroyed? then s.head + 1 else s.head;
        d <= s.tail && s.delivered == s.enqueued[..d])
  }

  ghost predicate Inv<T>(s: State<T>) {
    Counts(s) && forall p: nat :: s.head <= p < s.head + |s.slots| ==> SlotOk(s, p)
  }

  lemma InitInv<T>(capacity: nat)
    requires IsPowerOfTwo(capacity)
    ensures Inv(Init<T>(capacity))
  {}

  // A store into the slot of q leaves the slots of the other indices of the window.
  lemma OtherSlots<T>(slots: seq<Slot<T>>, q: nat, x: Slot<T>, p: nat)
    requires |slots| > 0 && p != q && p < q + |slots| && q < p + |slots|
    ensures slots[Ix(q, |slots|) := x][Ix(p, |slots|)] == slots[Ix(p, |slots|)]
  {
    if p < q { IndexDistinct(p, q, |slots|); } else { IndexDistinct(q, p, |slots|); }
  }

  lemma ConstructKeepsInv<T>(s: State<T>)
    requires Inv(s) && s.producer.Cleared?
    ensures IsPowerOfTwo(|s.slots|) && Inv(Act(s, Construct))
  {
    hide IsPowerOfTwo, And, Ix;
    var s', q := Act(s, Construct), s.tail;
    MaskIsIndex(q, |s.slots|);
    assert SlotOk(s, q);
    forall p: nat | s.head <= p < s.head + |s.slots| ensures SlotOk(s', p) {
      assert SlotOk(s, p);
      if p != q { OtherSlots(s.slots, q, Live(s.producer.value), p); }
    }
  }

  lemma MoveOutKeepsInv<T>(s: State<T>, left: T)
    requires Inv(s) && s.consumer.Filled?
    ensures IsPowerOfTwo(|s.slots|) && Inv(Act(s, MoveOut(left)))
  {
    hide IsPowerOfTwo, And, Ix;
    var s', q := Act(s, MoveOut(left)), s.head;
    MaskIsIndex(q, |s.slots|);
    assert SlotOk(s, q);
    forall p: nat | s.head <= p < s.head + |s.slots| ensures SlotOk(s', p) {
      assert SlotOk(s, p);
      if p != q { OtherSlots(s.slots, q, Live(left), p); }
    }
  }

  lemma DestroyKeepsInv<T>(s: State<T>)
    requires Inv(s) && s.consumer.MovedOut?
    ensures IsPowerOfTwo(|s.slots|) && Inv(Act(s, Destroy))
  {
    hide IsPowerOfTwo, And, Ix;
    var s', q := Act(s, Destroy), s.head;
    MaskIsIndex(q, |s.slots|);
    assert SlotOk(s, q);
    forall p: nat | s.head <= p < s.head + |s.slots| ensures SlotOk(s', p) {
      assert SlotOk(s, p);
      if p != q { OtherSlots(s.slots, q, Raw, p); }
    }
  }

  // The window moves one index on: the slot left behind at the head is the one a lap later.
  lemma StoreHeadKeepsInv<T>(s: State<T>)
    requires Inv(s) && s.consumer.Destroyed?
    ensures IsPowerOfTwo(|s.slots|) && Inv(Act(s, StoreHead))
  {
    hide IsPowerOfTwo, And;
    var s' := Act(s, StoreHead);
    forall p: nat | s'.head <= p < s'.head + |s.slots| ensures SlotOk(s', p) {
      if p == s.head + |s.slots| {
        assert SlotOk(s, s.head);
      } else {
        assert SlotOk(s, p);
      }
    }
  }

  lemma PlainKeepsInv<T>(s: State<T>, a: Action<T>)
    requires Inv(s) && (a.Enqueue? || a.CheckRoom? || a.StoreTail? || a.Dequeue? || a.CheckElement?)
    ensures IsPowerOfTwo(|s.slots|) && Inv(Act(s, a))
  {
    hide IsPowerOfTwo, And, Ix;
    var s' := Act(s, a);
    forall p: nat | s'.head <= p < s'.head + |s.slots| ensures SlotOk(s', p) {
      assert SlotOk(s, p);
    }
  }

  lemma ActKeepsInv<T>(s: State<T>, a: Action<T>)
    requires Inv(s)
    ensures IsPowerOfTwo(|s.slots|) && Inv(Act(s, a))
  {
    hide SlotOk, IsPowerOfTwo;
    match a
    case Construct => if s.producer.Cleared? { ConstructKeepsInv(s); }
    case MoveOut(left) => if s.consumer.Filled? { MoveOutKeepsInv(s, left); }
    case Destroy => if s.consumer.MovedOut? { DestroyKeepsInv(s); }
    case StoreHead => if s.consumer.Destroyed? { StoreHeadKeepsInv(s); }
    case _ => PlainKeepsInv(s, a);
  }

  /** In every interleaving the queue is first in, first out, never holds more than its
      capacity, and no object is constructed over another or taken from raw storage. */
  lemma {:induction false} RunIsSafe<T>(capacity: nat, run: seq<Action<T>>)
    requires IsPowerOfTwo(capacity)
    ensures var r := Run(Init(capacity), run);
            Inv(r) && !r.fault && r.delivered <= r.enqueued && 0 <= r.tail - r.head <= capacity
    decreases |run|
  {
    hide SlotOk, IsPowerOfTwo, Act, Init;
    if run == [] {
      InitInv<T>(capacity);
    } else {
      RunIsSafe(capacity, run[..|run| - 1]);
      ActKeepsInv(Run(Init(capacity), run[..|run| - 1]), run[|run| - 1]);
    }
  }

  /** A slot holds a live object exactly when its index lies between head and tail, apart from
      the slot the consumer has destroyed and the slot the producer has constructed. */
  lemma LiveExactly<T>(s: State<T>, p: nat)
    requires Inv(s) && s.head <= p < s.head + |s.slots|
    ensures s.slots[Ix(p, |s.slots|)].Live?
       <==> (p < s.tail && !(p == s.head && s.consumer.Destroyed?)) || (p == s.tail && s.producer.Constructed?)
  {
    assert SlotOk(s, p);
  }

  /** At the moment it looks, wherever the consumer stands in its own call, an enqueue is
      refused exactly when the queue holds as many elements as it has slots. */
  lemma EnqueueRefusedExactly<T>(s: State<T>)
    requires Inv(s) && s.producer.HasTail?
    ensures IsPowerOfTwo(|s.slots|)
    ensures Act(s, CheckRoom).producer.Idle? <==> s.tail - s.head == |s.slots|
  {
    hide SlotOk, IsPowerOfTwo, And;
  }

  /** At the moment it looks, wherever the producer stands in its own call, a dequeue is
      refused exactly when every element enqueued has been delivered. */
  lemma DequeueRefusedExactly<T>(s: State<T>)
    requires Inv(s) && s.consumer.HasHead?
    ensures IsPowerOfTwo(|s.slots|)
    ensures Act(s, CheckElement).consumer.Resting? <==> s.delivered == s.enqueued
  {
    hide SlotOk, IsPowerOfTwo, And;
    assert s.delivered == s.enqueued[..s.head];
    if s.head == s.tail { assert s.enqueued[..s.head] == s.enqueued; }
  }
}
