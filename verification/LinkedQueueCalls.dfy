/** Whole calls of the interleaved linked queue: what a dequeue takes, whatever the enqueuers do
    beside it, and what calls alone do. */
module LinkedQueueCalls {
  import opened Wrappers
  import opened LinkedQueueSystem

  // The enqueuer right behind the head has swapped the tail and not linked its node yet.
  ghost predicate OwedAtHead<T>(s: State<T>) {
    exists t :: s.At(t).MustLink? && s.At(t).prev == s.head
  }

  /** A dequeue gives up exactly when everything enqueued has been delivered or the link behind
      the head is still owed; otherwise it goes on with the node behind the head. */
  lemma LookExactly<T>(s: State<T>)
    requires Inv(s) && s.consumer.HasHead?
    ensures var s' := Act(s, LoadNext);
            && (s'.consumer.Ready? <==> s.delivered == s.enqueued || OwedAtHead(s))
            && (!s'.consumer.Ready? ==> |s.spine| > 1 && s'.consumer == HasNext(s.head, s.spine[1]))
            && s' == s.(consumer := s'.consumer)
  {
    hide NoLeak, ProducersOk, ValuesOk;
    EmptyExactly(s);
    assert LinkOk(s, 0);
  }

  /** A dequeue that goes on takes exactly the oldest value not yet delivered. */
  lemma MovesOldest<T>(s: State<T>, left: T)
    requires Inv(s) && s.consumer.HasNext?
    ensures |s.delivered| < |s.enqueued|
    ensures var s' := Act(s, MoveValue(left));
            && s'.delivered == s.delivered + [s.enqueued[|s.delivered|]]
            && s'.consumer == HasMoved(s.head, s.consumer.next)
            && s'.enqueued == s.enqueued && s'.head == s.head && s'.spine == s.spine && s'.producers == s.producers
  {
    hide NoLeak, ProducersOk, LinksOk;
    assert s.spine[1] in s.memory;
  }

  /** It then moves the head to that node and frees exactly the old one. */
  lemma AdvancesHead<T>(s: State<T>)
    requires Inv(s) && s.consumer.HasMoved?
    ensures |s.spine| > 1
    ensures var s' := Act(s, StoreHead);
            var s'' := Act(s', Delete);
            && s'.head == s.spine[1] && s'.consumer == MustDelete(s.head)
            && s'' == s'.(memory := s''.memory, consumer := Ready)
            && s'' == s.(memory := s''.memory, head := s.spine[1], spine := s.spine[1..], consumer := Ready)
            && s''.memory.Keys == s.memory.Keys - {s.head}
  {
    hide NoLeak, ProducersOk, LinksOk, ValuesOk;
  }

  /** Enqueuers leave the dequeuer where it is, and what it has delivered: in every interleaving
      a dequeue that has seen a next node takes the oldest value. */
  lemma EnqueuersAside<T>(s: State<T>, a: Action<T>)
    requires a.Allocate? || a.Exchange? || a.Link?
    ensures Act(s, a).consumer == s.consumer && Act(s, a).delivered == s.delivered && Act(s, a).head == s.head
    ensures s.enqueued <= Act(s, a).enqueued
  {}

  function Dequeue<T>(left: T): seq<Action<T>> {
    [LoadHead, LoadNext] + [MoveValue(left), StoreHead, Delete]
  }

  lemma {:induction false} RunSplit<T>(s: State<T>, a: seq<Action<T>>, b: seq<Action<T>>)
    ensures Run(s, a + b) == Run(Run(s, a), b)
    decreases |b|
  {
    hide Act;
    if b == [] {
      assert a + b == a;
    } else {
      var n := |b| - 1;
      assert (a + b)[..|a + b| - 1] == a + b[..n];
      RunSplit(s, a, b[..n]);
    }
  }

  lemma RunOne<T>(s: State<T>, a: Action<T>)
    ensures Run(s, [a]) == Act(s, a)
  {
    hide Act;
    assert [a][..0] == [];
    assert Run(s, []) == s;
  }

  lemma RunTwo<T>(s: State<T>, a: Action<T>, b: Action<T>)
    ensures Run(s, [a, b]) == Act(Act(s, a), b)
  {
    hide Act, Run;
    assert [a, b] == [a] + [b];
    RunSplit(s, [a], [b]);
    RunOne(s, a);
    RunOne(Act(s, a), b);
  }

  lemma RunThree<T>(s: State<T>, a: Action<T>, b: Action<T>, c: Action<T>)
    ensures Run(s, [a, b, c]) == Act(Act(Act(s, a), b), c)
  {
    hide Act, Run;
    assert [a, b, c] == [a, b] + [c];
    RunSplit(s, [a, b], [c]);
    RunTwo(s, a, b);
    RunOne(Act(Act(s, a), b), c);
  }

  /** A whole dequeue alone: without effect exactly when there is nothing to take; otherwise it
      delivers the oldest value, frees one node and stands ready again. */
  lemma DequeueAlone<T>(s: State<T>, left: T)
    requires Inv(s) && s.consumer.Ready?
    ensures var r := Run(s, Dequeue(left));
            && Inv(r) && r.consumer.Ready? && r.enqueued == s.enqueued && r.producers == s.producers
            && (r == s <==> s.delivered == s.enqueued || OwedAtHead(s))
            && (r != s ==> |s.delivered| < |s.enqueued| && r.delivered == s.delivered + [s.enqueued[|s.delivered|]]
                           && r.memory.Keys == s.memory.Keys - {s.head})
  {
    hide Inv, Act, Run;
    RunSplit(s, [LoadHead, LoadNext], [MoveValue(left), StoreHead, Delete]);
    RunTwo(s, LoadHead, LoadNext);
    var s1 := Act(s, LoadHead);
    LoadsHead(s);
    ActKeepsInv(s, LoadHead);
    var s2 := Act(s1, LoadNext);
    LookExactly(s1);
    assert forall t :: s1.At(t) == s.At(t);
    assert OwedAtHead(s1) <==> OwedAtHead(s);
    ActKeepsInv(s1, LoadNext);
    RunThree(s2, MoveValue(left), StoreHead, Delete);
    if s2.consumer.Ready? {
      assert s2 == s;
      NothingToTake(s, left);
    } else {
      MovesOldest(s2, left);
      ActKeepsInv(s2, MoveValue(left));
      var s3 := Act(s2, MoveValue(left));
      AdvancesHead(s3);
      ActKeepsInv(s3, StoreHead);
      ActKeepsInv(Act(s3, StoreHead), Delete);
      SameNodes(s2, left);
      assert Run(s, Dequeue(left)).delivered != s.delivered;
    }
  }

  lemma LoadsHead<T>(s: State<T>)
    requires s.consumer.Ready?
    ensures Act(s, LoadHead) == s.(consumer := HasHead(s.head))
  {}

  lemma NothingToTake<T>(s: State<T>, left: T)
    requires s.consumer.Ready?
    ensures Act(Act(Act(s, MoveValue(left)), StoreHead), Delete) == s
  {}

  lemma SameNodes<T>(s: State<T>, left: T)
    requires Inv(s) && s.consumer.HasNext?
    ensures Act(s, MoveValue(left)).memory.Keys == s.memory.Keys
  {
    hide NoLeak, ProducersOk, LinksOk, ValuesOk;
    assert s.spine[1] in s.memory;
  }

  function Enqueue<T>(t: nat, x: Address, v: T): seq<Action<T>> {
    [Allocate(t, x, v), Exchange(t), Link(t)]
  }

  /** A whole enqueue alone, at any free address: its value is the newest, one node is added, and
      nothing is owed that was not before. */
  lemma EnqueueAlone<T>(s: State<T>, t: nat, x: Address, v: T)
    requires Inv(s) && s.At(t).Resting? && x !in s.memory
    ensures var r := Run(s, Enqueue(t, x, v));
            && Inv(r) && r.enqueued == s.enqueued + [v] && r.delivered == s.delivered && r.consumer == s.consumer
            && r.tail == x && r.memory.Keys == s.memory.Keys + {x}
            && forall u :: r.At(u) == s.At(u)
  {
    hide Inv, Act, Run;
    RunThree(s, Allocate(t, x, v), Exchange(t), Link(t));
    var s1 := Act(s, Allocate(t, x, v));
    ActKeepsInv(s, Allocate(t, x, v));
    Allocates(s, t, x, v);
    var s2 := Act(s1, Exchange(t));
    ActKeepsInv(s1, Exchange(t));
    Exchanges(s1, t);
    ActKeepsInv(s2, Link(t));
    Links(s2, t);
  }

  lemma Allocates<T>(s: State<T>, t: nat, x: Address, v: T)
    requires s.At(t).Resting? && x !in s.memory
    ensures Act(s, Allocate(t, x, v))
         == s.(memory := s.memory[x := Node(v, None)], producers := s.producers[t := HoldsNode(x)])
  {}

  lemma Exchanges<T>(s: State<T>, t: nat)
    requires s.At(t).HoldsNode? && s.At(t).node in s.memory
    ensures var x := s.At(t).node;
            Act(s, Exchange(t)) == s.(tail := x, producers := s.producers[t := MustLink(x, s.tail)],
                                      spine := s.spine + [x], enqueued := s.enqueued + [s.memory[x].value])
  {}

  lemma Links<T>(s: State<T>, t: nat)
    requires Inv(s) && s.At(t).MustLink?
    ensures var s' := Act(s, Link(t));
            && s' == s.(memory := s'.memory, producers := s.producers[t := Resting])
            && s'.memory.Keys == s.memory.Keys
  {
    hide NoLeak, ConsumerOk, LinksOk, ValuesOk;
    LinkersNodes(s, t);
  }

  // As many dequeues as it takes.
  function Dequeues<T>(left: T, n: nat): seq<Action<T>> {
    if n == 0 then [] else Dequeue(left) + Dequeues(left, n - 1)
  }

  /** With no link owed, as many dequeues as values wait deliver everything enqueued, in order. */
  lemma {:induction false} DequeuesDeliverAll<T>(s: State<T>, left: T, n: nat)
    requires Inv(s) && s.consumer.Ready? && (forall t :: !s.At(t).MustLink?)
    requires n == |s.enqueued| - |s.delivered|
    ensures var r := Run(s, Dequeues(left, n)); r.delivered == r.enqueued == s.enqueued && r.consumer.Ready?
    decreases n
  {
    hide Inv, Run, Dequeue;
    DeliveredPrefix(s);
    if n == 0 {
      RunNothing(s);
    } else {
      RunSplit(s, Dequeue(left), Dequeues(left, n - 1));
      DequeueAlone(s, left);
      var r := Run(s, Dequeue(left));
      assert forall t :: r.At(t) == s.At(t);
      DequeuesDeliverAll(r, left, n - 1);
    }
  }

  lemma DeliveredPrefix<T>(s: State<T>)
    requires Inv(s)
    ensures s.delivered <= s.enqueued
    ensures |s.delivered| == |s.enqueued| ==> s.delivered == s.enqueued
  {
    hide NoLeak, ConsumerOk, LinksOk, ProducersOk, SpineOk;
  }

  lemma RunNothing<T>(s: State<T>)
    ensures Run(s, []) == s
  {}
}
