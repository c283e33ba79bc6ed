/** Whole calls of the interleaved array queue, each alone from wherever the other side stands. */
module ArrayQueueCalls {
  import opened Bits
  import opened Records
  import opened ArrayQueueSystem

  function EnqueueCall<T>(v: T): seq<Action<T>> {
    [Enqueue(v), CheckRoom, Construct, StoreTail]
  }

  function DequeueCall<T>(left: T): seq<Action<T>> {
    [Dequeue, CheckElement, MoveOut(left), Destroy, StoreHead]
  }

  lemma RunLast<T>(s: State<T>, run: seq<Action<T>>, a: Action<T>)
    requires IsPowerOfTwo(|s.slots|)
    ensures Run(s, run + [a]) == Act(Run(s, run), a)
  {
    hide Act, IsPowerOfTwo;
    assert (run + [a])[..|run|] == run;
  }

  lemma RunNothing<T>(s: State<T>)
    requires IsPowerOfTwo(|s.slots|)
    ensures Run(s, []) == s
  {}

  lemma RunTwo<T>(s: State<T>, a: Action<T>, b: Action<T>)
    requires IsPowerOfTwo(|s.slots|)
    ensures Run(s, [a, b]) == Act(Act(s, a), b)
  {
    hide Act, IsPowerOfTwo, Run;
    RunNothing(s);
    RunLast(s, [], a);
    assert [] + [a] == [a];
    RunLast(s, [a], b);
    assert [a] + [b] == [a, b];
  }

  lemma RunFour<T>(s: State<T>, a: Action<T>, b: Action<T>, c: Action<T>, d: Action<T>)
    requires IsPowerOfTwo(|s.slots|)
    ensures Run(s, [a, b, c, d]) == Act(Act(Act(Act(s, a), b), c), d)
  {
    hide Act, IsPowerOfTwo, Run;
    RunTwo(s, a, b);
    RunLast(s, [a, b], c);
    assert [a, b] + [c] == [a, b, c];
    RunLast(s, [a, b, c], d);
    assert [a, b, c] + [d] == [a, b, c, d];
  }

  lemma RunFive<T>(s: State<T>, a: Action<T>, b: Action<T>, c: Action<T>, d: Action<T>, e: Action<T>)
    requires IsPowerOfTwo(|s.slots|)
    ensures Run(s, [a, b, c, d, e]) == Act(Act(Act(Act(Act(s, a), b), c), d), e)
  {
    hide Act, IsPowerOfTwo, Run;
    RunFour(s, a, b, c, d);
    RunLast(s, [a, b, c, d], e);
    assert [a, b, c, d, e] == [a, b, c, d] + [e];
  }

  /** An enqueue alone, wherever the consumer stands in its own call: without effect exactly when
      the queue holds as many elements as it has slots; otherwise its value is the newest. */
  lemma EnqueueAlone<T>(s: State<T>, v: T)
    requires Inv(s) && s.producer.Idle?
    ensures IsPowerOfTwo(|s.slots|)
    ensures var r := Run(s, EnqueueCall(v));
            && Inv(r) && r.producer.Idle? && r.consumer == s.consumer && r.delivered == s.delivered && r.head == s.head
            && r.enqueued == (if s.tail - s.head == |s.slots| then s.enqueued else s.enqueued + [v])
            && (s.tail - s.head == |s.slots| ==> r == s)
  {
    hide SlotOk, IsPowerOfTwo, And, Run;
    RunFour(s, Enqueue(v), CheckRoom, Construct, StoreTail);
    var s1 := Act(s, Enqueue(v));
    ActKeepsInv(s, Enqueue(v));
    var s2 := Act(s1, CheckRoom);
    ActKeepsInv(s1, CheckRoom);
    ActKeepsInv(s2, Construct);
    ActKeepsInv(Act(s2, Construct), StoreTail);
  }

  /** A dequeue alone, wherever the producer stands in its own call: without effect exactly when
      every element enqueued has been delivered; otherwise it delivers the oldest. */
  lemma DequeueAlone<T>(s: State<T>, left: T)
    requires Inv(s) && s.consumer.Resting?
    ensures IsPowerOfTwo(|s.slots|)
    ensures var r := Run(s, DequeueCall(left));
            && Inv(r) && r.consumer.Resting? && r.producer == s.producer && r.enqueued == s.enqueued && r.tail == s.tail
            && (s.delivered == s.enqueued ==> r == s)
            && (s.delivered != s.enqueued ==> |s.delivered| < |s.enqueued|
                                              && r.delivered == s.delivered + [s.enqueued[|s.delivered|]])
  {
    hide SlotOk, IsPowerOfTwo, And, Run, Act, Inv;
    SlotsCounted(s);
    RunFive(s, Dequeue, CheckElement, MoveOut(left), Destroy, StoreHead);
    var s1 := Act(s, Dequeue);
    ActKeepsInv(s, Dequeue);
    Looks(s);
    DequeueRefusedExactly(s1);
    var s2 := Act(s1, CheckElement);
    ActKeepsInv(s1, CheckElement);
    ActKeepsInv(s2, MoveOut(left));
    if s2.consumer.Filled? {
      TakesOldest(s2, left);
      var s3 := Act(s2, MoveOut(left));
      ActKeepsInv(s3, Destroy);
      ActKeepsInv(Act(s3, Destroy), StoreHead);
      FreesSlot(s3);
    } else {
      NothingToTake(s2, left);
    }
  }

  lemma SlotsCounted<T>(s: State<T>)
    requires Inv(s)
    ensures IsPowerOfTwo(|s.slots|)
  {
    hide SlotOk, IsPowerOfTwo;
  }

  lemma Looks<T>(s: State<T>)
    requires Inv(s) && s.consumer.Resting?
    ensures IsPowerOfTwo(|s.slots|)
    ensures var s1 := Act(s, Dequeue);
            var s2 := Act(s1, CheckElement);
            && s1 == s.(consumer := HasHead(s.head)) && s2 == s.(consumer := s2.consumer)
            && (s2.consumer.Resting? || s2.consumer.Filled?)
  {
    hide SlotOk, IsPowerOfTwo, And;
  }

  lemma NothingToTake<T>(s: State<T>, left: T)
    requires Inv(s) && s.consumer.Resting?
    ensures IsPowerOfTwo(|s.slots|)
    ensures Act(Act(Act(s, MoveOut(left)), Destroy), StoreHead) == s
  {
    hide SlotOk, IsPowerOfTwo, And;
  }

  lemma FreesSlot<T>(s: State<T>)
    requires Inv(s) && s.consumer.MovedOut?
    ensures IsPowerOfTwo(|s.slots|)
    ensures var r := Act(Act(s, Destroy), StoreHead);
            r == s.(slots := r.slots, head := s.head + 1, consumer := Resting)
  {
    hide SlotOk, IsPowerOfTwo, And;
    ActKeepsInv(s, Destroy);
  }

  /** What is moved out is the oldest element not yet delivered, in every interleaving. */
  lemma TakesOldest<T>(s: State<T>, left: T)
    requires Inv(s) && s.consumer.Filled?
    ensures IsPowerOfTwo(|s.slots|) && |s.delivered| < |s.enqueued|
    ensures var s' := Act(s, MoveOut(left));
            && s'.delivered == s.delivered + [s.enqueued[|s.delivered|]] && s'.consumer == MovedOut(s.head)
            && s' == s.(slots := s'.slots, delivered := s'.delivered, consumer := s'.consumer)
  {
    hide IsPowerOfTwo, And;
    MaskIsIndex(s.head, |s.slots|);
    assert SlotOk(s, s.head);
  }
}
