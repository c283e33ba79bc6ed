/** When a claim can mislead the consumer: the words it lands on decide what a run that
    follows can make the consumer see. */
module RingMisreads {
  import opened Bits
  import opened Bytes
  import opened Records
  import opened RingSystem
  import opened RingSafety
  import opened RingUniform
  import opened RingTheorems

  // Position p is that of a length word which the producer of claim k has yet to store.
  ghost predicate NotStored(s: State, k: nat, p: nat) {
    && k < |s.claims| && ProgressOf(s, k).Pending?
    && (p == s.claims[k].Record() || (p == s.claims[k].start && ProgressOf(s, k) == Pending(AtPadding)))
  }

  /** The consumer has taken something for the length word of a record before its producer
      has stored one. */
  ghost predicate Misreads(s: State) {
    s.consumer.HasLength? && s.consumer.length != 0 && exists k: nat :: NotStored(s, k, Next(s))
  }

  /** A claim is safe if and only if the words it publishes through read zero: then no run in
      which later claims land on zeroed words, too, lets the consumer misread; otherwise some
      such run does. */
  lemma ClaimSafeIffClear(s: State, t: nat)
    requires Inv(s) && Wins(s, t)
    ensures |Act(s, Produce(t)).mem| > 0
    ensures Clear(s, s.producers[t].msg)
       <==> forall run :: ClearRun(Act(s, Produce(t)), run) ==> !Misreads(Exec(Act(s, Produce(t)), run))
  {
    hide Inv, Misreads, ClearRun, Exec, Clear;
    WinnerThere(s, t);
    var s' := Act(s, Produce(t));
    if Clear(s, s.producers[t].msg) {
      ClaimStep(s, t);
      forall run | ClearRun(s', run) ensures !Misreads(Exec(s', run)) {
        RunKeepsInv(s', run);
        NeverMisreads(Exec(s', run));
      }
    } else {
      var run := UnclearMisreads(s, t);
      assert ClearRun(s', run) && Misreads(Exec(s', run));
    }
  }

  lemma WinnerThere(s: State, t: nat)
    requires Wins(s, t)
    ensures |s.mem| > 0 && t in s.producers && s.producers[t].HasHead?
  {}

  lemma NeverMisreads(s: State)
    requires Inv(s)
    ensures !Misreads(s)
  {
    hide Inv, NotStored;
    if s.consumer.HasLength? && s.consumer.length != 0 {
      forall k: nat ensures !NotStored(s, k, Next(s)) {
        StoredThere(s, k);
      }
    }
  }

  lemma StoredThere(s: State, k: nat)
    requires Inv(s) && s.consumer.HasLength? && s.consumer.length != 0
    ensures !NotStored(s, k, Next(s))
  {
    hide IsPowerOfTwo, MemoryOk, Chain, Required, Layout;
    if k < |s.claims| && ProgressOf(s, k).Pending? {
      assert ProducerOk(s, s.claims[k].owner);
      LiveWindow(s, Consumed(s));
      LiveWindow(s, k);
    }
  }

  // ---- The run that shows it ----

  // The state x with claim c of producer t made on top of it; `later` tells whether the
  // consumer took its snapshot of the tail after that.
  ghost function With(x: State, t: nat, c: Claim, later: bool): (y: State)
    ensures y.mem == x.mem
  {
    State(x.mem, x.head, c.End(), x.producers[t := Writing(|x.claims|, if c.pad > 0 then AtPadding else AtZeroing)],
          if later then Raised(x.consumer, c.End()) else x.consumer, x.claims + [c], x.delivered)
  }

  function Raised(consumer: Consumer, tail: nat): Consumer {
    match consumer
    case Scanning(h, n, _) => Scanning(h, n, tail)
    case HasLength(h, n, _, length) => HasLength(h, n, tail, length)
    case Handled(h, n, _, size) => Handled(h, n, tail, size)
    case _ => consumer
  }

  // Producer t may make claim c on top of x, and a word it publishes through is not zero.
  ghost predicate Unsafe(x: State, t: nat, c: Claim) {
    && Inv(x) && |x.mem| > 0 && t in x.producers && !x.producers[t].Writing?
    && c.owner == t && c.start == x.tail && ClaimShape(|x.mem|, c) && c.End() <= x.head + |x.mem|
    && !(WordAt(x.mem, c.Record()) == 0 && (c.pad > 0 ==> WordAt(x.mem, c.start) == 0))
  }

  // A store of another producer that is writing, or a step of the consumer.
  predicate Carries(x: State, a: Action) {
    a.Consume? || (a.Produce? && a.tid in x.producers && x.producers[a.tid].Writing?)
  }

  // What such a step leaves: everything but the memory below the tail and the two parties.
  ghost predicate Carried(x: State, x': State, e: nat) {
    && x'.tail == x.tail && x'.claims == x.claims && x.head <= x'.head
    && Agree(x.mem, x'.mem, x.tail, e)
  }

  lemma StepKeepsUnsafe(x: State, t: nat, c: Claim, a: Action)
    requires Unsafe(x, t, c) && Carries(x, a)
    ensures Unsafe(Act(x, a), t, c)
    ensures Act(x, a).tail == x.tail && Act(x, a).claims == x.claims
  {
    hide Inv, Act, ClaimShape, WordAt;
    assert ClearAction(x, a);
    ActKeepsInv(x, a);
    EndBeyond(x, t, c);
    StepCarries(x, a, c.End());
    OthersStay(x, a, t);
    WordsStay(x.mem, Act(x, a).mem, c);
  }

  lemma EndBeyond(x: State, t: nat, c: Claim)
    requires Unsafe(x, t, c)
    ensures x.tail <= c.Record() && c.Record() + 4 <= c.End()
  {}

  lemma OthersStay(x: State, a: Action, t: nat)
    requires |x.mem| > 0 && Carries(x, a) && t in x.producers && !x.producers[t].Writing?
    ensures t in Act(x, a).producers && Act(x, a).producers[t] == x.producers[t]
  {}

  lemma WordsStay(mem: seq<byte>, mem': seq<byte>, c: Claim)
    requires Agree(mem, mem', c.start, c.End()) && c.Record() + 4 <= c.End()
    ensures WordAt(mem', c.Record()) == WordAt(mem, c.Record())
    ensures c.pad > 0 ==> WordAt(mem', c.start) == WordAt(mem, c.start)
  {
    hide At;
    WordFrame(mem, mem', c.Record(), c.start, c.End());
    WordFrame(mem, mem', c.start, c.start, c.End());
  }

  lemma StepCarries(x: State, a: Action, e: nat)
    requires Inv(x) && Carries(x, a) && x.tail <= e <= x.head + |x.mem|
    ensures |x.mem| > 0 && Carried(x, Act(x, a), e)
  {
    NonEmpty(x);
    hide Inv, ConsumerStep, WriteOn, Agree;
    if a.Consume? {
      ConsumerCarries(x, e);
    } else {
      WriterCarries(x, a.tid, e);
    }
  }

  lemma WriterCarries(x: State, t: nat, e: nat)
    requires Inv(x) && |x.mem| > 0 && t in x.producers && x.producers[t].Writing? && x.tail <= e <= x.head + |x.mem|
    ensures Carried(x, Act(x, Produce(t)), e)
  {
    hide Layout, ConsumerOk, ClaimMemory, StageStore, Placed, At, Required, ValidMsg;
    var Writing(k, stage) := x.producers[t];
    assert ProducerOk(x, t);
    NextBelowTail(x);
    assert ProgressOf(x, k) == Pending(stage);
    assert ClaimMemory(x.mem, x.claims[k], PadGone(x, k), ProgressOf(x, k));
    ClaimPlaced(x, k);
    LiveWindow(x, k);
    StageAboveHead(x, k, stage);
    StoreElsewhere(x.mem, x.claims[k], stage, x.tail, e, x.head);
  }

  lemma StageAboveHead(x: State, k: nat, stage: Stage)
    requires k < |x.claims| && |x.mem| > 0 && ClaimMemory(x.mem, x.claims[k], PadGone(x, k), Pending(stage))
    requires x.head <= Low(x, k)
    ensures x.head <= StagePosition(x.claims[k], stage)
  {
    hide WordAt, BodyAt;
  }

  lemma ConsumerCarries(x: State, e: nat)
    requires Inv(x) && |x.mem| > 0 && x.tail <= e <= x.head + |x.mem|
    ensures Carried(x, ConsumerStep(x), e)
  {
    hide MemoryOk, ProducersOk, Chain, IsPowerOfTwo, Load, MessageAt, MaxLength, Store, EncI32, Ix, RoundUp, At,
        LengthOk;
    ConsumerFacts(x);
    if (x.consumer.HasLength? && x.consumer.length < 0) || x.consumer.Handled? {
      ClearsBelow(x, e);
    }
  }

  lemma ClearsBelow(x: State, e: nat)
    requires Inv(x) && |x.mem| > 0 && x.tail <= e <= x.head + |x.mem|
    requires (x.consumer.HasLength? && x.consumer.length < 0) || x.consumer.Handled?
    ensures Agree(x.mem, Store(x.mem, Ix(Next(x), |x.mem|), EncI32(0)), x.tail, e)
  {
    hide IsPowerOfTwo, Chain, MemoryOk, ProducersOk, At, Required, WordAt, Ix, EncI32, Splice, Placed;
    ConsumerFacts(x);
    var c := Consumed(x);
    var n := Next(x);
    EdgeIsStart(x, c);
    ClaimPlaced(x, c);
    LiveWindow(x, c);
    WordLoaded(x.mem, x.claims[c], n);
    RecordRoom(x.claims[c]);
    StoreAt(x.mem, n, EncI32(0), x.head, x.head + |x.mem|);
    assert Store(x.mem, Ix(n, |x.mem|), EncI32(0)) == Splice(x.mem, Ix(n, |x.mem|), EncI32(0));
  }

  lemma RecordRoom(c: Claim)
    ensures c.Record() + 4 <= c.End()
  {}

  // A step of x is the same step of the state with the claim on top, as long as the consumer
  // has not come to that claim.
  lemma StepWith(x: State, t: nat, c: Claim, later: bool, a: Action)
    requires Unsafe(x, t, c) && Carries(x, a)
    requires later && a.Consume? && x.consumer.Scanning? ==> Next(x) < x.tail && x.consumer.tail == x.tail
    ensures Act(With(x, t, c, later), a) == With(Act(x, a), t, c, later || (a.Consume? && x.consumer.HasOldHead?))
    ensures ClearAction(With(x, t, c, later), a)
  {
    hide Unsafe, Inv, WriteOn, ConsumerStep;
    UnsafeFacts(x, t, c);
    if a.Produce? {
      WriterClaim(x, a.tid);
      WriterWith(x, t, c, later, a.tid);
    } else {
      EndBeyond(x, t, c);
      if later { LaterConsumerWith(x, t, c); } else { ConsumerWith(x, t, c); }
    }
  }

  lemma WriterWith(x: State, t: nat, c: Claim, later: bool, u: nat)
    requires |x.mem| > 0 && t in x.producers && !x.producers[t].Writing?
    requires u in x.producers && x.producers[u].Writing? && x.producers[u].claim < |x.claims|
    ensures Act(With(x, t, c, later), Produce(u)) == With(Act(x, Produce(u)), t, c, later)
  {
    hide StageStore, Raised;
    var Writing(k, stage) := x.producers[u];
    var w := Writing(|x.claims|, if c.pad > 0 then AtPadding else AtZeroing);
    assert (x.claims + [c])[k] == x.claims[k];
    assert x.producers[t := w][u := AfterStage(k, stage)] == x.producers[u := AfterStage(k, stage)][t := w];
  }

  lemma ConsumerWith(x: State, t: nat, c: Claim)
    requires |x.mem| > 0
    ensures ConsumerStep(With(x, t, c, false)) == With(ConsumerStep(x), t, c, x.consumer.HasOldHead?)
  {
    hide Load, Store, MessageAt, Ix, EncI32, RoundUp, MaxLength;
  }

  lemma LaterConsumerWith(x: State, t: nat, c: Claim)
    requires |x.mem| > 0 && x.tail < c.End()
    requires x.consumer.Scanning? ==> Next(x) < x.tail && x.consumer.tail == x.tail
    ensures ConsumerStep(With(x, t, c, true)) == With(ConsumerStep(x), t, c, true)
  {
    hide Load, Store, MessageAt, Ix, EncI32, RoundUp, MaxLength, ConsumerStep;
    var y, x' := With(x, t, c, true), ConsumerStep(x);
    RaisedStep(x, y, c.End());
    assert x'.producers == x.producers && x'.claims == x.claims by { SameParties(x); }
  }

  lemma SameParties(x: State)
    requires |x.mem| > 0
    ensures ConsumerStep(x).producers == x.producers && ConsumerStep(x).claims == x.claims
  {
    hide Load, Store, MessageAt, Ix, EncI32, RoundUp, MaxLength;
  }

  lemma RaisedLength(x: State, y: State, e: nat)
    requires |x.mem| > 0 && y.mem == x.mem && y.head == x.head && y.delivered == x.delivered
    requires x.consumer.HasLength? && y.consumer == Raised(x.consumer, e)
    ensures var x' := ConsumerStep(x);
            ConsumerStep(y) ==
                y.(mem := x'.mem, head := x'.head, delivered := x'.delivered, consumer := Raised(x'.consumer, e))
  {
    hide Load, Store, MessageAt, Ix, EncI32, RoundUp, MaxLength;
    var HasLength(h, n, tail, length) := x.consumer;
    assert y.consumer == HasLength(h, n, e, length);
  }

  lemma RaisedStep(x: State, y: State, e: nat)
    requires |x.mem| > 0 && y.mem == x.mem && y.head == x.head && y.delivered == x.delivered
    requires y.tail == e && y.consumer == Raised(x.consumer, e)
    requires x.consumer.Scanning? ==> x.consumer.next < x.consumer.tail <= e
    ensures var x' := ConsumerStep(x);
            ConsumerStep(y) ==
                y.(mem := x'.mem, head := x'.head, delivered := x'.delivered, consumer := Raised(x'.consumer, e))
  {
    hide Load, Store, MessageAt, Ix, EncI32, RoundUp, MaxLength;
    match x.consumer
    case Resting =>
    case HasOldHead(_) =>
    case Scanning(_, _, _) =>
    case HasLength(_, _, _, _) => RaisedLength(x, y, e);
    case Handled(h, n, tail, size) =>
      assert y.consumer == Handled(h, n, e, size);
    case Corrupt(_) =>
  }

  lemma UnsafeFacts(x: State, t: nat, c: Claim)
    requires Unsafe(x, t, c)
    ensures Inv(x) && |x.mem| > 0 && t in x.producers && !x.producers[t].Writing?
  {}

  lemma WriterClaim(x: State, t: nat)
    requires Inv(x) && t in x.producers && x.producers[t].Writing?
    ensures x.producers[t].claim < |x.claims| && x.claims[x.producers[t].claim].owner == t
  {
    hide Layout, ConsumerOk, MemoryOk;
    assert ProducerOk(x, t);
  }

  // `run` leads from y to a misread without a claim on unclear words.
  ghost predicate LeadsThere(y: State, run: seq<Action>)
    requires |y.mem| > 0
  {
    ClearRun(y, run) && Misreads(Exec(y, run))
  }

  lemma StepFirst(y: State, a: Action, rest: seq<Action>)
    requires |y.mem| > 0 && ClearAction(y, a) && LeadsThere(Act(y, a), rest)
    ensures LeadsThere(y, [a] + rest)
  {
    hide Misreads, Act, ClearAction;
    assert ([a] + rest)[1..] == rest;
  }

  // The stores that the producer of claim i still has to make.
  ghost function StagesLeft(x: State, i: nat): nat {
    if i < |x.claims| && ProgressOf(x, i).Pending? then 5 - Rank(ProgressOf(x, i).stage) else 0
  }

  /** First the other producers finish their claims, one after the other. */
  lemma {:induction false} OthersFinish(x: State, t: nat, c: Claim, i: nat) returns (run: seq<Action>)
    requires Unsafe(x, t, c) && i <= |x.claims|
    requires forall u :: u in x.producers && x.producers[u].Writing? ==> x.producers[u].claim >= i
    ensures LeadsThere(With(x, t, c, false), run)
    decreases |x.claims| - i, StagesLeft(x, i)
  {
    hide Unsafe, LeadsThere, With, StageStore;
    UnsafeFacts(x, t, c);
    if i == |x.claims| {
      forall u | u in x.producers ensures !x.producers[u].Writing? {
        if x.producers[u].Writing? { WriterClaim(x, u); }
      }
      run := PassEnds(x, t, c);
    } else if ProgressOf(x, i).Published? {
      forall u | u in x.producers && x.producers[u].Writing? ensures x.producers[u].claim >= i + 1 {
        WriterClaim(x, u);
      }
      run := OthersFinish(x, t, c, i + 1);
    } else {
      var u := x.claims[i].owner;
      var a := Produce(u);
      StepKeepsUnsafe(x, t, c, a);
      StepWith(x, t, c, false, a);
      WriterAdvances(x, u, i);
      var rest := OthersFinish(Act(x, a), t, c, i);
      StepFirst(With(x, t, c, false), a, rest);
      run := [a] + rest;
    }
  }

  lemma WriterAdvances(x: State, u: nat, i: nat)
    requires |x.mem| > 0 && i < |x.claims| && x.claims[i].owner == u && ProgressOf(x, i).Pending?
    requires forall v :: v in x.producers && x.producers[v].Writing? ==> x.producers[v].claim >= i
    ensures var x' := Act(x, Produce(u));
            && x'.claims == x.claims
            && (forall v :: v in x'.producers && x'.producers[v].Writing? ==> x'.producers[v].claim >= i)
            && StagesLeft(x', i) < StagesLeft(x, i)
  {
    hide StageStore;
  }

  ghost predicate NoneWriting(x: State) {
    forall u :: u in x.producers ==> !x.producers[u].Writing?
  }

  ghost function StepsLeft(x: State): nat {
    match x.consumer
    case Scanning(_, _, _) => 3
    case HasLength(_, _, _, _) => 2
    case Handled(_, _, _, _) => 1
    case _ => 0
  }

  /** Then the consumer ends its pass and begins a new one. */
  lemma {:induction false} PassEnds(x: State, t: nat, c: Claim) returns (run: seq<Action>)
    requires Unsafe(x, t, c) && NoneWriting(x)
    ensures LeadsThere(With(x, t, c, false), run)
    decreases if x.consumer.HasOldHead? then 0 else if x.consumer.Resting? then 1 else 2, x.tail - Next(x), StepsLeft(x)
  {
    hide Unsafe, LeadsThere, With, ConsumerStep, Inv;
    UnsafeFacts(x, t, c);
    StepKeepsUnsafe(x, t, c, Consume);
    StepWith(x, t, c, false, Consume);
    var x' := Act(x, Consume);
    PassStep(x);
    UnsafeFacts(x', t, c);
    NextBelowTail(x');
    var rest;
    if x.consumer.HasOldHead? {
      rest := ConsumerArrives(x', t, c);
    } else {
      rest := PassEnds(x', t, c);
    }
    StepFirst(With(x, t, c, false), Consume, rest);
    run := [Consume] + rest;
  }

  lemma PassStep(x: State)
    requires Inv(x) && NoneWriting(x)
    ensures |x.mem| > 0
    ensures var x' := ConsumerStep(x);
      && NoneWriting(x') && x'.tail == x.tail
      && (x.consumer.Resting? ==> x'.consumer.HasOldHead?)
      && (x.consumer.HasOldHead? ==> x'.consumer.Scanning? && x'.consumer.tail == x.tail)
      && (!x.consumer.Resting? && !x.consumer.HasOldHead? ==>
            x'.consumer.Resting?
            || (!x'.consumer.HasOldHead? && Next(x) <= Next(x') &&
                (Next(x) == Next(x') ==> StepsLeft(x') < StepsLeft(x))))
  {
    hide Inv, Load, MessageAt, MaxLength, Store, EncI32, Ix;
    ConsumerFacts(x);
    if x.consumer.HasLength? && x.consumer.length > 0 { Deliverable(x); }
    if x.consumer.HasLength? && x.consumer.length < 0 { SkipsForward(x); }
  }

  /** The new pass reads everything in front of the claim and comes to it. */
  lemma {:induction false} ConsumerArrives(x: State, t: nat, c: Claim) returns (run: seq<Action>)
    requires Unsafe(x, t, c) && Draining(x) && !x.consumer.Resting? && !x.consumer.HasOldHead?
    ensures LeadsThere(With(x, t, c, true), run)
    decreases x.tail - Next(x), Remaining(x)
  {
    hide Unsafe, LeadsThere, With, ConsumerStep, Inv;
    UnsafeFacts(x, t, c);
    if x.consumer.Scanning? && Next(x) >= x.tail {
      run := ClaimMisread(x, t, c);
    } else {
      StepKeepsUnsafe(x, t, c, Consume);
      StepWith(x, t, c, true, Consume);
      DrainStep(x);
      DrainGoesOn(x);
      var x' := Act(x, Consume);
      UnsafeFacts(x', t, c);
      NextBelowTail(x');
      var rest := ConsumerArrives(x', t, c);
      StepFirst(With(x, t, c, true), Consume, rest);
      run := [Consume] + rest;
    }
  }

  lemma DrainGoesOn(x: State)
    requires Draining(x) && |x.mem| > 0 && !x.consumer.Resting? && !x.consumer.HasOldHead?
    requires !(x.consumer.Scanning? && Next(x) >= x.tail)
    ensures !ConsumerStep(x).consumer.Resting? && !ConsumerStep(x).consumer.HasOldHead?
  {
    hide Inv, Load, MessageAt, MaxLength, Store, EncI32, Ix;
  }

  /** At the claim it takes the word that is not zero: the one at the start, or the record's
      after the padding word has been stored and skipped. */
  lemma ClaimMisread(x: State, t: nat, c: Claim) returns (run: seq<Action>)
    requires Unsafe(x, t, c) && Draining(x) && x.consumer.Scanning? && Next(x) >= x.tail
    ensures LeadsThere(With(x, t, c, true), run)
  {
    hide Unsafe, LeadsThere, With, Inv, Draining, WordAt;
    UnsafeFacts(x, t, c);
    var y := With(x, t, c, true);
    AtClaim(x, t, c);
    ClaimWords(x, t, c);
    if c.pad == 0 || WordAt(x.mem, c.start) != 0 {
      TakesWord(y, |x.claims|, c.start);
      NothingFirst(Act(y, Consume));
      StepFirst(y, Consume, []);
      run := [Consume] + [];
    } else {
      run := PaddedMisread(x, t, c);
    }
  }

  lemma ClaimWords(x: State, t: nat, c: Claim)
    requires Unsafe(x, t, c) && Placed(|x.mem|, c)
    ensures c.pad == 0 ==> WordAt(x.mem, c.start) != 0
    ensures c.pad > 0 && WordAt(x.mem, c.start) == 0 ==> WordAt(x.mem, c.Record()) != 0
    ensures Ix(c.start, |x.mem|) + 4 <= |x.mem| && Ix(c.Record(), |x.mem|) + 4 <= |x.mem|
  {
    hide Inv, WordAt, Ix;
  }

  lemma NothingFirst(y: State)
    requires |y.mem| > 0 && Misreads(y)
    ensures LeadsThere(y, [])
  {}

  lemma AtClaim(x: State, t: nat, c: Claim)
    requires Unsafe(x, t, c) && Draining(x) && x.consumer.Scanning? && Next(x) >= x.tail
    ensures var y := With(x, t, c, true);
      && y.consumer == Scanning(x.head, c.start, c.End()) && c.start < c.End() <= c.start + |x.mem|
      && |y.claims| == |x.claims| + 1 && y.claims[|x.claims|] == c
      && ProgressOf(y, |x.claims|) == Pending(if c.pad > 0 then AtPadding else AtZeroing)
    ensures Placed(|x.mem|, c) && ValidMsg(c.msg) && IsI32(-(c.pad as int)) && 0 < |x.mem| < TWO_31
    ensures c.pad == 0 ==> c.Record() == c.start
  {
    hide WordAt, Placed, MemoryOk, ProducersOk, Chain, IsPowerOfTwo, Required;
    ConsumerFacts(x);
    RecordRoom(c);
    Geometry(|x.mem|, c);
    assert Placed(|x.mem|, c) ==> c.pad <= |x.mem| by { PadBound(|x.mem|, c); }
  }

  lemma PadBound(capacity: nat, c: Claim)
    requires ClaimShape(capacity, c)
    ensures c.pad <= capacity
  {}

  // The consumer takes a word that is not zero where a record's producer has stored none.
  lemma TakesWord(y: State, k: nat, p: nat)
    requires |y.mem| > 0 && y.consumer.Scanning? && y.consumer.next == p < y.consumer.tail
    requires NotStored(y, k, p) && Ix(p, |y.mem|) + 4 <= |y.mem| && WordAt(y.mem, p) != 0
    ensures Misreads(Act(y, Consume)) && ClearAction(y, Consume)
  {
    hide Ix, WordAt, At;
    WordIsIndexed(y.mem, p);
    assert Next(Act(y, Consume)) == p;
    assert NotStored(Act(y, Consume), k, p);
  }

  // The words of a claim while its padding word is stored and cleared.
  lemma PaddingWords(mem: seq<byte>, c: Claim, mem1: seq<byte>, mem2: seq<byte>)
    requires 0 < |mem| < TWO_31 && Placed(|mem|, c) && ValidMsg(c.msg) && IsI32(-(c.pad as int)) && c.pad > 0
    requires c.End() <= c.start + |mem|
    requires mem1 == StageStore(mem, c, AtPadding) && mem2 == Store(mem1, Ix(c.start, |mem|), EncI32(0))
    ensures |mem1| == |mem2| == |mem| && Ix(c.start, |mem|) + 4 <= |mem|
    ensures Load(mem1, Ix(c.start, |mem|)) == -(c.pad as int)
    ensures WordAt(mem2, c.Record()) == WordAt(mem, c.Record())
    ensures c.start - Ix(c.start, |mem|) + |mem| == c.Record()
  {
    hide Ix, EncI32, At, Required, StageStore, Placed, WordAt, Load, Store;
    PaddingEnds(|mem|, c);
    RecordRoom(c);
    PaddingStored(mem, c, mem1);
    WordCleared(mem1, c.start, c.Record(), c.End());
  }

  lemma PaddingStored(mem: seq<byte>, c: Claim, mem1: seq<byte>)
    requires 0 < |mem| < TWO_31 && Placed(|mem|, c) && ValidMsg(c.msg) && IsI32(-(c.pad as int)) && c.pad > 0
    requires c.start + 4 <= c.Record() && c.Record() + 4 <= c.End() <= c.start + |mem| &&
        mem1 == StageStore(mem, c, AtPadding)
    ensures |mem1| == |mem| && Ix(c.start, |mem|) + 4 <= |mem|
    ensures Load(mem1, Ix(c.start, |mem|)) == -(c.pad as int)
    ensures WordAt(mem1, c.Record()) == WordAt(mem, c.Record())
  {
    hide Ix, EncI32, At, Required, MaxLength, StageStore, WordAt, I32At;
    StageStoreAt(mem, c, AtPadding, c.start, c.End());
    WordOfBytes(mem1, c.start, EncI32(-(c.pad as int)));
    WordIsIndexed(mem1, c.start);
    WordFrame(mem, mem1, c.Record(), c.Record(), c.End());
  }

  lemma WordCleared(mem: seq<byte>, start: nat, p: nat, e: nat)
    requires |mem| > 0 && Ix(start, |mem|) + 4 <= |mem| && start + 4 <= p && p + 4 <= e <= start + |mem|
    ensures WordAt(Store(mem, Ix(start, |mem|), EncI32(0)), p) == WordAt(mem, p)
  {
    hide Ix, EncI32, At, WordAt, Splice;
    StoreAt(mem, start, EncI32(0), start, e);
    WordFrame(mem, Store(mem, Ix(start, |mem|), EncI32(0)), p, p, e);
  }

  lemma PaddedMisread(x: State, t: nat, c: Claim) returns (run: seq<Action>)
    requires Unsafe(x, t, c) && Draining(x) && x.consumer.Scanning? && Next(x) >= x.tail
    requires c.pad > 0 && WordAt(x.mem, c.start) == 0
    ensures LeadsThere(With(x, t, c, true), run)
  {
    hide Unsafe, LeadsThere, With, Inv, Draining, WordAt, Act, ClearAction, Misreads, Placed, ClaimShape, ProgressOf;
    AtClaim(x, t, c);
    ClaimWords(x, t, c);
    OwnerMakes(x, t, c);
    var y := With(x, t, c, true);
    var y1 := Act(y, Produce(t));
    var y2 := Act(y1, Consume);
    var y3 := Act(y2, Consume);
    PaddedSteps(x.head, t, |x.claims|, c, y, y1, y2, y3);
    TakesWord(y3, |x.claims|, c.Record());
    NothingFirst(Act(y3, Consume));
    StepFirst(y3, Consume, []);
    ConsumingIsClear(y1);
    ConsumingIsClear(y2);
    StepFirst(y2, Consume, [Consume] + []);
    StepFirst(y1, Consume, [Consume] + ([Consume] + []));
    StepFirst(y, Produce(t), [Consume] + ([Consume] + ([Consume] + [])));
    run := [Produce(t)] + ([Consume] + ([Consume] + ([Consume] + [])));
  }

  lemma OwnerMakes(x: State, t: nat, c: Claim)
    requires Unsafe(x, t, c) && c.pad > 0
    ensures c.owner == t && Owned(With(x, t, c, true), t, |x.claims|, c)
    ensures ClearAction(With(x, t, c, true), Produce(t))
  {}

  // Producer t is about to store the padding word of claim k.
  ghost predicate Owned(y: State, t: nat, k: nat, c: Claim) {
    k < |y.claims| && y.claims[k] == c && t in y.producers && y.producers[t] == Writing(k, AtPadding)
  }

  // The padding word is stored, taken and skipped; the record's word stands as it was.
  lemma PaddedSteps(h: nat, t: nat, k: nat, c: Claim, y: State, y1: State, y2: State, y3: State)
    requires 0 < |y.mem| < TWO_31 && Owned(y, t, k, c) && c.pad > 0 && c.owner == t
    requires y.consumer == Scanning(h, c.start, c.End()) && c.start < c.End() <= c.start + |y.mem|
    requires Placed(|y.mem|, c) && ValidMsg(c.msg) && IsI32(-(c.pad as int))
    requires y1 == Act(y, Produce(t)) && y2 == Act(y1, Consume) && |y2.mem| > 0 && y3 == Act(y2, Consume)
    ensures |y3.mem| == |y.mem| && y3.consumer == Scanning(h, c.Record(), c.End()) && c.Record() < c.End()
    ensures NotStored(y3, k, c.Record()) && WordAt(y3.mem, c.Record()) == WordAt(y.mem, c.Record())
  {
    hide WordAt, StageStore, Placed, Load, Store, EncI32, Ix, Required, ValidMsg, Act, NotStored;
    var mem1 := StageStore(y.mem, c, AtPadding);
    PaddingWords(y.mem, c, mem1, Store(mem1, Ix(c.start, |y.mem|), EncI32(0)));
    RecordRoom(c);
    StoresPadding(y, t, k, c);
    TakesPadding(y1, h, c.start, c.End());
    SkipsPaddingWord(y2, h, c.start, c.End(), -(c.pad as int));
    StillPending(y3, t, k, c);
  }

  lemma ConsumingIsClear(y: State)
    requires |y.mem| > 0
    ensures ClearAction(y, Consume)
  {}

  lemma StoresPadding(y: State, t: nat, k: nat, c: Claim)
    requires |y.mem| > 0 && Owned(y, t, k, c)
    ensures Act(y, Produce(t))
         == y.(mem := StageStore(y.mem, c, AtPadding), producers := y.producers[t := Writing(k, AtZeroing)])
  {
    hide StageStore;
  }

  lemma TakesPadding(y: State, h: nat, n: nat, tail: nat)
    requires |y.mem| > 0 && y.consumer == Scanning(h, n, tail) && n < tail
    ensures Act(y, Consume) == y.(consumer := HasLength(h, n, tail, Load(y.mem, Ix(n, |y.mem|))))
  {
    hide Load, Ix;
  }

  lemma SkipsPaddingWord(y: State, h: nat, n: nat, tail: nat, length: int)
    requires |y.mem| > 0 && y.consumer == HasLength(h, n, tail, length) && length < 0
    ensures Act(y, Consume) == y.(mem := Store(y.mem, Ix(n, |y.mem|), EncI32(0)),
                                  consumer := Scanning(h, n - Ix(n, |y.mem|) + |y.mem|, tail))
  {
    hide Load, Store, EncI32, Ix, MessageAt, RoundUp, MaxLength;
    var s' := ConsumerStep(y);
    assert s'.consumer == Scanning(h, n - Ix(n, |y.mem|) + |y.mem|, tail);
    assert s'.mem == Store(y.mem, Ix(n, |y.mem|), EncI32(0));
  }

  lemma StillPending(y: State, t: nat, k: nat, c: Claim)
    requires k < |y.claims| && y.claims[k] == c && c.owner == t
    requires t in y.producers && y.producers[t] == Writing(k, AtZeroing)
    ensures NotStored(y, k, c.Record())
  {}

  lemma UnclearMisreads(s: State, t: nat) returns (run: seq<Action>)
    requires Inv(s) && Wins(s, t) && !Clear(s, s.producers[t].msg)
    ensures |Act(s, Produce(t)).mem| > 0
    ensures ClearRun(Act(s, Produce(t)), run) && Misreads(Exec(Act(s, Produce(t)), run))
  {
    hide Inv, Misreads, ClearRun, With, Unsafe, Act, Clear;
    WinnerThere(s, t);
    var msg := s.producers[t].msg;
    var c := Claim(t, msg, s.tail, Padding(|s.mem|, s.tail, msg));
    UnclearIsUnsafe(s, t, c);
    run := OthersFinish(s, t, c, 0);
  }

  lemma UnclearIsUnsafe(s: State, t: nat, c: Claim)
    requires Inv(s) && Wins(s, t) && |s.mem| > 0 && t in s.producers && s.producers[t].HasHead?
    requires !Clear(s, s.producers[t].msg)
    requires c == Claim(t, s.producers[t].msg, s.tail, Padding(|s.mem|, s.tail, s.producers[t].msg))
    ensures Unsafe(s, t, c) && Act(s, Produce(t)) == With(s, t, c, false)
  {
    hide MemoryOk, Chain, IsPowerOfTwo, WordAt, Padding, Required, ConsumerOk;
    assert ProducerOk(s, t);
    WinsIsWon(s, t);
    TailAligned(s);
  }
}
