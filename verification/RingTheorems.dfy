/** What the ring buffer guarantees over its runs, and where it stops. */
module RingTheorems {
  import opened Bits
  import opened Bytes
  import opened Records
  import opened RingSystem
  import opened RingSafety
  import opened RingUniform

  /** What holds of every state: bounded use of the region, no corrupt record seen,
      unread claims not yet published read zero, and the messages handed to the
      handler are a prefix of the claims in the order of the tail updates. */
  ghost predicate Safe(s: State) {
    && |s.mem| > 0
    && s.head <= s.tail <= s.head + |s.mem|
    && !s.consumer.Corrupt?
    && 0 <= Consumed(s) <= |s.claims|
    && (forall i :: Consumed(s) <= i < |s.claims| && ProgressOf(s, i).Pending? ==>
          WordAt(s.mem, s.claims[i].Record()) == 0)
    && s.delivered <= Messages(s.claims)
  }

  lemma InvIsSafe(s: State)
    requires Inv(s)
    ensures Safe(s)
  {
    hide WordAt, Chain, IsPowerOfTwo, BodyAt;
    NonEmpty(s);
    assert Messages(s.claims[..|s.delivered|]) <= Messages(s.claims);
    forall i | Consumed(s) <= i < |s.claims| && ProgressOf(s, i).Pending?
      ensures WordAt(s.mem, s.claims[i].Record()) == 0
    {
      assert ClaimMemory(s.mem, s.claims[i], PadGone(s, i), ProgressOf(s, i));
    }
  }

  /** Any interleaving in which every claim lands on zeroed slot words is safe. */
  lemma ClearRunsAreSafe(capacity: nat, threads: set<nat>, run: seq<Action>)
    requires IsPowerOfTwo(capacity) && capacity < TWO_31
    requires ClearRun(Init(capacity, threads), run)
    ensures Safe(Exec(Init(capacity, threads), run))
  {
    hide Inv, Safe, ClearRun;
    InitInv(capacity, threads);
    RunKeepsInv(Init(capacity, threads), run);
    InvIsSafe(Exec(Init(capacity, threads), run));
  }

  /** Any interleaving whose messages all need one aligned record size is safe. */
  lemma UniformRunsAreSafe(capacity: nat, threads: set<nat>, run: seq<Action>, size: nat)
    requires IsPowerOfTwo(capacity) && capacity < TWO_31
    requires forall i :: 0 <= i < |run| && run[i].Begin? ==> Required(run[i].msg) == size
    ensures Safe(Exec(Init(capacity, threads), run))
  {
    hide Inv, Safe, ClearRun, Uniform, Required, Exec;
    var s := Init(capacity, threads);
    var n := if size >= 12 then size else 12;
    // A record needs at least 12 bytes, so a smaller size means no messages.
    assert forall i :: 0 <= i < |run| ==> UniformAction(run[i], n);
    InitUniform(capacity, threads, n);
    RunUniform(s, n, run);
    ClearRunsAreSafe(capacity, threads, run);
  }

  /** A claim keeps the protocol invariant if and only if its slot words read zero. */
  lemma ClaimKeepsInvIffClear(s: State, t: nat)
    requires Inv(s) && Wins(s, t)
    ensures Inv(Act(s, Produce(t))) <==> Clear(s, s.producers[t].msg)
  {
    if Clear(s, s.producers[t].msg) {
      ClaimStep(s, t);
    } else if Inv(Act(s, Produce(t))) {
      UnclearBreaks(s, t, Act(s, Produce(t)));
    }
  }

  lemma UnclearBreaks(s: State, t: nat, s': State)
    requires Inv(s) && Wins(s, t) && s' == Act(s, Produce(t)) && Inv(s')
    ensures Clear(s, s.producers[t].msg)
  {
    hide Layout, ConsumerOk, WordAt, BodyAt, Padding, Required;
    NonEmpty(s);
    NonEmpty(s');
    WinsIsWon(s, t);
    var n := |s.claims|;
    assert ClaimMemory(s'.mem, s'.claims[n], PadGone(s', n), ProgressOf(s', n)) by { NewClaimLive(s'); }
    NextBelowTail(s);
  }

  lemma NewClaimLive(s: State)
    requires Inv(s) && |s.claims| > 0
    ensures forall i :: 0 <= Consumed(s) <= i < |s.claims| ==>
      ClaimMemory(s.mem, s.claims[i], PadGone(s, i), ProgressOf(s, i))
  {
    hide Layout, ConsumerOk, ClaimMemory;
  }

  lemma NextBelowTail(s: State)
    requires Inv(s)
    ensures Next(s) <= s.tail && 0 <= Consumed(s) <= |s.claims|
  {
    hide Chain, MemoryOk, ProducersOk;
  }

  // ---- Nothing is lost ----

  /** A read pass that stops before its tail snapshot stops at an unpublished claim. */
  lemma StopsAtUnpublished(s: State)
    requires Inv(s) && s.consumer.Scanning? && Next(s) < s.consumer.tail
    requires Load(s.mem, Ix(Next(s), |s.mem|)) == 0
    ensures 0 <= Consumed(s) < |s.claims| && ProgressOf(s, Consumed(s)).Pending?
  {
    hide IsPowerOfTwo, Chain, ProducersOk, WordAt, Load, Placed, Required, BodyAt;
    var c := Consumed(s);
    assert c < |s.claims|;
    EdgeIsStart(s, c);
    ClaimPlaced(s, c);
    RecordPositive(s, c);
    WordLoaded(s.mem, s.claims[c], Next(s));
    assert ClaimMemory(s.mem, s.claims[c], PadGone(s, c), ProgressOf(s, c));
  }

  lemma RecordPositive(s: State, i: nat)
    requires Layout(s) && i < |s.claims|
    ensures RecordLength(s.claims[i].msg) > 0
  {}

  // Every claim made has been published and the consumer is in its last pass.
  ghost predicate Draining(s: State) {
    && Inv(s)
    && (forall t :: t in s.producers ==> !s.producers[t].Writing?)
    && (match s.consumer
        case Resting => true
        case HasOldHead(_) => true
        case Scanning(_, _, t) => t == s.tail
        case HasLength(_, _, t, length) => t == s.tail && length != 0
        case Handled(_, _, t, _) => t == s.tail
        case Corrupt(_) => false)
  }

  ghost function Remaining(s: State): nat {
    match s.consumer
    case Resting => 5
    case HasOldHead(_) => 4
    case Scanning(_, _, _) => 3
    case HasLength(_, _, _, _) => 2
    case Handled(_, _, _, _) => 1
    case Corrupt(_) => 0
  }

  ghost predicate Drained(s: State) {
    s.consumer.Resting? && s.head == s.tail && s.delivered == Messages(s.claims)
  }

  function Passes(n: nat): (run: seq<Action>)
    ensures |run| == n && forall i :: 0 <= i < n ==> run[i] == Consume
  {
    seq(n, _ => Consume)
  }

  /** Once every claim is published, the consumer alone delivers all of them: some
      number of its steps leaves the buffer empty and every claimed message handed
      over. */
  lemma {:induction false} ConsumerDrains(s: State) returns (n: nat)
    requires Draining(s)
    ensures |s.mem| > 0 && Drained(Exec(s, Passes(n)))
    decreases s.tail - Next(s), Remaining(s)
  {
    hide Inv, ConsumerStep;
    NonEmpty(s);
    NextBelowTail(s);
    if s.consumer.Scanning? && Next(s) >= s.tail {
      n := 1;
      LastStep(s);
      ExecPasses(s, 0);
    } else {
      DrainStep(s);
      var k := ConsumerDrains(ConsumerStep(s));
      ExecPasses(s, k);
      n := k + 1;
    }
  }

  lemma ExecPasses(s: State, n: nat)
    requires |s.mem| > 0
    ensures Exec(s, Passes(n + 1)) == Exec(ConsumerStep(s), Passes(n))
    ensures n == 0 ==> Exec(ConsumerStep(s), Passes(n)) == ConsumerStep(s)
  {
    assert Passes(n + 1)[1..] == Passes(n);
  }

  lemma LastStep(s: State)
    requires Draining(s) && s.consumer.Scanning? && Next(s) >= s.tail
    ensures |s.mem| > 0 && Drained(ConsumerStep(s))
  {
    hide IsPowerOfTwo, MemoryOk, ProducersOk, Required;
    ConsumerFacts(s);
    var c := Consumed(s);
    if c < |s.claims| {
      LiveWindow(s, c);
    }
    assert s.claims[..|s.claims|] == s.claims;
  }

  lemma DrainStep(s: State)
    requires Draining(s) && !(s.consumer.Scanning? && Next(s) >= s.tail)
    ensures |s.mem| > 0
    ensures var s' := ConsumerStep(s);
      Draining(s') && s'.tail == s.tail && Next(s) <= Next(s') && (Next(s) == Next(s') ==> Remaining(s') < Remaining(s))
  {
    hide Inv, Load, MessageAt, MaxLength, Store, EncI32, Ix;
    ConsumerFacts(s);
    ConsumeStep(s);
    match s.consumer {
      case Resting =>
      case HasOldHead(_) =>
      case Scanning(_, _, _) =>
        if Load(s.mem, Ix(Next(s), |s.mem|)) == 0 {
          StopsAtUnpublished(s);
        }
      case HasLength(_, _, _, length) =>
        if length > 0 { Deliverable(s); } else { SkipsForward(s); }
      case Handled(_, _, _, _) =>
      case Corrupt(_) =>
    }
  }

  lemma SkipsForward(s: State)
    requires Inv(s) && s.consumer.HasLength? && s.consumer.length < 0
    ensures |s.mem| > 0 && Next(s) - Ix(Next(s), |s.mem|) + |s.mem| > Next(s)
  {
    hide Layout, ConsumerOk;
    NonEmpty(s);
    SkipTarget(s);
  }
}
