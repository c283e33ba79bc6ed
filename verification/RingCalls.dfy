/** Whole calls of `write` in the interleaved ring: what becomes of a producer that starts, that
    stands in the loop of claims with a tail gone stale, or that has claimed its space. */
module RingCalls {
  import opened Bits
  import opened Bytes
  import opened Records
  import opened RingSystem
  import opened RingSafety
  import opened RingUniform
  import opened RingTheorems

  /** The claim for `msg` at position `tail`, wrap padding included, exceeds the free space as
      seen against position `head`. */
  predicate Exceeds(capacity: nat, tail: nat, head: nat, msg: Msg)
    requires capacity > 0
  {
    Padding(capacity, tail, msg) + Required(msg) > capacity - (tail - head)
  }

  // Producer t stands in the loop of claims, with message msg.
  predicate InLoop(s: State, t: nat, msg: Msg) {
    && t in s.producers
    && match s.producers[t]
       case Retrying(m) => m == msg
       case HasTail(m, _) => m == msg
       case HasHead(m, _, _) => m == msg
       case _ => false
  }

  // The state after producer t has claimed space for msg at the tail.
  function Claimed(s: State, t: nat, msg: Msg): State
    requires |s.mem| > 0
  {
    var c := Claim(t, msg, s.tail, Padding(|s.mem|, s.tail, msg));
    s.(tail := c.End(), claims := s.claims + [c],
       producers := s.producers[t := Writing(|s.claims|, if c.pad > 0 then AtPadding else AtZeroing)])
  }

  function GivenUp(s: State, t: nat): State {
    s.(producers := s.producers[t := Idle])
  }

  /** The three ways in which a producer leaves its look at the space: it gives up exactly when
      the claim at the tail it loaded exceeds the space against the head it loaded; it claims
      exactly when the claim fits and that tail is still the tail; it tries again, with nothing
      else changed, when another producer was faster. */
  lemma LookExactly(s: State, t: nat)
    requires |s.mem| > 0 && t in s.producers && s.producers[t].HasHead?
    ensures var HasHead(msg, tail, head) := s.producers[t];
            var s' := Act(s, Produce(t));
            var full := Exceeds(|s.mem|, tail, head, msg);
            && (s'.producers[t].Idle? <==> full) && (full ==> s' == GivenUp(s, t))
            && (s'.producers[t].Writing? <==> !full && tail == s.tail)
            && (!full && tail == s.tail ==> s' == Claimed(s, t, msg))
            && (!full && tail != s.tail ==> s' == s.(producers := s.producers[t := Retrying(msg)]))
  {
    hide Padding, Required;
  }

  function Steps(t: nat, n: nat): (run: seq<Action>)
    ensures |run| == n && forall i :: 0 <= i < n ==> run[i] == Produce(t)
  {
    seq(n, _ => Produce(t))
  }

  lemma StepsOne(s: State, t: nat, n: nat)
    requires |s.mem| > 0
    ensures Exec(s, Steps(t, n + 1)) == Exec(Act(s, Produce(t)), Steps(t, n))
    ensures Exec(s, Steps(t, 0)) == s
  {
    hide Act;
    assert Steps(t, n + 1)[1..] == Steps(t, n) && Steps(t, n + 1)[0] == Produce(t);
  }

  /** Producer t, alone from here, ends its loop without a claim: refused by the tail and the
      head it has loaded already or, where that tail is stale, by the current ones. */
  predicate Refused(s: State, t: nat, msg: Msg)
    requires |s.mem| > 0 && InLoop(s, t, msg)
  {
    var p := s.producers[t];
    if p.HasHead? && Exceeds(|s.mem|, p.tail, p.head, msg) then true
    else if p.HasTail? && Exceeds(|s.mem|, p.tail, s.head, msg) then true
    else !Loaded(s, p) && Exceeds(|s.mem|, s.tail, s.head, msg)
  }

  // It holds the current tail, so this look decides.
  predicate Loaded(s: State, p: Producer) {
    (p.HasHead? || p.HasTail?) && p.tail == s.tail
  }

  // The next look gives up or claims.
  predicate Decides(s: State, p: Producer, msg: Msg)
    requires |s.mem| > 0
  {
    p.HasHead? && (p.tail == s.tail || Exceeds(|s.mem|, p.tail, p.head, msg))
  }

  // Its own steps up to the look that decides.
  function StepsToLook(s: State, p: Producer): nat {
    match p
    case HasHead(_, tail, _) => if tail == s.tail then 1 else 4
    case HasTail(_, tail) => if tail == s.tail then 2 else 5
    case Retrying(_) => 3
    case _ => 0
  }

  /** Losing a race loses no message: wherever a producer stands in the loop, with whatever tail
      and head it loaded, at most five of its own steps end it, with its message claimed at the
      tail or, exactly when it is refused, without effect. */
  lemma {:induction false} LoopEnds(s: State, t: nat, msg: Msg) returns (n: nat)
    requires |s.mem| > 0 && InLoop(s, t, msg)
    ensures n <= 5
    ensures Exec(s, Steps(t, n)) == if Refused(s, t, msg) then GivenUp(s, t) else Claimed(s, t, msg)
  {
    n := LoopSteps(s, t, msg);
  }

  lemma {:induction false} LoopSteps(s: State, t: nat, msg: Msg) returns (n: nat)
    requires |s.mem| > 0 && InLoop(s, t, msg)
    ensures n <= StepsToLook(s, s.producers[t]) <= 5
    ensures Exec(s, Steps(t, n)) == if Refused(s, t, msg) then GivenUp(s, t) else Claimed(s, t, msg)
    decreases StepsToLook(s, s.producers[t])
  {
    hide Padding, Required, Exec, Steps, Exceeds;
    var s' := Act(s, Produce(t));
    if Decides(s, s.producers[t], msg) {
      n := 1;
      StepsOne(s, t, 0);
      StepsOne(s', t, 0);
      LookExactly(s, t);
    } else {
      LoopStep(s, t, msg);
      var k := LoopSteps(s', t, msg);
      StepsOne(s, t, k);
      n := k + 1;
    }
  }

  // A step that does not decide changes where the producer stands and nothing else.
  lemma LoopStep(s: State, t: nat, msg: Msg)
    requires |s.mem| > 0 && InLoop(s, t, msg)
    requires !Decides(s, s.producers[t], msg)
    ensures var s' := Act(s, Produce(t));
            && InLoop(s', t, msg) && StepsToLook(s', s'.producers[t]) < StepsToLook(s, s.producers[t])
            && (Refused(s', t, msg) <==> Refused(s, t, msg))
            && GivenUp(s', t) == GivenUp(s, t) && Claimed(s', t, msg) == Claimed(s, t, msg)
  {
    hide Padding, Required;
    var s' := Act(s, Produce(t));
    var pad := Padding(|s.mem|, s.tail, msg);
    var w := Writing(|s.claims|, if pad > 0 then AtPadding else AtZeroing);
    assert s'.producers[t := Idle] == s.producers[t := Idle] && s'.producers[t := w] == s.producers[t := w];
  }

  // ---- The whole call ----

  lemma {:induction false} ExecSplit(s: State, a: seq<Action>, b: seq<Action>)
    requires |s.mem| > 0
    ensures Exec(s, a + b) == Exec(Exec(s, a), b)
    decreases |a|
  {
    hide Act;
    if a == [] {
      assert a + b == b;
    } else {
      assert (a + b)[1..] == a[1..] + b;
      ExecSplit(Act(s, a[0]), a[1..], b);
    }
  }

  // The stores of claim c that producer t has yet to make from `stage` on.
  ghost function Stored(mem: seq<byte>, c: Claim, stage: Stage): (mem': seq<byte>)
    requires |mem| > 0
    ensures |mem'| == |mem|
    decreases 4 - Rank(stage)
  {
    var next := StageStore(mem, c, stage);
    match stage
    case AtPadding => Stored(next, c, AtZeroing)
    case AtZeroing => Stored(next, c, AtCopy)
    case AtCopy => Stored(next, c, AtType)
    case AtType => Stored(next, c, AtLength)
    case AtLength => next
  }

  // Producer t, writing claim k, finishes it alone.
  lemma {:induction false} WriterEnds(s: State, t: nat, k: nat, stage: Stage) returns (n: nat)
    requires |s.mem| > 0 && k < |s.claims| && t in s.producers && s.producers[t] == Writing(k, stage)
    ensures n == 5 - Rank(stage)
    ensures Exec(s, Steps(t, n)) == s.(mem := Stored(s.mem, s.claims[k], stage), producers := s.producers[t := Idle])
    decreases 4 - Rank(stage)
  {
    hide StageStore, Exec, Steps;
    var s' := Act(s, Produce(t));
    assert s'.producers[t := Idle] == s.producers[t := Idle];
    if stage == AtLength {
      n := 1;
      StepsOne(s, t, 0);
      StepsOne(s', t, 0);
    } else {
      var k' := WriterEnds(s', t, k, s'.producers[t].stage);
      StepsOne(s, t, k');
      n := k' + 1;
    }
  }

  lemma {:induction false} WriterKeepsInv(s: State, t: nat, n: nat)
    requires Inv(s) && t in s.producers && (s.producers[t].Writing? || s.producers[t].Idle?)
    ensures |s.mem| > 0 && Inv(Exec(s, Steps(t, n)))
    decreases n
  {
    hide Inv, Exec, Steps, Act, ClearAction, Layout, ConsumerOk, ProducersOk, MemoryOk;
    NonEmpty(s);
    if n == 0 {
      StepsOne(s, t, 0);
    } else {
      StepsOne(s, t, n - 1);
      WriterStays(s, t);
      ActKeepsInv(s, Produce(t));
      WriterKeepsInv(Act(s, Produce(t)), t, n - 1);
    }
  }

  lemma WriterStays(s: State, t: nat)
    requires |s.mem| > 0 && t in s.producers && (s.producers[t].Writing? || s.producers[t].Idle?)
    ensures ClearAction(s, Produce(t))
    ensures var s' := Act(s, Produce(t)); t in s'.producers && (s'.producers[t].Writing? || s'.producers[t].Idle?)
  {
    hide StageStore;
  }

  function Call(t: nat, msg: Msg, n: nat): seq<Action> {
    [Begin(t, msg)] + Steps(t, n)
  }

  // The claim a call makes at the tail, and its first store.
  function ClaimFor(s: State, t: nat, msg: Msg): Claim
    requires |s.mem| > 0
  {
    Claim(t, msg, s.tail, Padding(|s.mem|, s.tail, msg))
  }

  /** A whole undisturbed call, from the loads to the last store: refused exactly when the claim
      with wrap padding exceeds the free space, and then without effect; otherwise the message
      is claimed at the tail and published, with every store in its record. */
  lemma WriteAlone(s: State, t: nat, msg: Msg) returns (n: nat)
    requires |s.mem| > 0 && t in s.producers && s.producers[t].Idle? && Sendable(|s.mem|, msg)
    ensures var r, c := Exec(s, Call(t, msg, n)), ClaimFor(s, t, msg);
            r == if Exceeds(|s.mem|, s.tail, s.head, msg) then s
                 else s.(tail := c.End(), claims := s.claims + [c],
                         mem := Stored(s.mem, c, if c.pad > 0 then AtPadding else AtZeroing))
    ensures Inv(s) && (Exceeds(|s.mem|, s.tail, s.head, msg) || Clear(s, msg)) ==> Inv(Exec(s, Call(t, msg, n)))
  {
    hide Padding, Required, Exec, Steps, Exceeds, Inv, Stored, StageStore, Clear, Sendable;
    var s1 := s.(producers := s.producers[t := HasTail(msg, s.tail)]);
    Begins(s, t, msg);
    var k := LoopEnds(s1, t, msg);
    assert s1.producers[t := Idle] == s.producers;
    if Exceeds(|s.mem|, s.tail, s.head, msg) {
      n := k;
    } else {
      var c, s2 := ClaimFor(s, t, msg), Claimed(s1, t, msg);
      var stage := if c.pad > 0 then AtPadding else AtZeroing;
      assert s2.claims[|s.claims|] == c;
      var j := WriterEnds(s2, t, |s.claims|, stage);
      n := k + j;
      assert Steps(t, n) == Steps(t, k) + Steps(t, j);
      ExecSplit(s1, Steps(t, k), Steps(t, j));
      assert s2.producers[t := Idle] == s.producers;
      if Inv(s) && Clear(s, msg) {
        ClaimedKeepsInv(s, t, msg);
        WriterKeepsInv(s2, t, j);
      }
    }
    ExecSplit(s, [Begin(t, msg)], Steps(t, n));
  }

  lemma Begins(s: State, t: nat, msg: Msg)
    requires |s.mem| > 0 && t in s.producers && s.producers[t].Idle? && Sendable(|s.mem|, msg)
    ensures Exec(s, [Begin(t, msg)]) == s.(producers := s.producers[t := HasTail(msg, s.tail)])
  {
    hide Sendable;
    var run := [Begin(t, msg)];
    assert run[1..] == [];
    assert Exec(Act(s, run[0]), []) == Act(s, run[0]);
  }

  lemma ClaimedKeepsInv(s: State, t: nat, msg: Msg)
    requires Inv(s) && |s.mem| > 0 && t in s.producers && s.producers[t].Idle? && Sendable(|s.mem|, msg)
    requires Clear(s, msg) && !Exceeds(|s.mem|, s.tail, s.head, msg)
    ensures Inv(Claimed(s.(producers := s.producers[t := HasTail(msg, s.tail)]), t, msg))
  {
    hide Inv, Padding, Required, Sendable, WordAt;
    var s1 := s.(producers := s.producers[t := HasTail(msg, s.tail)]);
    var s2 := Act(s1, Produce(t));
    Begins(s, t, msg);
    ActKeepsInv(s, Begin(t, msg));
    assert Act(s, Begin(t, msg)) == s1;
    ActKeepsInv(s1, Produce(t));
    LookExactly(s2, t);
    assert Clear(s2, msg);
    ActKeepsInv(s2, Produce(t));
    assert s2.producers[t := Writing(|s.claims|, AtPadding)] == s1.producers[t := Writing(|s.claims|, AtPadding)];
    assert s2.producers[t := Writing(|s.claims|, AtZeroing)] == s1.producers[t := Writing(|s.claims|, AtZeroing)];
  }

  /** What one call writes the consumer hands over: with nothing pending, a call that is not
      refused and the consumer's steps after it deliver every earlier message and then this one. */
  lemma WriteThenRead(s: State, t: nat, msg: Msg) returns (n: nat, k: nat)
    requires Inv(s) && |s.mem| > 0 && s.consumer.Resting? && (forall u :: u in s.producers ==> !s.producers[u].Writing?)
    requires t in s.producers && s.producers[t].Idle? && Sendable(|s.mem|, msg) && Clear(s, msg)
    requires !Exceeds(|s.mem|, s.tail, s.head, msg)
    ensures var r := Exec(Exec(s, Call(t, msg, n)), Passes(k));
            r.delivered == Messages(s.claims) + [msg] && r.head == r.tail && r.consumer.Resting?
  {
    hide Inv, Padding, Required, Exec, Call, Exceeds, Stored, Clear, Sendable;
    n := WriteAlone(s, t, msg);
    var w := Exec(s, Call(t, msg, n));
    k := ConsumerDrains(w);
    SameClaims(w, k);
    assert Messages(s.claims + [ClaimFor(s, t, msg)]) == Messages(s.claims) + [msg];
  }

  lemma {:induction false} SameClaims(s: State, n: nat)
    requires |s.mem| > 0
    ensures Exec(s, Passes(n)).claims == s.claims
    decreases n
  {
    hide Load, Store, MessageAt, Ix, EncI32, RoundUp, MaxLength;
    if n > 0 {
      ExecPasses(s, n - 1);
      SameClaims(ConsumerStep(s), n - 1);
    }
  }
}
