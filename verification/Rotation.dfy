/** Concurrent log rotation: every load and compare-and-set of `rotate_log` is one step. */
module Rotation {

  datatype Tail = Tail(offset: int, termId: int)

  // Where a caller is: it has read the active term count; it knows the term id to pass; it
  // has loaded the next tail and found the term id it expects; it has replaced that tail.
  datatype Pc =
    | Idle
    | Counted(count: int)
    | Ready(count: int, termId: int)
    | Loaded(count: int, termId: int, raw: Tail)
    | Swapped(count: int, termId: int)

  // `wins` records the counts for which a call returned true, in order.
  datatype State = State(tails: seq<Tail>, count: int, callers: map<nat, Pc>, wins: seq<int>) {
    function At(i: nat): Pc { if i in callers then callers[i] else Idle }

    function Go(i: nat, pc: Pc): State { this.(callers := callers[i := pc]) }
  }

  datatype Step =
    | ReadCount(caller: nat)
    | TakeTermId(caller: nat)       // the caller knows its own term id: initial + count
    | ReadTailTermId(caller: nat)   // the unblocker reads it from the tail of the counted term
    | LoadTail(caller: nat)
    | CasTail(caller: nat)
    | CasCount(caller: nat)
    | Append(index: nat, bytes: nat) // a publisher moves a tail offset

  function IndexByTermCount(termCount: int): (i: nat)
    ensures i < 3
  {
    termCount % 3
  }

  /** One step; a step that its caller is not ready for changes nothing. */
  function Next(s: State, step: Step, initial: int): (t: State)
    requires |s.tails| == 3
    ensures |t.tails| == 3
  {
    match step
    case ReadCount(i) => if s.At(i).Idle? then s.Go(i, Counted(s.count)) else s
    case TakeTermId(i) => if s.At(i).Counted? then s.Go(i, Ready(s.At(i).count, initial + s.At(i).count)) else s
    case ReadTailTermId(i) =>
      if s.At(i).Counted? then
        s.Go(i, Ready(s.At(i).count, s.tails[IndexByTermCount(s.At(i).count)].termId))
      else s
    case LoadTail(i) =>
      (match s.At(i)
       case Ready(c, id) =>
         var raw := s.tails[IndexByTermCount(c + 1)];
         if raw.termId == id + 1 - 3 then s.Go(i, Loaded(c, id, raw)) else s.Go(i, Idle)
       case _ => s)
    case CasTail(i) =>
      (match s.At(i)
       case Loaded(c, id, raw) =>
         var next := IndexByTermCount(c + 1);
         if s.tails[next] == raw then s.(tails := s.tails[next := Tail(0, id + 1)]).Go(i, Swapped(c, id))
         else s.Go(i, Ready(c, id))
       case _ => s)
    case CasCount(i) =>
      (match s.At(i)
       case Swapped(c, id) =>
         if s.count == c then s.(count := c + 1, wins := s.wins + [c]).Go(i, Idle) else s.Go(i, Idle)
       case _ => s)
    case Append(k, n) =>
      if k < 3 then s.(tails := s.tails[k := s.tails[k].(offset := s.tails[k].offset + n)]) else s
  }

  function Run(s: State, steps: seq<Step>, initial: int): (r: State)
    requires |s.tails| == 3
    ensures |r.tails| == 3
  {
    if steps == [] then s else Next(Run(s, steps[..|steps| - 1], initial), steps[|steps| - 1], initial)
  }

  // ---- The invariant ----

  // The largest term count up to `newest` that belongs at index i.
  function LatestAt(newest: int, i: nat): int {
    newest - (newest - i) % 3
  }

  /** The tails hold the term ids of newest, newest - 1 and newest - 2, each at its own index. */
  predicate HoldsTerms(tails: seq<Tail>, initial: int, newest: int) {
    |tails| == 3 && forall i: nat :: i < 3 ==> tails[i].termId == initial + LatestAt(newest, i)
  }

  predicate CallerKnows(s: State, initial: int, i: nat) {
    match s.At(i)
    case Idle => true
    case Counted(c) => 0 <= c <= s.count
    case Ready(c, id) => 0 <= c <= s.count && id == initial + c
    case Loaded(c, id, raw) => 0 <= c <= s.count && id == initial + c && raw.termId == id - 2
    case Swapped(c, id) => c == s.count && id == initial + c
  }

  ghost predicate Stable(s: State, initial: int) {
    HoldsTerms(s.tails, initial, s.count) && forall i :: !s.At(i).Swapped?
  }

  // Caller w has replaced the tail and not yet moved the count.
  ghost predicate HalfRotated(s: State, initial: int, w: nat) {
    HoldsTerms(s.tails, initial, s.count + 1) && forall i :: s.At(i).Swapped? <==> i == w
  }

  ghost predicate Inv(s: State, initial: int, start: nat) {
    && start <= s.count
    && |s.wins| == s.count - start && (forall k :: 0 <= k < |s.wins| ==> s.wins[k] == start + k)
    && (forall i :: CallerKnows(s, initial, i))
    && (Stable(s, initial) || exists w :: HalfRotated(s, initial, w))
  }

  /** The term id a caller reads from a tail is that of its count only while no tail holds a
      term three or more ahead of it. */
  ghost predicate Fresh(s: State, step: Step, initial: int) {
    step.ReadTailTermId? && s.At(step.caller).Counted? ==>
      forall k :: 0 <= k < |s.tails| ==> s.tails[k].termId < initial + s.At(step.caller).count + 3
  }

  ghost predicate FreshRun(s: State, steps: seq<Step>, initial: int)
    requires |s.tails| == 3
  {
    forall k :: 0 <= k < |steps| ==> Fresh(Run(s, steps[..k], initial), steps[k], initial)
  }

  ghost predicate Start(s: State, initial: int, start: nat) {
    && s.count == start && s.wins == [] && HoldsTerms(s.tails, initial, start)
    && forall i :: s.At(i).Idle?
  }

  lemma LatestFacts(newest: int, c: int)
    ensures LatestAt(newest, IndexByTermCount(c)) % 3 == c % 3
    ensures newest - 2 <= LatestAt(newest, IndexByTermCount(c)) <= newest
    ensures forall i: nat :: i < 3 ==>
        LatestAt(newest + 1, i) == if i == IndexByTermCount(newest + 1) then newest + 1 else LatestAt(newest, i)
  {}

  // Two counts in one window of three with the same remainder are equal.
  lemma SameSlot(a: int, b: int)
    requires a % 3 == b % 3 && -3 < a - b < 3
    ensures a == b
  {}

  lemma NewestOf(s: State, initial: int, start: nat) returns (newest: int)
    requires Inv(s, initial, start)
    ensures HoldsTerms(s.tails, initial, newest) && s.count <= newest <= s.count + 1
    ensures newest == s.count <==> forall i :: !s.At(i).Swapped?
  {
    if Stable(s, initial) { newest := s.count; }
    else {
      var w :| HalfRotated(s, initial, w);
      newest := s.count + 1;
      assert s.At(w).Swapped?;
    }
  }

  /** Every step keeps the invariant, and the count moves by at most one. */
  lemma StepKeepsInv(s: State, step: Step, initial: int, start: nat)
    requires Inv(s, initial, start) && |s.tails| == 3 && Fresh(s, step, initial)
    ensures Inv(Next(s, step, initial), initial, start)
    ensures s.count <= Next(s, step, initial).count <= s.count + 1
  {
    match step
    case CasTail(i) => TailSwapKeepsInv(s, i, initial, start);
    case CasCount(i) => CountMoveKeepsInv(s, i, initial, start);
    case Append(k, n) => AppendKeepsInv(s, k, n, initial, start);
    case _ => ReadKeepsInv(s, step, initial, start);
  }

  lemma ReadKeepsInv(s: State, step: Step, initial: int, start: nat)
    requires Inv(s, initial, start) && |s.tails| == 3 && Fresh(s, step, initial)
    requires step.ReadCount? || step.TakeTermId? || step.ReadTailTermId? || step.LoadTail?
    ensures Inv(Next(s, step, initial), initial, start) && Next(s, step, initial).count == s.count
  {
    hide HoldsTerms, LatestAt, IndexByTermCount;
    var t := Next(s, step, initial);
    var j := step.caller;
    if step.ReadTailTermId? && s.At(j).Counted? { TermIdReadIsRightIffFresh(s, j, initial, start); }
    assert s.At(j).Swapped? <==> t.At(j).Swapped?;
    forall i ensures CallerKnows(t, initial, i) && (t.At(i).Swapped? <==> s.At(i).Swapped?) {
      assert CallerKnows(s, initial, i) && CallerKnows(s, initial, j);
    }
    if !Stable(s, initial) {
      var w :| HalfRotated(s, initial, w);
      assert HalfRotated(t, initial, w);
    }
  }

  // The tail of term count c carries that term's id exactly while c is one of the three held
  // counts, and no tail is three or more terms ahead exactly while the newest is not.
  lemma HeldExactly(tails: seq<Tail>, initial: int, newest: int, c: int)
    requires HoldsTerms(tails, initial, newest)
    ensures |tails| == 3
    ensures tails[IndexByTermCount(c)].termId == initial + c <==> newest - 2 <= c <= newest
    ensures (forall k :: 0 <= k < |tails| ==> tails[k].termId < initial + c + 3) <==> newest < c + 3
  {
    LatestFacts(newest, c);
    LatestFacts(newest, newest);
    var k := IndexByTermCount(newest);
    SameSlot(LatestAt(newest, k), newest);
    assert tails[k].termId == initial + newest;
    if newest - 2 <= c <= newest { SameSlot(LatestAt(newest, IndexByTermCount(c)), c); }
  }

  /** A caller that reads its term id from the tail of the count it read gets that count's
      term id if and only if no tail is three or more terms ahead of it: comparing what it
      read with the initial term id plus the count tells it which. */
  lemma TermIdReadIsRightIffFresh(s: State, j: nat, initial: int, start: nat)
    requires Inv(s, initial, start) && s.At(j).Counted?
    ensures |s.tails| == 3
    ensures var c := s.At(j).count;
            Next(s, ReadTailTermId(j), initial).At(j) == Ready(c, initial + c) <==> Fresh(s, ReadTailTermId(j), initial)
  {
    hide HoldsTerms, IndexByTermCount;
    assert CallerKnows(s, initial, j);
    var newest := NewestOf(s, initial, start);
    HeldExactly(s.tails, initial, newest, s.At(j).count);
  }

  lemma TailSwapKeepsInv(s: State, i: nat, initial: int, start: nat)
    requires Inv(s, initial, start) && |s.tails| == 3
    ensures Inv(Next(s, CasTail(i), initial), initial, start)
    ensures Next(s, CasTail(i), initial).count == s.count
  {
    hide HoldsTerms, LatestAt, IndexByTermCount;
    var t := Next(s, CasTail(i), initial);
    assert CallerKnows(s, initial, i);
    if s.At(i).Loaded? {
      if s.tails[IndexByTermCount(s.At(i).count + 1)] == s.At(i).raw {
        SwapIsNewest(s, i, initial, start);
        forall j ensures CallerKnows(t, initial, j) && (t.At(j).Swapped? <==> j == i) {
          assert CallerKnows(s, initial, j);
        }
        assert HalfRotated(t, initial, i);
      } else {
        forall j ensures CallerKnows(t, initial, j) && (t.At(j).Swapped? <==> s.At(j).Swapped?) {
          assert CallerKnows(s, initial, j);
        }
        if !Stable(s, initial) {
          var w :| HalfRotated(s, initial, w);
          assert HalfRotated(t, initial, w);
        }
      }
    }
  }

  // A swap succeeds only for the current count in a stable log.
  lemma SwapIsNewest(s: State, i: nat, initial: int, start: nat)
    requires Inv(s, initial, start) && |s.tails| == 3 && s.At(i).Loaded?
    requires s.tails[IndexByTermCount(s.At(i).count + 1)] == s.At(i).raw
    ensures Stable(s, initial) && s.At(i).count == s.count
    ensures HoldsTerms(s.tails[IndexByTermCount(s.count + 1) := Tail(0, initial + s.count + 1)], initial, s.count + 1)
  {
    var newest := NewestOf(s, initial, start);
    assert CallerKnows(s, initial, i);
    var c := s.At(i).count;
    LatestFacts(newest, c + 1);
    LatestFacts(s.count, c + 1);
  }

  lemma CountMoveKeepsInv(s: State, i: nat, initial: int, start: nat)
    requires Inv(s, initial, start) && |s.tails| == 3
    ensures Inv(Next(s, CasCount(i), initial), initial, start)
    ensures var t := Next(s, CasCount(i), initial);
            if s.At(i).Swapped? then t.count == s.count + 1 && t.wins == s.wins + [s.count] else t == s
  {
    hide HoldsTerms, LatestAt, IndexByTermCount;
    var t := Next(s, CasCount(i), initial);
    assert CallerKnows(s, initial, i);
    if s.At(i).Swapped? {
      var w :| HalfRotated(s, initial, w);
      forall j ensures CallerKnows(t, initial, j) && !t.At(j).Swapped? {
        assert CallerKnows(s, initial, j);
      }
      assert Stable(t, initial);
    }
  }

  lemma AppendKeepsInv(s: State, k: nat, n: nat, initial: int, start: nat)
    requires Inv(s, initial, start) && |s.tails| == 3
    ensures Inv(Next(s, Append(k, n), initial), initial, start)
    ensures Next(s, Append(k, n), initial).count == s.count
  {
    var t := Next(s, Append(k, n), initial);
    assert forall newest :: HoldsTerms(s.tails, initial, newest) ==> HoldsTerms(t.tails, initial, newest);
    forall i ensures CallerKnows(t, initial, i) && t.At(i) == s.At(i) {
      assert CallerKnows(s, initial, i);
    }
    if !Stable(s, initial) {
      var w :| HalfRotated(s, initial, w);
      assert HalfRotated(t, initial, w);
    }
  }

  /** In every interleaving of any number of callers and publishers: the count rises one at a
      time, exactly one call has returned true for each count passed, and the tails hold
      three consecutive term ids, each at its own index modulo three. */
  lemma {:induction false} RotationIsSafe(s: State, steps: seq<Step>, initial: int, start: nat) returns (newest: int)
    requires Start(s, initial, start) && |s.tails| == 3 && FreshRun(s, steps, initial)
    ensures var r := Run(s, steps, initial);
            && Inv(r, initial, start)
            && r.count <= newest <= r.count + 1 && HoldsTerms(r.tails, initial, newest)
            && r.wins == seq(r.count - start, k requires 0 <= k < r.count - start => start + k)
    decreases |steps|
  {
    hide HoldsTerms, Next, CallerKnows;
    if steps == [] {
      StartHasInv(s, initial, start);
    } else {
      var n := |steps| - 1;
      assert forall k :: 0 <= k <= n ==> steps[..n][..k] == steps[..k];
      var before := RotationIsSafe(s, steps[..n], initial, start);
      StepKeepsInv(Run(s, steps[..n], initial), steps[n], initial, start);
    }
    newest := NewestOf(Run(s, steps, initial), initial, start);
  }

  lemma StartHasInv(s: State, initial: int, start: nat)
    requires Start(s, initial, start)
    ensures Inv(s, initial, start)
  {}

  // ---- Progress, and its limits ----

  function Alone(i: nat): seq<Step> {
    [ReadCount(i), TakeTermId(i), LoadTail(i), CasTail(i), CasCount(i)]
  }

  lemma {:induction false} RunJoin(s: State, a: seq<Step>, b: seq<Step>, initial: int)
    requires |s.tails| == 3
    ensures Run(s, a + b, initial) == Run(Run(s, a, initial), b, initial)
    decreases |b|
  {
    hide Next;
    if b == [] {
      assert a + b == a;
    } else {
      var n := |b| - 1;
      assert (a + b)[..|a + b| - 1] == a + b[..n];
      RunJoin(s, a, b[..n], initial);
    }
  }

  lemma RunOne(s: State, x: Step, initial: int)
    requires |s.tails| == 3
    ensures Run(s, [x], initial) == Next(s, x, initial)
  {
    hide Next;
    assert [x][..0] == [];
    assert Run(s, [], initial) == s;
  }

  lemma RunTwo(s: State, a: Step, b: Step, initial: int)
    requires |s.tails| == 3
    ensures Run(s, [a, b], initial) == Next(Next(s, a, initial), b, initial)
  {
    hide Next, Run;
    assert [a, b] == [a] + [b];
    RunJoin(s, [a], [b], initial);
    RunOne(s, a, initial);
    RunOne(Next(s, a, initial), b, initial);
  }

  lemma RunFive(s: State, a: Step, b: Step, c: Step, d: Step, e: Step, initial: int)
    requires |s.tails| == 3
    ensures Run(s, [a, b, c, d, e], initial)
         == Next(Next(Next(Next(Next(s, a, initial), b, initial), c, initial), d, initial), e, initial)
  {
    hide Next, Run;
    var t := Next(Next(s, a, initial), b, initial);
    assert [a, b, c, d, e] == [a, b] + ([c, d] + [e]);
    RunJoin(s, [a, b], [c, d] + [e], initial);
    RunTwo(s, a, b, initial);
    RunJoin(t, [c, d], [e], initial);
    RunTwo(t, c, d, initial);
    RunOne(Next(Next(t, c, initial), d, initial), e, initial);
  }

  /** A call that runs alone rotates the log exactly when no other call is half-way: a call
      stalled between its two compare-and-sets blocks every other rotation. */
  lemma AloneRotatesIffStable(s: State, i: nat, initial: int, start: nat)
    requires Inv(s, initial, start) && |s.tails| == 3 && s.At(i).Idle?
    ensures var r := Run(s, Alone(i), initial);
            && (Stable(s, initial) ==>
                  r.count == s.count + 1 && r.wins == s.wins + [s.count]
                  && r.tails[IndexByTermCount(r.count)] == Tail(0, initial + r.count))
            && (!Stable(s, initial) ==> r.count == s.count && r.wins == s.wins && r.tails == s.tails)
  {
    hide IndexByTermCount, LatestAt;
    RunFive(s, ReadCount(i), TakeTermId(i), LoadTail(i), CasTail(i), CasCount(i), initial);
    var newest := NewestOf(s, initial, start);
    NextSlot(s, initial, newest);
    assert Stable(s, initial) <==> newest == s.count by {
      if newest == s.count { assert Stable(s, initial); }
    }
  }

  // The slot after the active one still holds the oldest term, or already the next.
  lemma NextSlot(s: State, initial: int, newest: int)
    requires HoldsTerms(s.tails, initial, newest) && s.count <= newest <= s.count + 1
    ensures s.tails[IndexByTermCount(s.count + 1)].termId == initial +
        (if newest == s.count then s.count - 2 else s.count + 1)
  {
    LatestFacts(newest, s.count + 1);
    var l := LatestAt(newest, IndexByTermCount(s.count + 1));
    if newest == s.count { SameSlot(l + 3 - 1, s.count + 1 - 1); } else { SameSlot(l, s.count + 1); }
  }

  // The steps of a caller that goes on from where it loads the tail, long enough for one
  // compare-and-set of the tail to fail.
  function Retry(i: nat): seq<Step> {
    [LoadTail(i), CasTail(i), LoadTail(i), CasTail(i), CasCount(i)]
  }

  /** A caller whose compare-and-set is spoiled, by an append to the tail it replaces, loads that
      tail again: alone from there it rotates the log if and only if no rotation is half-way and
      its count is still the count; otherwise it gives up without effect. */
  lemma RetryRotatesIff(s: State, i: nat, initial: int, start: nat)
    requires Inv(s, initial, start) && (s.At(i).Ready? || s.At(i).Loaded?)
    ensures |s.tails| == 3
    ensures Run(s, Retry(i), initial)
         == if Stable(s, initial) && s.At(i).count == s.count then Rotated(s, i, initial) else s.Go(i, Idle)
  {
    hide IndexByTermCount, LatestAt, HoldsTerms, Run;
    var newest := NewestOf(s, initial, start);
    var c := s.At(i).count;
    assert CallerKnows(s, initial, i);
    HoldsThree(s.tails, initial, newest);
    RunFive(s, LoadTail(i), CasTail(i), LoadTail(i), CasTail(i), CasCount(i), initial);
    SlotBehind(s.tails, initial, newest, c);
    assert Stable(s, initial) <==> newest == s.count by {
      if newest != s.count { assert exists j :: s.At(j).Swapped?; }
    }
    RetrySteps(s, i, initial);
  }

  // The slot after count c still holds the oldest term exactly while c is the newest.
  lemma SlotBehind(tails: seq<Tail>, initial: int, newest: int, c: int)
    requires HoldsTerms(tails, initial, newest) && c <= newest
    ensures |tails| == 3
    ensures tails[IndexByTermCount(c + 1)].termId == initial + c - 2 <==> newest == c
  {
    hide HoldsTerms;
    HeldExactly(tails, initial, newest, c - 2);
    assert IndexByTermCount(c - 2) == IndexByTermCount(c + 1);
  }

  lemma RetrySteps(s: State, i: nat, initial: int)
    requires |s.tails| == 3 && (s.At(i).Ready? || s.At(i).Loaded?) && s.At(i).termId == initial + s.At(i).count
    requires s.At(i).Loaded? ==> s.At(i).raw.termId == s.At(i).termId - 2
    ensures var c := s.At(i).count;
            var oldest := s.tails[IndexByTermCount(c + 1)].termId == initial + c - 2;
            var r := Next(Next(Next(Next(Next(s, LoadTail(i), initial), CasTail(i), initial), LoadTail(i), initial),
                               CasTail(i), initial), CasCount(i), initial);
            && (oldest && c == s.count ==> r == Rotated(s, i, initial))
            && (!oldest ==> r == s.Go(i, Idle))
  {
    hide IndexByTermCount;
    var c, id := s.At(i).count, s.At(i).termId;
    var next := IndexByTermCount(c + 1);
    var tail := s.tails[next];
    var s1 := Next(s, LoadTail(i), initial);
    var s2 := Next(s1, CasTail(i), initial);
    if tail.termId == id - 2 {
      var s' := s.(tails := s.tails[next := Tail(0, id + 1)]);
      if s.At(i).Ready? || s.At(i).raw == tail {
        assert s2 == s'.Go(i, Swapped(c, id)) by { LoadedSwaps(s, i, c, id, initial); }
      } else {
        OverwriteCaller(s, i, Ready(c, id), Loaded(c, id, tail));
        assert s2 == s.Go(i, Ready(c, id));
        assert Next(s2, LoadTail(i), initial) == s.Go(i, Loaded(c, id, tail));
        OverwriteCaller(s', i, Loaded(c, id, tail), Swapped(c, id));
      }
      OverwriteCaller(s', i, Swapped(c, id), Idle);
    } else {
      GivesUp(s, i, initial);
    }
  }

  lemma LoadedSwaps(s: State, i: nat, c: int, id: int, initial: int)
    requires |s.tails| == 3 && s.tails[IndexByTermCount(c + 1)].termId == id - 2
    requires s.At(i) == Ready(c, id) || s.At(i) == Loaded(c, id, s.tails[IndexByTermCount(c + 1)])
    ensures Next(Next(s, LoadTail(i), initial), CasTail(i), initial)
         == s.(tails := s.tails[IndexByTermCount(c + 1) := Tail(0, id + 1)]).Go(i, Swapped(c, id))
  {
    hide IndexByTermCount;
    var s' := s.(tails := s.tails[IndexByTermCount(c + 1) := Tail(0, id + 1)]);
    OverwriteCaller(s', i, Loaded(c, id, s.tails[IndexByTermCount(c + 1)]), Swapped(c, id));
  }

  lemma GivesUp(s: State, i: nat, initial: int)
    requires |s.tails| == 3 && (s.At(i).Ready? || s.At(i).Loaded?)
    requires s.tails[IndexByTermCount(s.At(i).count + 1)].termId != s.At(i).termId - 2
    requires s.At(i).Loaded? ==> s.At(i).raw.termId == s.At(i).termId - 2
    ensures Next(Next(Next(Next(Next(s, LoadTail(i), initial), CasTail(i), initial), LoadTail(i), initial),
                      CasTail(i), initial), CasCount(i), initial) == s.Go(i, Idle)
  {
    hide IndexByTermCount;
    if s.At(i).Loaded? {
      OverwriteCaller(s, i, Ready(s.At(i).count, s.At(i).termId), Idle);
    }
  }

  // ---- A stale term id wedges the log ----

  // The state after caller i has rotated a stable log alone.
  function Rotated(s: State, i: nat, initial: int): State
    requires |s.tails| == 3
  {
    State(s.tails[IndexByTermCount(s.count + 1) := Tail(0, initial + s.count + 1)], s.count + 1,
          s.callers[i := Idle], s.wins + [s.count])
  }

  lemma AloneRotates(s: State, i: nat, initial: int)
    requires HoldsTerms(s.tails, initial, s.count) && s.At(i).Idle?
    ensures Run(s, Alone(i), initial) == Rotated(s, i, initial)
    ensures HoldsTerms(Rotated(s, i, initial).tails, initial, s.count + 1)
  {
    hide IndexByTermCount, LatestAt, HoldsTerms;
    HoldsThree(s.tails, initial, s.count);
    RunFive(s, ReadCount(i), TakeTermId(i), LoadTail(i), CasTail(i), CasCount(i), initial);
    NextSlot(s, initial, s.count);
    OneTermOn(s.tails, initial, s.count);
    AloneSteps(s, i, initial);
  }

  lemma AloneSteps(s: State, i: nat, initial: int)
    requires |s.tails| == 3 && s.At(i).Idle?
    requires s.tails[IndexByTermCount(s.count + 1)].termId == initial + s.count - 2
    ensures Next(Next(Next(Next(Next(s, ReadCount(i), initial), TakeTermId(i), initial), LoadTail(i), initial),
                      CasTail(i), initial), CasCount(i), initial) == Rotated(s, i, initial)
  {
    hide IndexByTermCount;
    var c, id := s.count, initial + s.count;
    var raw := s.tails[IndexByTermCount(c + 1)];
    var s3 := Next(Next(Next(s, ReadCount(i), initial), TakeTermId(i), initial), LoadTail(i), initial);
    OverwriteCaller(s, i, Counted(c), Ready(c, id));
    OverwriteCaller(s, i, Ready(c, id), Loaded(c, id, raw));
    assert s3 == s.Go(i, Loaded(c, id, raw));
    var s4 := s.(tails := s.tails[IndexByTermCount(c + 1) := Tail(0, id + 1)]);
    OverwriteCaller(s4, i, Loaded(c, id, raw), Swapped(c, id));
    assert Next(s3, CasTail(i), initial) == s4.Go(i, Swapped(c, id));
    OverwriteCaller(s4, i, Swapped(c, id), Idle);
  }

  lemma OverwriteCaller(s: State, i: nat, a: Pc, b: Pc)
    ensures s.Go(i, a).Go(i, b) == s.Go(i, b) && s.Go(i, a).At(i) == a
  {
    assert s.callers[i := a][i := b] == s.callers[i := b];
  }

  lemma OneTermOn(tails: seq<Tail>, initial: int, newest: int)
    requires HoldsTerms(tails, initial, newest)
    ensures |tails| == 3
    ensures HoldsTerms(tails[IndexByTermCount(newest + 1) := Tail(0, initial + newest + 1)], initial, newest + 1)
  {
    LatestFacts(newest, newest + 1);
  }

  // No call is half-way, yet the tails are one term ahead of the count.
  ghost predicate Wedged(s: State, initial: int) {
    && HoldsTerms(s.tails, initial, s.count + 1) && s.count >= 0
    && forall i :: CallerKnows(s, initial, i) && !s.At(i).Swapped?
  }

  lemma HoldsThree(tails: seq<Tail>, initial: int, newest: int)
    requires HoldsTerms(tails, initial, newest)
    ensures |tails| == 3
  {}

  // The steps of a call whose caller has read the count, when it takes the term id from the
  // tail of that count.
  function LateCall(u: nat): seq<Step> {
    [ReadTailTermId(u), LoadTail(u)] + [CasTail(u), CasCount(u)]
  }

  /** What a late call does, exactly. With `newest` the newest term held, it replaces a tail if
      and only if the count it read is a multiple of three behind `newest`; it moves the count
      if and only if, besides, nobody has moved it since; otherwise it changes nothing. */
  lemma LateCallExactly(s: State, initial: int, newest: int, c: int, u: nat)
    requires HoldsTerms(s.tails, initial, newest) && s.At(u) == Counted(c) && c <= newest
    ensures |s.tails| == 3
    ensures var r := Run(s, LateCall(u), initial);
            && r.callers == s.callers[u := Idle]
            && HoldsTerms(r.tails, initial, if (newest - c) % 3 == 0 then newest + 1 else newest)
            && (r.tails != s.tails <==> (newest - c) % 3 == 0)
            && (r.count != s.count <==> (newest - c) % 3 == 0 && c == s.count)
            && (r.count == s.count ==> r.wins == s.wins)
            && (r.count != s.count ==> r.count == c + 1 && r.wins == s.wins + [c])
  {
    hide LatestAt, HoldsTerms, Run, IndexByTermCount;
    HoldsThree(s.tails, initial, newest);
    var t := Next(Next(s, ReadTailTermId(u), initial), LoadTail(u), initial);
    RunJoin(s, [ReadTailTermId(u), LoadTail(u)], [CasTail(u), CasCount(u)], initial);
    RunTwo(s, ReadTailTermId(u), LoadTail(u), initial);
    RunTwo(t, CasTail(u), CasCount(u), initial);
    LateSlots(s.tails, initial, newest, c);
    OneTermOn(s.tails, initial, newest);
    OneTermChanges(s.tails, initial, newest);
    var id, raw := s.tails[IndexByTermCount(c)].termId, s.tails[IndexByTermCount(c + 1)];
    assert s.callers[u := Ready(c, id)][u := Idle] == s.callers[u := Idle];
    if (newest - c) % 3 == 0 {
      assert t == s.Go(u, Ready(c, id)).Go(u, Loaded(c, id, raw));
      LateSwap(s, t, initial, c, id, u);
    }
  }

  lemma LateSwap(s: State, t: State, initial: int, c: int, id: int, u: nat)
    requires |s.tails| == 3
    requires t == s.Go(u, Ready(c, id)).Go(u, Loaded(c, id, s.tails[IndexByTermCount(c + 1)]))
    ensures var r := Next(Next(t, CasTail(u), initial), CasCount(u), initial);
            && r.tails == s.tails[IndexByTermCount(c + 1) := Tail(0, id + 1)]
            && r.callers == s.callers[u := Idle]
            && r.count == (if s.count == c then c + 1 else s.count)
            && r.wins == if s.count == c then s.wins + [c] else s.wins
  {
    hide IndexByTermCount;
    assert Next(t, CasTail(u), initial).At(u) == Swapped(c, id);
    assert Next(Next(t, CasTail(u), initial), CasCount(u), initial).callers == s.callers[u := Idle];
  }

  // What a late call finds: the newest term id and the oldest one behind it, or two that do
  // not follow each other.
  lemma LateSlots(tails: seq<Tail>, initial: int, newest: int, c: int)
    requires HoldsTerms(tails, initial, newest)
    ensures |tails| == 3
    ensures tails[IndexByTermCount(c + 1)].termId == tails[IndexByTermCount(c)].termId - 2 <==> (newest - c) % 3 == 0
    ensures (newest - c) % 3 == 0 ==>
              IndexByTermCount(newest + 1) == IndexByTermCount(c + 1)
              && tails[IndexByTermCount(c)].termId == initial + newest
  {}

  lemma OneTermChanges(tails: seq<Tail>, initial: int, newest: int)
    requires HoldsTerms(tails, initial, newest)
    ensures |tails| == 3
    ensures tails[IndexByTermCount(newest + 1) := Tail(0, initial + newest + 1)] != tails
  {
    LatestFacts(newest, newest + 1);
  }

  /** In a log with no rotation half-way a late call wedges it exactly when it was overtaken by
      three rotations or a multiple of three: a caller that read the current count rotates the
      log, and one overtaken by any other number changes nothing. */
  lemma LateCallWedgesIff(s: State, initial: int, start: nat, u: nat)
    requires Inv(s, initial, start) && Stable(s, initial) && s.At(u).Counted?
    ensures |s.tails| == 3
    ensures var c, r := s.At(u).count, Run(s, LateCall(u), initial);
            && (Wedged(r, initial) <==> c < s.count && (s.count - c) % 3 == 0)
            && (r.count == s.count + 1 && Inv(r, initial, start) <==> c == s.count)
            && (r == s.Go(u, Idle) <==> (s.count - c) % 3 != 0)
  {
    hide LatestAt, Run, IndexByTermCount, HoldsTerms;
    var c := s.At(u).count;
    assert CallerKnows(s, initial, u);
    HoldsThree(s.tails, initial, s.count);
    LateCallExactly(s, initial, s.count, c, u);
    var r := Run(s, LateCall(u), initial);
    forall i ensures (r.At(i).Idle? || r.At(i) == s.At(i)) && CallerKnows(r, initial, i) && !r.At(i).Swapped? {
      assert CallerKnows(s, initial, i) && !s.At(i).Swapped?;
    }
    TermsUnique(r.tails, initial, s.count, s.count + 1);
    TermsUnique(r.tails, initial, s.count + 1, s.count + 2);
    if c == s.count { assert Stable(r, initial); }
  }

  lemma TermsUnique(tails: seq<Tail>, initial: int, a: int, b: int)
    requires a < b
    ensures !(HoldsTerms(tails, initial, a) && HoldsTerms(tails, initial, b))
  {
    if HoldsTerms(tails, initial, a) && HoldsTerms(tails, initial, b) {
      HeldExactly(tails, initial, a, b);
      HeldExactly(tails, initial, b, b);
    }
  }

  function StaleRun(u: nat, v: nat): seq<Step> {
    [ReadCount(u)] + (Alone(v) + (Alone(v) + (Alone(v) + LateCall(u))))
  }

  /** A caller that reads the count, is overtaken by three rotations and then reads the term
      id from the tail of the count it read replaces the next tail but cannot move the count. */
  lemma StaleTermIdWedges(s: State, initial: int, start: nat, u: nat, v: nat)
    requires Start(s, initial, start) && u != v
    ensures |s.tails| == 3
    ensures var r := Run(s, StaleRun(u, v), initial);
            Wedged(r, initial) && r.count == start + 3 && |r.wins| == 3
  {
    hide IndexByTermCount, LatestAt, HoldsTerms, Run;
    HoldsThree(s.tails, initial, start);
    assert s.At(v).Idle? && s.At(u).Idle?;
    var last := LateCall(u);
    RunJoin(s, [ReadCount(u)], Alone(v) + (Alone(v) + (Alone(v) + last)), initial);
    RunOne(s, ReadCount(u), initial);
    var s0 := s.Go(u, Counted(start));
    var s1, s2, s3 := Rotated(s0, v, initial), Rotated(Rotated(s0, v, initial), v, initial),
                      Rotated(Rotated(Rotated(s0, v, initial), v, initial), v, initial);
    AloneRotates(s0, v, initial);
    AloneRotates(s1, v, initial);
    AloneRotates(s2, v, initial);
    RunJoin(s0, Alone(v), Alone(v) + (Alone(v) + last), initial);
    RunJoin(s1, Alone(v), Alone(v) + last, initial);
    RunJoin(s2, Alone(v), last, initial);
    assert s3.count == start + 3 && s3.At(u) == Counted(start) && HoldsTerms(s3.tails, initial, start + 3);
    LateCallExactly(s3, initial, start + 3, start, u);
    OthersIdle(s, s3, Run(s, StaleRun(u, v), initial), initial, start, u, v);
  }

  lemma OthersIdle(s: State, s3: State, r: State, initial: int, start: nat, u: nat, v: nat)
    requires Start(s, initial, start) && r.count == start + 3
    requires s3.callers == s.callers[u := Counted(start)][v := Idle][v := Idle][v := Idle]
    requires r.callers == s3.callers[u := Idle]
    ensures forall i :: CallerKnows(r, initial, i) && !r.At(i).Swapped?
  {
    forall i ensures r.At(i).Idle? {
      assert s.At(i).Idle?;
    }
  }

  /** Once wedged, a log never rotates again, whatever correct callers do. */
  lemma {:induction false} WedgedForever(s: State, steps: seq<Step>, initial: int)
    requires Wedged(s, initial)
    ensures |s.tails| == 3
    ensures FreshRun(s, steps, initial) ==>
              Wedged(Run(s, steps, initial), initial) && Run(s, steps, initial).count == s.count
              && Run(s, steps, initial).wins == s.wins
    decreases |steps|
  {
    hide HoldsTerms, Next, CallerKnows;
    HoldsThree(s.tails, initial, s.count + 1);
    if FreshRun(s, steps, initial) && steps != [] {
      var n := |steps| - 1;
      assert forall k :: 0 <= k <= n ==> steps[..n][..k] == steps[..k];
      WedgedForever(s, steps[..n], initial);
      WedgedStep(Run(s, steps[..n], initial), steps[n], initial);
    }
  }

  lemma WedgedStep(s: State, step: Step, initial: int)
    requires Wedged(s, initial) && |s.tails| == 3 && Fresh(s, step, initial)
    ensures Wedged(Next(s, step, initial), initial)
    ensures Next(s, step, initial).count == s.count && Next(s, step, initial).wins == s.wins
  {
    hide LatestAt, HoldsTerms, IndexByTermCount;
    var t := Next(s, step, initial);
    if step.Append? {
      AppendKeepsTerms(s.tails, step.index, step.bytes, initial, s.count + 1);
      forall i ensures CallerKnows(t, initial, i) && !t.At(i).Swapped? {
        assert CallerKnows(s, initial, i) && t.At(i) == s.At(i);
      }
    } else {
      var j := step.caller;
      assert CallerKnows(s, initial, j) && !s.At(j).Swapped?;
      if s.At(j).Loaded? || s.At(j).Ready? { WedgedSlot(s.tails, initial, s.count, s.At(j).count); }
      if s.At(j).Loaded? { assert s.tails[IndexByTermCount(s.At(j).count + 1)] != s.At(j).raw; }
      if step.ReadTailTermId? && s.At(j).Counted? { HeldExactly(s.tails, initial, s.count + 1, s.At(j).count); }
      forall i ensures CallerKnows(t, initial, i) && !t.At(i).Swapped? {
        assert CallerKnows(s, initial, i) && !s.At(i).Swapped?;
      }
    }
  }

  lemma AppendKeepsTerms(tails: seq<Tail>, k: nat, n: nat, initial: int, newest: int)
    requires HoldsTerms(tails, initial, newest)
    ensures |tails| == 3
    ensures k < 3 ==> HoldsTerms(tails[k := tails[k].(offset := tails[k].offset + n)], initial, newest)
  {}

  lemma WedgedSlot(tails: seq<Tail>, initial: int, count: int, c: int)
    requires HoldsTerms(tails, initial, count + 1) && c <= count
    ensures tails[IndexByTermCount(c + 1)].termId != initial + c - 2
  {
    LatestFacts(count + 1, c + 1);
  }

}
