/** Allocators racing for slots: every load and compare-and-set of a type word is one step. */
module CounterClaims {
  import opened CounterSlots

  datatype Pc =
    | Idle
    | Scanning(slot: nat, typeId: int)   // about to load the slot's type word
    | SawFree(slot: nat, typeId: int)    // about to compare-and-set it
    | Claimed(slot: nat, typeId: int)    // about to publish the type id

  /** `held` records which thread was given which counter and has not freed it. */
  datatype State = State(words: seq<int>, threads: map<nat, Pc>, held: map<nat, nat>) {
    function At(t: nat): Pc { if t in threads then threads[t] else Idle }

    function Go(t: nat, pc: Pc): State { this.(threads := threads[t := pc]) }
  }

  datatype Action = Allocate(thread: nat, typeId: int) | Load(thread: nat) | Cas(thread: nat) | Publish(thread: nat)
                  | Free(thread: nat, id: nat)

  function Act(s: State, a: Action): State {
    match a
    case Allocate(t, ty) => if s.At(t).Idle? && ty != FREE && ty != NOT_FREE then s.Go(t, Scanning(0, ty)) else s
    case Load(t) =>
      (match s.At(t)
       case Scanning(i, ty) =>
         if i >= |s.words| then s.Go(t, Idle)
         else if s.words[i] == FREE then s.Go(t, SawFree(i, ty))
         else s.Go(t, Scanning(i + 1, ty))
       case _ => s)
    case Cas(t) =>
      (match s.At(t)
       case SawFree(i, ty) =>
         if i < |s.words| && s.words[i] == FREE then s.(words := s.words[i := NOT_FREE]).Go(t, Claimed(i, ty))
         else s.Go(t, Scanning(i + 1, ty))
       case _ => s)
    case Publish(t) =>
      (match s.At(t)
       case Claimed(i, ty) =>
         if i < |s.words| then s.(words := s.words[i := ty], held := s.held[i := t]).Go(t, Idle) else s
       case _ => s)
    case Free(t, id) =>
      if id in s.held && s.held[id] == t && id < |s.words| then
        s.(words := s.words[id := FREE], held := map j | j in s.held && j != id :: s.held[j])
      else s
  }

  function Init(slots: nat): State {
    State(seq(slots, _ => FREE), map[], map[])
  }

  function Run(s: State, run: seq<Action>): State {
    if run == [] then s else Act(Run(s, run[..|run| - 1]), run[|run| - 1])
  }

  /** A slot is free exactly when no one holds it and no one has claimed it; no two threads
      have claimed one slot, nor is a slot claimed while it is held. */
  ghost predicate Inv(s: State) {
    && (forall id :: id in s.held ==> id < |s.words| && s.words[id] != FREE)
    && (forall t :: ClaimOk(s, t))
    && (forall t, u :: t != u && s.At(t).Claimed? && s.At(u).Claimed? ==> s.At(t).slot != s.At(u).slot)
    && (forall i :: 0 <= i < |s.words| && s.words[i] != FREE ==>
          i in s.held || exists t :: s.At(t).Claimed? && s.At(t).slot == i)
  }

  predicate ClaimOk(s: State, t: nat) {
    match s.At(t)
    case Claimed(i, ty) => i < |s.words| && s.words[i] == NOT_FREE && i !in s.held && ty != FREE
    case Scanning(_, ty) => ty != FREE
    case SawFree(i, ty) => i < |s.words| && ty != FREE
    case Idle => true
  }

  lemma ActKeepsInv(s: State, a: Action)
    requires Inv(s)
    ensures Inv(Act(s, a))
  {
    hide Act;
    ClaimsStand(s, a);
    ClaimsStayApart(s, a);
    TakenAccountedFor(s, a);
  }

  lemma ClaimsStand(s: State, a: Action)
    requires Inv(s)
    ensures forall t :: ClaimOk(Act(s, a), t)
    ensures var s' := Act(s, a); forall id :: id in s'.held ==> id < |s'.words| && s'.words[id] != FREE
  {
    var s' := Act(s, a);
    if !a.Free? { assert ClaimOk(s, a.thread); }
    forall t ensures ClaimOk(s', t) {
      assert ClaimOk(s, t);
    }
  }

  lemma ClaimsStayApart(s: State, a: Action)
    requires Inv(s)
    ensures var s' := Act(s, a);
            forall t, u :: t != u && s'.At(t).Claimed? && s'.At(u).Claimed? ==> s'.At(t).slot != s'.At(u).slot
  {
    var s' := Act(s, a);
    forall t, u | t != u && s'.At(t).Claimed? && s'.At(u).Claimed? ensures s'.At(t).slot != s'.At(u).slot {
      assert ClaimOk(s, t) && ClaimOk(s, u);
    }
  }

  lemma TakenAccountedFor(s: State, a: Action)
    requires Inv(s)
    ensures var s' := Act(s, a);
            forall i :: 0 <= i < |s'.words| && s'.words[i] != FREE ==>
              i in s'.held || exists t :: s'.At(t).Claimed? && s'.At(t).slot == i
  {
    var s' := Act(s, a);
    forall i | 0 <= i < |s'.words| && s'.words[i] != FREE && i !in s'.held
      ensures exists t :: s'.At(t).Claimed? && s'.At(t).slot == i
    {
      if !(a.Cas? && s'.At(a.thread).Claimed? && s'.At(a.thread).slot == i) {
        var t :| s.At(t).Claimed? && s.At(t).slot == i;
        assert s'.At(t) == s.At(t);
      }
    }
  }

  /** In every interleaving: a counter handed to one caller is not claimed by or handed to
      another until its owner frees it. */
  lemma {:induction false} ClaimsAreUnique(slots: nat, run: seq<Action>)
    ensures var r := Run(Init(slots), run);
            && Inv(r)
            && (forall t :: r.At(t).Claimed? ==> r.At(t).slot !in r.held)
            && (forall t, u :: t != u && r.At(t).Claimed? && r.At(u).Claimed? ==> r.At(t).slot != r.At(u).slot)
    decreases |run|
  {
    hide Act;
    var s := Init(slots);
    if run != [] {
      ClaimsAreUnique(slots, run[..|run| - 1]);
      ActKeepsInv(Run(s, run[..|run| - 1]), run[|run| - 1]);
    }
    forall t | Run(s, run).At(t).Claimed? ensures Run(s, run).At(t).slot !in Run(s, run).held {
      assert ClaimOk(Run(s, run), t);
    }
  }

  /** Publishing gives the counter to a thread while no one holds it: owners never change
      but through a free. */
  lemma OwnersChangeByFreeOnly(s: State, a: Action, id: nat)
    requires Inv(s) && id in s.held
    ensures (id in Act(s, a).held && Act(s, a).held[id] == s.held[id]) || a == Free(s.held[id], id)
  {
    if a.Publish? { assert ClaimOk(s, a.thread); }
  }

  // ---- An allocator alone ----

  lemma {:induction false} RunSplit(s: State, a: seq<Action>, b: seq<Action>)
    ensures Run(s, a + b) == Run(Run(s, a), b)
    decreases |b|
  {
    hide Act;
    if b == [] {
      assert a + b == a;
    } else {
      var n := |b| - 1;
      assert (a + b)[..|a + b| - 1] == a + b[..n];
      RunSplit(s, a, b[..n]);
    }
  }

  lemma RunOne(s: State, a: Action)
    ensures Run(s, [a]) == Act(s, a)
  {
    hide Act;
    assert [a][..0] == [];
    assert Run(s, []) == s;
  }

  /** The lowest free slot at or after i, or the number of slots. */
  function LowestFree(words: seq<int>, i: nat): (j: nat)
    ensures i <= |words| ==> i <= j <= |words|
    ensures forall k :: i <= k < j && k < |words| ==> words[k] != FREE
    ensures j < |words| ==> i <= j && words[j] == FREE
    decreases |words| - i
  {
    if i >= |words| then |words| else if words[i] == FREE then i else LowestFree(words, i + 1)
  }

  // What thread t's search comes to from slot i on.
  function Found(s: State, t: nat, i: nat, typeId: int): State {
    var j := LowestFree(s.words, i);
    if j < |s.words| then s.(words := s.words[j := NOT_FREE]).Go(t, Claimed(j, typeId)) else s.Go(t, Idle)
  }

  function Search(t: nat, n: nat): seq<Action> {
    if n == 0 then [] else [Load(t), Cas(t)] + Search(t, n - 1)
  }

  /** An allocator that stands anywhere in its search goes on past every slot that is taken, the
      one it saw free and lost included: alone from there it claims the lowest free slot at or
      after its place and gives up exactly when there is none. */
  lemma {:induction false} SearchEnds(s: State, t: nat, n: nat)
    requires s.At(t).Scanning? || s.At(t).SawFree?
    requires ClaimOk(s, t) && n > |s.words| - s.At(t).slot && n > 0
    ensures Run(s, Search(t, n)) == Found(s, t, s.At(t).slot, s.At(t).typeId)
    decreases n
  {
    hide Run, Act;
    var i, ty := s.At(t).slot, s.At(t).typeId;
    RunSplit(s, [Load(t), Cas(t)], Search(t, n - 1));
    assert [Load(t), Cas(t)] == [Load(t)] + [Cas(t)];
    RunSplit(s, [Load(t)], [Cas(t)]);
    RunOne(s, Load(t));
    RunOne(Act(s, Load(t)), Cas(t));
    var s' := Act(Act(s, Load(t)), Cas(t));
    SearchStep(s, t);
    if i < |s.words| && s.words[i] != FREE {
      SearchEnds(s', t, n - 1);
      GoTwice(s, t, i + 1, ty);
    } else {
      SearchOver(s', t, n - 1);
    }
  }

  lemma GoTwice(s: State, t: nat, i: nat, ty: int)
    ensures s.Go(t, Scanning(i, ty)).At(t) == Scanning(i, ty)
    ensures Found(s.Go(t, Scanning(i, ty)), t, i, ty) == Found(s, t, i, ty)
  {
    var j := LowestFree(s.words, i);
    assert s.threads[t := Scanning(i, ty)][t := Claimed(j, ty)] == s.threads[t := Claimed(j, ty)];
    assert s.threads[t := Scanning(i, ty)][t := Idle] == s.threads[t := Idle];
  }

  // One load and one compare-and-set.
  lemma SearchStep(s: State, t: nat)
    requires (s.At(t).Scanning? || s.At(t).SawFree?) && ClaimOk(s, t)
    ensures var i, ty, s' := s.At(t).slot, s.At(t).typeId, Act(Act(s, Load(t)), Cas(t));
            s' == if i < |s.words| && s.words[i] != FREE then s.Go(t, Scanning(i + 1, ty)) else Found(s, t, i, ty)
  {
    var i, ty := s.At(t).slot, s.At(t).typeId;
    assert s.threads[t := SawFree(i, ty)][t := Claimed(i, ty)] == s.threads[t := Claimed(i, ty)];
  }

  lemma {:induction false} SearchOver(s: State, t: nat, n: nat)
    requires s.At(t).Claimed? || s.At(t).Idle?
    ensures Run(s, Search(t, n)) == s
    decreases n
  {
    hide Run, Act;
    if n == 0 {
      RunNothing(s);
    } else {
      RunSplit(s, [Load(t), Cas(t)], Search(t, n - 1));
      assert [Load(t), Cas(t)] == [Load(t)] + [Cas(t)];
      RunSplit(s, [Load(t)], [Cas(t)]);
      RunOne(s, Load(t));
      RunOne(Act(s, Load(t)), Cas(t));
      NotSearching(s, t);
      SearchOver(s, t, n - 1);
    }
  }

  lemma RunNothing(s: State)
    ensures Run(s, []) == s
  {}

  lemma NotSearching(s: State, t: nat)
    requires s.At(t).Claimed? || s.At(t).Idle?
    ensures Act(Act(s, Load(t)), Cas(t)) == s
  {}

  function Allocation(t: nat, typeId: int, n: nat): seq<Action> {
    [Allocate(t, typeId)] + (Search(t, n) + [Publish(t)])
  }

  /** A whole allocation alone: the lowest free slot gets the type id and the caller holds it; only
      when every slot is taken is there no effect. */
  lemma AllocateAlone(s: State, t: nat, typeId: int)
    requires s.At(t).Idle? && typeId != FREE && typeId != NOT_FREE
    ensures var j := LowestFree(s.words, 0);
            var r := Run(s, Allocation(t, typeId, |s.words| + 1));
            && (j < |s.words| ==> r.words == s.words[j := typeId] && r.held == s.held[j := t])
            && (j == |s.words| ==> r.words == s.words && r.held == s.held)
            && r.At(t).Idle? && forall u :: u != t ==> r.At(u) == s.At(u)
  {
    hide Run, Search;
    var n := |s.words| + 1;
    var s1 := s.Go(t, Scanning(0, typeId));
    RunSplit(s, [Allocate(t, typeId)], Search(t, n) + [Publish(t)]);
    RunOne(s, Allocate(t, typeId));
    RunSplit(s1, Search(t, n), [Publish(t)]);
    SearchEnds(s1, t, n);
    RunOne(Found(s1, t, 0, typeId), Publish(t));
  }
}
