/** The many-to-one linked queue under every interleaving: allocation, exchange of the tail,
    linking, and the dequeuer's loads, stores and deletions are single steps. */
module LinkedQueueSystem {
  import opened Wrappers

  type Address = nat

  datatype Node<T> = Node(value: T, next: Option<Address>)

  // An enqueuer holds a fresh node, or has swapped the tail for it and must still link it.
  datatype Producer = Resting | HoldsNode(node: Address) | MustLink(node: Address, prev: Address)

  datatype Consumer<T> =
    | Ready
    | HasHead(head: Address)
    | HasNext(head: Address, next: Address)
    | HasMoved(head: Address, next: Address)
    | MustDelete(head: Address)

  /** `memory` holds the allocated nodes; `fault` is set by any access to a node that is not.
      Of the ghost parts, `spine` is the nodes from the head on in the order of the tail
      exchanges, `enqueued` all values in that order, `delivered` what dequeuing returned. */
  datatype State<T> = State(
    memory: map<Address, Node<T>>, head: Address, tail: Address,
    producers: map<nat, Producer>, consumer: Consumer<T>, fault: bool,
    spine: seq<Address>, enqueued: seq<T>, delivered: seq<T>)
  {
    function At(t: nat): Producer { if t in producers then producers[t] else Resting }
  }

  datatype Action<T> =
    | Allocate(thread: nat, address: Address, value: T)
    | Exchange(thread: nat)
    | Link(thread: nat)
    | LoadHead
    | LoadNext
    | MoveValue(leftover: T)   // what moving out leaves in the node
    | StoreHead
    | Delete

  function Act<T>(s: State<T>, a: Action<T>): State<T> {
    match a
    case Allocate(t, x, v) =>
      if s.At(t).Resting? && x !in s.memory then
        s.(memory := s.memory[x := Node(v, None)], producers := s.producers[t := HoldsNode(x)])
      else s
    case Exchange(t) =>
      (match s.At(t)
       case HoldsNode(x) =>
         s.(tail := x, producers := s.producers[t := MustLink(x, s.tail)], spine := s.spine + [x],
            enqueued := if x in s.memory then s.enqueued + [s.memory[x].value] else s.enqueued)
       case _ => s)
    case Link(t) =>
      (match s.At(t)
       case MustLink(x, prev) =>
         if prev in s.memory then
           s.(memory := s.memory[prev := s.memory[prev].(next := Some(x))], producers := s.producers[t := Resting])
         else s.(fault := true)
       case _ => s)
    case LoadHead => if s.consumer.Ready? then s.(consumer := HasHead(s.head)) else s
    case LoadNext =>
      (match s.consumer
       case HasHead(h) =>
         if h !in s.memory then s.(fault := true)
         else if s.memory[h].next.None? then s.(consumer := Ready)
         else s.(consumer := HasNext(h, s.memory[h].next.value))
       case _ => s)
    case MoveValue(left) =>
      (match s.consumer
       case HasNext(h, n) =>
         if n !in s.memory then s.(fault := true)
         else s.(memory := s.memory[n := s.memory[n].(value := left)], consumer := HasMoved(h, n),
                 delivered := s.delivered + [s.memory[n].value])
       case _ => s)
    case StoreHead =>
      (match s.consumer
       case HasMoved(h, n) =>
         s.(head := n, consumer := MustDelete(h), spine := if s.spine == [] then [] else s.spine[1..])
       case _ => s)
    case Delete =>
      (match s.consumer
       case MustDelete(h) =>
         if h in s.memory then s.(memory := map a | a in s.memory && a != h :: s.memory[a], consumer := Ready)
         else s.(fault := true)
       case _ => s)
  }

  function Run<T>(s: State<T>, run: seq<Action<T>>): State<T> {
    if run == [] then s else Act(Run(s, run[..|run| - 1]), run[|run| - 1])
  }

  // A new queue: the sentinel alone.
  function Init<T>(sentinel: Address, value: T): State<T> {
    State(map[sentinel := Node(value, None)], sentinel, sentinel, map[], Ready, false, [sentinel], [], [])
  }

  // ---- The invariant ----

  ghost predicate SpineOk<T>(s: State<T>) {
    && s.spine != [] && s.spine[0] == s.head && s.spine[|s.spine| - 1] == s.tail
    && (forall i, j :: 0 <= i < j < |s.spine| ==> s.spine[i] != s.spine[j])
    && (forall i :: 0 <= i < |s.spine| ==> s.spine[i] in s.memory)
  }

  // Node i of the spine is linked to the next, or an enqueuer is about to link it.
  ghost predicate LinksOk<T>(s: State<T>) {
    forall i :: 0 <= i < |s.spine| && s.spine[i] in s.memory ==> LinkOk(s, i)
  }

  ghost predicate LinkOk<T>(s: State<T>, i: nat)
    requires i < |s.spine| && s.spine[i] in s.memory
  {
    match s.memory[s.spine[i]].next
    case Some(n) => i + 1 < |s.spine| && n == s.spine[i + 1]
    case None => i + 1 < |s.spine| ==> exists t :: s.At(t) == MustLink(s.spine[i + 1], s.spine[i])
  }

  ghost predicate ProducersOk<T>(s: State<T>) {
    (forall t :: ProducerOk(s, t)) && NodesApart(s)
  }

  ghost predicate NodesApart<T>(s: State<T>) {
    forall t, u :: t != u && !s.At(t).Resting? && !s.At(u).Resting? ==> s.At(t).node != s.At(u).node
  }

  ghost predicate ProducerOk<T>(s: State<T>, t: nat) {
    match s.At(t)
    case Resting => true
    case HoldsNode(x) => x in s.memory && s.memory[x].next.None? && x !in s.spine && Outside(s, x)
    case MustLink(x, prev) =>
      exists i :: 0 <= i < |s.spine| - 1 && s.spine[i] == prev && s.spine[i + 1] == x
        && prev in s.memory && s.memory[prev].next.None?
  }

  // Not the old head that the dequeuer is about to delete.
  predicate Outside<T>(s: State<T>, x: Address) {
    s.consumer.MustDelete? ==> s.consumer.head != x
  }

  ghost predicate ConsumerOk<T>(s: State<T>) {
    match s.consumer
    case Ready => true
    case HasHead(h) => h == s.head
    case HasNext(h, n) => h == s.head && |s.spine| > 1 && n == s.spine[1] && h in s.memory &&
        s.memory[h].next == Some(n)
    case HasMoved(h, n) => h == s.head && |s.spine| > 1 && n == s.spine[1] && h in s.memory &&
        s.memory[h].next == Some(n)
    case MustDelete(h) => h in s.memory && h !in s.spine
  }

  // The values still in the queue: from the second node on, or from the third once the
  // second has been moved out of.
  function Waiting<T>(s: State<T>): nat {
    if s.consumer.HasMoved? then 2 else 1
  }

  ghost predicate ValuesOk<T>(s: State<T>) {
    && |s.enqueued| == |s.delivered| + |s.spine| - Waiting(s)
    && s.delivered <= s.enqueued
    && forall i :: Waiting(s) <= i < |s.spine| && s.spine[i] in s.memory ==>
         s.memory[s.spine[i]].value == s.enqueued[|s.delivered| + i - Waiting(s)]
  }

  // Every allocated node is on the spine, held by an enqueuer or about to be deleted.
  ghost predicate NoLeak<T>(s: State<T>) {
    forall x :: x in s.memory ==>
      x in s.spine || (exists t :: s.At(t) == HoldsNode(x)) || s.consumer == MustDelete(x)
  }

  ghost predicate Inv<T>(s: State<T>) {
    && !s.fault && SpineOk(s) && LinksOk(s) && ProducersOk(s) && ConsumerOk(s)
    && |s.spine| >= Waiting(s) && ValuesOk(s) && NoLeak(s)
  }

  // ---- Each step keeps it ----

  // A link still to be made stays one for the same enqueuer.
  lemma LinkStands<T>(s: State<T>, s': State<T>, i: nat, j: nat)
    requires i < |s.spine| && j < |s'.spine| && s.spine[i] in s.memory && s'.spine[j] == s.spine[i] &&
        s'.spine[j] in s'.memory
    requires LinkOk(s, i) && s'.memory[s.spine[i]].next == s.memory[s.spine[i]].next
    requires i + 1 < |s.spine| ==> j + 1 < |s'.spine| && s'.spine[j + 1] == s.spine[i + 1]
    requires i + 1 == |s.spine| ==> j + 1 == |s'.spine|
    requires i + 1 < |s.spine| ==> forall t :: s.At(t) == MustLink(s.spine[i + 1], s.spine[i]) ==> s'.At(t) == s.At(t)
    ensures LinkOk(s', j)
  {
    if s.memory[s.spine[i]].next.None? && i + 1 < |s.spine| {
      var t :| s.At(t) == MustLink(s.spine[i + 1], s.spine[i]);
      assert s'.At(t) == MustLink(s'.spine[j + 1], s'.spine[j]);
    }
  }

  ghost predicate HasPlace<T>(s: State<T>, t: nat, i: nat) {
    && s.At(t).MustLink? && i < |s.spine| - 1 && s.spine[i] == s.At(t).prev && s.spine[i + 1] == s.At(t).node
    && s.At(t).prev in s.memory && s.memory[s.At(t).prev].next.None?
  }

  lemma PlaceOf<T>(s: State<T>, t: nat) returns (i: nat)
    requires ProducerOk(s, t) && s.At(t).MustLink?
    ensures HasPlace(s, t, i)
  {
    i :| i < |s.spine| - 1 && s.spine[i] == s.At(t).prev && s.spine[i + 1] == s.At(t).node
      && s.At(t).prev in s.memory && s.memory[s.At(t).prev].next.None?;
  }

  // Nodes stay apart when every enqueuer that holds one held it before.
  lemma NodesStand<T>(s: State<T>, s': State<T>)
    requires NodesApart(s)
    requires forall t :: !s'.At(t).Resting? ==> !s.At(t).Resting? && s'.At(t).node == s.At(t).node
    ensures NodesApart(s')
  {}

  // -- Allocate --

  lemma AllocateKeepsInv<T>(s: State<T>, t: nat, x: Address, v: T)
    requires Inv(s) && s.At(t).Resting? && x !in s.memory
    ensures Inv(Act(s, Allocate(t, x, v)))
  {
    hide LinkOk, ProducerOk, NoLeak, LinksOk, ProducersOk;
    AllocateLinks(s, t, x, v);
    AllocateProducers(s, t, x, v);
    AllocateNoLeak(s, t, x, v);
  }

  lemma AllocateLinks<T>(s: State<T>, t: nat, x: Address, v: T)
    requires SpineOk(s) && LinksOk(s) && s.At(t).Resting? && x !in s.memory
    ensures LinksOk(Act(s, Allocate(t, x, v)))
  {
    hide LinkOk;
    var s' := Act(s, Allocate(t, x, v));
    forall i | 0 <= i < |s'.spine| && s'.spine[i] in s'.memory ensures LinkOk(s', i) {
      LinkStands(s, s', i, i);
    }
  }

  lemma AllocateProducers<T>(s: State<T>, t: nat, x: Address, v: T)
    requires SpineOk(s) && ProducersOk(s) && ConsumerOk(s) && s.At(t).Resting? && x !in s.memory
    ensures ProducersOk(Act(s, Allocate(t, x, v)))
  {
    hide NodesApart;
    var s' := Act(s, Allocate(t, x, v));
    forall u ensures ProducerOk(s', u) && (!s.At(u).Resting? ==> s.At(u).node != x) {
      assert ProducerOk(s, u);
      if s.At(u).MustLink? {
        var i := PlaceOf(s, u);
        assert HasPlace(s', u, i);
      }
    }
    NewNodeApart(s, s', t, x);
  }

  lemma NewNodeApart<T>(s: State<T>, s': State<T>, t: nat, x: Address)
    requires NodesApart(s) && s'.At(t) == HoldsNode(x)
    requires forall u :: (!s.At(u).Resting? ==> s.At(u).node != x) && (u != t ==> s'.At(u) == s.At(u))
    ensures NodesApart(s')
  {}

  lemma AllocateNoLeak<T>(s: State<T>, t: nat, x: Address, v: T)
    requires NoLeak(s) && s.At(t).Resting? && x !in s.memory
    ensures NoLeak(Act(s, Allocate(t, x, v)))
  {
    var s' := Act(s, Allocate(t, x, v));
    assert s'.At(t) == HoldsNode(x);
    forall y | y in s'.memory && y != x && y !in s'.spine && s'.consumer != MustDelete(y)
      ensures exists u :: s'.At(u) == HoldsNode(y)
    {
      var u :| s.At(u) == HoldsNode(y);
      assert s'.At(u) == s.At(u);
    }
  }

  // -- Exchange --

  lemma ExchangeKeepsInv<T>(s: State<T>, t: nat)
    requires Inv(s) && s.At(t).HoldsNode?
    ensures Inv(Act(s, Exchange(t)))
  {
    hide LinkOk, NoLeak, LinksOk, ProducersOk;
    assert ProducerOk(s, t) by { AnyProducer(s, t); }
    ExchangeLinks(s, t);
    ExchangeProducers(s, t);
    ExchangeNoLeak(s, t);
  }

  lemma AnyProducer<T>(s: State<T>, t: nat)
    requires ProducersOk(s)
    ensures ProducerOk(s, t)
  {
    hide ProducerOk;
  }

  lemma TailUnlinked<T>(s: State<T>)
    requires SpineOk(s) && LinksOk(s)
    ensures s.tail in s.memory && s.memory[s.tail].next.None?
  {
    assert LinkOk(s, |s.spine| - 1);
  }

  lemma ExchangeLinks<T>(s: State<T>, t: nat)
    requires SpineOk(s) && LinksOk(s) && s.At(t).HoldsNode? && ProducerOk(s, t)
    ensures LinksOk(Act(s, Exchange(t)))
  {
    hide LinkOk;
    var s', n := Act(s, Exchange(t)), |s.spine|;
    TailUnlinked(s);
    NewLinkPending(s, s', t);
    forall i | 0 <= i < |s'.spine| && s'.spine[i] in s'.memory ensures LinkOk(s', i) {
      if i < n - 1 { LinkStands(s, s', i, i); }
    }
  }

  lemma NewLinkPending<T>(s: State<T>, s': State<T>, t: nat)
    requires s'.memory == s.memory && |s'.spine| == |s.spine| + 1 && s.spine != []
    requires s'.spine[|s.spine| - 1] in s'.memory && s'.spine[|s.spine|] in s'.memory
    requires s'.memory[s'.spine[|s.spine| - 1]].next.None? && s'.memory[s'.spine[|s.spine|]].next.None?
    requires s'.At(t) == MustLink(s'.spine[|s.spine|], s'.spine[|s.spine| - 1])
    ensures LinkOk(s', |s.spine| - 1) && LinkOk(s', |s.spine|)
  {}

  lemma ExchangeProducers<T>(s: State<T>, t: nat)
    requires SpineOk(s) && LinksOk(s) && ProducersOk(s) && s.At(t).HoldsNode?
    ensures ProducersOk(Act(s, Exchange(t)))
  {
    hide LinksOk;
    var s', n := Act(s, Exchange(t)), |s.spine|;
    TailUnlinked(s);
    forall u ensures ProducerOk(s', u) {
      assert ProducerOk(s, u);
      if u == t {
        assert HasPlace(s', t, n - 1);
      } else if s.At(u).MustLink? {
        var i := PlaceOf(s, u);
        assert HasPlace(s', u, i);
      } else if s.At(u).HoldsNode? {
        assert s.At(u).node != s.At(t).node;
      }
    }
    NodesStand(s, s');
  }

  lemma ExchangeNoLeak<T>(s: State<T>, t: nat)
    requires NoLeak(s) && s.At(t).HoldsNode?
    ensures NoLeak(Act(s, Exchange(t)))
  {
    var s' := Act(s, Exchange(t));
    assert s'.spine[|s.spine|] == s.At(t).node;
    assert forall i :: 0 <= i < |s.spine| ==> s'.spine[i] == s.spine[i];
    forall y | y in s'.memory && y !in s'.spine && s'.consumer != MustDelete(y)
      ensures exists u :: s'.At(u) == HoldsNode(y)
    {
      assert y !in s.spine;
      var u :| s.At(u) == HoldsNode(y);
      assert u != t;
      assert s'.At(u) == s.At(u);
    }
  }

  // -- Link --

  lemma LinkKeepsInv<T>(s: State<T>, t: nat)
    requires Inv(s) && s.At(t).MustLink?
    ensures Inv(Act(s, Link(t)))
  {
    hide LinkOk, NoLeak, LinksOk, ProducersOk;
    AnyProducer(s, t);
    LinkLinks(s, t);
    LinkProducers(s, t);
    LinkNoLeak(s, t);
  }

  lemma LinkLinks<T>(s: State<T>, t: nat)
    requires SpineOk(s) && LinksOk(s) && s.At(t).MustLink? && ProducerOk(s, t)
    ensures LinksOk(Act(s, Link(t)))
  {
    hide LinkOk;
    var s' := Act(s, Link(t));
    var k := PlaceOf(s, t);
    LinkMade(s', k);
    forall i | 0 <= i < |s'.spine| && s'.spine[i] in s'.memory ensures LinkOk(s', i) {
      if i != k { LinkStands(s, s', i, i); }
    }
  }

  lemma LinkMade<T>(s: State<T>, k: nat)
    requires k < |s.spine| - 1 && s.spine[k] in s.memory && s.memory[s.spine[k]].next == Some(s.spine[k + 1])
    ensures LinkOk(s, k)
  {}

  lemma LinkProducers<T>(s: State<T>, t: nat)
    requires SpineOk(s) && ProducersOk(s) && s.At(t).MustLink?
    ensures ProducersOk(Act(s, Link(t)))
  {
    var s' := Act(s, Link(t));
    assert ProducerOk(s, t);
    var k := PlaceOf(s, t);
    forall u ensures ProducerOk(s', u) {
      assert ProducerOk(s, u);
      if u != t && s.At(u).MustLink? {
        var i := PlaceOf(s, u);
        assert i != k;
        assert HasPlace(s', u, i);
      }
    }
    NodesStand(s, s');
  }

  lemma LinkNoLeak<T>(s: State<T>, t: nat)
    requires NoLeak(s) && s.At(t).MustLink? && s.At(t).prev in s.memory
    ensures NoLeak(Act(s, Link(t)))
  {
    var s' := Act(s, Link(t));
    forall y | y in s'.memory && y !in s'.spine && s'.consumer != MustDelete(y)
      ensures exists u :: s'.At(u) == HoldsNode(y)
    {
      var u :| s.At(u) == HoldsNode(y);
      assert s'.At(u) == s.At(u);
    }
  }

  // -- The dequeuer --

  lemma NextIsSecond<T>(s: State<T>)
    requires SpineOk(s) && LinksOk(s)
    ensures s.head in s.memory
    ensures s.memory[s.head].next.Some? ==> |s.spine| > 1 && s.memory[s.head].next.value == s.spine[1]
  {
    assert LinkOk(s, 0);
  }

  lemma LoadKeepsInv<T>(s: State<T>, a: Action<T>)
    requires Inv(s) && (a.LoadHead? || a.LoadNext?)
    ensures Inv(Act(s, a))
  {
    hide LinksOk, ProducersOk, NoLeak;
    var s' := Act(s, a);
    NextIsSecond(s);
    if s' != s {
      ConsumerMoves(s, s');
    }
  }

  // The dequeuer changes neither nodes nor spine.
  lemma ConsumerMoves<T>(s: State<T>, s': State<T>)
    requires LinksOk(s) && ProducersOk(s) && NoLeak(s)
    requires s' == s.(consumer := s'.consumer, delivered := s'.delivered, memory := s'.memory)
    requires s'.memory.Keys == s.memory.Keys && forall x :: x in s.memory ==> s'.memory[x].next == s.memory[x].next
    requires !s.consumer.MustDelete? && !s'.consumer.MustDelete?
    ensures LinksOk(s') && ProducersOk(s') && NoLeak(s')
  {
    hide LinkOk;
    forall i | 0 <= i < |s'.spine| && s'.spine[i] in s'.memory ensures LinkOk(s', i) {
      LinkStands(s, s', i, i);
    }
    forall u ensures ProducerOk(s', u) && s'.At(u) == s.At(u) {
      assert ProducerOk(s, u);
      if s.At(u).MustLink? {
        var i := PlaceOf(s, u);
        assert HasPlace(s', u, i);
      }
    }
    forall y | y in s'.memory && y !in s'.spine ensures exists u :: s'.At(u) == HoldsNode(y) {
      var u :| s.At(u) == HoldsNode(y);
      assert s'.At(u) == s.At(u);
    }
  }

  lemma MoveKeepsInv<T>(s: State<T>, left: T)
    requires Inv(s) && s.consumer.HasNext?
    ensures Inv(Act(s, MoveValue(left)))
  {
    hide LinksOk, ProducersOk, NoLeak;
    var s' := Act(s, MoveValue(left));
    ConsumerMoves(s, s');
    assert s.memory[s.spine[1]].value == s.enqueued[|s.delivered|];
  }

  lemma StoreHeadKeepsInv<T>(s: State<T>)
    requires Inv(s) && s.consumer.HasMoved?
    ensures Inv(Act(s, StoreHead))
  {
    hide LinksOk, ProducersOk, NoLeak, ValuesOk, SpineOk;
    StoreHeadLinks(s);
    StoreHeadProducers(s);
    StoreHeadNoLeak(s);
    StoreHeadValues(s);
  }

  lemma StoreHeadValues<T>(s: State<T>)
    requires SpineOk(s) && ConsumerOk(s) && ValuesOk(s) && s.consumer.HasMoved?
    ensures ValuesOk(Act(s, StoreHead)) && SpineOk(Act(s, StoreHead)) && ConsumerOk(Act(s, StoreHead))
  {
    hide SpineOk, ConsumerOk, ValuesOk;
    StoreHeadSpine(s);
    StoreHeadWaiting(s);
  }

  lemma StoreHeadSpine<T>(s: State<T>)
    requires SpineOk(s) && ConsumerOk(s) && s.consumer.HasMoved?
    ensures SpineOk(Act(s, StoreHead)) && ConsumerOk(Act(s, StoreHead))
  {}

  lemma StoreHeadWaiting<T>(s: State<T>)
    requires ConsumerOk(s) && ValuesOk(s) && s.consumer.HasMoved?
    ensures ValuesOk(Act(s, StoreHead))
  {}

  lemma StoreHeadLinks<T>(s: State<T>)
    requires SpineOk(s) && LinksOk(s) && s.consumer.HasMoved?
    ensures LinksOk(Act(s, StoreHead))
  {
    hide LinkOk;
    var s' := Act(s, StoreHead);
    forall i | 0 <= i < |s'.spine| && s'.spine[i] in s'.memory ensures LinkOk(s', i) {
      LinkStands(s, s', i + 1, i);
    }
  }

  // No enqueuer has to link the old head: it is linked already.
  lemma StoreHeadProducers<T>(s: State<T>)
    requires SpineOk(s) && ProducersOk(s) && ConsumerOk(s) && s.consumer.HasMoved?
    ensures ProducersOk(Act(s, StoreHead))
  {
    var s' := Act(s, StoreHead);
    forall u ensures ProducerOk(s', u) && s'.At(u) == s.At(u) {
      assert ProducerOk(s, u);
      if s.At(u).MustLink? {
        var i := PlaceOf(s, u);
        assert i > 0;
        assert HasPlace(s', u, i - 1);
      }
    }
  }

  lemma StoreHeadNoLeak<T>(s: State<T>)
    requires SpineOk(s) && ConsumerOk(s) && NoLeak(s) && s.consumer.HasMoved?
    ensures NoLeak(Act(s, StoreHead))
  {
    var s' := Act(s, StoreHead);
    forall y | y in s'.memory && y !in s'.spine && s'.consumer != MustDelete(y)
      ensures exists u :: s'.At(u) == HoldsNode(y)
    {
      assert y !in s.spine by { assert s.spine == [s.head] + s'.spine; }
      var u :| s.At(u) == HoldsNode(y);
      assert s'.At(u) == s.At(u);
    }
  }

  lemma DeleteKeepsInv<T>(s: State<T>)
    requires Inv(s) && s.consumer.MustDelete?
    ensures Inv(Act(s, Delete))
  {
    hide LinksOk, ProducersOk, NoLeak;
    DeleteLinks(s);
    DeleteProducers(s);
    DeleteNoLeak(s);
  }

  lemma DeleteLinks<T>(s: State<T>)
    requires SpineOk(s) && LinksOk(s) && ConsumerOk(s) && s.consumer.MustDelete?
    ensures LinksOk(Act(s, Delete))
  {
    hide LinkOk;
    var s' := Act(s, Delete);
    forall i | 0 <= i < |s'.spine| && s'.spine[i] in s'.memory ensures LinkOk(s', i) {
      LinkStands(s, s', i, i);
    }
  }

  // Nor does any enqueuer hold the node that is deleted.
  lemma DeleteProducers<T>(s: State<T>)
    requires SpineOk(s) && ProducersOk(s) && ConsumerOk(s) && s.consumer.MustDelete?
    ensures ProducersOk(Act(s, Delete))
  {
    var s' := Act(s, Delete);
    forall u ensures ProducerOk(s', u) && s'.At(u) == s.At(u) {
      assert ProducerOk(s, u);
      if s.At(u).MustLink? {
        var i := PlaceOf(s, u);
        assert HasPlace(s', u, i);
      }
    }
  }

  lemma DeleteNoLeak<T>(s: State<T>)
    requires NoLeak(s) && s.consumer.MustDelete? && s.consumer.head in s.memory
    ensures NoLeak(Act(s, Delete))
  {
    var s' := Act(s, Delete);
    forall y | y in s'.memory && y !in s'.spine ensures exists u :: s'.At(u) == HoldsNode(y) {
      var u :| s.At(u) == HoldsNode(y);
      assert s'.At(u) == s.At(u);
    }
  }

  // ---- Every run ----

  lemma ActKeepsInv<T>(s: State<T>, a: Action<T>)
    requires Inv(s)
    ensures Inv(Act(s, a))
  {
    hide Inv;
    match a
    case Allocate(t, x, v) => if s.At(t).Resting? && x !in s.memory { AllocateKeepsInv(s, t, x, v); }
    case Exchange(t) => if s.At(t).HoldsNode? { ExchangeKeepsInv(s, t); }
    case Link(t) => if s.At(t).MustLink? { LinkKeepsInv(s, t); }
    case LoadHead => LoadKeepsInv(s, a);
    case LoadNext => LoadKeepsInv(s, a);
    case MoveValue(left) => if s.consumer.HasNext? { MoveKeepsInv(s, left); }
    case StoreHead => if s.consumer.HasMoved? { StoreHeadKeepsInv(s); }
    case Delete => if s.consumer.MustDelete? { DeleteKeepsInv(s); }
  }

  lemma InitInv<T>(sentinel: Address, value: T)
    ensures Inv(Init(sentinel, value))
  {
    var s := Init(sentinel, value);
    assert s.spine[0] == sentinel;
  }

  /** In every interleaving of any number of enqueuers and one dequeuer, with freed addresses
      reused at will: what was dequeued is a prefix of what was enqueued, in the order of the
      tail exchanges; no deleted node is ever accessed; an enqueuer's previous tail is not
      deleted before it is linked; and no node is lost. */
  lemma {:induction false} RunIsSafe<T>(sentinel: Address, value: T, run: seq<Action<T>>)
    ensures Inv(Run(Init(sentinel, value), run))
    ensures var r := Run(Init(sentinel, value), run);
            && !r.fault && r.delivered <= r.enqueued
            && (forall t :: r.At(t).MustLink? ==> r.At(t).prev in r.memory && r.At(t).node in r.memory)
    decreases |run|
  {
    hide Act, SpineOk, LinksOk, ProducersOk, ConsumerOk, NoLeak, Init;
    var s := Init(sentinel, value);
    if run == [] {
      InitInv(sentinel, value);
    } else {
      RunIsSafe(sentinel, value, run[..|run| - 1]);
      ActKeepsInv(Run(s, run[..|run| - 1]), run[|run| - 1]);
    }
    var r := Run(s, run);
    forall t | r.At(t).MustLink? ensures r.At(t).prev in r.memory && r.At(t).node in r.memory {
      LinkersNodes(r, t);
    }
  }

  lemma LinkersNodes<T>(s: State<T>, t: nat)
    requires SpineOk(s) && ProducersOk(s) && s.At(t).MustLink?
    ensures s.At(t).prev in s.memory && s.At(t).node in s.memory
  {
    assert ProducerOk(s, t);
    var i := PlaceOf(s, t);
    assert s.spine[i + 1] in s.memory;
  }

  /** A dequeue finds no next node exactly when every value enqueued has been delivered or the
      enqueuer that swapped the tail right behind the head has not linked its node yet. */
  lemma EmptyExactly<T>(s: State<T>)
    requires Inv(s) && s.consumer.HasHead?
    ensures s.consumer.head in s.memory
    ensures s.memory[s.consumer.head].next.None?
       <==> s.delivered == s.enqueued || exists t :: s.At(t).MustLink? && s.At(t).prev == s.head
  {
    hide NoLeak;
    assert LinkOk(s, 0);
    assert |s.delivered| == |s.enqueued| <==> |s.spine| == 1;
    if s.memory[s.head].next.None? && |s.spine| > 1 {
      var t :| s.At(t) == MustLink(s.spine[1], s.spine[0]);
    }
    forall t | s.At(t).MustLink? && s.At(t).prev == s.head ensures s.memory[s.head].next.None? {
      assert ProducerOk(s, t);
    }
  }

  /** With no enqueue in flight and none dequeued halfway, the nodes allocated are exactly
      those a walk from the head along the links visits, each once: what the destructor frees. */
  lemma DestructorFreesAll<T>(s: State<T>)
    requires Inv(s) && s.consumer.Ready? && forall t :: s.At(t).Resting?
    ensures forall x :: x in s.memory <==> x in s.spine
    ensures Walk(s.memory, s.head, |s.spine|) == s.spine
    ensures forall i, j :: 0 <= i < j < |s.spine| ==> s.spine[i] != s.spine[j]
  {
    hide ValuesOk, LinksOk, ProducersOk, SpineOk, NoLeak, Walk;
    WalkIsSpine(s, 0);
    OnlySpine(s);
    assert s.spine[0..] == s.spine;
  }

  lemma OnlySpine<T>(s: State<T>)
    requires SpineOk(s) && NoLeak(s) && s.consumer.Ready? && forall t :: s.At(t).Resting?
    ensures s.spine != [] && s.spine[0] == s.head && forall x :: x in s.memory <==> x in s.spine
    ensures forall i, j :: 0 <= i < j < |s.spine| ==> s.spine[i] != s.spine[j]
  {}

  // The destructor's loop: at most n nodes from `current` along the links.
  function Walk<T>(memory: map<Address, Node<T>>, current: Address, n: nat): seq<Address>
    decreases n
  {
    if n == 0 || current !in memory then []
    else match memory[current].next
         case None => [current]
         case Some(next) => [current] + Walk(memory, next, n - 1)
  }

  lemma {:induction false} WalkIsSpine<T>(s: State<T>, i: nat)
    requires SpineOk(s) && LinksOk(s) && (forall t :: s.At(t).Resting?) && i < |s.spine|
    ensures Walk(s.memory, s.spine[i], |s.spine| - i) == s.spine[i..]
    decreases |s.spine| - i
  {
    assert LinkOk(s, i);
    if i + 1 < |s.spine| {
      WalkIsSpine(s, i + 1);
    }
  }
}
