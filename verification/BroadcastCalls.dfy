/** Whole calls of the interleaved broadcast buffer: when a transmission is refused, and what a
    receiving pass hands on and publishes. */
module BroadcastCalls {
  import opened Bits
  import opened Bytes
  import opened Records
  import opened RecordLayout
  import opened Broadcast
  import opened BroadcastSafety

  /** The claim for `msg` at the tail, wrap padding included, exceeds the free space. */
  predicate Exceeds(s: State, msg: Msg)
    requires |s.mem| > 0
  {
    Padding(|s.mem|, s.tail, msg) + Required(msg) > |s.mem| - (s.tail - s.head)
  }

  /** At the moment it looks, wherever the receiver stands in its pass, a transmission is refused
      exactly when its claim exceeds the space that the receiver has published as free. */
  lemma RefusedExactly(s: State)
    requires Inv(s) && s.transmitter.HasTail?
    ensures |s.mem| > 0
    ensures var s' := Act(s, Transmit);
            && (s'.transmitter.Ready? <==> Exceeds(s, s.transmitter.msg))
            && (s'.transmitter.Storing? <==> !Exceeds(s, s.transmitter.msg))
            && s'.mem == s.mem && s'.tail == s.tail && s'.sent == s.sent && s'.head == s.head
            && s'.receiver == s.receiver
  {
    hide Padding, Required, StageMemory, Pending, IsPowerOfTwo, CanStore;
    CapacityAligned(s);
  }

  // ---- Transmitting alone ----

  function Transmits(n: nat): (run: seq<Action>)
    ensures |run| == n && forall i :: 0 <= i < n ==> run[i] == Transmit
  {
    seq(n, _ => Transmit)
  }

  lemma TransmitsOne(s: State, n: nat)
    requires |s.mem| > 0
    ensures Exec(s, Transmits(n + 1)) == Exec(TransmitStep(s), Transmits(n))
    ensures Exec(s, Transmits(0)) == s
  {
    hide TransmitStep;
    assert Transmits(n + 1)[1..] == Transmits(n);
  }

  function StoresLeft(stage: Stage): nat {
    match stage case AtPadding => 5 case AtBody => 4 case AtType => 3 case AtLength => 2 case AtTail => 1
  }

  lemma {:induction false} StoresEnd(s: State) returns (n: nat)
    requires Inv(s) && s.transmitter.Storing?
    ensures |s.mem| > 0 && n == StoresLeft(s.transmitter.stage)
    ensures var r, msg := Exec(s, Transmits(n)), s.transmitter.msg;
            && Inv(r) && r.transmitter.Ready? && r.sent == s.sent + [msg]
            && r.tail == s.tail + Padding(|s.mem|, s.tail, msg) + Required(msg) && SameReceiver(s, r)
    decreases StoresLeft(s.transmitter.stage)
  {
    hide Inv, Exec, Transmits, TransmitStep, Padding, Required;
    TransmitKeepsInv(s);
    StoringFacts(s);
    var s' := TransmitStep(s);
    if s.transmitter.stage == AtTail {
      n := 1;
      TransmitsOne(s, 0);
      TransmitsOne(s', 0);
    } else {
      var k := StoresEnd(s');
      TransmitsOne(s, k);
      n := k + 1;
    }
  }

  predicate SameReceiver(s: State, r: State) {
    && |r.mem| == |s.mem| && r.head == s.head
    && r.receiver == s.receiver && r.cursor == s.cursor && r.received == s.received
  }

  lemma StoringFacts(s: State)
    requires Inv(s) && s.transmitter.Storing? && |s.mem| > 0
    ensures var Storing(msg, tail, pad, stage) := s.transmitter;
            var s' := TransmitStep(s);
            && SameReceiver(s, s')
            && if stage == AtTail then
                 s'.transmitter.Ready? && s'.sent == s.sent + [msg]
                 && s'.tail == s.tail + Padding(|s.mem|, s.tail, msg) + Required(msg)
               else
                 s'.transmitter.Storing? && s'.transmitter.msg == msg && s'.sent == s.sent && s'.tail == s.tail
                 && StoresLeft(s'.transmitter.stage) == StoresLeft(stage) - 1
  {
    hide Padding, Required, StageMemory, Pending, IsPowerOfTwo, Store, StoreI32, Ix;
  }

  /** A whole transmission alone: refused exactly when its claim exceeds the free space, and then
      without effect; otherwise the message is the newest sent and the tail counts it. */
  lemma TransmitAlone(s: State, msg: Msg) returns (n: nat)
    requires Inv(s) && s.transmitter.Ready? && Sendable(msg)
    ensures |s.mem| > 0
    ensures var r := Exec(s, [Begin(msg)] + Transmits(n));
            if Exceeds(s, msg) then r == s
            else Inv(r) && r.transmitter.Ready? && r.sent == s.sent + [msg] && SameReceiver(s, r)
                 && r.tail == s.tail + Padding(|s.mem|, s.tail, msg) + Required(msg)
  {
    hide Inv, Exec, Transmits, TransmitStep, Padding, Required, Sendable;
    ActKeepsInv(s, Begin(msg));
    var s1 := s.(transmitter := HasTail(msg, s.tail));
    Begins(s, msg);
    RefusedExactly(s1);
    TransmitKeepsInv(s1);
    var s2 := TransmitStep(s1);
    Looks(s1);
    if Exceeds(s, msg) {
      n := 1;
      TransmitsOne(s1, 0);
      TransmitsOne(s2, 0);
    } else {
      var k := StoresEnd(s2);
      TransmitsOne(s1, k);
      n := k + 1;
    }
    BeginsRun(s, msg, n);
  }

  lemma Begins(s: State, msg: Msg)
    requires |s.mem| > 0 && s.transmitter.Ready? && Sendable(msg)
    ensures Act(s, Begin(msg)) == s.(transmitter := HasTail(msg, s.tail))
  {}

  lemma BeginsRun(s: State, msg: Msg, n: nat)
    requires |s.mem| > 0
    ensures Exec(s, [Begin(msg)] + Transmits(n)) == Exec(Act(s, Begin(msg)), Transmits(n))
  {
    hide Act;
    assert ([Begin(msg)] + Transmits(n))[1..] == Transmits(n);
  }

  lemma Looks(s: State)
    requires |s.mem| > 0 && s.transmitter.HasTail? && s.transmitter.tail == s.tail
    ensures TransmitStep(s) == if Exceeds(s, s.transmitter.msg) then s.(transmitter := Ready)
                               else s.(transmitter := TransmitStep(s).transmitter, before := s.mem, floor := s.head)
    ensures !Exceeds(s, s.transmitter.msg) ==>
              TransmitStep(s).transmitter.Storing? && TransmitStep(s).transmitter.msg == s.transmitter.msg
  {
    hide Padding, Required;
  }

  // ---- Receiving ----

  function CountOf(receiver: Receiver): nat {
    match receiver
    case Scanning(_, _, count) => count
    case HasLength(_, _, count, _) => count
    case _ => 0
  }

  /** In every interleaving the pass counts exactly the messages it has handed on, and publishes
      the position it has reached at its end exactly when it has handed on some. */
  lemma PassPublishesIffHandedOn(s: State, a: Action)
    requires Inv(s)
    ensures |s.mem| > 0
    ensures var s' := Act(s, a);
            && s.received <= s'.received
            && (s.receiver.Waiting? && !s'.receiver.Waiting? ==> CountOf(s'.receiver) == 0)
            && (!s.receiver.Waiting? && !s'.receiver.Waiting? ==>
                  CountOf(s'.receiver) - CountOf(s.receiver) == |s'.received| - |s.received| && s'.head == s.head)
            && (!s.receiver.Waiting? && s'.receiver.Waiting? ==>
                  && s'.cursor == Reading(s) && s'.received == s.received
                  && s'.head == if CountOf(s.receiver) > 0 then Reading(s) else s.head)
  {
    hide Pending, IsPowerOfTwo, StageMemory, CanStore, TransmitStep, Load, MessageAt, Ix, RoundUp, WordAt;
    CapacityAligned(s);
    if a.Transmit? { TransmitterAside(s); }
    if a.Receive? { ReceiveKeepsInv(s); }
  }

  lemma TransmitterAside(s: State)
    requires |s.mem| > 0
    ensures var s' := TransmitStep(s);
            s'.receiver == s.receiver && s'.received == s.received && s'.head == s.head && s'.cursor == s.cursor
  {
    hide Padding, Required, Store, StoreI32, Ix;
  }

  function Receives(n: nat): (run: seq<Action>)
    ensures |run| == n && forall i :: 0 <= i < n ==> run[i] == Receive
  {
    seq(n, _ => Receive)
  }

  lemma ReceivesOne(s: State, n: nat)
    requires |s.mem| > 0
    ensures Exec(s, Receives(n + 1)) == Exec(ReceiveStep(s), Receives(n))
    ensures Exec(s, Receives(0)) == s
  {
    hide ReceiveStep;
    assert Receives(n + 1)[1..] == Receives(n);
  }

  // The length word of a record in front of the tail is never zero.
  lemma LengthThere(s: State)
    requires Inv(s) && s.receiver.HasLength?
    ensures s.receiver.length != 0
  {
    hide Pending, StageMemory, CanStore, IsPowerOfTwo, Ix, At, WordAt, Required, Padding, AtPad, I32At;
    UnreadRoom(s);
    BaseAgrees(s);
    var base, n, rest := Base(s), Reading(s), s.sent[|s.received|..];
    WordIsIndexed(base, n);
    forall gone | Pending(base, n, s.tail, rest, gone) ensures s.receiver.length != 0 {
      PendingFirst(base, n, s.tail, rest, gone);
    }
  }

  ghost function Rank(s: State): nat {
    if s.receiver.Scanning? then 1 else 0
  }

  // One step of a pass moves on, hands on at most one message and does not end in front of the tail.
  lemma PassStep(s: State)
    requires Inv(s) && (s.receiver.Scanning? || s.receiver.HasLength?) && s.receiver.tail == s.tail
    requires !(s.receiver.Scanning? && Reading(s) >= s.tail)
    ensures |s.mem| > 0
    ensures var s' := ReceiveStep(s);
            && (s'.receiver.Scanning? || s'.receiver.HasLength?) && s'.receiver.tail == s.tail == s'.tail
            && Reading(s) <= Reading(s') && (Reading(s) == Reading(s') ==> Rank(s') < Rank(s))
            && s'.sent == s.sent && s'.transmitter == s.transmitter
            && (CountOf(s'.receiver) > 0 <==> CountOf(s.receiver) > 0 || s'.received != s.received)
            && s.received <= s'.received && s'.head == s.head
  {
    hide Pending, IsPowerOfTwo, StageMemory, CanStore, Load, MessageAt, WordAt, Ix;
    CapacityAligned(s);
    if s.receiver.HasLength? { LengthThere(s); }
    ReceiveKeepsInv(s);
  }

  lemma {:induction false} PassEnds(s: State) returns (n: nat)
    requires Inv(s) && (s.receiver.Scanning? || s.receiver.HasLength?) && s.receiver.tail == s.tail
    ensures |s.mem| > 0
    ensures var r := Exec(s, Receives(n));
            && Inv(r) && r.receiver.Waiting? && r.received == r.sent == s.sent && r.cursor == r.tail == s.tail
            && r.head == if CountOf(s.receiver) > 0 || s.received != s.sent then s.tail else s.head
    decreases s.tail - Reading(s), Rank(s)
  {
    hide Inv, Exec, Receives, ReceiveStep;
    ReceiveKeepsInv(s);
    ReadingBelow(s);
    var s' := ReceiveStep(s);
    if s.receiver.Scanning? && Reading(s) >= s.tail {
      n := 1;
      ReceivesOne(s, 0);
      ReceivesOne(s', 0);
      FullPassDeliversAll(s);
      LastStep(s);
    } else {
      PassStep(s);
      ReadingBelow(s');
      var k := PassEnds(s');
      ReceivesOne(s, k);
      n := k + 1;
    }
  }

  lemma LastStep(s: State)
    requires |s.mem| > 0 && s.receiver.Scanning? && s.receiver.next >= s.receiver.tail
    ensures ReceiveStep(s) == Finish(s, s.receiver.next, s.receiver.count)
  {}

  lemma ReadingBelow(s: State)
    requires Inv(s)
    ensures Reading(s) <= s.tail && s.received <= s.sent
  {
    hide Pending, IsPowerOfTwo, StageMemory, CanStore, WordAt;
  }

  /** A whole receiving pass alone, wherever the transmitter stands in a transmission: it hands on
      everything sent and not yet received, in order, comes to the tail, and frees that space
      for the transmitter exactly when it handed on something. */
  lemma ReceiveAlone(s: State) returns (n: nat)
    requires Inv(s) && s.receiver.Waiting?
    ensures |s.mem| > 0
    ensures var r := Exec(s, Receives(n));
            && Inv(r) && r.receiver.Waiting? && r.received == r.sent == s.sent && r.cursor == r.tail == s.tail
            && r.head == if s.received != s.sent then s.tail else s.head
  {
    hide Inv, Exec, Receives, ReceiveStep;
    ReceiveKeepsInv(s);
    StartsAtCursor(s);
    var k := PassEnds(ReceiveStep(s));
    ReceivesOne(s, k);
    n := k + 1;
  }

  lemma StartsAtCursor(s: State)
    requires Inv(s) && s.receiver.Waiting? && |s.mem| > 0
    ensures ReceiveStep(s) == s.(receiver := Scanning(s.cursor, s.tail, 0))
  {
    hide Pending, IsPowerOfTwo, StageMemory, CanStore, WordAt;
  }
}
