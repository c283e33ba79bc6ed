/** Losslessness of the broadcast buffer for one receiver, over every run. */
module BroadcastSafety {
  import opened Bits
  import opened Bytes
  import opened Records
  import opened RecordLayout
  import opened Broadcast

  // ---- The transmitter ----

  // A stage of a transmission leaves everything below the tail as it was.
  lemma StageAgrees(before: seq<byte>, msg: Msg, tail: nat, pad: nat, stage: Stage, floor: nat)
    requires CanStore(before, msg, tail, pad)
    requires floor <= tail && tail + pad + Required(msg) <= floor + |before|
    ensures Agree(before, StageMemory(before, msg, tail, pad, stage), floor, tail)
    ensures |StageMemory(before, msg, tail, pad, stage)| == |before|
  {
    hide Ix, At, EncI32, Splice, Padded, Required;
    var hi := tail + pad + Required(msg);
    var padded, p := Padded(before, tail, pad), tail + pad;
    PaddedAt(before, floor, tail, pad, hi);
    IndexStep(p, 8, |before|);
    IndexStep(p, 4, |before|);
    StoreAt(padded, p + 8, msg.body, floor, hi);
    var copied := Splice(padded, Ix(p, |before|) + 8, msg.body);
    StoreAt(copied, p + 4, EncI32(msg.typeId), floor, hi);
    StoreAt(Splice(copied, Ix(p, |before|) + 4, EncI32(msg.typeId)), p, EncI32(RecordLength(msg)), floor, hi);
  }

  lemma BaseAgrees(s: State)
    requires Bounds(s) && TransmitterOk(s)
    ensures Agree(Base(s), s.mem, Reading(s), s.tail) && |Base(s)| == |s.mem|
  {
    hide Ix, At, StageMemory, CanStore, Required;
    match s.transmitter {
      case Storing(msg, tail, pad, stage) => StageAgrees(s.before, msg, tail, pad, stage, s.floor);
      case _ =>
    }
  }

  lemma StartStoring(s: State, msg: Msg)
    requires IsPowerOfTwo(|s.mem|) && |s.mem| < TWO_31 && s.tail % 4 == 0 && s.head <= s.tail && ValidMsg(msg)
    requires Claimed(|s.mem|, s.tail, msg) <= |s.mem| - (s.tail - s.head)
    ensures CanStore(s.mem, msg, s.tail, Padding(|s.mem|, s.tail, msg))
  {
    hide Ix, IsPowerOfTwo, ValidMsg;
    PowerOfTwoDivisible(|s.mem|);
    Placement(|s.mem|, s.tail, msg);
  }

  // Each store turns the region of its stage into that of the next.
  lemma StorePadding(before: seq<byte>, msg: Msg, tail: nat, pad: nat)
    requires CanStore(before, msg, tail, pad)
    ensures StageMemory(before, msg, tail, pad, AtPadding) == before
    ensures pad == 0 ==> StageMemory(before, msg, tail, pad, AtBody) == before
    ensures pad > 0 ==>
      StoreI32(before, Ix(tail, |before|), -(pad as int)) == StageMemory(before, msg, tail, pad, AtBody)
  {
    hide Ix, EncI32, Splice, Required;
  }

  lemma StoreBody(before: seq<byte>, msg: Msg, tail: nat, pad: nat)
    requires CanStore(before, msg, tail, pad)
    ensures var i := if pad > 0 then 0 else Ix(tail, |before|);
      Store(StageMemory(before, msg, tail, pad, AtBody), i + 8, msg.body) == StageMemory(before, msg, tail, pad, AtType)
  {
    hide Ix, EncI32, Splice, Padded, Required;
  }

  lemma StoreType(before: seq<byte>, msg: Msg, tail: nat, pad: nat)
    requires CanStore(before, msg, tail, pad)
    ensures var i := if pad > 0 then 0 else Ix(tail, |before|);
      StoreI32(StageMemory(before, msg, tail, pad, AtType), i + 4, msg.typeId) ==
          StageMemory(before, msg, tail, pad, AtLength)
  {
    hide Ix, EncI32, Splice, Padded, CanStore, RecordLength;
    LengthFits(before, msg, tail, pad);
  }

  lemma StoreLength(before: seq<byte>, msg: Msg, tail: nat, pad: nat)
    requires CanStore(before, msg, tail, pad)
    ensures var i := if pad > 0 then 0 else Ix(tail, |before|);
      StoreI32(StageMemory(before, msg, tail, pad, AtLength), i, RecordLength(msg)) ==
          StageMemory(before, msg, tail, pad, AtTail)
  {
    hide Ix, EncI32, Splice, Padded, CanStore, RecordLength;
    LengthFits(before, msg, tail, pad);
  }

  lemma LengthFits(before: seq<byte>, msg: Msg, tail: nat, pad: nat)
    requires CanStore(before, msg, tail, pad)
    ensures |before| > 0 && Ix(tail + pad, |before|) == (if pad > 0 then 0 else Ix(tail, |before|))
    ensures IsI32(RecordLength(msg)) && Ix(tail + pad, |before|) + 8 <= |before| == |Padded(before, tail, pad)|
    ensures IsI32(msg.typeId) && Ix(tail + pad, |before|) + 8 + |msg.body| <= |before|
  {
    hide Ix, EncI32, Splice;
  }

  lemma StoreStep(s: State)
    requires Inv(s) && s.transmitter.Storing? && s.transmitter.stage != AtTail
    ensures Inv(TransmitStep(s))
  {
    hide Ix, IsPowerOfTwo, StageMemory, StoreI32, Store, CanStore, Pending, Required, WordAt;
    var Storing(msg, tail, pad, stage) := s.transmitter;
    StorePadding(s.before, msg, tail, pad);
    StoreBody(s.before, msg, tail, pad);
    StoreType(s.before, msg, tail, pad);
    StoreLength(s.before, msg, tail, pad);
    StagesKeepLength(s.before, msg, tail, pad);
  }

  lemma StagesKeepLength(before: seq<byte>, msg: Msg, tail: nat, pad: nat)
    requires CanStore(before, msg, tail, pad)
    ensures forall stage :: |StageMemory(before, msg, tail, pad, stage)| == |before|
  {
    hide Ix, EncI32, Splice;
  }

  lemma SpaceStep(s: State)
    requires Inv(s) && s.transmitter.HasTail?
    ensures Inv(TransmitStep(s))
  {
    hide Ix, StageMemory, CanStore, Pending, Required, WordAt, Padding;
    var HasTail(msg, tail) := s.transmitter;
    var pad := Padding(|s.mem|, tail, msg);
    if pad + Required(msg) <= |s.mem| - (tail - s.head) {
      StartStoring(s, msg);
      StorePadding(s.mem, msg, tail, pad);
    }
  }

  lemma PublishStep(s: State)
    requires Inv(s) && s.transmitter.Storing? && s.transmitter.stage == AtTail
    ensures Inv(TransmitStep(s))
  {
    hide Ix, IsPowerOfTwo, Pending, Required, WordAt, Padding, Recorded, Padded, At, Stored;
    var Storing(msg, tail, pad, _) := s.transmitter;
    var s', rest := TransmitStep(s), s.sent[|s.received|..];
    assert s.mem == Stored(s.before, tail, msg) by { StoredStage(s.before, msg, tail, pad); }
    assert s'.sent[|s.received|..] == rest + [msg];
    assert s'.sent[..|s.received|] == s.received;
    forall gone | Pending(s.before, Reading(s), s.tail, rest, gone)
      ensures Pending(s.mem, Reading(s), s'.tail, rest + [msg], gone) && s'.tail % 4 == 0
    {
      PendingExtends(s.before, s.floor, Reading(s), s.tail, rest, gone, msg);
    }
    BaseAgrees(s);
    if s.receiver.HasLength? {
      UnreadRoom(s);
      SameWord(s.before, s.mem, Reading(s));
    }
  }

  lemma StoredStage(before: seq<byte>, msg: Msg, tail: nat, pad: nat)
    requires CanStore(before, msg, tail, pad)
    ensures StageMemory(before, msg, tail, pad, AtTail) == Stored(before, tail, msg)
  {}

  // A record that is pending takes at least its header.
  lemma UnreadRoom(s: State)
    requires Inv(s) && Reading(s) < s.tail
    ensures Reading(s) + 4 <= s.tail && s.sent[|s.received|..] != []
    ensures |s.mem| % 4 == 0 && Ix(Reading(s), |s.mem|) + 4 <= |s.mem|
  {
    hide Ix, WordAt, Pending, IsPowerOfTwo, StageMemory, CanStore;
    CapacityAligned(s);
    BaseAgrees(s);
    var rest := s.sent[|s.received|..];
    forall gone | Pending(Base(s), Reading(s), s.tail, rest, gone)
      ensures rest != [] && |s.mem| % 4 == 0
    {
      PendingFits(Base(s), Reading(s), s.tail, rest, gone);
    }
    IndexAligned(Reading(s), |s.mem|);
    RoomFor4(Reading(s), s.tail);
  }

  lemma RoomFor4(a: nat, b: nat)
    requires a % 4 == 0 && b % 4 == 0 && a < b
    ensures a + 4 <= b
  {}

  lemma CapacityAligned(s: State)
    requires Bounds(s)
    ensures |s.mem| > 0 && (|s.mem| >= 4 ==> |s.mem| % 4 == 0)
  {
    if |s.mem| >= 4 { PowerOfTwoDivisible(|s.mem|); }
  }

  // ---- The receiver ----

  /** The lapped branch is never taken and the pass starts at the receiver's cursor. */
  lemma WaitStep(s: State)
    requires Inv(s) && s.receiver.Waiting?
    ensures Inv(ReceiveStep(s)) && !ReceiveStep(s).lapped
  {
    hide Pending, WordAt, StageMemory, CanStore;
  }

  lemma FinishStep(s: State, n: nat, count: nat)
    requires Inv(s) && n == Reading(s) && !s.receiver.Corrupt?
    ensures Inv(Finish(s, n, count))
  {
    hide Pending, WordAt, StageMemory, CanStore, IsPowerOfTwo;
  }

  lemma LoadStep(s: State)
    requires Inv(s) && s.receiver.Scanning? && Reading(s) < s.receiver.tail
    ensures Inv(ReceiveStep(s))
  {
    hide Pending, StageMemory, CanStore, IsPowerOfTwo, Ix, At, WordAt;
    UnreadRoom(s);
    BaseAgrees(s);
    SameWord(Base(s), s.mem, Reading(s));
    WordIsIndexed(s.mem, Reading(s));
  }

  /** A length word leads the receiver over padding, or to the next message. */
  lemma LengthStep(s: State)
    requires Inv(s) && s.receiver.HasLength?
    ensures Inv(ReceiveStep(s))
  {
    hide Pending, Inv, TransmitStep, ReceiveStep;
    LengthUnread(s);
    var rest := s.sent[|s.received|..];
    if Pending(Base(s), Reading(s), s.tail, rest, false) {
      LengthCase(s, false);
    } else {
      LengthCase(s, true);
    }
  }

  lemma LengthUnread(s: State)
    requires Inv(s) && s.receiver.HasLength?
    ensures |s.received| <= |s.sent| && Unread(s)
  {}

  lemma LengthCase(s: State, gone: bool)
    requires Inv(s) && s.receiver.HasLength? && |s.received| <= |s.sent|
    requires Pending(Base(s), Reading(s), s.tail, s.sent[|s.received|..], gone)
    ensures Inv(ReceiveStep(s))
  {
    hide Inv, Pending, AtPad;
    MemoryThere(s);
    if AtPad(Base(s), Reading(s), s.sent[|s.received|..], gone) {
      PaddingCase(s, gone);
    } else {
      MessageCase(s, gone);
    }
  }

  lemma MemoryThere(s: State)
    requires Inv(s)
    ensures |Base(s)| > 0
  {
    hide Pending, StageMemory, CanStore;
  }

  lemma PaddingCase(s: State, gone: bool)
    requires Inv(s) && s.receiver.HasLength? && |s.received| <= |s.sent|
    requires Pending(Base(s), Reading(s), s.tail, s.sent[|s.received|..], gone)
    requires |Base(s)| > 0 && AtPad(Base(s), Reading(s), s.sent[|s.received|..], gone)
    ensures Inv(ReceiveStep(s))
  {
    hide Pending, StageMemory, CanStore, IsPowerOfTwo, Ix, At, WordAt, Required, Padding, AtPad, I32At;
    var base, n, rest := Base(s), Reading(s), s.sent[|s.received|..];
    UnreadRoom(s);
    BaseAgrees(s);
    SameWord(base, s.mem, n);
    WordIsIndexed(s.mem, n);
    PendingFrame(base, s.mem, n, s.tail, rest, gone);
    PendingFirst(s.mem, n, s.tail, rest, gone);
    SamePadding(base, s.mem, n, rest, gone);
    PendingSkip(base, n, s.tail, rest, gone);
  }

  lemma MessageCase(s: State, gone: bool)
    requires Inv(s) && s.receiver.HasLength? && |s.received| <= |s.sent|
    requires Pending(Base(s), Reading(s), s.tail, s.sent[|s.received|..], gone)
    requires |Base(s)| > 0 && !AtPad(Base(s), Reading(s), s.sent[|s.received|..], gone)
    ensures Inv(ReceiveStep(s))
  {
    hide Pending, StageMemory, CanStore, IsPowerOfTwo, Ix, At, WordAt, Required, Padding, AtPad, I32At;
    var base, n, rest := Base(s), Reading(s), s.sent[|s.received|..];
    UnreadRoom(s);
    BaseAgrees(s);
    SameWord(base, s.mem, n);
    WordIsIndexed(s.mem, n);
    PendingFrame(base, s.mem, n, s.tail, rest, gone);
    PendingFirst(s.mem, n, s.tail, rest, gone);
    SamePadding(base, s.mem, n, rest, gone);
    PendingNext(base, n, s.tail, rest, gone);
    TakeMessage(s, rest);
  }

  lemma SamePadding(mem: seq<byte>, mem': seq<byte>, pos: nat, msgs: seq<Msg>, padGone: bool)
    requires |mem| == |mem'| > 0
    ensures AtPad(mem, pos, msgs, padGone) == AtPad(mem', pos, msgs, padGone)
  {}

  lemma TakeMessage(s: State, rest: seq<Msg>)
    requires |s.received| < |s.sent| && s.sent[..|s.received|] == s.received && rest == s.sent[|s.received|..]
    ensures rest[0] == s.sent[|s.received|]
    ensures s.sent[..|s.received| + 1] == s.received + [rest[0]]
    ensures s.sent[|s.received| + 1..] == rest[1..]
  {}

  // ---- Every run ----

  lemma ReceiveKeepsInv(s: State)
    requires Inv(s)
    ensures |s.mem| > 0 && Inv(ReceiveStep(s))
  {
    hide Pending, StageMemory, CanStore;
    match s.receiver {
      case Waiting => WaitStep(s);
      case Scanning(n, t, count) => if n < t { LoadStep(s); } else { FinishStep(s, n, count); }
      case HasLength(_, _, _, _) => LengthStep(s);
      case Corrupt(_) =>
    }
  }

  lemma TransmitKeepsInv(s: State)
    requires Inv(s)
    ensures |s.mem| > 0 && Inv(TransmitStep(s))
  {
    hide Pending, StageMemory, CanStore;
    match s.transmitter {
      case Ready =>
      case HasTail(_, _) => SpaceStep(s);
      case Storing(_, _, _, stage) => if stage == AtTail { PublishStep(s); } else { StoreStep(s); }
    }
  }

  lemma ActKeepsInv(s: State, a: Action)
    requires Inv(s)
    ensures |s.mem| > 0 && Inv(Act(s, a))
  {
    hide Pending, StageMemory, CanStore, TransmitStep, ReceiveStep;
    match a {
      case Begin(_) =>
      case Transmit => TransmitKeepsInv(s);
      case Receive => ReceiveKeepsInv(s);
    }
  }

  lemma {:induction false} RunKeepsInv(s: State, run: seq<Action>)
    requires Inv(s) && |s.mem| > 0
    ensures Inv(Exec(s, run))
    decreases |run|
  {
    hide Inv, Act;
    if run != [] {
      ActKeepsInv(s, run[0]);
      RunKeepsInv(Act(s, run[0]), run[1..]);
    }
  }

  lemma InitInv(capacity: nat)
    requires IsPowerOfTwo(capacity) && capacity < TWO_31
    ensures Inv(Init(capacity))
  {
    assert Holds(Zeros(capacity), 0, 0, []);
  }

  /** Over every run, with messages of any size: the receiver is never lapped and sees
      no corrupt record, and what it handed on is a prefix of what was transmitted. */
  lemma BroadcastIsLossless(capacity: nat, run: seq<Action>)
    requires IsPowerOfTwo(capacity) && capacity < TWO_31
    ensures var s := Exec(Init(capacity), run);
      && s.received <= s.sent
      && !s.lapped && !s.receiver.Corrupt?
      && s.head <= Reading(s) <= s.tail <= s.head + capacity
  {
    InitInv(capacity);
    RunKeepsInv(Init(capacity), run);
  }

  /** No step of the transmitter stores a byte that the receiver has yet to read. */
  lemma TransmitterSparesUnread(s: State)
    requires Inv(s)
    ensures |s.mem| > 0 && Agree(s.mem, TransmitStep(s).mem, Reading(s), s.tail)
  {
    hide Pending, StageMemory, CanStore, At;
    TransmitKeepsInv(s);
    BaseAgrees(s);
    BaseAgrees(TransmitStep(s));
    assert s.transmitter.HasTail? ==> TransmitStep(s).mem == s.mem;
  }

  /** A pass that ends at the tail has handed on every message transmitted. */
  lemma FullPassDeliversAll(s: State)
    requires Inv(s) && s.receiver.Scanning? && s.receiver.next >= s.receiver.tail == s.tail
    ensures s.received == s.sent
  {
    hide Pending, StageMemory, CanStore, IsPowerOfTwo;
    var rest := s.sent[|s.received|..];
    forall gone | Pending(Base(s), s.tail, s.tail, rest, gone) ensures rest == [] {
      PendingEnds(Base(s), s.tail, rest, gone);
    }
    assert s.sent == s.sent[..|s.received|] + rest;
  }
}
