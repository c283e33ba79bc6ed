/** The broadcast buffer with one transmitter and one receiver, under every
    interleaving of their accesses to shared memory. */
module Broadcast {
  import opened Bits
  import opened Bytes
  import opened Records
  import opened RecordLayout

  // What the transmitter does next; `before` is the region when it began to store.
  datatype Transmitter =
    | Ready
    | HasTail(msg: Msg, tail: nat)
    | Storing(msg: Msg, tail: nat, pad: nat, stage: Stage)

  datatype Stage = AtPadding | AtBody | AtType | AtLength | AtTail

  datatype Receiver =
    | Waiting
    | Scanning(next: nat, tail: nat, count: nat)
    | HasLength(next: nat, tail: nat, count: nat, length: int)
    | Corrupt(next: nat)

  // `before`, `floor`, `sent`, `received` and `lapped` are history: the region and the
  // head value the current transmission started from, the messages published and
  // handled, and whether the receiver ever found itself lapped.
  datatype State = State(
    mem: seq<byte>, head: nat, tail: nat, transmitter: Transmitter,
    receiver: Receiver, cursor: nat,
    before: seq<byte>, floor: nat, sent: seq<Msg>, received: seq<Msg>, lapped: bool)

  datatype Action = Begin(msg: Msg) | Transmit | Receive

  function Init(capacity: nat): State {
    State(Zeros(capacity), 0, 0, Ready, Waiting, 0, Zeros(capacity), 0, [], [], false)
  }

  predicate Sendable(m: Msg) {
    ValidMsg(m) && RecordLength(m) < TWO_31 - 8
  }

  // ---- Steps ----

  function Act(s: State, a: Action): (s': State)
    requires |s.mem| > 0
    ensures |s'.mem| == |s.mem|
  {
    match a
    case Begin(msg) =>
      if s.transmitter.Ready? && Sendable(msg) then s.(transmitter := HasTail(msg, s.tail)) else s
    case Transmit => TransmitStep(s)
    case Receive => ReceiveStep(s)
  }

  /** After the head load the space check decides; then the stores of
      `put_padding_record` and `put_record`; the tail counter last. */
  function TransmitStep(s: State): (s': State)
    requires |s.mem| > 0
    ensures |s'.mem| == |s.mem|
  {
    match s.transmitter
    case Ready => s
    case HasTail(msg, tail) =>
      var pad := Padding(|s.mem|, tail, msg);
      if pad + Required(msg) > |s.mem| - (tail - s.head) then s.(transmitter := Ready)
      else s.(transmitter := Storing(msg, tail, pad, if pad > 0 then AtPadding else AtBody),
              before := s.mem, floor := s.head)
    case Storing(msg, tail, pad, stage) =>
      var tailIndex := Ix(tail, |s.mem|);
      var i := if pad > 0 then 0 else tailIndex;
      (match stage
       case AtPadding =>
         s.(mem := StoreI32(s.mem, tailIndex, -(pad as int)), transmitter := Storing(msg, tail, pad, AtBody))
       case AtBody => s.(mem := Store(s.mem, i + 8, msg.body), transmitter := Storing(msg, tail, pad, AtType))
       case AtType => s.(mem := StoreI32(s.mem, i + 4, msg.typeId), transmitter := Storing(msg, tail, pad, AtLength))
       case AtLength => s.(mem := StoreI32(s.mem, i, RecordLength(msg)), transmitter := Storing(msg, tail, pad, AtTail))
       case AtTail => s.(tail := tail + pad + Required(msg), transmitter := Ready, sent := s.sent + [msg]))
  }

  function ReceiveStep(s: State): (s': State)
    requires |s.mem| > 0
    ensures |s'.mem| == |s.mem|
  {
    match s.receiver
    case Waiting =>
      if s.tail - s.cursor > |s.mem|
      then s.(receiver := Scanning(s.tail - |s.mem|, s.tail, 0), lapped := true)
      else s.(receiver := Scanning(s.cursor, s.tail, 0))
    case Scanning(n, t, count) =>
      if n < t then s.(receiver := HasLength(n, t, count, Load(s.mem, Ix(n, |s.mem|))))
      else Finish(s, n, count)
    case HasLength(n, t, count, length) =>
      var i := Ix(n, |s.mem|);
      if length == 0 then Finish(s, n, count)
      else if length < 0 then s.(receiver := Scanning(n - i + |s.mem|, t, count))
      else if length > |s.mem| then s.(receiver := Corrupt(n))
      else s.(received := s.received + [MessageAt(s.mem, i, length)],
              receiver := Scanning(n + RoundUp(length + 4, 4), t, count + 1))
    case Corrupt(_) => s
  }

  function Finish(s: State, n: nat, count: nat): State {
    s.(cursor := n, head := if count > 0 then n else s.head, receiver := Waiting)
  }

  function Exec(s: State, run: seq<Action>): (s': State)
    requires |s.mem| > 0
    ensures |s'.mem| == |s.mem|
    decreases |run|
  {
    if run == [] then s else Exec(Act(s, run[0]), run[1..])
  }

  // ---- Invariant ----

  // Position the receiver has reached.
  function Reading(s: State): nat {
    match s.receiver
    case Waiting => s.cursor
    case Scanning(n, _, _) => n
    case HasLength(n, _, _, _) => n
    case Corrupt(n) => n
  }

  // The region each stage of a transmission finds.
  ghost function StageMemory(before: seq<byte>, msg: Msg, tail: nat, pad: nat, stage: Stage): seq<byte>
    requires CanStore(before, msg, tail, pad)
  {
    var padded, i := Padded(before, tail, pad), Ix(tail + pad, |before|);
    match stage
    case AtPadding => before
    case AtBody => padded
    case AtType => Splice(padded, i + 8, msg.body)
    case AtLength => Splice(Splice(padded, i + 8, msg.body), i + 4, EncI32(msg.typeId))
    case AtTail => Recorded(padded, i, msg)
  }

  ghost predicate CanStore(mem: seq<byte>, msg: Msg, tail: nat, pad: nat) {
    && 0 < |mem| < TWO_31 && |mem| % 4 == 0 && tail % 4 == 0 && ValidMsg(msg)
    && pad == Padding(|mem|, tail, msg) && pad <= |mem| && Ix(tail, |mem|) + 4 <= |mem|
    && Ix(tail + pad, |mem|) == (if pad > 0 then 0 else Ix(tail, |mem|))
    && Ix(tail + pad, |mem|) + Required(msg) <= |mem|
  }

  // The region up to the tail, as it was when the transmission in progress began.
  ghost function Base(s: State): seq<byte> {
    if s.transmitter.Storing? then s.before else s.mem
  }

  ghost predicate TransmitterOk(s: State) {
    match s.transmitter
    case Ready => true
    case HasTail(msg, tail) => Sendable(msg) && tail == s.tail
    case Storing(msg, tail, pad, stage) =>
      && tail == s.tail && Sendable(msg) && CanStore(s.before, msg, tail, pad)
      && s.floor <= s.head && tail + pad + Required(msg) <= s.floor + |s.mem|
      && (stage == AtPadding ==> pad > 0)
      && |s.before| == |s.mem| && s.mem == StageMemory(s.before, msg, tail, pad, stage)
  }

  ghost predicate Bounds(s: State) {
    && IsPowerOfTwo(|s.mem|) && |s.mem| < TWO_31
    && s.tail % 4 == 0 && Reading(s) % 4 == 0
    && s.head <= Reading(s) <= s.tail <= s.head + |s.mem|
    && !s.lapped
  }

  ghost predicate ReceiverOk(s: State) {
    && |s.mem| > 0 && |s.received| <= |s.sent| && s.sent[..|s.received|] == s.received
    && match s.receiver
       case Waiting => Unread(s)
       case Scanning(n, t, count) => t <= s.tail && Unread(s)
       case HasLength(n, t, count, length) =>
         n < t <= s.tail && Unread(s) && length == WordAt(Base(s), n)
       case Corrupt(_) => false
  }

  // The messages published and not yet handled lie at the receiver's position, which
  // may be past the padding record of the first.
  ghost predicate Unread(s: State)
    requires |s.received| <= |s.sent|
  {
    var rest := s.sent[|s.received|..];
    Pending(Base(s), Reading(s), s.tail, rest, false) || Pending(Base(s), Reading(s), s.tail, rest, true)
  }

  ghost predicate Inv(s: State) {
    Bounds(s) && TransmitterOk(s) && ReceiverOk(s)
  }
}
