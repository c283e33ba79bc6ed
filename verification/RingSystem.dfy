/** The many-to-one ring buffer under every interleaving of its producers and its
    consumer: one action is one access to shared memory. */
module RingSystem {
  import opened Bits
  import opened Bytes
  import opened Records

  // What a producer that has claimed its space still has to store, in order.
  datatype Stage = AtPadding | AtZeroing | AtCopy | AtType | AtLength

  datatype Producer =
    | Idle
    | Retrying(msg: Msg)
    | HasTail(msg: Msg, tail: nat)
    | HasHead(msg: Msg, tail: nat, head: nat)
    | Writing(claim: nat, stage: Stage)

  datatype Consumer =
    | Resting
    | HasOldHead(head: nat)
    | Scanning(head: nat, next: nat, tail: nat)
    | HasLength(head: nat, next: nat, tail: nat, length: int)
    | Handled(head: nat, next: nat, tail: nat, size: nat)
    | Corrupt(next: nat)

  // The space won by one successful compare-and-set of the tail.
  datatype Claim = Claim(owner: nat, msg: Msg, start: nat, pad: nat) {
    function Record(): nat { start + pad }
    function End(): nat { Record() + Required(msg) }
  }

  // `claims` (in the order of the tail updates) and `delivered` are history.
  datatype State = State(
    mem: seq<byte>, head: nat, tail: nat,
    producers: map<nat, Producer>, consumer: Consumer,
    claims: seq<Claim>, delivered: seq<Msg>)

  datatype Action = Begin(tid: nat, msg: Msg) | Produce(tid: nat) | Consume

  // ---- Steps ----

  function Init(capacity: nat, threads: set<nat>): State {
    State(Zeros(capacity), 0, 0, map t | t in threads :: Idle, Resting, [], [])
  }

  function MaxLength(capacity: nat): nat {
    capacity / 8
  }

  predicate Sendable(capacity: nat, m: Msg) {
    ValidMsg(m) && RecordLength(m) <= MaxLength(capacity)
  }

  function Act(s: State, a: Action): (s': State)
    requires |s.mem| > 0
    ensures |s'.mem| == |s.mem|
  {
    match a
    case Begin(t, msg) =>
      if t in s.producers && s.producers[t].Idle? && Sendable(|s.mem|, msg)
      then s.(producers := s.producers[t := HasTail(msg, s.tail)])
      else s
    case Produce(t) =>
      if t !in s.producers then s
      else (match s.producers[t]
            case Idle => s
            case Retrying(msg) => s.(producers := s.producers[t := HasTail(msg, s.tail)])
            case HasTail(msg, tail) => s.(producers := s.producers[t := HasHead(msg, tail, s.head)])
            case HasHead(msg, tail, head) => TryClaim(s, t, msg, tail, head)
            case Writing(k, stage) => if k < |s.claims| then WriteOn(s, t, k, stage) else s)
    case Consume => ConsumerStep(s)
  }

  /** The space check and the compare-and-set of the tail. */
  function TryClaim(s: State, t: nat, msg: Msg, tail: nat, head: nat): (s': State)
    requires |s.mem| > 0
    ensures |s'.mem| == |s.mem|
  {
    var available := |s.mem| - (tail - head);
    var pad := Padding(|s.mem|, tail, msg);
    if pad + Required(msg) > available then s.(producers := s.producers[t := Idle])
    else if s.tail != tail then s.(producers := s.producers[t := Retrying(msg)])
    else s.(tail := tail + pad + Required(msg),
            claims := s.claims + [Claim(t, msg, tail, pad)],
            producers := s.producers[t := Writing(|s.claims|, if pad > 0 then AtPadding else AtZeroing)])
  }

  function WriteOn(s: State, t: nat, k: nat, stage: Stage): (s': State)
    requires |s.mem| > 0 && k < |s.claims|
    ensures |s'.mem| == |s.mem|
  {
    s.(mem := StageStore(s.mem, s.claims[k], stage), producers := s.producers[t := AfterStage(k, stage)])
  }

  /** The stores of `put_padding_record` and `put_msg_header_and_body`, the
      length word last. */
  function StageStore(mem: seq<byte>, c: Claim, stage: Stage): (mem': seq<byte>)
    requires |mem| > 0
    ensures |mem'| == |mem|
  {
    var tailIndex := Ix(c.start, |mem|);
    var index := if c.pad > 0 then 0 else tailIndex;
    match stage
    case AtPadding => StoreI32(mem, tailIndex, -(c.pad as int))
    case AtZeroing => Store(mem, index + 8, Zeros(|c.msg.body|))
    case AtCopy => Store(mem, index + 8, c.msg.body)
    case AtType => StoreI32(mem, index + 4, c.msg.typeId)
    case AtLength => StoreI32(mem, index, RecordLength(c.msg))
  }

  function AfterStage(k: nat, stage: Stage): Producer {
    match stage
    case AtPadding => Writing(k, AtZeroing)
    case AtZeroing => Writing(k, AtCopy)
    case AtCopy => Writing(k, AtType)
    case AtType => Writing(k, AtLength)
    case AtLength => Idle
  }

  function ConsumerStep(s: State): (s': State)
    requires |s.mem| > 0
    ensures |s'.mem| == |s.mem|
  {
    match s.consumer
    case Resting => s.(consumer := HasOldHead(s.head))
    case HasOldHead(h) => s.(consumer := Scanning(h, h, s.tail))
    case Scanning(h, n, t) =>
      if n < t then s.(consumer := HasLength(h, n, t, Load(s.mem, Ix(n, |s.mem|))))
      else PublishHead(s, h, n)
    case HasLength(h, n, t, length) =>
      var i := Ix(n, |s.mem|);
      if length == 0 then PublishHead(s, h, n)
      else if length < 0 then
        s.(mem := Store(s.mem, i, EncI32(0)), consumer := Scanning(h, n - i + |s.mem|, t))
      else if length > MaxLength(|s.mem|) then s.(consumer := Corrupt(n))
      else
        s.(delivered := s.delivered + [MessageAt(s.mem, i, length)], consumer := Handled(h, n, t, length))
    case Handled(h, n, t, size) =>
      s.(mem := Store(s.mem, Ix(n, |s.mem|), EncI32(0)), consumer := Scanning(h, n + RoundUp(size + 4, 4), t))
    case Corrupt(_) => s
  }

  function PublishHead(s: State, oldHead: nat, next: nat): State {
    s.(head := if next != oldHead then next else s.head, consumer := Resting)
  }

  function Exec(s: State, run: seq<Action>): (s': State)
    requires |s.mem| > 0
    ensures |s'.mem| == |s.mem|
    decreases |run|
  {
    if run == [] then s else Exec(Act(s, run[0]), run[1..])
  }

  // ---- Invariant ----

  ghost predicate ClaimShape(capacity: nat, c: Claim) {
    && Sendable(capacity, c.msg)
    && c.start % 4 == 0
    && capacity > 0 && c.pad == Padding(capacity, c.start, c.msg)
  }

  function Edge(claims: seq<Claim>, i: nat): nat
    requires i <= |claims|
  {
    if i == 0 then 0 else claims[i - 1].End()
  }

  ghost predicate Chain(capacity: nat, claims: seq<Claim>) {
    && (forall i :: 0 <= i < |claims| ==> ClaimShape(capacity, claims[i]))
    && (|claims| > 0 ==> claims[0].start == 0)
    && (forall i, j :: 0 <= i < j < |claims| ==>
          claims[i].End() <= claims[j].start && (j == i + 1 ==> claims[i].End() == claims[j].start))
  }

  function Messages(claims: seq<Claim>): (ms: seq<Msg>)
    ensures |ms| == |claims| && forall i :: 0 <= i < |claims| ==> ms[i] == claims[i].msg
  {
    seq(|claims|, i requires 0 <= i < |claims| => claims[i].msg)
  }

  // Position the consumer has reached; number of claims it is done with.
  function Next(s: State): nat {
    match s.consumer
    case Resting => s.head
    case HasOldHead(h) => h
    case Scanning(_, n, _) => n
    case HasLength(_, n, _, _) => n
    case Handled(_, n, _, _) => n
    case Corrupt(n) => n
  }

  function Consumed(s: State): int {
    |s.delivered| - if s.consumer.Handled? then 1 else 0
  }

  datatype Progress = Pending(stage: Stage) | Published

  function ProgressOf(s: State, i: nat): Progress
    requires i < |s.claims|
  {
    var t := s.claims[i].owner;
    if t in s.producers && s.producers[t].Writing? && s.producers[t].claim == i
    then Pending(s.producers[t].stage) else Published
  }

  ghost predicate AtOrPast(p: Progress, stage: Stage) {
    p.Published? || Rank(p.stage) >= Rank(stage)
  }

  ghost function Rank(stage: Stage): nat {
    match stage case AtPadding => 0 case AtZeroing => 1 case AtCopy => 2 case AtType => 3 case AtLength => 4
  }

  /** What memory holds of a claim the consumer is not done with. */
  ghost predicate ClaimMemory(mem: seq<byte>, c: Claim, padGone: bool, p: Progress)
    requires |mem| > 0
  {
    && (c.pad > 0 && !padGone ==> WordAt(mem, c.start) == if p == Pending(AtPadding) then 0 else -(c.pad as int))
    && (padGone ==> p != Pending(AtPadding))
    && WordAt(mem, c.Record()) == (if p.Published? then RecordLength(c.msg) else 0)
    && (AtOrPast(p, AtType) ==> BodyAt(mem, c.Record() + 8, c.msg.body))
    && (AtOrPast(p, AtLength) ==> WordAt(mem, c.Record() + 4) == c.msg.typeId)
  }

  ghost predicate PadGone(s: State, i: nat)
    requires i < |s.claims|
  {
    Next(s) > s.claims[i].start
  }

  ghost predicate Layout(s: State) {
    && IsPowerOfTwo(|s.mem|) && |s.mem| < TWO_31
    && Chain(|s.mem|, s.claims)
    && s.tail == Edge(s.claims, |s.claims|)
    && s.head <= Next(s) <= s.tail <= s.head + |s.mem|
  }

  ghost predicate ConsumerOk(s: State) {
    var c := Consumed(s);
    && 0 <= c <= |s.delivered| <= |s.claims|
    && s.delivered == Messages(s.claims[..|s.delivered|])
    && (Next(s) == Edge(s.claims, c) || (c < |s.claims| && Next(s) == s.claims[c].Record()))
    && (match s.consumer
        case Resting => true
        case HasOldHead(h) => h == s.head
        case Scanning(h, n, t) => h == s.head && t <= s.tail
        case HasLength(h, n, t, length) => h == s.head && n < t <= s.tail && LengthOk(s, length)
        case Handled(h, n, t, size) => h == s.head && n < t <= s.tail && size > 0 && LengthOk(s, size)
        case Corrupt(_) => false)
  }

  /** A length word the consumer has loaded is zero, or that of a padding record
      already stored, or that of the published record it has reached. */
  ghost predicate LengthOk(s: State, length: int) {
    var c := Consumed(s);
    0 <= c < |s.claims| &&
    var claim, p := s.claims[c], ProgressOf(s, c);
    || length == 0
    || (claim.pad > 0 && Next(s) == claim.start && length == -(claim.pad as int) && p != Pending(AtPadding))
    || (Next(s) == claim.Record() && length == RecordLength(claim.msg) && p.Published?)
  }

  ghost predicate ProducerOk(s: State, t: nat)
    requires t in s.producers
  {
    match s.producers[t]
    case Idle => true
    case Retrying(msg) => Sendable(|s.mem|, msg)
    case HasTail(msg, tail) => Sendable(|s.mem|, msg) && tail <= s.tail
    case HasHead(msg, tail, head) => Sendable(|s.mem|, msg) && tail <= s.tail && head <= s.head
    case Writing(k, stage) =>
      && Consumed(s) <= k < |s.claims| && s.claims[k].owner == t
      && (stage == AtPadding ==> s.claims[k].pad > 0)
  }

  ghost predicate ProducersOk(s: State) {
    forall t :: t in s.producers ==> ProducerOk(s, t)
  }

  ghost predicate MemoryOk(s: State)
    requires |s.mem| > 0
  {
    forall i :: 0 <= Consumed(s) <= i < |s.claims| ==>
      ClaimMemory(s.mem, s.claims[i], PadGone(s, i), ProgressOf(s, i))
  }

  ghost predicate Inv(s: State) {
    && Layout(s)
    && ConsumerOk(s)
    && ProducersOk(s)
    && MemoryOk(s)
  }
}
