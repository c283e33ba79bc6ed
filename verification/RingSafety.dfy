/** Safety of the ring buffer over every run. */
module RingSafety {
  import opened Bits
  import opened Bytes
  import opened Records
  import opened RingSystem

  // ---- Geometry of claims ----

  lemma Geometry(capacity: nat, c: Claim)
    requires IsPowerOfTwo(capacity) && ClaimShape(capacity, c)
    ensures capacity % 4 == 0
    ensures Placed(capacity, c) && c.End() % 4 == 0
  {
    PowerOfTwoDivisible(capacity);
    PlaceClaim(capacity, c);
  }

  // A claim's padding ends the region and its record fits.
  ghost predicate Placed(capacity: nat, c: Claim) {
    && capacity > 0
    && Ix(c.start, capacity) + 4 <= capacity
    && Ix(c.Record(), capacity) + Required(c.msg) <= capacity
    && Ix(c.Record(), capacity) == (if c.pad > 0 then 0 else Ix(c.start, capacity))
    && (c.pad > 0 ==> c.pad == capacity - Ix(c.start, capacity) >= 4)
    && 8 <= RecordLength(c.msg) <= MaxLength(capacity)
  }

  lemma PlaceClaim(capacity: nat, c: Claim)
    requires capacity % 4 == 0 && ClaimShape(capacity, c)
    ensures Placed(capacity, c) && c.End() % 4 == 0
  {
    var i, required := Ix(c.start, capacity), Required(c.msg);
    IndexAligned(c.start, capacity);
    IndexWrap(c.start, capacity);
    PlaceAligned(capacity, i, c.start, RecordLength(c.msg) + 4, c.pad, required);
  }

  lemma PlaceAligned(capacity: nat, i: nat, start: nat, need: nat, pad: nat, required: nat)
    requires capacity % 4 == 0 && i % 4 == 0 && start % 4 == 0 && required % 4 == 0
    requires i + 4 <= capacity && need <= required < need + 4
    requires pad == if capacity - i < need then capacity - i else 0
    ensures (start + pad) % 4 == 0 && (start + pad + required) % 4 == 0
    ensures pad == 0 ==> i + required <= capacity
  {}

  // Lowest position of claim i that the consumer still needs.
  ghost function Low(s: State, i: nat): nat
    requires i < |s.claims|
  {
    if PadGone(s, i) then s.claims[i].Record() else s.claims[i].start
  }

  // A live claim lies inside the lap of the region that starts at the head.
  lemma LiveWindow(s: State, i: nat)
    requires Layout(s) && ConsumerOk(s) && 0 <= Consumed(s) <= i < |s.claims|
    ensures s.head <= Next(s) <= Low(s, i) <= s.claims[i].Record() < s.claims[i].End() <= s.tail <= s.head + |s.mem|
    ensures PadGone(s, i) ==> i == Consumed(s) && Next(s) == s.claims[i].Record()
    ensures i > Consumed(s) ==> s.claims[Consumed(s)].End() <= s.claims[i].start
  {
    var c := Consumed(s);
    assert |s.claims| - 1 >= i >= c;
  }

  lemma Disjoint(s: State, i: nat, j: nat)
    requires Layout(s) && i < j < |s.claims|
    ensures s.claims[i].End() <= s.claims[j].start
  {}

  // ---- Framing of memory ----

  lemma MemoryFrame(mem: seq<byte>, mem': seq<byte>, c: Claim, padGone: bool, p: Progress, lo: nat)
    requires |mem| > 0 && ClaimMemory(mem, c, padGone, p)
    requires lo == if padGone then c.Record() else c.start
    requires Agree(mem, mem', lo, c.End())
    ensures ClaimMemory(mem', c, padGone, p)
  {
    WordFrame(mem, mem', c.Record(), lo, c.End());
    WordFrame(mem, mem', c.Record() + 4, lo, c.End());
    if !padGone && c.pad >= 4 {
      WordFrame(mem, mem', c.start, lo, c.End());
    }
  }

  lemma WordFrame(mem: seq<byte>, mem': seq<byte>, p: nat, lo: nat, hi: nat)
    requires Agree(mem, mem', lo, hi) && lo <= p && p + 4 <= hi
    ensures WordAt(mem', p) == WordAt(mem, p)
  {}

  // ---- One step at a time ----

  // A producer that is not writing changes only its own locals.
  lemma LocalStep(s: State, t: nat, p: Producer)
    requires Inv(s) && t in s.producers && !s.producers[t].Writing? && !p.Writing?
    requires ProducerOk(s.(producers := s.producers[t := p]), t)
    ensures Inv(s.(producers := s.producers[t := p]))
  {
    hide WordAt, ClaimMemory, IsPowerOfTwo, Chain;
    var s' := s.(producers := s.producers[t := p]);
    assert forall i :: 0 <= i < |s.claims| ==> ProgressOf(s', i) == ProgressOf(s, i);
    forall u | u in s'.producers ensures ProducerOk(s', u) {
      assert u != t ==> ProducerOk(s, u);
    }
    assert forall i :: 0 <= Consumed(s) <= i < |s.claims| ==> PadGone(s', i) == PadGone(s, i);
  }

  // The slot words of a claim about to be made both read zero.
  ghost predicate Clear(s: State, msg: Msg)
    requires |s.mem| > 0
  {
    var pad := Padding(|s.mem|, s.tail, msg);
    WordAt(s.mem, s.tail + pad) == 0 && (pad > 0 ==> WordAt(s.mem, s.tail) == 0)
  }

  // Producer t's next step wins the space for its message.
  ghost predicate Wins(s: State, t: nat) {
    && |s.mem| > 0 && t in s.producers && s.producers[t].HasHead?
    && var HasHead(msg, tail, head) := s.producers[t];
       tail == s.tail && Padding(|s.mem|, tail, msg) + Required(msg) <= |s.mem| - (tail - head)
  }

  lemma WinsIsWon(s: State, t: nat)
    requires Layout(s) && ProducersOk(s) && Wins(s, t)
    ensures Won(s, t, s.producers[t].msg, Act(s, Produce(t)))
  {
    hide Chain, IsPowerOfTwo, Padding, Required, Sendable;
    assert ProducerOk(s, t);
  }

  lemma ClaimStep(s: State, t: nat)
    requires Inv(s) && t in s.producers && s.producers[t].HasHead?
    requires Wins(s, t) ==> Clear(s, s.producers[t].msg)
    ensures Inv(Act(s, Produce(t)))
  {
    hide WordAt, ClaimMemory, IsPowerOfTwo, Chain;
    var HasHead(msg, tail, head) := s.producers[t];
    assert ProducerOk(s, t);
    if Wins(s, t) {
      WinsIsWon(s, t);
      ClaimWon(s, t, msg, Act(s, Produce(t)));
    } else if Padding(|s.mem|, tail, msg) + Required(msg) > |s.mem| - (tail - head) {
      LocalStep(s, t, Idle);
    } else {
      LocalStep(s, t, Retrying(msg));
    }
  }

  // `s'` is `s` after producer t won the space for `msg` at the tail.
  ghost predicate Won(s: State, t: nat, msg: Msg, s': State)
  {
    && |s.mem| > 0 && Sendable(|s.mem|, msg)
    && t in s.producers && !s.producers[t].Writing?
    && var pad := Padding(|s.mem|, s.tail, msg);
       && s' == s.(tail := s.tail + pad + Required(msg), claims := s.claims + [Claim(t, msg, s.tail, pad)],
                   producers := s.producers[t := Writing(|s.claims|, if pad > 0 then AtPadding else AtZeroing)])
       && s'.tail <= s.head + |s.mem|
  }

  lemma ClaimWon(s: State, t: nat, msg: Msg, s': State)
    requires Inv(s) && Won(s, t, msg, s') && Clear(s, msg)
    ensures Inv(s')
  {
    hide Won, Layout, ConsumerOk, ProducersOk, MemoryOk, Clear;
    WonLayout(s, t, msg, s');
    WonConsumer(s, t, msg, s');
    WonProducers(s, t, msg, s');
    WonMemory(s, t, msg, s');
  }

  lemma WonLayout(s: State, t: nat, msg: Msg, s': State)
    requires Layout(s) && Won(s, t, msg, s')
    ensures Layout(s') && Next(s') == Next(s)
  {
    hide WordAt, IsPowerOfTwo, Chain, ClaimShape, Padding, Required;
    TailAligned(s);
    ChainAppend(|s.mem|, s.claims, s'.claims[|s.claims|]);
  }

  lemma WonConsumer(s: State, t: nat, msg: Msg, s': State)
    requires Layout(s) && ConsumerOk(s) && Won(s, t, msg, s')
    ensures ConsumerOk(s')
  {
    hide WordAt, IsPowerOfTwo, Chain, ClaimShape, Padding, Required;
    assert forall i :: 0 <= i < |s.claims| ==> s'.claims[i] == s.claims[i] && ProgressOf(s', i) == ProgressOf(s, i);
    assert s.claims[..|s.delivered|] == s'.claims[..|s.delivered|];
  }

  lemma WonProducers(s: State, t: nat, msg: Msg, s': State)
    requires Layout(s) && ConsumerOk(s) && ProducersOk(s) && Won(s, t, msg, s')
    ensures ProducersOk(s')
  {
    hide WordAt, IsPowerOfTwo, Chain, ClaimShape, Padding, Required, ValidMsg;
    forall u | u in s'.producers ensures ProducerOk(s', u) {
      assert u != t ==> ProducerOk(s, u);
    }
  }

  lemma WonMemory(s: State, t: nat, msg: Msg, s': State)
    requires Inv(s) && Won(s, t, msg, s') && Clear(s, msg)
    ensures MemoryOk(s')
  {
    hide WordAt, IsPowerOfTwo, Chain, ClaimShape, Padding, Required, ValidMsg;
    var n := |s.claims|;
    forall i | 0 <= Consumed(s') <= i < |s'.claims|
      ensures ClaimMemory(s'.mem, s'.claims[i], PadGone(s', i), ProgressOf(s', i))
    {
      if i < n {
        assert ProgressOf(s', i) == ProgressOf(s, i);
        assert ClaimMemory(s.mem, s.claims[i], PadGone(s, i), ProgressOf(s, i));
      }
    }
  }

  lemma ChainAppend(capacity: nat, claims: seq<Claim>, c: Claim)
    requires capacity > 0 && Chain(capacity, claims) && c.start == Edge(claims, |claims|)
    requires Sendable(capacity, c.msg) && c.start % 4 == 0 && c.pad == Padding(capacity, c.start, c.msg)
    ensures Chain(capacity, claims + [c])
  {
    hide ValidMsg, Padding;
    var n := |claims|;
    if n > 0 {
      assert forall i :: 0 <= i < n ==> claims[i].End() <= claims[n - 1].End();
    }
  }

  lemma TailAligned(s: State)
    requires Layout(s)
    ensures s.tail % 4 == 0
  {
    var n := |s.claims|;
    if n > 0 {
      assert ClaimShape(|s.mem|, s.claims[n - 1]);
      Geometry(|s.mem|, s.claims[n - 1]);
    }
  }

  // ---- A producer's stores ----

  ghost function StagePosition(c: Claim, stage: Stage): nat {
    match stage
    case AtPadding => c.start
    case AtZeroing => c.Record() + 8
    case AtCopy => c.Record() + 8
    case AtType => c.Record() + 4
    case AtLength => c.Record()
  }

  ghost function StageBytes(c: Claim, stage: Stage): seq<byte>
    requires IsI32(-(c.pad as int)) && ValidMsg(c.msg)
  {
    match stage
    case AtPadding => EncI32(-(c.pad as int))
    case AtZeroing => Zeros(|c.msg.body|)
    case AtCopy => c.msg.body
    case AtType => EncI32(c.msg.typeId)
    case AtLength => EncI32(RecordLength(c.msg))
  }

  ghost function Advance(stage: Stage): Progress {
    match stage
    case AtPadding => Pending(AtZeroing)
    case AtZeroing => Pending(AtCopy)
    case AtCopy => Pending(AtType)
    case AtType => Pending(AtLength)
    case AtLength => Published
  }

  lemma RecordPlace(mem: seq<byte>, c: Claim, offset: nat, bs: seq<byte>)
    requires |mem| > 0 && Placed(|mem|, c) && offset + |bs| <= RecordLength(c.msg) && offset <= 8
    ensures c.Record() + offset + |bs| <= c.End()
    ensures var i := Ix(c.Record() + offset, |mem|);
      && i == (if c.pad > 0 then 0 else Ix(c.start, |mem|)) + offset
      && i + |bs| <= |mem|
      && Store(mem, i, bs) == Splice(mem, i, bs)
  {
    hide Splice, Ix, Required, MaxLength;
    IndexStep(c.Record(), offset, |mem|);
  }

  ghost predicate StageLands(mem: seq<byte>, c: Claim, stage: Stage)
    requires |mem| > 0 && IsI32(-(c.pad as int)) && ValidMsg(c.msg)
  {
    var bs, p := StageBytes(c, stage), StagePosition(c, stage);
    && p + |bs| <= c.End() && Ix(p, |mem|) + |bs| <= |mem|
    && StageStore(mem, c, stage) == Splice(mem, Ix(p, |mem|), bs)
  }

  lemma PaddingPlace(mem: seq<byte>, c: Claim)
    requires 0 < |mem| < TWO_31 && Placed(|mem|, c) && ValidMsg(c.msg) && IsI32(-(c.pad as int)) && c.pad > 0
    ensures StageLands(mem, c, AtPadding)
  {
    hide EncI32, Splice, Ix, Required, MaxLength, I32At;
  }

  lemma WordPlace(mem: seq<byte>, c: Claim, stage: Stage)
    requires 0 < |mem| < TWO_31 && Placed(|mem|, c) && ValidMsg(c.msg) && IsI32(-(c.pad as int))
    requires stage == AtType || stage == AtLength
    ensures StageLands(mem, c, stage)
  {
    hide EncI32, Splice, Ix, Required, MaxLength, I32At, Store;
    RecordPlace(mem, c, if stage == AtType then 4 else 0, StageBytes(c, stage));
  }

  lemma BodyPlace(mem: seq<byte>, c: Claim, stage: Stage)
    requires 0 < |mem| < TWO_31 && Placed(|mem|, c) && ValidMsg(c.msg) && IsI32(-(c.pad as int))
    requires stage == AtZeroing || stage == AtCopy
    ensures StageLands(mem, c, stage)
  {
    hide Zeros, Splice, Ix, Required, MaxLength, Store;
    RecordPlace(mem, c, 8, StageBytes(c, stage));
  }

  // A stage stores its bytes at its position and touches nothing else nearby.
  lemma StageStoreAt(mem: seq<byte>, c: Claim, stage: Stage, lo: nat, hi: nat)
    requires 0 < |mem| < TWO_31 && Placed(|mem|, c) && ValidMsg(c.msg) && IsI32(-(c.pad as int))
    requires stage == AtPadding ==> c.pad > 0
    requires lo <= StagePosition(c, stage) && c.End() <= hi <= lo + |mem|
    ensures var bs, p, mem' := StageBytes(c, stage), StagePosition(c, stage), StageStore(mem, c, stage);
      && p + |bs| <= c.End()
      && (forall k :: 0 <= k < |bs| ==> At(mem', p + k) == bs[k])
      && (forall r :: lo <= r < hi && !(p <= r < p + |bs|) ==> At(mem', r) == At(mem, r))
  {
    hide EncI32, Splice, Ix, At, StageStore, Placed, ValidMsg, Required, StageBytes, StagePosition;
    match stage {
      case AtPadding => PaddingPlace(mem, c);
      case AtZeroing => BodyPlace(mem, c, stage);
      case AtCopy => BodyPlace(mem, c, stage);
      case AtType => WordPlace(mem, c, stage);
      case AtLength => WordPlace(mem, c, stage);
    }
    StoreAt(mem, StagePosition(c, stage), StageBytes(c, stage), lo, hi);
  }

  lemma StageMemory(mem: seq<byte>, c: Claim, stage: Stage, padGone: bool)
    requires 0 < |mem| < TWO_31 && Placed(|mem|, c) && ValidMsg(c.msg)
    requires ClaimMemory(mem, c, padGone, Pending(stage))
    requires stage == AtPadding ==> c.pad > 0
    requires c.End() <= (if padGone then c.Record() else c.start) + |mem|
    ensures ClaimMemory(StageStore(mem, c, stage), c, padGone, Advance(stage))
  {
    hide EncI32, Splice, Ix, At, StageStore, Required, MaxLength, Word, Signed32;
    var lo := if padGone then c.Record() else c.start;
    var mem' := StageStore(mem, c, stage);
    StageStoreAt(mem, c, stage, lo, c.End());
    var bs, p := StageBytes(c, stage), StagePosition(c, stage);
    if stage == AtPadding || stage == AtType || stage == AtLength {
      WordOfBytes(mem', p, bs);
    }
  }

  lemma WordOfBytes(mem: seq<byte>, p: nat, bs: seq<byte>)
    requires |mem| > 0 && |bs| == 4 && forall k :: 0 <= k < |bs| ==> At(mem, p + k) == bs[k]
    ensures WordAt(mem, p) == I32At(bs, 0)
  {
    assert At(mem, p + 0) == bs[0];
  }

  // `s'` is `s` after producer t's pending store for claim k.
  ghost predicate Wrote(s: State, t: nat, k: nat, stage: Stage, s': State)
  {
    && |s.mem| > 0 && k < |s.claims|
    && t in s.producers && s.producers[t] == Writing(k, stage)
    && s' == WriteOn(s, t, k, stage)
  }

  lemma WriteStep(s: State, t: nat)
    requires Inv(s) && t in s.producers && s.producers[t].Writing?
    ensures Inv(Act(s, Produce(t)))
  {
    assert |s.mem| > 0;
    hide Layout, ConsumerOk, MemoryOk, WriteOn;
    var Writing(k, stage) := s.producers[t];
    assert ProducerOk(s, t);
    var s' := WriteOn(s, t, k, stage);
    WriteProgress(s, t, k, stage, s');
    WriteLayout(s, t, k, stage, s');
    WriteProducers(s, t, k, stage, s');
    WriteMemory(s, t, k, stage, s');
  }

  lemma WriteProgress(s: State, t: nat, k: nat, stage: Stage, s': State)
    requires Wrote(s, t, k, stage, s') && s.claims[k].owner == t
    ensures ProgressOf(s, k) == Pending(stage) && ProgressOf(s', k) == Advance(stage)
    ensures forall i :: 0 <= i < |s.claims| && i != k ==> ProgressOf(s', i) == ProgressOf(s, i)
  {
    hide StageStore;
  }

  lemma WriteLayout(s: State, t: nat, k: nat, stage: Stage, s': State)
    requires Layout(s) && ConsumerOk(s) && Wrote(s, t, k, stage, s') && s.claims[k].owner == t
    ensures Layout(s') && ConsumerOk(s') && Next(s') == Next(s) && Consumed(s') == Consumed(s)
  {
    hide StageStore, IsPowerOfTwo, Chain;
    WriteProgress(s, t, k, stage, s');
  }

  lemma WriteProducers(s: State, t: nat, k: nat, stage: Stage, s': State)
    requires Layout(s) && ConsumerOk(s) && ProducersOk(s) && Wrote(s, t, k, stage, s')
    ensures ProducersOk(s')
  {
    hide StageStore, IsPowerOfTwo, Chain, ConsumerOk;
    assert ProducerOk(s, t);
    forall u | u in s'.producers ensures ProducerOk(s', u) {
      assert u != t ==> ProducerOk(s, u);
    }
  }

  lemma WriteMemory(s: State, t: nat, k: nat, stage: Stage, s': State)
    requires Inv(s) && Wrote(s, t, k, stage, s')
    ensures MemoryOk(s')
  {
    hide StageStore, WordAt, IsPowerOfTwo, ClaimMemory, ConsumerOk, Layout;
    assert ProducerOk(s, t);
    WriteProgress(s, t, k, stage, s');
    WriteLayout(s, t, k, stage, s');
    forall i | 0 <= Consumed(s') <= i < |s'.claims|
      ensures ClaimMemory(s'.mem, s'.claims[i], PadGone(s', i), ProgressOf(s', i))
    {
      assert ClaimMemory(s.mem, s.claims[i], PadGone(s, i), ProgressOf(s, i));
      if i == k {
        WriteOwn(s, k, stage);
      } else {
        WriteOther(s, k, stage, i);
      }
    }
  }

  lemma ClaimPlaced(s: State, i: nat)
    requires Layout(s) && i < |s.claims|
    ensures Placed(|s.mem|, s.claims[i]) && ValidMsg(s.claims[i].msg) && IsI32(-(s.claims[i].pad as int))
    ensures 0 < |s.mem| < TWO_31
  {
    hide Placed, IsPowerOfTwo;
    assert ClaimShape(|s.mem|, s.claims[i]);
    Geometry(|s.mem|, s.claims[i]);
  }

  lemma WriteOwn(s: State, k: nat, stage: Stage)
    requires Layout(s) && ConsumerOk(s) && 0 <= Consumed(s) <= k < |s.claims|
    requires ClaimMemory(s.mem, s.claims[k], PadGone(s, k), Pending(stage))
    requires stage == AtPadding ==> s.claims[k].pad > 0
    ensures ClaimMemory(StageStore(s.mem, s.claims[k], stage), s.claims[k], PadGone(s, k), Advance(stage))
  {
    hide ClaimMemory, Placed, StageStore, IsPowerOfTwo, Layout, ConsumerOk, ValidMsg;
    ClaimPlaced(s, k);
    LiveWindow(s, k);
    StageMemory(s.mem, s.claims[k], stage, PadGone(s, k));
  }

  lemma WriteOther(s: State, k: nat, stage: Stage, i: nat)
    requires Layout(s) && ConsumerOk(s) && 0 <= Consumed(s) <= i < |s.claims| && Consumed(s) <= k < |s.claims| && i != k
    requires ClaimMemory(s.mem, s.claims[i], PadGone(s, i), ProgressOf(s, i))
    requires ClaimMemory(s.mem, s.claims[k], PadGone(s, k), Pending(stage))
    requires stage == AtPadding ==> s.claims[k].pad > 0
    ensures ClaimMemory(StageStore(s.mem, s.claims[k], stage), s.claims[i], PadGone(s, i), ProgressOf(s, i))
  {
    var c := s.claims[k];
    assert PadGone(s, k) ==> stage != AtPadding;
    hide Layout, ClaimMemory, Placed, StageStore, ConsumerOk, ValidMsg, At, Required, ProgressOf;
    ClaimPlaced(s, k);
    LiveWindow(s, i);
    LiveWindow(s, k);
    if i < k { Disjoint(s, i, k); } else { Disjoint(s, k, i); }
    StoreElsewhere(s.mem, c, stage, Low(s, i), s.claims[i].End(), s.head);
    MemoryFrame(s.mem, StageStore(s.mem, c, stage), s.claims[i], PadGone(s, i), ProgressOf(s, i), Low(s, i));
  }

  lemma StoreElsewhere(mem: seq<byte>, c: Claim, stage: Stage, lo: nat, hi: nat, base: nat)
    requires 0 < |mem| < TWO_31 && Placed(|mem|, c) && ValidMsg(c.msg) && IsI32(-(c.pad as int))
    requires stage == AtPadding ==> c.pad > 0
    requires base <= StagePosition(c, stage) && c.End() <= base + |mem|
    requires base <= lo <= hi <= base + |mem|
    requires hi <= StagePosition(c, stage) || c.End() <= lo
    ensures Agree(mem, StageStore(mem, c, stage), lo, hi)
  {
    hide Placed, ValidMsg, At, Required, StageStore, StagePosition, StageBytes;
    StageStoreAt(mem, c, stage, base, base + |mem|);
  }

  // ---- The consumer ----

  // `s'` differs from `s` in what the consumer holds and has published only.
  ghost predicate Moved(s: State, s': State) {
    && s'.mem == s.mem && s'.tail == s.tail && s'.producers == s.producers
    && s'.claims == s.claims && s'.delivered == s.delivered
    && !s.consumer.Handled? && !s'.consumer.Handled?
    && Next(s') == Next(s) && s.head <= s'.head <= Next(s)
  }

  lemma MoveStep(s: State, s': State)
    requires Inv(s) && Moved(s, s') && ConsumerOk(s')
    ensures Inv(s')
  {
    hide IsPowerOfTwo, Chain, ClaimMemory, ConsumerOk;
    assert Consumed(s') == Consumed(s);
    assert forall i :: 0 <= i < |s.claims| ==> ProgressOf(s', i) == ProgressOf(s, i) && PadGone(s', i) == PadGone(s, i);
    forall t | t in s'.producers ensures ProducerOk(s', t) {
      assert ProducerOk(s, t);
    }
  }

  lemma PublishStep(s: State, h: nat)
    requires Inv(s) && !s.consumer.Handled? && h == s.head
    ensures Inv(PublishHead(s, h, Next(s)))
  {
    hide IsPowerOfTwo, Chain, MemoryOk, ProducersOk, LengthOk;
    MoveStep(s, PublishHead(s, h, Next(s)));
  }

  lemma LoadLength(s: State)
    requires Inv(s) && s.consumer.Scanning? && Next(s) < s.consumer.tail
    ensures LengthOk(s, Load(s.mem, Ix(Next(s), |s.mem|)))
  {
    hide IsPowerOfTwo, Chain, ProducersOk, WordAt, Load, Placed, Required;
    var c, n := Consumed(s), Next(s);
    assert c < |s.claims|;
    assert n == s.claims[c].start || n == s.claims[c].Record() by {
      EdgeIsStart(s, c);
    }
    ClaimPlaced(s, c);
    WordLoaded(s.mem, s.claims[c], n);
    assert ClaimMemory(s.mem, s.claims[c], PadGone(s, c), ProgressOf(s, c));
  }

  lemma EdgeIsStart(s: State, i: nat)
    requires Layout(s) && i < |s.claims|
    ensures Edge(s.claims, i) == s.claims[i].start
  {}

  lemma WordLoaded(mem: seq<byte>, c: Claim, n: nat)
    requires |mem| > 0 && Placed(|mem|, c) && (n == c.start || n == c.Record())
    ensures Ix(n, |mem|) + 4 <= |mem| && Load(mem, Ix(n, |mem|)) == WordAt(mem, n)
  {
    hide Ix, Required, At;
    WordIsIndexed(mem, n);
  }

  lemma StartScan(s: State)
    requires Inv(s) && (s.consumer.Resting? || s.consumer.HasOldHead?)
    ensures Inv(ConsumerStep(s))
  {
    assert |s.mem| > 0;
    hide IsPowerOfTwo, Chain, MemoryOk, ProducersOk, LengthOk;
    MoveStep(s, ConsumerStep(s));
  }

  lemma MemoryThere(s: State)
    requires Inv(s)
    ensures |s.mem| > 0
  {}

  lemma ScanStep(s: State)
    requires Inv(s) && s.consumer.Scanning? && Next(s) < s.consumer.tail
    ensures Inv(ConsumerStep(s))
  {
    hide IsPowerOfTwo, Chain, MemoryOk, ProducersOk, Load;
    MemoryThere(s);
    LoadLength(s);
    var s' := ConsumerStep(s);
    LengthStable(s, s', s'.consumer.length);
    MoveStep(s, s');
  }

  lemma LengthStable(s: State, s': State, length: int)
    requires LengthOk(s, length)
    requires s'.claims == s.claims && s'.producers == s.producers
    requires Consumed(s') == Consumed(s) && Next(s') == Next(s)
    ensures LengthOk(s', length)
  {}

  // Clearing the length word the consumer has reached.
  ghost function Cleared(s: State): (mem': seq<byte>)
    requires |s.mem| > 0
    ensures |mem'| == |s.mem|
  {
    Store(s.mem, Ix(Next(s), |s.mem|), EncI32(0))
  }

  lemma ClearWord(s: State, lo: nat, hi: nat)
    requires Layout(s) && ConsumerOk(s) && 0 <= Consumed(s) < |s.claims|
    requires var c := s.claims[Consumed(s)]; Next(s) == c.start || Next(s) == c.Record()
    requires Next(s) + 4 <= lo <= hi <= s.tail
    ensures Agree(s.mem, Cleared(s), lo, hi)
  {
    hide Layout, ConsumerOk, Placed, At, Required, WordAt, Ix, EncI32, Splice, Next;
    var c, n := s.claims[Consumed(s)], Next(s);
    ClaimPlaced(s, Consumed(s));
    LiveWindow(s, Consumed(s));
    WordLoaded(s.mem, c, n);
    ClearBytes(s.mem, n, s.head, s.tail);
  }

  lemma ClearBytes(mem: seq<byte>, n: nat, head: nat, tail: nat)
    requires |mem| > 0 && Ix(n, |mem|) + 4 <= |mem| && head <= n && n + 4 <= tail <= head + |mem|
    ensures Agree(mem, Store(mem, Ix(n, |mem|), EncI32(0)), n + 4, tail)
  {
    hide Ix, At, EncI32, Splice;
    StoreAt(mem, n, EncI32(0), head, tail);
  }

  // `s'` is `s` after the consumer cleared and skipped a padding record.
  ghost predicate Skipped(s: State, s': State) {
    && |s.mem| > 0 && 0 <= Consumed(s) < |s.claims| && s.consumer.HasLength? && s.consumer.length < 0
    && var HasLength(h, n, t, _) := s.consumer;
       s' == s.(mem := Cleared(s), consumer := Scanning(h, n - Ix(n, |s.mem|) + |s.mem|, t))
  }

  lemma SkipStep(s: State, s': State)
    requires Inv(s) && Skipped(s, s')
    ensures Inv(s')
  {
    hide Layout, ConsumerOk, MemoryOk, ProducersOk, Skipped;
    SkipLayout(s, s');
    SkipProducers(s, s');
    SkipMemory(s, s');
  }

  lemma SkipTarget(s: State)
    requires Layout(s) && ConsumerOk(s) && s.consumer.HasLength? && s.consumer.length < 0
    ensures var c, n := Consumed(s), Next(s);
      && 0 <= c < |s.claims|
      && n == s.claims[c].start
      && n - Ix(n, |s.mem|) + |s.mem| == s.claims[c].Record() >= n + 4
      && s.claims[c].Record() <= s.tail
      && ProgressOf(s, c) != Pending(AtPadding)
  {
    hide IsPowerOfTwo, Chain, WordAt, Store, Placed, Required, Ix;
    var c := Consumed(s);
    ClaimPlaced(s, c);
    LiveWindow(s, c);
    PaddingEnds(|s.mem|, s.claims[c]);
  }

  lemma SkipLayout(s: State, s': State)
    requires Layout(s) && ConsumerOk(s) && Skipped(s, s')
    ensures Layout(s') && ConsumerOk(s') && Consumed(s) == Consumed(s')
    ensures Next(s') == s.claims[Consumed(s)].Record()
  {
    SkipTarget(s);
    SkipNext(s, s');
    SkipConsumer(s, s');
    hide IsPowerOfTwo, Chain, Cleared, Ix, ConsumerOk;
  }

  lemma SkipNext(s: State, s': State)
    requires Skipped(s, s')
    requires Next(s) - Ix(Next(s), |s.mem|) + |s.mem| == s.claims[Consumed(s)].Record()
    ensures Consumed(s) == Consumed(s') && Next(s') == s.claims[Consumed(s)].Record()
  {
    hide Cleared, Ix;
  }

  lemma SkipConsumer(s: State, s': State)
    requires ConsumerOk(s) && Skipped(s, s')
    requires Next(s') == s.claims[Consumed(s)].Record() && Consumed(s) == Consumed(s')
    ensures ConsumerOk(s')
  {
    hide LengthOk, Ix, Cleared;
  }

  lemma PaddingEnds(capacity: nat, c: Claim)
    requires Placed(capacity, c) && c.pad > 0
    ensures c.start - Ix(c.start, capacity) + capacity == c.Record() >= c.start + 4
  {}

  lemma SkipProducers(s: State, s': State)
    requires ProducersOk(s) && Skipped(s, s') && Consumed(s) == Consumed(s')
    ensures ProducersOk(s')
  {
    forall t | t in s'.producers ensures ProducerOk(s', t) {
      assert ProducerOk(s, t);
    }
  }

  lemma SkipMemory(s: State, s': State)
    requires Inv(s) && Skipped(s, s')
    ensures MemoryOk(s')
  {
    assert s'.claims == s.claims && |s'.mem| > 0;
    hide Layout, ConsumerOk, Skipped, Cleared, ClaimMemory, ProgressOf;
    SkipLayout(s, s');
    forall i | 0 <= Consumed(s') <= i < |s'.claims|
      ensures ClaimMemory(s'.mem, s'.claims[i], PadGone(s', i), ProgressOf(s', i))
    {
      SkipClaim(s, s', i);
    }
  }

  lemma SkipClaim(s: State, s': State, i: nat)
    requires Inv(s) && Skipped(s, s') && 0 <= Consumed(s) <= i < |s.claims|
    ensures |s'.claims| == |s.claims| && |s'.mem| > 0
    ensures ClaimMemory(s'.mem, s'.claims[i], PadGone(s', i), ProgressOf(s', i))
  {
    assert ClaimMemory(s.mem, s.claims[i], PadGone(s, i), ProgressOf(s, i));
    assert s'.claims == s.claims && s'.tail == s.tail && |s.mem| > 0 && s'.mem == Cleared(s);
    assert ProgressOf(s', i) == ProgressOf(s, i);
    hide Layout, ConsumerOk, MemoryOk, ProducersOk, Skipped, Cleared, ClaimMemory, ProgressOf, Next, Consumed,
        Required, At;
    SkipTarget(s);
    SkipLayout(s, s');
    LiveWindow(s, i);
    LiveWindow(s', i);
    ClearWord(s, Low(s', i), s.claims[i].End());
    DropPadding(s.mem, s.claims[i], PadGone(s, i), PadGone(s', i), ProgressOf(s, i));
    MemoryFrame(s.mem, s'.mem, s.claims[i], PadGone(s', i), ProgressOf(s, i), Low(s', i));
  }

  lemma DropPadding(mem: seq<byte>, c: Claim, gone: bool, gone': bool, p: Progress)
    requires |mem| > 0 && ClaimMemory(mem, c, gone, p)
    requires gone ==> gone'
    requires gone' ==> p != Pending(AtPadding)
    ensures ClaimMemory(mem, c, gone', p)
  {}

  // The consumer reached a published record.
  lemma AtRecord(s: State, length: int)
    requires Layout(s) && ConsumerOk(s) && LengthOk(s, length) && length > 0
    ensures var c := Consumed(s);
      && 0 <= c < |s.claims| && Next(s) == s.claims[c].Record()
      && length == RecordLength(s.claims[c].msg) <= MaxLength(|s.mem|)
      && ProgressOf(s, c).Published?
      && s.claims[c].End() <= s.tail
  {
    hide Chain, Required, Placed, MaxLength;
    ClaimPlaced(s, Consumed(s));
    LiveWindow(s, Consumed(s));
    assert Placed(|s.mem|, s.claims[Consumed(s)]) ==> RecordLength(s.claims[Consumed(s)].msg) <= MaxLength(|s.mem|) by {
      RecordFits(s, Consumed(s));
    }
  }

  lemma RecordFits(s: State, i: nat)
    requires Layout(s) && i < |s.claims|
    ensures RecordLength(s.claims[i].msg) <= MaxLength(|s.mem|)
  {
    hide MaxLength, IsPowerOfTwo, ValidMsg, Required;
    assert ClaimShape(|s.mem|, s.claims[i]);
  }

  /** The handler is given the message of the claim, whole. */
  lemma HandlerSees(s: State)
    requires Inv(s) && s.consumer.HasLength? && s.consumer.length > 0
    ensures |s.mem| > 0 && 0 <= Consumed(s) < |s.claims|
    ensures MessageAt(s.mem, Ix(Next(s), |s.mem|), s.consumer.length) == s.claims[Consumed(s)].msg
  {
    AtRecord(s, s.consumer.length);
    hide Layout, ConsumerOk, ProducersOk, ClaimMemory, Placed, MessageAt, Ix, ProgressOf;
    var c := Consumed(s);
    ClaimPlaced(s, c);
    assert ClaimMemory(s.mem, s.claims[c], PadGone(s, c), ProgressOf(s, c));
    ClaimReads(s.mem, s.claims[c], PadGone(s, c));
  }

  lemma ClaimReads(mem: seq<byte>, c: Claim, padGone: bool)
    requires |mem| > 0 && Placed(|mem|, c) && ClaimMemory(mem, c, padGone, Published)
    ensures MessageAt(mem, Ix(c.Record(), |mem|), RecordLength(c.msg)) == c.msg
  {
    hide Ix, Required, At, WordAt, MaxLength;
    var i := Ix(c.Record(), |mem|);
    IndexStep(c.Record(), 4, |mem|);
    IndexStep(c.Record(), 8, |mem|);
    WordIsIndexed(mem, c.Record() + 4);
    BodyUnique(mem, c.Record() + 8, c.msg.body);
    assert mem[i + 8..i + RecordLength(c.msg)] == c.msg.body;
  }

  // `s'` is `s` after the handler ran on the record at the consumer's position.
  ghost predicate Delivered(s: State, s': State) {
    && s.consumer.HasLength? && s.consumer.length > 0 && 0 <= Consumed(s) < |s.claims|
    && var HasLength(h, n, t, length) := s.consumer;
       s' == s.(delivered := s.delivered + [s.claims[Consumed(s)].msg], consumer := Handled(h, n, t, length))
  }

  lemma DeliverStep(s: State, s': State)
    requires Inv(s) && Delivered(s, s')
    ensures Inv(s')
  {
    hide Layout, ConsumerOk, MemoryOk, ProducersOk, Delivered;
    ConsumerFacts(s);
    DeliverLayout(s, s');
    DeliverConsumer(s, s');
    DeliverRest(s, s');
  }

  lemma DeliverLayout(s: State, s': State)
    requires Layout(s) && Delivered(s, s')
    ensures Layout(s') && Next(s') == Next(s) && Consumed(s') == Consumed(s)
  {
    hide IsPowerOfTwo, Chain;
  }

  lemma DeliverConsumer(s: State, s': State)
    requires ConsumerOk(s) && Delivered(s, s')
    ensures ConsumerOk(s')
  {
    var c := Consumed(s);
    assert s.claims[..c + 1] == s.claims[..c] + [s.claims[c]];
    assert ProgressOf(s', c) == ProgressOf(s, c);
  }

  lemma DeliverRest(s: State, s': State)
    requires |s.mem| > 0 && MemoryOk(s) && ProducersOk(s) && Delivered(s, s')
    ensures MemoryOk(s') && ProducersOk(s')
  {
    hide ClaimMemory;
    forall t | t in s'.producers ensures ProducerOk(s', t) {
      assert ProducerOk(s, t);
    }
    assert forall i :: 0 <= i < |s.claims| ==> ProgressOf(s', i) == ProgressOf(s, i) && PadGone(s', i) == PadGone(s, i);
  }

  // `s'` is `s` after the consumer cleared the record it had handled.
  ghost predicate Finished(s: State, s': State) {
    && |s.mem| > 0 && 0 <= Consumed(s) < |s.claims| && s.consumer.Handled? && s.consumer.size > 0
    && var Handled(h, n, t, size) := s.consumer;
       s' == s.(mem := Cleared(s), consumer := Scanning(h, n + RoundUp(size + 4, 4), t))
  }

  lemma FinishStep(s: State, s': State)
    requires Inv(s) && Finished(s, s')
    ensures Inv(s')
  {
    hide Layout, ConsumerOk, MemoryOk, ProducersOk, Finished, AtHandled;
    IsAtHandled(s, s');
    FinishNext(s, s');
    FinishLayout(s, s');
    FinishProducers(s, s');
    FinishMemory(s, s');
  }

  ghost predicate AtHandled(s: State) {
    s.consumer.Handled? && LengthOk(s, s.consumer.size) && s.consumer.size > 0
  }

  lemma IsAtHandled(s: State, s': State)
    requires ConsumerOk(s) && Finished(s, s')
    ensures AtHandled(s)
  {
    hide LengthOk, Cleared, RoundUp;
  }

  lemma FinishNext(s: State, s': State)
    requires Layout(s) && ConsumerOk(s) && AtHandled(s) && Finished(s, s')
    ensures var c := Consumed(s);
      Consumed(s') == c + 1 && Next(s) == s.claims[c].Record() && Next(s') == s.claims[c].End()
      && ProgressOf(s, c).Published?
  {
    hide Layout, ConsumerOk, Cleared, LengthOk, MaxLength, ProgressOf, RoundUp;
    AtRecord(s, s.consumer.size);
  }

  lemma FinishLayout(s: State, s': State)
    requires Layout(s) && ConsumerOk(s) && Finished(s, s')
    requires Consumed(s') == Consumed(s) + 1 && Next(s) == s.claims[Consumed(s)].Record() &&
        Next(s') == s.claims[Consumed(s)].End()
    ensures Layout(s') && ConsumerOk(s')
  {
    hide IsPowerOfTwo, Chain, Cleared, Required, LengthOk, RoundUp, ConsumerOk;
    LiveWindow(s, Consumed(s));
    FinishConsumer(s, s');
  }

  lemma FinishConsumer(s: State, s': State)
    requires ConsumerOk(s) && Finished(s, s')
    requires Consumed(s') == Consumed(s) + 1 && Next(s') == s.claims[Consumed(s)].End()
    ensures ConsumerOk(s')
  {
    hide Cleared, Required, LengthOk, RoundUp;
  }

  lemma FinishProducers(s: State, s': State)
    requires ConsumerOk(s) && ProducersOk(s) && Finished(s, s') && Consumed(s') == Consumed(s) + 1
    requires ProgressOf(s, Consumed(s)).Published?
    ensures ProducersOk(s')
  {
    hide ConsumerOk, Cleared;
    forall t | t in s'.producers ensures ProducerOk(s', t) {
      assert ProducerOk(s, t);
    }
  }

  lemma FinishMemory(s: State, s': State)
    requires Inv(s) && Finished(s, s') && AtHandled(s)
    ensures MemoryOk(s')
  {
    assert s'.claims == s.claims && |s'.mem| > 0;
    FinishNext(s, s');
    hide Inv, Layout, ConsumerOk, Finished, Cleared, ClaimMemory, ProgressOf, AtHandled;
    forall i | 0 <= Consumed(s') <= i < |s'.claims|
      ensures ClaimMemory(s'.mem, s'.claims[i], PadGone(s', i), ProgressOf(s', i))
    {
      FinishClaim(s, s', i);
    }
  }

  lemma FinishClaim(s: State, s': State, i: nat)
    requires Inv(s) && Finished(s, s') && AtHandled(s) && Consumed(s) < i < |s.claims|
    ensures |s'.claims| == |s.claims| && |s'.mem| > 0
    ensures ClaimMemory(s'.mem, s'.claims[i], PadGone(s', i), ProgressOf(s', i))
  {
    assert ClaimMemory(s.mem, s.claims[i], PadGone(s, i), ProgressOf(s, i));
    assert s'.claims == s.claims && s'.tail == s.tail && |s.mem| > 0 && s'.mem == Cleared(s);
    assert ProgressOf(s', i) == ProgressOf(s, i);
    var c := s.claims[Consumed(s)];
    assert c.Record() + 4 <= c.End();
    hide Layout, ConsumerOk, MemoryOk, ProducersOk, Finished, Cleared, ClaimMemory, ProgressOf, Next, Consumed,
         Required, At, AtHandled;
    FinishNext(s, s');
    LiveWindow(s, i);
    ClearWord(s, s.claims[i].start, s.claims[i].End());
    assert !PadGone(s, i) && !PadGone(s', i);
    MemoryFrame(s.mem, s'.mem, s.claims[i], false, ProgressOf(s, i), s.claims[i].start);
  }

  // ---- Every run ----

  lemma ConsumeStep(s: State)
    requires Inv(s)
    ensures Inv(Act(s, Consume))
  {
    hide Inv;
    ConsumerFacts(s);
    match s.consumer {
      case Resting => StartScan(s);
      case HasOldHead(_) => StartScan(s);
      case Scanning(h, n, t) => if n < t { ScanStep(s); } else { PublishStep(s, h); }
      case HasLength(_, _, _, _) => LengthStep(s);
      case Handled(_, _, _, _) => HandledStep(s);
      case Corrupt(_) =>
    }
  }

  lemma ConsumerFacts(s: State)
    requires Inv(s)
    ensures |s.mem| > 0 && !s.consumer.Corrupt?
    ensures s.consumer.Scanning? || s.consumer.HasLength? || s.consumer.Handled? ==> s.consumer.head == s.head
    ensures s.consumer.HasLength? || s.consumer.Handled? ==> 0 <= Consumed(s) < |s.claims|
    ensures s.consumer.Handled? ==> s.consumer.size > 0
  {
    hide Chain, MemoryOk, ProducersOk;
  }

  lemma LengthStep(s: State)
    requires Inv(s) && s.consumer.HasLength? && |s.mem| > 0
    ensures Inv(ConsumerStep(s))
  {
    hide Inv, ConsumerStep, Skipped, Delivered, MessageAt, MaxLength, Consumed, PublishHead, Next, Ix;
    ConsumerFacts(s);
    var length := s.consumer.length;
    if length == 0 {
      StopShape(s);
      PublishStep(s, s.head);
    } else if length < 0 {
      SkipShape(s);
      SkipStep(s, ConsumerStep(s));
    } else {
      Deliverable(s);
      DeliverShape(s);
      DeliverStep(s, ConsumerStep(s));
    }
  }

  // What the consumer's step is in each case.
  lemma StopShape(s: State)
    requires |s.mem| > 0 && s.consumer.HasLength? && s.consumer.length == 0 && s.consumer.head == s.head
    ensures ConsumerStep(s) == PublishHead(s, s.head, Next(s))
  {
    hide Load, Store;
  }

  lemma SkipShape(s: State)
    requires |s.mem| > 0 && s.consumer.HasLength? && s.consumer.length < 0 && 0 <= Consumed(s) < |s.claims|
    ensures Skipped(s, ConsumerStep(s))
  {
    hide Load, Store, EncI32, Consumed, Ix;
  }

  lemma DeliverShape(s: State)
    requires |s.mem| > 0 && s.consumer.HasLength? && 0 < s.consumer.length <= MaxLength(|s.mem|)
    requires 0 <= Consumed(s) < |s.claims|
    requires MessageAt(s.mem, Ix(Next(s), |s.mem|), s.consumer.length) == s.claims[Consumed(s)].msg
    ensures Delivered(s, ConsumerStep(s))
  {
    hide Load, Store, MessageAt, MaxLength, Consumed, Ix;
  }

  lemma FinishShape(s: State)
    requires |s.mem| > 0 && s.consumer.Handled? && s.consumer.size > 0 && 0 <= Consumed(s) < |s.claims|
    ensures Finished(s, ConsumerStep(s))
  {
    hide Load, Store, EncI32, Consumed, Ix, RoundUp;
  }

  lemma Deliverable(s: State)
    requires Inv(s) && s.consumer.HasLength? && s.consumer.length > 0
    ensures |s.mem| > 0 && s.consumer.length <= MaxLength(|s.mem|) && 0 <= Consumed(s) < |s.claims|
    ensures MessageAt(s.mem, Ix(Next(s), |s.mem|), s.consumer.length) == s.claims[Consumed(s)].msg
  {
    assert Layout(s) && ConsumerOk(s) && LengthOk(s, s.consumer.length);
    hide Layout, ConsumerOk, LengthOk, MemoryOk, ProducersOk, MessageAt, MaxLength;
    AtRecord(s, s.consumer.length);
    HandlerSees(s);
  }

  lemma HandledStep(s: State)
    requires Inv(s) && s.consumer.Handled? && |s.mem| > 0
    ensures Inv(ConsumerStep(s))
  {
    hide Inv, ConsumerStep, Finished, Consumed;
    ConsumerFacts(s);
    FinishShape(s);
    FinishStep(s, ConsumerStep(s));
  }

  // Every successful claim of the run lands on slot words that read zero.
  ghost predicate ClearRun(s: State, run: seq<Action>)
    requires |s.mem| > 0
    decreases |run|
  {
    run != [] ==> ClearAction(s, run[0]) && ClearRun(Act(s, run[0]), run[1..])
  }

  ghost predicate ClearAction(s: State, a: Action)
    requires |s.mem| > 0
  {
    a.Produce? && Wins(s, a.tid) ==> Clear(s, s.producers[a.tid].msg)
  }

  lemma ActKeepsInv(s: State, a: Action)
    requires Inv(s) && ClearAction(s, a)
    ensures Inv(Act(s, a))
  {
    match a {
      case Begin(t, msg) =>
        if t in s.producers && s.producers[t].Idle? && Sendable(|s.mem|, msg) {
          LocalStep(s, t, HasTail(msg, s.tail));
        }
      case Produce(t) =>
        if t in s.producers {
          assert ProducerOk(s, t);
          match s.producers[t] {
            case Idle =>
            case Retrying(msg) => LocalStep(s, t, HasTail(msg, s.tail));
            case HasTail(msg, tail) => LocalStep(s, t, HasHead(msg, tail, s.head));
            case HasHead(_, _, _) => ClaimStep(s, t);
            case Writing(_, _) => WriteStep(s, t);
          }
        }
      case Consume => ConsumeStep(s);
    }
  }

  lemma {:induction false} RunKeepsInv(s: State, run: seq<Action>)
    requires Inv(s) && ClearRun(s, run)
    ensures Inv(Exec(s, run))
    decreases |run|
  {
    assert |s.mem| > 0;
    hide Inv;
    if run != [] {
      ActKeepsInv(s, run[0]);
      RunKeepsInv(Act(s, run[0]), run[1..]);
    }
  }

  lemma InitInv(capacity: nat, threads: set<nat>)
    requires IsPowerOfTwo(capacity) && capacity < TWO_31
    ensures Inv(Init(capacity, threads))
  {}
}
