/** When all messages take one aligned record size, every claim of every run lands
    on slot words that read zero. */
module RingUniform {
  import opened Bits
  import opened Bytes
  import opened Records
  import opened RingSystem
  import opened RingSafety

  // An index that a record of size `size` can start at.
  ghost predicate OnGrid(g: nat, size: nat)
    requires size > 0
  {
    Ix(g, size) == 0
  }

  lemma GridApart(g: nat, h: nat, size: nat)
    requires size > 0 && OnGrid(g, size) && OnGrid(h, size) && g < h
    ensures g + size <= h
  {
    if h < g + size {
      IndexDistinct(g, h, size);
    }
  }

  lemma GridNext(g: nat, size: nat)
    requires size > 0 && OnGrid(g, size)
    ensures OnGrid(g + size, size)
  {
    IndexWrap(g, size);
  }

  // A claim that still owns the word at index g.
  ghost predicate Owns(s: State, i: nat, g: nat)
    requires |s.mem| > 0 && i < |s.claims|
  {
    var c := s.claims[i];
    g == Ix(c.Record(), |s.mem|) || (c.pad > 0 && !PadGone(s, i) && g == Ix(c.start, |s.mem|))
  }

  ghost predicate GridClear(s: State, size: nat)
    requires |s.mem| > 0 && size > 0
  {
    forall g: nat {:trigger OnGrid(g, size)} :: g + 4 <= |s.mem| && OnGrid(g, size)
      && (forall i :: 0 <= Consumed(s) <= i < |s.claims| ==> !Owns(s, i, g))
      ==> I32At(s.mem, g) == 0
  }

  ghost predicate Sizes(s: State, size: nat) {
    && (forall t :: t in s.producers ==>
          match s.producers[t]
          case Idle => true
          case Retrying(msg) => Required(msg) == size
          case HasTail(msg, _) => Required(msg) == size
          case HasHead(msg, _, _) => Required(msg) == size
          case Writing(_, _) => true)
    && (forall i :: 0 <= i < |s.claims| ==> Required(s.claims[i].msg) == size)
  }

  ghost predicate Gridded(s: State, size: nat)
    requires |s.mem| > 0 && size > 0
  {
    && (forall i :: 0 <= i < |s.claims| ==> OnGrid(Ix(s.claims[i].start, |s.mem|), size))
    && OnGrid(Ix(s.tail, |s.mem|), size)
  }

  ghost predicate Uniform(s: State, size: nat) {
    && Inv(s) && size >= 12
    && Sizes(s, size) && Gridded(s, size) && GridClear(s, size)
  }

  // ---- A claim ----

  lemma TailUnowned(s: State, p: nat, g: nat)
    requires Inv(s) && s.tail <= p < s.head + |s.mem| && g == Ix(p, |s.mem|)
    ensures forall i :: 0 <= Consumed(s) <= i < |s.claims| ==> !Owns(s, i, g)
  {
    forall i | 0 <= Consumed(s) <= i < |s.claims| ensures !Owns(s, i, g) {
      TailApart(s, p, i);
    }
  }

  lemma TailApart(s: State, p: nat, i: nat)
    requires Inv(s) && s.tail <= p < s.head + |s.mem| && 0 <= Consumed(s) <= i < |s.claims|
    ensures !Owns(s, i, Ix(p, |s.mem|))
  {
    hide Inv, ConsumerOk, MemoryOk, ProducersOk, Ix, Required;
    NonEmpty(s);
    LiveWindow(s, i);
    IndexDistinct(s.claims[i].Record(), p, |s.mem|);
    if !PadGone(s, i) {
      IndexDistinct(s.claims[i].start, p, |s.mem|);
    }
  }

  lemma NonEmpty(s: State)
    requires Inv(s)
    ensures |s.mem| > 0 && Layout(s) && ConsumerOk(s) && ProducersOk(s) && MemoryOk(s)
  {}

  // A grid word that no live claim owns, from the tail on, reads zero.
  lemma GridWordZero(s: State, size: nat, p: nat)
    requires Uniform(s, size) && s.tail <= p < s.head + |s.mem|
    requires Ix(p, |s.mem|) + 4 <= |s.mem| && OnGrid(Ix(p, |s.mem|), size)
    ensures WordAt(s.mem, p) == 0
  {
    hide Inv, OnGrid, Ix, WordAt, Owns, Sizes, Gridded;
    NonEmpty(s);
    TailUnowned(s, p, Ix(p, |s.mem|));
    WordIsIndexed(s.mem, p);
  }

  // The words a producer is about to claim.
  lemma UniformClear(s: State, size: nat, msg: Msg)
    requires Uniform(s, size) && Required(msg) == size && Sendable(|s.mem|, msg)
    requires s.tail + Padding(|s.mem|, s.tail, msg) + size <= s.head + |s.mem|
    ensures Clear(s, msg)
  {
    hide Inv, Sizes, Ix, WordAt, Required, OnGrid, Sendable, GridClear, Padding;
    NonEmpty(s);
    var c := Claim(0, msg, s.tail, Padding(|s.mem|, s.tail, msg));
    TailPlaced(s, msg, c);
    ZeroOnGrid(size);
    GridWordZero(s, size, c.Record());
    if c.pad > 0 {
      GridWordZero(s, size, s.tail);
    }
  }

  lemma ZeroOnGrid(size: nat)
    requires size > 0
    ensures OnGrid(0, size)
  {}

  lemma TailPlaced(s: State, msg: Msg, c: Claim)
    requires Layout(s) && Sendable(|s.mem|, msg) && c == Claim(c.owner, msg, s.tail, Padding(|s.mem|, s.tail, msg))
    ensures Placed(|s.mem|, c)
  {
    hide Placed;
    TailAligned(s);
    Geometry(|s.mem|, c);
  }

  lemma WonUniform(s: State, size: nat, t: nat, msg: Msg, s': State)
    requires Uniform(s, size) && Won(s, t, msg, s') && Required(msg) == size && Inv(s')
    ensures Uniform(s', size)
  {
    hide Inv, OnGrid, Required, Owns, Ix, Padding, Consumed, PadGone;
    WonGridded(s, size, t, msg, s');
    WonGridClear(s, size, t, msg, s');
  }

  lemma WonGridded(s: State, size: nat, t: nat, msg: Msg, s': State)
    requires Inv(s) && size > 0 && Gridded(s, size) && Won(s, t, msg, s') && Required(msg) == size
    ensures Gridded(s', size)
  {
    hide Inv, OnGrid, Required, Ix, ValidMsg, MaxLength;
    NonEmpty(s);
    var c := s'.claims[|s.claims|];
    TailPlaced(s, msg, c);
    ZeroOnGrid(size);
    var i := Ix(c.Record(), |s.mem|);
    GridNext(i, size);
    if i + size < |s.mem| {
      IndexStep(c.Record(), size, |s.mem|);
    } else {
      IndexWrap(c.Record(), |s.mem|);
    }
  }

  lemma WonGridClear(s: State, size: nat, t: nat, msg: Msg, s': State)
    requires |s.mem| > 0 && size > 0 && GridClear(s, size) && Won(s, t, msg, s')
    ensures GridClear(s', size)
  {
    hide OnGrid, Required, Ix, Padding;
    forall g: nat | g + 4 <= |s.mem| && OnGrid(g, size)
      && (forall i :: 0 <= Consumed(s') <= i < |s'.claims| ==> !Owns(s', i, g))
      ensures I32At(s'.mem, g) == 0
    {
      forall i | 0 <= Consumed(s) <= i < |s.claims| ensures !Owns(s, i, g) {
        assert !Owns(s', i, g);
      }
    }
  }

  // ---- Stores ----

  // Storing below the next grid index touches no other grid word.
  lemma GridStore(mem: seq<byte>, i: nat, bs: seq<byte>, base: nat, g: nat, size: nat)
    requires size > 0 && OnGrid(base, size) && OnGrid(g, size) && g != base
    requires base <= i && i + |bs| <= base + size && i + |bs| <= |mem| && g + 4 <= |mem| && size >= 4
    ensures I32At(Splice(mem, i, bs), g) == I32At(mem, g)
  {
    if g < base { GridApart(g, base, size); } else { GridApart(base, g, size); }
  }

  lemma WriteUniform(s: State, size: nat, t: nat, k: nat, stage: Stage, s': State)
    requires Uniform(s, size) && Wrote(s, t, k, stage, s') && Inv(s')
    ensures Uniform(s', size)
  {
    hide Inv, OnGrid, Required, Owns, Ix, StageStore, Next, Consumed;
    WriteGridClear(s, size, t, k, stage, s');
  }

  lemma WriteGridClear(s: State, size: nat, t: nat, k: nat, stage: Stage, s': State)
    requires Uniform(s, size) && Wrote(s, t, k, stage, s')
    ensures GridClear(s', size)
  {
    hide Inv, OnGrid, Required, Ix, StageStore, ConsumerOk, MemoryOk;
    NonEmpty(s);
    assert ProducerOk(s, t);
    forall g: nat | g + 4 <= |s.mem| && OnGrid(g, size)
      && (forall i :: 0 <= Consumed(s') <= i < |s'.claims| ==> !Owns(s', i, g))
      ensures I32At(s'.mem, g) == 0
    {
      forall i | 0 <= Consumed(s) <= i < |s.claims| ensures !Owns(s, i, g) {
        assert !Owns(s', i, g);
      }
      WriteSpares(s, size, k, stage, g);
    }
  }

  lemma WriteSpares(s: State, size: nat, k: nat, stage: Stage, g: nat)
    requires Uniform(s, size) && 0 <= Consumed(s) <= k < |s.claims| && ProgressOf(s, k) == Pending(stage)
    requires stage == AtPadding ==> s.claims[k].pad > 0
    requires g + 4 <= |s.mem| && OnGrid(g, size) && !Owns(s, k, g)
    ensures I32At(StageStore(s.mem, s.claims[k], stage), g) == I32At(s.mem, g)
  {
    hide Inv, OnGrid, Ix, StageStore, ConsumerOk, GridClear, ValidMsg, Splice;
    NonEmpty(s);
    var c := s.claims[k];
    ClaimPlaced(s, k);
    StageInGrid(s.mem, c, stage, size);
    ZeroOnGrid(size);
    var bs, i := StageBytes(c, stage), Ix(StagePosition(c, stage), |s.mem|);
    if stage == AtPadding {
      assert !PadGone(s, k) by { StillPadded(s, k); }
      GridStore(s.mem, i, bs, Ix(c.start, |s.mem|), g, size);
    } else {
      GridStore(s.mem, i, bs, Ix(c.Record(), |s.mem|), g, size);
    }
  }

  lemma StillPadded(s: State, k: nat)
    requires Inv(s) && 0 <= Consumed(s) <= k < |s.claims| && ProgressOf(s, k) == Pending(AtPadding)
    ensures !PadGone(s, k)
  {
    hide Layout, ConsumerOk, ProducersOk, WordAt, BodyAt;
    NonEmpty(s);
    assert ClaimMemory(s.mem, s.claims[k], PadGone(s, k), ProgressOf(s, k));
  }

  // A stage stores within the slot of its claim.
  ghost predicate InSlot(mem: seq<byte>, c: Claim, stage: Stage, size: nat)
    requires |mem| > 0 && ValidMsg(c.msg) && IsI32(-(c.pad as int))
  {
    var bs, i := StageBytes(c, stage), Ix(StagePosition(c, stage), |mem|);
    && i + |bs| <= |mem| && StageStore(mem, c, stage) == Splice(mem, i, bs)
    && var base := Ix(if stage == AtPadding then c.start else c.Record(), |mem|);
       base <= i && i + |bs| <= base + size
  }

  lemma StageInGrid(mem: seq<byte>, c: Claim, stage: Stage, size: nat)
    requires 0 < |mem| < TWO_31 && Placed(|mem|, c) && ValidMsg(c.msg) && IsI32(-(c.pad as int))
    requires stage == AtPadding ==> c.pad > 0
    requires Required(c.msg) == size
    ensures InSlot(mem, c, stage, size)
  {
    hide Placed, Ix, Required, StageStore, StageBytes, Splice, ValidMsg, StageLands, InSlot;
    match stage {
      case AtPadding => PaddingPlace(mem, c); PaddingInSlot(mem, c, size);
      case AtZeroing => BodyPlace(mem, c, stage); RecordInSlot(mem, c, stage, size, 8);
      case AtCopy => BodyPlace(mem, c, stage); RecordInSlot(mem, c, stage, size, 8);
      case AtType => WordPlace(mem, c, stage); RecordInSlot(mem, c, stage, size, 4);
      case AtLength => WordPlace(mem, c, stage); RecordInSlot(mem, c, stage, size, 0);
    }
  }

  lemma PaddingInSlot(mem: seq<byte>, c: Claim, size: nat)
    requires |mem| > 0 && ValidMsg(c.msg) && IsI32(-(c.pad as int)) && Required(c.msg) == size
    requires StageLands(mem, c, AtPadding)
    ensures InSlot(mem, c, AtPadding, size)
  {
    hide Ix, StageStore, Splice, EncI32, Required;
  }

  lemma RecordInSlot(mem: seq<byte>, c: Claim, stage: Stage, size: nat, offset: nat)
    requires |mem| > 0 && Placed(|mem|, c) && ValidMsg(c.msg) && IsI32(-(c.pad as int)) && Required(c.msg) == size
    requires stage != AtPadding && StageLands(mem, c, stage) && StagePosition(c, stage) == c.Record() + offset &&
        offset <= 8
    ensures InSlot(mem, c, stage, size)
  {
    hide Ix, StageStore, StageBytes, StagePosition, Splice, Required, Placed;
    RecordOffset(mem, c, offset);
  }

  lemma RecordOffset(mem: seq<byte>, c: Claim, offset: nat)
    requires |mem| > 0 && Placed(|mem|, c) && offset <= 8
    ensures Ix(c.Record() + offset, |mem|) == Ix(c.Record(), |mem|) + offset
  {
    hide Ix, Required;
    IndexStep(c.Record(), offset, |mem|);
  }

  // ---- The consumer's clearing stores ----

  ghost predicate Unowned(s: State, g: nat)
    requires |s.mem| > 0
  {
    forall i :: 0 <= Consumed(s) <= i < |s.claims| ==> !Owns(s, i, g)
  }

  lemma ClearedGrid(s: State, size: nat, s': State)
    requires Inv(s) && size >= 4 && GridClear(s, size) && s'.mem == Cleared(s)
    requires var n := Ix(Next(s), |s.mem|); n + 4 <= |s.mem| && OnGrid(n, size)
    requires forall g: nat :: g != Ix(Next(s), |s.mem|) && Unowned(s', g) ==> Unowned(s, g)
    ensures GridClear(s', size)
  {
    hide Inv, OnGrid, Ix, Owns, Next, EncI32, Splice;
    var n := Ix(Next(s), |s.mem|);
    assert s'.mem == Splice(s.mem, n, EncI32(0));
    forall g: nat | g + 4 <= |s.mem| && OnGrid(g, size)
      && (forall i :: 0 <= Consumed(s') <= i < |s'.claims| ==> !Owns(s', i, g))
      ensures I32At(s'.mem, g) == 0
    {
      if g == n {
        SplicedWord(s.mem, n);
      } else {
        assert Unowned(s', g);
        GridStore(s.mem, n, EncI32(0), n, g, size);
      }
    }
  }

  lemma SplicedWord(mem: seq<byte>, n: nat)
    requires n + 4 <= |mem|
    ensures I32At(Splice(mem, n, EncI32(0)), n) == 0
  {
    hide EncI32, Signed32, Word;
    var bs := EncI32(0);
    var r := Splice(mem, n, bs);
    assert r[n] == bs[0] && r[n + 1] == bs[1] && r[n + 2] == bs[2] && r[n + 3] == bs[3];
  }

  lemma SkipUniform(s: State, size: nat, s': State)
    requires Uniform(s, size) && Inv(s') && Skipped(s, s')
    ensures Uniform(s', size)
  {
    hide Inv, Sizes, Gridded, GridClear, Skipped;
    SkipGrid(s, size, s');
    SkippedHistory(s, s');
    SameHistory(s, size, s');
  }

  lemma SkippedHistory(s: State, s': State)
    requires Skipped(s, s')
    ensures History(s, s')
  {
    hide Cleared, Ix;
  }

  lemma FinishedHistory(s: State, s': State)
    requires Finished(s, s')
    ensures History(s, s')
  {
    hide Cleared, RoundUp;
  }

  // The step left producers, claims and tail alone.
  ghost predicate History(s: State, s': State) {
    s'.producers == s.producers && s'.claims == s.claims && s'.tail == s.tail && |s'.mem| == |s.mem| > 0
  }

  lemma SameHistory(s: State, size: nat, s': State)
    requires size > 0 && History(s, s') && Sizes(s, size) && Gridded(s, size)
    ensures Sizes(s', size) && Gridded(s', size)
  {
    hide Ix, OnGrid, Required;
  }

  lemma SkipGrid(s: State, size: nat, s': State)
    requires Uniform(s, size) && Skipped(s, s')
    ensures GridClear(s', size)
  {
    hide Inv, OnGrid, Ix, Sizes, GridClear, Next, Consumed, Cleared, ProgressOf, Layout, ConsumerOk;
    NonEmpty(s);
    SkipTarget(s);
    SkipLayout(s, s');
    var c := Consumed(s);
    ClaimPlaced(s, c);
    forall g: nat | g != Ix(Next(s), |s.mem|) && Unowned(s', g) ensures Unowned(s, g) {
      forall i | 0 <= Consumed(s) <= i < |s.claims| ensures !Owns(s, i, g) {
        assert !Owns(s', i, g);
        LiveWindow(s, i);
        LiveWindow(s', i);
      }
    }
    ClearedGrid(s, size, s');
  }

  lemma FinishUniform(s: State, size: nat, s': State)
    requires Uniform(s, size) && Inv(s') && Finished(s, s')
    ensures Uniform(s', size)
  {
    hide Inv, Sizes, Gridded, GridClear, Finished;
    FinishGrid(s, size, s');
    FinishedHistory(s, s');
    SameHistory(s, size, s');
  }

  lemma FinishGrid(s: State, size: nat, s': State)
    requires Uniform(s, size) && Inv(s') && Finished(s, s')
    ensures GridClear(s', size)
  {
    hide Inv, OnGrid, Ix, Sizes, GridClear, Next, Consumed, Cleared, ProgressOf, Layout, ConsumerOk, Required, RoundUp;
    NonEmpty(s);
    NonEmpty(s');
    IsAtHandled(s, s');
    FinishNext(s, s');
    var c := Consumed(s);
    ClaimPlaced(s, c);
    RecordOnGrid(s, size, c);
    forall g: nat | g != Ix(Next(s), |s.mem|) && Unowned(s', g) ensures Unowned(s, g) {
      forall i | 0 <= Consumed(s) <= i < |s.claims| ensures !Owns(s, i, g) {
        LiveWindow(s, i);
        if i > c {
          assert !Owns(s', i, g);
          LiveWindow(s', i);
        }
      }
    }
    ClearedGrid(s, size, s');
  }

  lemma RecordOnGrid(s: State, size: nat, i: nat)
    requires Layout(s) && size > 0 && Gridded(s, size) && i < |s.claims|
    ensures OnGrid(Ix(s.claims[i].Record(), |s.mem|), size)
    ensures Ix(s.claims[i].Record(), |s.mem|) + 4 <= |s.mem|
  {
    hide Ix, Required, Layout;
    ClaimPlaced(s, i);
    ZeroOnGrid(size);
  }

  // ---- Every run ----

  // A consumer step that stores nothing in the region.
  lemma QuietUniform(s: State, size: nat, s': State)
    requires Uniform(s, size) && Inv(s') && History(s, s') && s'.mem == s.mem
    requires Consumed(s') == Consumed(s) && Next(s') == Next(s)
    ensures Uniform(s', size)
  {
    hide Inv, Sizes, Gridded, OnGrid, Ix;
    SameHistory(s, size, s');
    forall g: nat | g + 4 <= |s.mem| && OnGrid(g, size)
      && (forall i :: 0 <= Consumed(s') <= i < |s'.claims| ==> !Owns(s', i, g))
      ensures I32At(s'.mem, g) == 0
    {
      forall i | 0 <= Consumed(s) <= i < |s.claims| ensures !Owns(s, i, g) {
        assert !Owns(s', i, g);
      }
    }
  }

  lemma ConsumeUniform(s: State, size: nat)
    requires Uniform(s, size)
    ensures |s.mem| > 0 && Uniform(ConsumerStep(s), size)
  {
    hide Inv, Sizes, Gridded, GridClear, Store, EncI32, Ix, MessageAt, MaxLength, Consumed, RoundUp, Load;
    NonEmpty(s);
    ConsumerFacts(s);
    ConsumeStep(s);
    var s' := ConsumerStep(s);
    match s.consumer {
      case HasLength(_, _, _, length) =>
        if length < 0 {
          SkipUniform(s, size, s');
        } else {
          QuietConsume(s);
          QuietUniform(s, size, s');
        }
      case Handled(_, _, _, _) => FinishUniform(s, size, s');
      case _ =>
        QuietConsume(s);
        QuietUniform(s, size, s');
    }
  }

  lemma QuietConsume(s: State)
    requires |s.mem| > 0 && Inv(s) && !s.consumer.Handled? && !(s.consumer.HasLength? && s.consumer.length < 0)
    ensures var s' := ConsumerStep(s);
      History(s, s') && s'.mem == s.mem && Consumed(s') == Consumed(s) && Next(s') == Next(s)
  {
    hide Inv, MessageAt, MaxLength, Load, Ix;
    ConsumerFacts(s);
    if s.consumer.HasLength? && s.consumer.length > 0 {
      Deliverable(s);
    }
  }

  ghost predicate UniformAction(a: Action, size: nat) {
    a.Begin? ==> Required(a.msg) == size
  }

  lemma LocalUniform(s: State, size: nat, t: nat, p: Producer)
    requires Uniform(s, size) && t in s.producers && !p.Writing?
    requires Inv(s.(producers := s.producers[t := p]))
    requires p.Idle? || Required(p.msg) == size
    ensures Uniform(s.(producers := s.producers[t := p]), size)
  {
    hide Inv, OnGrid, Ix, Required, Owns;
    var s' := s.(producers := s.producers[t := p]);
    forall g: nat | g + 4 <= |s.mem| && OnGrid(g, size)
      && (forall i :: 0 <= Consumed(s') <= i < |s'.claims| ==> !Owns(s', i, g))
      ensures I32At(s'.mem, g) == 0
    {
      forall i | 0 <= Consumed(s) <= i < |s.claims| ensures !Owns(s, i, g) {
        assert !Owns(s', i, g);
        SameOwner(s, s', i, g);
      }
    }
  }

  lemma SameOwner(s: State, s': State, i: nat, g: nat)
    requires |s.mem| > 0 && i < |s.claims| && s' == s.(producers := s'.producers)
    ensures Owns(s', i, g) == Owns(s, i, g)
  {}

  lemma TryClaimUniform(s: State, size: nat, t: nat)
    requires Uniform(s, size) && t in s.producers && s.producers[t].HasHead?
    ensures |s.mem| > 0 && ClearAction(s, Produce(t)) && Uniform(Act(s, Produce(t)), size)
  {
    hide Inv, Gridded, GridClear, Padding, Required, Clear, Won, Wins;
    NonEmpty(s);
    var HasHead(msg, tail, head) := s.producers[t];
    var s' := Act(s, Produce(t));
    if Wins(s, t) {
      WinsIsWon(s, t);
      RoomAhead(s, t);
      UniformClear(s, size, msg);
      ClaimWon(s, t, msg, s');
      WonUniform(s, size, t, msg, s');
    } else {
      ClaimStep(s, t);
      LosesLocally(s, t);
      LocalUniform(s, size, t, s'.producers[t]);
    }
  }

  lemma RoomAhead(s: State, t: nat)
    requires Layout(s) && ProducersOk(s) && Wins(s, t)
    ensures var msg := s.producers[t].msg;
      Sendable(|s.mem|, msg) && s.tail + Padding(|s.mem|, s.tail, msg) + Required(msg) <= s.head + |s.mem|
  {
    hide Chain, IsPowerOfTwo, Padding, Required, Sendable;
    assert ProducerOk(s, t);
  }

  lemma LosesLocally(s: State, t: nat)
    requires |s.mem| > 0 && t in s.producers && s.producers[t].HasHead? && !Wins(s, t)
    ensures var s' := Act(s, Produce(t));
      && t in s'.producers && s' == s.(producers := s.producers[t := s'.producers[t]])
      && (s'.producers[t].Idle? || s'.producers[t] == Retrying(s.producers[t].msg))
  {
    hide Padding, Required;
  }

  lemma ActUniform(s: State, size: nat, a: Action)
    requires Uniform(s, size) && UniformAction(a, size)
    ensures |s.mem| > 0 && ClearAction(s, a) && Uniform(Act(s, a), size)
  {
    NonEmpty(s);
    match a {
      case Begin(t, msg) =>
        if t in s.producers && s.producers[t].Idle? && Sendable(|s.mem|, msg) {
          ActKeepsInv(s, a);
          LocalUniform(s, size, t, HasTail(msg, s.tail));
        }
      case Produce(t) =>
        if t in s.producers {
          ProduceUniform(s, size, t);
        }
      case Consume => ConsumeUniform(s, size);
    }
  }

  lemma ProduceUniform(s: State, size: nat, t: nat)
    requires Uniform(s, size) && t in s.producers
    ensures |s.mem| > 0 && ClearAction(s, Produce(t)) && Uniform(Act(s, Produce(t)), size)
  {
    hide Inv, Gridded, GridClear, Required, Clear, TryClaim, WriteOn;
    NonEmpty(s);
    match s.producers[t] {
      case Idle =>
      case Retrying(msg) =>
        ActKeepsInv(s, Produce(t));
        LocalUniform(s, size, t, HasTail(msg, s.tail));
      case HasTail(msg, tail) =>
        ActKeepsInv(s, Produce(t));
        LocalUniform(s, size, t, HasHead(msg, tail, s.head));
      case HasHead(_, _, _) => TryClaimUniform(s, size, t);
      case Writing(k, stage) =>
        WritingClaim(s, t);
        ActKeepsInv(s, Produce(t));
        WriteUniform(s, size, t, k, stage, Act(s, Produce(t)));
    }
  }

  lemma WritingClaim(s: State, t: nat)
    requires ProducersOk(s) && t in s.producers && s.producers[t].Writing?
    ensures s.producers[t].claim < |s.claims|
  {
    assert ProducerOk(s, t);
  }

  lemma {:induction false} RunUniform(s: State, size: nat, run: seq<Action>)
    requires Uniform(s, size) && forall i :: 0 <= i < |run| ==> UniformAction(run[i], size)
    ensures |s.mem| > 0 && ClearRun(s, run)
    decreases |run|
  {
    hide Uniform, ClearAction, UniformAction;
    if run == [] {
      UniformNonEmpty(s, size);
    } else {
      assert UniformAction(run[0], size);
      ActUniform(s, size, run[0]);
      RunUniform(Act(s, run[0]), size, run[1..]);
    }
  }

  lemma UniformNonEmpty(s: State, size: nat)
    requires Uniform(s, size)
    ensures |s.mem| > 0
  {}

  lemma InitUniform(capacity: nat, threads: set<nat>, size: nat)
    requires IsPowerOfTwo(capacity) && capacity < TWO_31 && size >= 12
    ensures Uniform(Init(capacity, threads), size)
  {
    hide Inv;
    InitInv(capacity, threads);
    ZeroOnGrid(size);
  }
}
