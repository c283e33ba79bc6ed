/** Two record sizes in one ring buffer: a run in which the consumer takes the stale
    body of an old message for the length of a record not yet published. */
module RingMixed {
  import opened Bits
  import opened Bytes
  import opened Records
  import opened RingSystem

  const CAPACITY: nat := 128

  // A 16-byte record whose second body word reads 8, and an 8-byte record.
  function Large(): Msg { Msg(1, [0, 0, 0, 0, 8, 0, 0, 0]) }
  function Small(): Msg { Msg(1, []) }

  // One idle producer, an idle consumer and nothing pending.
  ghost predicate Quiet(s: State) {
    |s.mem| == CAPACITY && s.head == s.tail && s.producers == map[0 := Idle] && s.consumer.Resting?
  }

  // The region after a message has been written at index i and read again.
  function Used(mem: seq<byte>, i: nat, m: Msg): (mem': seq<byte>)
    requires IsI32(m.typeId) && RecordLength(m) < TWO_31 && i + RecordLength(m) <= |mem|
    ensures |mem'| == |mem|
  {
    Splice(Written(mem, i, m), i, EncI32(0))
  }

  function Written(mem: seq<byte>, i: nat, m: Msg): (mem': seq<byte>)
    requires IsI32(m.typeId) && RecordLength(m) < TWO_31 && i + RecordLength(m) <= |mem|
    ensures |mem'| == |mem|
  {
    var zeroed := Splice(mem, i + 8, Zeros(|m.body|));
    var copied := Splice(zeroed, i + 8, m.body);
    var typed := Splice(copied, i + 4, EncI32(m.typeId));
    Splice(typed, i, EncI32(RecordLength(m)))
  }

  lemma WrittenReads(mem: seq<byte>, i: nat, m: Msg)
    requires IsI32(m.typeId) && RecordLength(m) < TWO_31 && i + RecordLength(m) <= |mem|
    ensures Load(Written(mem, i, m), i) == RecordLength(m)
    ensures MessageAt(Written(mem, i, m), i, RecordLength(m)) == m
  {
    hide EncI32;
    var w := Written(mem, i, m);
    var e, t := EncI32(RecordLength(m)), EncI32(m.typeId);
    assert w[i] == e[0] && w[i + 1] == e[1] && w[i + 2] == e[2] && w[i + 3] == e[3];
    assert w[i + 4] == t[0] && w[i + 5] == t[1] && w[i + 6] == t[2] && w[i + 7] == t[3];
    assert w[i + 8..i + RecordLength(m)] == m.body;
  }

  // Runs compose.
  lemma {:induction false} ExecAppend(s: State, r: seq<Action>, a: Action)
    requires |s.mem| > 0
    ensures Exec(s, r + [a]) == Act(Exec(s, r), a)
    decreases |r|
  {
    if r == [] {
      assert ([] + [a])[1..] == [];
    } else {
      assert (r + [a])[0] == r[0] && (r + [a])[1..] == r[1..] + [a];
      ExecAppend(Act(s, r[0]), r[1..], a);
    }
  }

  // `s` is reached from the initial state by some run of valid messages.
  ghost predicate Reached(s: State) {
    exists run :: Exec(Init(CAPACITY, {0}), run) == s
  }

  lemma ReachedInit()
    ensures Reached(Init(CAPACITY, {0}))
  {
    assert Exec(Init(CAPACITY, {0}), []) == Init(CAPACITY, {0});
  }

  lemma ReachedStep(s: State, a: Action)
    requires |s.mem| > 0 && Reached(s)
    ensures Reached(Act(s, a))
  {
    var run :| Exec(Init(CAPACITY, {0}), run) == s;
    ExecAppend(Init(CAPACITY, {0}), run, a);
    assert Exec(Init(CAPACITY, {0}), run + [a]) == Act(s, a);
  }

  // Claiming, then storing a record at index i of a quiet buffer without padding.
  lemma WriteCycle(s: State, m: Msg) returns (s': State)
    requires Quiet(s) && Reached(s) && Sendable(CAPACITY, m)
    requires Ix(s.tail, CAPACITY) + RecordLength(m) + 4 <= CAPACITY
    ensures Reached(s')
    ensures s' == s.(mem := Written(s.mem, Ix(s.tail, CAPACITY), m), tail := s.tail + Required(m),
                     claims := s.claims + [Claim(0, m, s.tail, 0)])
  {
    hide EncI32, Splice, Reached, Ix, Zeros, Act;
    var k, i := |s.claims|, Ix(s.tail, CAPACITY);
    var s1 := ClaimCycle(s, m);
    var s2 := s1.(mem := Splice(s.mem, i + 8, Zeros(|m.body|)), producers := map[0 := Writing(k, AtCopy)]);
    WritingStep(s1, k, m, i, AtZeroing, s2);
    var s3 := s1.(mem := Splice(s2.mem, i + 8, m.body), producers := map[0 := Writing(k, AtType)]);
    WritingStep(s2, k, m, i, AtCopy, s3);
    var s4 := s1.(mem := Splice(s3.mem, i + 4, EncI32(m.typeId)), producers := map[0 := Writing(k, AtLength)]);
    WritingStep(s3, k, m, i, AtType, s4);
    s' := s1.(mem := Splice(s4.mem, i, EncI32(RecordLength(m))), producers := map[0 := Idle]);
    WritingStep(s4, k, m, i, AtLength, s');
  }

  // One store of the record at index i.
  lemma WritingStep(s: State, k: nat, m: Msg, i: nat, stage: Stage, s': State)
    requires Reached(s) && |s.mem| == CAPACITY && k < |s.claims| && s.claims[k] == Claim(0, m, s.claims[k].start, 0)
    requires Sendable(CAPACITY, m) && Ix(s.claims[k].start, CAPACITY) == i && i + RecordLength(m) + 4 <= CAPACITY
    requires s.producers == map[0 := Writing(k, stage)]
    requires match stage
             case AtZeroing => s' ==
                 s.(mem := Splice(s.mem, i + 8, Zeros(|m.body|)), producers := map[0 := Writing(k, AtCopy)])
             case AtCopy => s' == s.(mem := Splice(s.mem, i + 8, m.body), producers := map[0 := Writing(k, AtType)])
             case AtType => s' ==
                 s.(mem := Splice(s.mem, i + 4, EncI32(m.typeId)), producers := map[0 := Writing(k, AtLength)])
             case AtLength => s' == s.(mem := Splice(s.mem, i, EncI32(RecordLength(m))), producers := map[0 := Idle])
             case AtPadding => false
    ensures Reached(s')
  {
    hide EncI32, Splice, Reached, Ix, Zeros;
    ReachedStep(s, Produce(0));
    assert Act(s, Produce(0)) == s';
  }

  lemma ClaimCycle(s: State, m: Msg) returns (s': State)
    requires Quiet(s) && Reached(s) && Sendable(CAPACITY, m)
    requires Ix(s.tail, CAPACITY) + RecordLength(m) + 4 <= CAPACITY
    ensures Reached(s')
    ensures s' == s.(tail := s.tail + Required(m), claims := s.claims + [Claim(0, m, s.tail, 0)],
                     producers := map[0 := Writing(|s.claims|, AtZeroing)])
  {
    hide Reached, Ix;
    ReachedStep(s, Begin(0, m));
    var s1 := s.(producers := map[0 := HasTail(m, s.tail)]);
    assert Act(s, Begin(0, m)) == s1;
    ReachedStep(s1, Produce(0));
    var s2 := s.(producers := map[0 := HasHead(m, s.tail, s.head)]);
    assert Act(s1, Produce(0)) == s2;
    ReachedStep(s2, Produce(0));
    s' := Act(s2, Produce(0));
  }

  // The consumer reads the one record at its head, without padding.
  lemma ReadCycle(s: State, m: Msg) returns (s': State)
    requires |s.mem| == CAPACITY && Reached(s) && s.consumer.Resting? && Sendable(CAPACITY, m)
    requires s.tail == s.head + Required(m) && Ix(s.head, CAPACITY) + RecordLength(m) <= CAPACITY
    requires var i := Ix(s.head, CAPACITY);
      Load(s.mem, i) == RecordLength(m) && MessageAt(s.mem, i, RecordLength(m)) == m
    ensures Reached(s')
    ensures s' ==
        s.(mem := Splice(s.mem, Ix(s.head, CAPACITY), EncI32(0)), head := s.tail, delivered := s.delivered + [m])
  {
    hide EncI32, Splice, Reached, Ix, Load, MessageAt;
    var h, t, i := s.head, s.tail, Ix(s.head, CAPACITY);
    ReachedStep(s, Consume);
    var s1 := s.(consumer := HasOldHead(h));
    ReachedStep(s1, Consume);
    var s2 := s.(consumer := Scanning(h, h, t));
    ReachedStep(s2, Consume);
    var s3 := s.(consumer := HasLength(h, h, t, RecordLength(m)));
    ReachedStep(s3, Consume);
    var s4 := s.(delivered := s.delivered + [m], consumer := Handled(h, h, t, RecordLength(m)));
    assert Act(s3, Consume) == s4;
    ReachedStep(s4, Consume);
    var s5 := s.(mem := Splice(s.mem, i, EncI32(0)), delivered := s.delivered + [m], consumer := Scanning(h, t, t));
    assert Act(s4, Consume) == s5;
    ReachedStep(s5, Consume);
    s' := Act(s5, Consume);
  }

  lemma Cycle(s: State, m: Msg) returns (s': State)
    requires Quiet(s) && Reached(s) && Sendable(CAPACITY, m)
    requires Ix(s.tail, CAPACITY) + RecordLength(m) + 4 <= CAPACITY
    ensures Quiet(s') && Reached(s') && s'.tail == s.tail + Required(m)
    ensures s'.mem == Used(s.mem, Ix(s.tail, CAPACITY), m)
    ensures s'.delivered == s.delivered + [m] && |s'.claims| == |s.claims| + 1
  {
    hide EncI32, Splice, Reached, Ix, Load, MessageAt, Written;
    var w := WriteCycle(s, m);
    WrittenReads(s.mem, Ix(s.tail, CAPACITY), m);
    s' := ReadCycle(w, m);
  }

  // The small record does not fit behind position 120: it is written at index 0,
  // after a padding record, and both are read.
  lemma WrapCycle(s: State) returns (s': State)
    requires Quiet(s) && Reached(s) && s.tail == 120
    ensures Quiet(s') && Reached(s') && s'.tail == 140
    ensures s'.mem == WrapUsed(s.mem)
    ensures s'.delivered == s.delivered + [Small()] && |s'.claims| == |s.claims| + 1
  {
    hide EncI32, Splice, Reached, Written;
    var w := WrapWrite(s);
    s' := WrapRead(w, s.mem);
  }

  // The region after the padding record at 120 and the small record at 0.
  function WrapUsed(mem: seq<byte>): seq<byte>
    requires |mem| == CAPACITY
  {
    var written := Written(Splice(mem, 120, EncI32(-8)), 0, Small());
    Splice(Splice(written, 120, EncI32(0)), 0, EncI32(0))
  }

  lemma WrapWrite(s: State) returns (s': State)
    requires Quiet(s) && Reached(s) && s.tail == 120
    ensures Reached(s')
    ensures s' == s.(mem := Written(Splice(s.mem, 120, EncI32(-8)), 0, Small()), tail := 140,
                     claims := s.claims + [Claim(0, Small(), 120, 8)])
  {
    hide EncI32, Splice, Reached, Zeros;
    var k, m := |s.claims|, Small();
    var s1 := WrapClaim(s);
    ReachedStep(s1, Produce(0));
    var p := s1.(mem := Splice(s.mem, 120, EncI32(-8)), producers := map[0 := Writing(k, AtZeroing)]);
    assert Act(s1, Produce(0)) == p;
    ReachedStep(p, Produce(0));
    var s2 := s1.(mem := Splice(p.mem, 8, Zeros(0)), producers := map[0 := Writing(k, AtCopy)]);
    assert Act(p, Produce(0)) == s2;
    ReachedStep(s2, Produce(0));
    var s3 := s1.(mem := Splice(s2.mem, 8, []), producers := map[0 := Writing(k, AtType)]);
    assert Act(s2, Produce(0)) == s3;
    ReachedStep(s3, Produce(0));
    var s4 := s1.(mem := Splice(s3.mem, 4, EncI32(1)), producers := map[0 := Writing(k, AtLength)]);
    assert Act(s3, Produce(0)) == s4;
    ReachedStep(s4, Produce(0));
    s' := s1.(mem := Splice(s4.mem, 0, EncI32(8)), producers := map[0 := Idle]);
    assert Act(s4, Produce(0)) == s';
  }

  lemma WrapClaim(s: State) returns (s': State)
    requires Quiet(s) && Reached(s) && s.tail == 120
    ensures Reached(s')
    ensures s' == s.(tail := 140, claims := s.claims + [Claim(0, Small(), 120, 8)],
                     producers := map[0 := Writing(|s.claims|, AtPadding)])
  {
    hide Reached;
    var m := Small();
    ReachedStep(s, Begin(0, m));
    var s1 := s.(producers := map[0 := HasTail(m, s.tail)]);
    assert Act(s, Begin(0, m)) == s1;
    ReachedStep(s1, Produce(0));
    var s2 := s.(producers := map[0 := HasHead(m, s.tail, s.head)]);
    assert Act(s1, Produce(0)) == s2;
    ReachedStep(s2, Produce(0));
    s' := Act(s2, Produce(0));
  }

  lemma WrapRead(s: State, old': seq<byte>) returns (s': State)
    requires Reached(s) && s.head == 120 && s.tail == 140 && s.consumer.Resting?
    requires |old'| == CAPACITY && s.mem == Written(Splice(old', 120, EncI32(-8)), 0, Small())
    ensures Reached(s')
    ensures s' == s.(mem := Splice(Splice(s.mem, 120, EncI32(0)), 0, EncI32(0)), head := 140,
                     delivered := s.delivered + [Small()])
  {
    hide EncI32, Splice, Reached, Load, MessageAt, Written;
    var m, mem := Small(), Splice(s.mem, 120, EncI32(0));
    WrapLoads(old', s.mem, mem);
    ReachedStep(s, Consume);
    var s1 := s.(consumer := HasOldHead(120));
    ReachedStep(s1, Consume);
    var s2 := s.(consumer := Scanning(120, 120, 140));
    ReachedStep(s2, Consume);
    var s3 := s.(consumer := HasLength(120, 120, 140, -8));
    ReachedStep(s3, Consume);
    var s4 := s.(mem := mem, consumer := Scanning(120, 128, 140));
    assert Act(s3, Consume) == s4;
    ReachedStep(s4, Consume);
    var s5 := s.(mem := mem, consumer := HasLength(120, 128, 140, 8));
    assert Act(s4, Consume) == s5;
    ReachedStep(s5, Consume);
    var s6 := s.(mem := mem, delivered := s.delivered + [m], consumer := Handled(120, 128, 140, 8));
    assert Act(s5, Consume) == s6;
    ReachedStep(s6, Consume);
    var s7 := s.(mem := Splice(mem, 0, EncI32(0)), delivered := s.delivered + [m], consumer := Scanning(120, 140, 140));
    assert Act(s6, Consume) == s7;
    ReachedStep(s7, Consume);
    s' := Act(s7, Consume);
  }

  lemma WrapLoads(old': seq<byte>, mem: seq<byte>, cleared: seq<byte>)
    requires |old'| == CAPACITY && mem == Written(Splice(old', 120, EncI32(-8)), 0, Small())
    requires cleared == Splice(mem, 120, EncI32(0))
    ensures Load(mem, 120) == -8 && Load(cleared, 0) == 8 && MessageAt(cleared, 0, 8) == Small()
  {
    hide EncI32;
    var e := EncI32(-8);
    WrittenReads(Splice(old', 120, EncI32(-8)), 0, Small());
    assert mem[120] == e[0] && mem[121] == e[1] && mem[122] == e[2] && mem[123] == e[3];
    assert forall k :: 0 <= k < 8 ==> cleared[k] == mem[k];
  }

  // ---- The run ----

  // Bytes 12 to 20 after the large record at index 0: the word 8, then a zero word.
  ghost predicate Stale(mem: seq<byte>) {
    |mem| == CAPACITY && mem[12..20] == [8, 0, 0, 0, 0, 0, 0, 0]
  }

  lemma UsedKeepsStale(mem: seq<byte>, i: nat, m: Msg)
    requires Stale(mem) && IsI32(m.typeId) && RecordLength(m) < TWO_31
    requires i + RecordLength(m) <= 12 || (20 <= i && i + RecordLength(m) <= CAPACITY)
    ensures Stale(Used(mem, i, m))
  {
    hide EncI32;
    var u := Used(mem, i, m);
    assert forall k :: 12 <= k < 20 ==> u[k] == mem[k];
    assert mem[12..20] == u[12..20];
  }

  lemma LargeLeavesStale(mem: seq<byte>)
    requires mem == Zeros(CAPACITY)
    ensures Stale(Used(mem, 0, Large()))
  {
    hide Used;
    UsedBytes(mem, Large());
    StaleBytes(Used(mem, 0, Large()));
  }

  lemma StaleBytes(mem: seq<byte>)
    requires |mem| == CAPACITY && (forall k :: 8 <= k < 16 ==> mem[k] == Large().body[k - 8])
    requires forall k :: 16 <= k < CAPACITY ==> mem[k] == 0
    ensures Stale(mem)
  {
    assert mem[12..20] == [mem[12], mem[13], mem[14], mem[15], mem[16], mem[17], mem[18], mem[19]];
  }

  // A used record leaves its body behind, and what follows it as it was.
  lemma UsedBytes(mem: seq<byte>, m: Msg)
    requires IsI32(m.typeId) && RecordLength(m) < TWO_31 && RecordLength(m) <= |mem|
    ensures forall k :: 8 <= k < RecordLength(m) ==> Used(mem, 0, m)[k] == m.body[k - 8]
    ensures forall k :: RecordLength(m) <= k < |mem| ==> Used(mem, 0, m)[k] == mem[k]
  {
    hide EncI32, Splice;
  }

  // Six large records, each read before the next is written.
  lemma SixCycles() returns (s: State)
    ensures Quiet(s) && Reached(s) && s.tail == 120 && Stale(s.mem)
    ensures s.delivered == [Large(), Large(), Large(), Large(), Large(), Large()] && |s.claims| == 6
  {
    hide Reached, Stale, Used;
    var s0 := Init(CAPACITY, {0});
    assert s0.producers == map[0 := Idle];
    ReachedInit();
    var s1 := Cycle(s0, Large());
    LargeLeavesStale(s0.mem);
    var s2 := StaleCycle(s1);
    var s3 := StaleCycle(s2);
    var s4 := StaleCycle(s3);
    var s5 := StaleCycle(s4);
    s := StaleCycle(s5);
  }

  lemma StaleCycle(s: State) returns (s': State)
    requires Quiet(s) && Reached(s) && 20 <= s.tail <= 100 && Stale(s.mem)
    ensures Quiet(s') && Reached(s') && s'.tail == s.tail + 20 && Stale(s'.mem)
    ensures s'.delivered == s.delivered + [Large()] && |s'.claims| == |s.claims| + 1
  {
    hide Reached, Stale, Used;
    s' := Cycle(s, Large());
    UsedKeepsStale(s.mem, s.tail, Large());
  }

  /** With records of 16 and 8 bytes in a region of 128, a run of valid messages ends
      with the handler given a message no producer wrote. */
  lemma MixedSizesDeliverGarbage() returns (s: State)
    ensures Reached(s)
    ensures |s.delivered| == |s.claims| == 8
    ensures s.delivered[7] == Msg(0, []) && s.claims[7].msg == Msg(1, [])
    ensures s.producers == map[0 := Writing(7, AtZeroing)]
  {
    hide Reached, Stale, Used, WrapUsed;
    var a := SixCycles();
    var b := WrapCycle(a);
    WrapKeepsStale(a.mem);
    var c := ClaimCycle(b, Small());
    s := StaleRead(c);
  }

  lemma WrapKeepsStale(mem: seq<byte>)
    requires Stale(mem)
    ensures Stale(WrapUsed(mem))
  {
    hide EncI32;
    var u := WrapUsed(mem);
    assert forall k :: 12 <= k < 20 ==> u[k] == mem[k];
    assert u[12..20] == mem[12..20];
  }

  lemma StaleRead(s: State) returns (s': State)
    requires Reached(s) && s.consumer.Resting? && s.head == 140 && s.tail == 152
    requires |s.mem| == CAPACITY && Stale(s.mem)
    ensures Reached(s')
    ensures s' == s.(delivered := s.delivered + [Msg(0, [])], consumer := Handled(140, 140, 152, 8))
  {
    hide Reached, Stale, Load, MessageAt;
    StaleLoads(s.mem);
    ReachedStep(s, Consume);
    var s1 := s.(consumer := HasOldHead(140));
    ReachedStep(s1, Consume);
    var s2 := s.(consumer := Scanning(140, 140, 152));
    ReachedStep(s2, Consume);
    var s3 := s.(consumer := HasLength(140, 140, 152, 8));
    assert Act(s2, Consume) == s3;
    ReachedStep(s3, Consume);
    s' := Act(s3, Consume);
  }

  lemma StaleLoads(mem: seq<byte>)
    requires Stale(mem)
    ensures Load(mem, 12) == 8 && MessageAt(mem, 12, 8) == Msg(0, [])
  {
    var w := mem[12..20];
    StaleWords(mem, w[0], w[1], w[2], w[3], w[4], w[5], w[6], w[7]);
  }

  lemma StaleWords(mem: seq<byte>, a0: byte, a1: byte, a2: byte, a3: byte, b0: byte, b1: byte, b2: byte, b3: byte)
    requires |mem| == CAPACITY && a0 == 8 && a1 == a2 == a3 == b0 == b1 == b2 == b3 == 0
    requires mem[12] == a0 && mem[13] == a1 && mem[14] == a2 && mem[15] == a3
    requires mem[16] == b0 && mem[17] == b1 && mem[18] == b2 && mem[19] == b3
    ensures Load(mem, 12) == 8 && MessageAt(mem, 12, 8) == Msg(0, [])
  {
    assert Load(mem, 12) == 8 && Load(mem, 12 + 4) == 0;
    EmptyBody(mem);
  }

  lemma EmptyBody(mem: seq<byte>)
    requires |mem| == CAPACITY
    ensures MessageAt(mem, 12, 8).typeId == Load(mem, 16) && MessageAt(mem, 12, 8).body == []
  {
    hide Load;
    assert |MessageAt(mem, 12, 8).body| == 0;
  }
}
