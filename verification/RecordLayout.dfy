/** A run of published records in a message buffer, as the sequential ring buffer
    and the broadcast buffer keep it. */
module RecordLayout {
  import opened Bits
  import opened Bytes
  import opened Records

  ghost predicate RecordAt(mem: seq<byte>, p: nat, m: Msg)
    requires |mem| > 0
  {
    && WordAt(mem, p) == RecordLength(m)
    && WordAt(mem, p + 4) == m.typeId
    && BodyAt(mem, p + 8, m.body)
  }

  function Claimed(capacity: nat, pos: nat, m: Msg): nat
    requires capacity > 0
  {
    Padding(capacity, pos, m) + Required(m)
  }

  /** From `pos` up to `tail` the region holds the records of `msgs`, in order, each
      behind a padding record where it does not fit before the end of the region. */
  ghost predicate Holds(mem: seq<byte>, pos: nat, tail: nat, msgs: seq<Msg>)
    decreases |msgs|
  {
    && |mem| > 0
    && if msgs == [] then pos == tail else
       var m := msgs[0];
       var pad := Padding(|mem|, pos, m);
       && ValidMsg(m) && RecordLength(m) <= |mem|
       && (pad > 0 ==> WordAt(mem, pos) == -(pad as int))
       && HoldsRecord(mem, pos + pad, tail, msgs)
  }

  // The same from a position at the first record itself, past its padding.
  ghost predicate HoldsRecord(mem: seq<byte>, p: nat, tail: nat, msgs: seq<Msg>)
    requires |mem| > 0 && msgs != []
    decreases |msgs|, 0
  {
    && RecordAt(mem, p, msgs[0])
    && p + Required(msgs[0]) <= tail
    && Holds(mem, p + Required(msgs[0]), tail, msgs[1..])
  }

  lemma {:induction false} HoldsOrder(mem: seq<byte>, pos: nat, tail: nat, msgs: seq<Msg>)
    requires Holds(mem, pos, tail, msgs)
    ensures pos <= tail && (msgs != [] ==> pos < tail)
  {
    hide RecordAt, Padding;
  }

  lemma RecordFrame(mem: seq<byte>, mem': seq<byte>, p: nat, m: Msg)
    requires Agree(mem, mem', p, p + Required(m)) && RecordAt(mem, p, m)
    ensures RecordAt(mem', p, m)
  {
    hide At;
    assert forall k :: 0 <= k < |m.body| ==> At(mem', p + 8 + k) == m.body[k];
  }

  /** The layout depends on the bytes between its ends only. */
  lemma {:induction false} HoldsFrame(mem: seq<byte>, mem': seq<byte>, pos: nat, tail: nat, msgs: seq<Msg>)
    requires Holds(mem, pos, tail, msgs) && Agree(mem, mem', pos, tail)
    ensures Holds(mem', pos, tail, msgs)
    decreases |msgs|
  {
    hide RecordAt, At;
    if msgs != [] {
      var m := msgs[0];
      var p := pos + Padding(|mem|, pos, m);
      RecordFrame(mem, mem', p, m);
      HoldsFrame(mem, mem', p + Required(m), tail, msgs[1..]);
      assert Agree(mem, mem', pos, pos + 4);
      SameWord(mem, mem', pos);
    }
  }

  lemma SameWord(mem: seq<byte>, mem': seq<byte>, p: nat)
    requires Agree(mem, mem', p, p + 4)
    ensures WordAt(mem', p) == WordAt(mem, p)
  {}

  /** A record stored at the tail extends the layout by its message. */
  lemma {:induction false} HoldsAppend(mem: seq<byte>, pos: nat, tail: nat, msgs: seq<Msg>, m: Msg)
    requires Holds(mem, pos, tail, msgs) && ValidMsg(m) && RecordLength(m) <= |mem|
    requires var pad := Padding(|mem|, tail, m);
      (pad > 0 ==> WordAt(mem, tail) == -(pad as int)) && RecordAt(mem, tail + pad, m)
    ensures Holds(mem, pos, tail + Claimed(|mem|, tail, m), msgs + [m])
    decreases |msgs|
  {
    hide RecordAt, WordAt, ValidMsg, Required, Padding;
    if msgs == [] {
      assert (msgs + [m])[1..] == [];
      assert HoldsRecord(mem, tail + Padding(|mem|, tail, m), tail + Claimed(|mem|, tail, m), msgs + [m]);
    } else {
      var next := pos + Padding(|mem|, pos, msgs[0]) + Required(msgs[0]);
      assert (msgs + [m])[1..] == msgs[1..] + [m];
      HoldsAppend(mem, next, tail, msgs[1..], m);
      HoldsOrder(mem, next, tail, msgs[1..]);
    }
  }

  /** Where a record claimed at `tail` is placed. */
  lemma Placement(capacity: nat, tail: nat, m: Msg)
    requires capacity % 4 == 0 && capacity > 0 && tail % 4 == 0 && Required(m) <= capacity
    ensures var pad := Padding(capacity, tail, m);
      && Ix(tail, capacity) + 4 <= capacity
      && (pad > 0 ==> pad >= 4 && pad == capacity - Ix(tail, capacity))
      && Ix(tail + pad, capacity) == (if pad > 0 then 0 else Ix(tail, capacity))
      && Ix(tail + pad, capacity) + Required(m) <= capacity
      && (tail + pad + Required(m)) % 4 == 0
  {
    hide Ix;
    IndexAligned(tail, capacity);
    IndexWrap(tail, capacity);
    Fit(capacity, Ix(tail, capacity), tail, RecordLength(m) + 4, Padding(capacity, tail, m), Required(m));
  }

  lemma Fit(capacity: nat, i: nat, tail: nat, need: nat, pad: nat, required: nat)
    requires capacity % 4 == 0 && i % 4 == 0 && tail % 4 == 0 && required % 4 == 0
    requires i + 4 <= capacity && need <= required < need + 4
    requires pad == if capacity - i < need then capacity - i else 0
    ensures (tail + pad + required) % 4 == 0
    ensures pad == 0 ==> i + required <= capacity
  {}

  /** What the code reads at the index of a record. */
  lemma RecordReads(mem: seq<byte>, p: nat, m: Msg)
    requires |mem| > 0 && RecordAt(mem, p, m) && Ix(p, |mem|) + RecordLength(m) <= |mem|
    ensures var i := Ix(p, |mem|);
      && I32At(mem, i) == RecordLength(m) && I32At(mem, i + 4) == m.typeId
      && mem[i + 8..i + RecordLength(m)] == m.body
  {
    hide Ix, At, WordAt;
    IndexStep(p, 4, |mem|);
    if |m.body| > 0 { IndexStep(p, 8, |mem|); }
    WordIsIndexed(mem, p);
    WordIsIndexed(mem, p + 4);
    if |m.body| > 0 {
      BodyUnique(mem, p + 8, m.body);
    }
  }

  /** The stores of a record at index i, the length word last. */
  function Recorded(mem: seq<byte>, i: nat, m: Msg): (mem': seq<byte>)
    requires ValidMsg(m) && i + RecordLength(m) <= |mem|
    ensures |mem'| == |mem|
  {
    Splice(Splice(Splice(mem, i + 8, m.body), i + 4, EncI32(m.typeId)), i, EncI32(RecordLength(m)))
  }

  function RecordBytes(m: Msg): (bs: seq<byte>)
    requires ValidMsg(m)
    ensures |bs| == RecordLength(m)
  {
    EncI32(RecordLength(m)) + EncI32(m.typeId) + m.body
  }

  lemma RecordedIsSplice(mem: seq<byte>, i: nat, m: Msg)
    requires ValidMsg(m) && i + RecordLength(m) <= |mem|
    ensures Recorded(mem, i, m) == Splice(mem, i, RecordBytes(m))
  {
    hide EncI32;
    var a, b := Recorded(mem, i, m), Splice(mem, i, RecordBytes(m));
    assert forall k :: 0 <= k < |mem| ==> a[k] == b[k];
  }

  lemma RecordedAt(mem: seq<byte>, p: nat, m: Msg, lo: nat, hi: nat)
    requires |mem| > 0 && ValidMsg(m) && Ix(p, |mem|) + RecordLength(m) <= |mem|
    requires lo <= p && p + RecordLength(m) <= hi <= lo + |mem|
    ensures RecordAt(Recorded(mem, Ix(p, |mem|), m), p, m)
    ensures forall r :: lo <= r < hi && !(p <= r < p + RecordLength(m)) ==>
      At(Recorded(mem, Ix(p, |mem|), m), r) == At(mem, r)
  {
    hide Ix, At, EncI32, Splice, Recorded, RecordBytes;
    RecordedIsSplice(mem, Ix(p, |mem|), m);
    StoreAt(mem, p, RecordBytes(m), lo, hi);
    RecordOfBytes(Recorded(mem, Ix(p, |mem|), m), p, m);
  }

  lemma RecordOfBytes(mem: seq<byte>, p: nat, m: Msg)
    requires |mem| > 0 && ValidMsg(m)
    requires forall k :: 0 <= k < RecordLength(m) ==> At(mem, p + k) == RecordBytes(m)[k]
    ensures RecordAt(mem, p, m)
  {
    hide At, EncI32;
    var bs, e, t := RecordBytes(m), EncI32(RecordLength(m)), EncI32(m.typeId);
    assert bs[0] == e[0] && bs[1] == e[1] && bs[2] == e[2] && bs[3] == e[3];
    assert bs[4] == t[0] && bs[5] == t[1] && bs[6] == t[2] && bs[7] == t[3];
    forall k | 0 <= k < |m.body| ensures At(mem, p + 8 + k) == m.body[k] {
      assert At(mem, p + (8 + k)) == bs[8 + k];
    }
  }

  lemma WordKept(mem: seq<byte>, mem': seq<byte>, p: nat)
    requires |mem| == |mem'| > 0 && forall k :: p <= k < p + 4 ==> At(mem', k) == At(mem, k)
    ensures WordAt(mem', p) == WordAt(mem, p)
  {}

  /** The region after `m` has been stored at `tail`: its padding record, if the
      record does not fit before the end, then the record itself. */
  function Stored(mem: seq<byte>, tail: nat, m: Msg): (mem': seq<byte>)
    requires 0 < |mem| < TWO_31 && |mem| % 4 == 0 && tail % 4 == 0 && ValidMsg(m) && Required(m) <= |mem|
    ensures |mem'| == |mem|
  {
    Placement(|mem|, tail, m);
    var pad := Padding(|mem|, tail, m);
    Recorded(Padded(mem, tail, pad), Ix(tail + pad, |mem|), m)
  }

  function Padded(mem: seq<byte>, tail: nat, pad: nat): (mem': seq<byte>)
    requires 0 < |mem| < TWO_31 && Ix(tail, |mem|) + 4 <= |mem| && pad <= |mem|
    ensures |mem'| == |mem|
  {
    if pad > 0 then Splice(mem, Ix(tail, |mem|), EncI32(-(pad as int))) else mem
  }

  lemma PaddedAt(mem: seq<byte>, head: nat, tail: nat, pad: nat, hi: nat)
    requires 0 < |mem| < TWO_31 && Ix(tail, |mem|) + 4 <= |mem| && pad <= |mem|
    requires head <= tail && tail + 4 <= hi <= head + |mem|
    ensures pad > 0 ==> WordAt(Padded(mem, tail, pad), tail) == -(pad as int)
    ensures forall r :: head <= r < hi && !(tail <= r < tail + 4) ==> At(Padded(mem, tail, pad), r) == At(mem, r)
  {
    hide Ix, At, WordAt, Splice, EncI32;
    if pad > 0 {
      StoreWord(mem, tail, -(pad as int), head, hi);
    }
  }

  /** Storing a message in free space keeps the layout and adds the message. */
  lemma StoredExtends(mem: seq<byte>, head: nat, tail: nat, msgs: seq<Msg>, m: Msg)
    requires 0 < |mem| < TWO_31 && |mem| % 4 == 0 && tail % 4 == 0 && ValidMsg(m)
    requires Holds(mem, head, tail, msgs) && tail + Claimed(|mem|, tail, m) <= head + |mem|
    ensures Required(m) <= |mem|
    ensures Holds(Stored(mem, tail, m), head, tail + Claimed(|mem|, tail, m), msgs + [m])
    ensures (tail + Claimed(|mem|, tail, m)) % 4 == 0
    ensures forall r :: head <= r < tail ==> At(Stored(mem, tail, m), r) == At(mem, r)
  {
    hide Ix, At, WordAt, RecordAt, Required, Padding, Padded, Recorded, ValidMsg;
    HoldsOrder(mem, head, tail, msgs);
    StoredAt(mem, head, tail, m);
    HoldsFrame(mem, Stored(mem, tail, m), head, tail, msgs);
    HoldsAppend(Stored(mem, tail, m), head, tail, msgs, m);
    Placement(|mem|, tail, m);
  }

  lemma StoredAt(mem: seq<byte>, head: nat, tail: nat, m: Msg)
    requires 0 < |mem| < TWO_31 && |mem| % 4 == 0 && tail % 4 == 0 && ValidMsg(m)
    requires head <= tail && tail + Claimed(|mem|, tail, m) <= head + |mem|
    ensures Required(m) <= |mem|
    ensures Agree(mem, Stored(mem, tail, m), head, tail)
    ensures var pad := Padding(|mem|, tail, m);
      && (pad > 0 ==> WordAt(Stored(mem, tail, m), tail) == -(pad as int))
      && RecordAt(Stored(mem, tail, m), tail + pad, m)
  {
    hide Ix, At, WordAt, RecordAt, Required, Padding, Padded, Recorded;
    Placement(|mem|, tail, m);
    var pad, hi := Padding(|mem|, tail, m), tail + Claimed(|mem|, tail, m);
    PaddedAt(mem, head, tail, pad, hi);
    RecordedAt(Padded(mem, tail, pad), tail + pad, m, head, hi);
    if pad > 0 {
      WordKept(Padded(mem, tail, pad), Stored(mem, tail, m), tail);
    }
  }

  // ---- Reading ----

  // What is pending when the read loop stands at `pos`, possibly past a padding record.
  ghost predicate Pending(mem: seq<byte>, pos: nat, tail: nat, msgs: seq<Msg>, padGone: bool) {
    |mem| > 0 && if padGone then msgs != [] && ValidMsg(msgs[0]) && HoldsRecord(mem, pos, tail, msgs)
                                 && Ix(pos, |mem|) + Required(msgs[0]) <= |mem|
                 else Holds(mem, pos, tail, msgs)
  }

  lemma PendingStarts(mem: seq<byte>, pos: nat, tail: nat, msgs: seq<Msg>)
    requires Holds(mem, pos, tail, msgs)
    ensures pos <= tail && Pending(mem, pos, tail, msgs, false)
  {
    HoldsOrder(mem, pos, tail, msgs);
  }

  // The loop stands at a padding record, or at the record of the first message.
  ghost predicate AtPad(mem: seq<byte>, pos: nat, msgs: seq<Msg>, padGone: bool)
    requires |mem| > 0
  {
    !padGone && msgs != [] && Padding(|mem|, pos, msgs[0]) > 0
  }

  // Whatever is pending fits the region.
  lemma PendingFits(mem: seq<byte>, pos: nat, tail: nat, msgs: seq<Msg>, padGone: bool)
    requires Pending(mem, pos, tail, msgs, padGone) && pos < tail <= pos + |mem|
    requires |mem| >= 4 ==> |mem| % 4 == 0
    ensures msgs != [] && ValidMsg(msgs[0]) && 12 <= Required(msgs[0]) <= |mem| && |mem| % 4 == 0
  {
    hide RecordAt, Padding;
    if !padGone {
      HoldsFirst(mem, pos, tail, msgs);
      HoldsRecordOrder(mem, pos + Padding(|mem|, pos, msgs[0]), tail, msgs);
    } else {
      HoldsRecordOrder(mem, pos, tail, msgs);
    }
  }

  lemma PendingFirst(mem: seq<byte>, pos: nat, tail: nat, msgs: seq<Msg>, padGone: bool)
    requires Pending(mem, pos, tail, msgs, padGone) && pos < tail <= pos + |mem| && pos % 4 == 0
    requires |mem| >= 4 ==> |mem| % 4 == 0
    ensures msgs != [] && ValidMsg(msgs[0]) && Required(msgs[0]) <= |mem| && |mem| % 4 == 0
    ensures Ix(pos, |mem|) + 4 <= |mem|
    ensures RoundUp(RecordLength(msgs[0]) + 4, 4) == Required(msgs[0])
    ensures AtPad(mem, pos, msgs, padGone) ==>
      I32At(mem, Ix(pos, |mem|)) == -(|mem| - Ix(pos, |mem|)) < 0
    ensures !AtPad(mem, pos, msgs, padGone) ==>
      var i := Ix(pos, |mem|);
      && i + Required(msgs[0]) <= |mem|
      && I32At(mem, i) == RecordLength(msgs[0]) && I32At(mem, i + 4) == msgs[0].typeId
      && mem[i + 8..i + RecordLength(msgs[0])] == msgs[0].body
  {
    hide Ix, At, WordAt, I32At, RecordAt;
    PendingFits(mem, pos, tail, msgs, padGone);
    Placement(|mem|, pos, msgs[0]);
    if AtPad(mem, pos, msgs, padGone) {
      WordIsIndexed(mem, pos);
    } else {
      assert HoldsRecord(mem, pos, tail, msgs);
      RecordReads(mem, pos, msgs[0]);
    }
  }

  // The region with the word at index i cleared.
  function Zeroed(mem: seq<byte>, i: nat): (mem': seq<byte>)
    requires i + 4 <= |mem|
    ensures |mem'| == |mem|
  {
    Splice(mem, i, EncI32(0))
  }

  // Clearing the word at `pos` leaves the layout from `from` on.
  lemma ClearKeeps(mem: seq<byte>, head: nat, pos: nat, from: nat, tail: nat)
    requires |mem| > 0 && Ix(pos, |mem|) + 4 <= |mem|
    requires head <= pos && pos + 4 <= from <= tail <= head + |mem|
    ensures Agree(mem, Zeroed(mem, Ix(pos, |mem|)), from, tail)
  {
    hide Ix, At, Splice, EncI32;
    StoreAt(mem, pos, EncI32(0), head, tail);
  }

  lemma ClearPadding(mem: seq<byte>, head: nat, pos: nat, tail: nat, msgs: seq<Msg>, padGone: bool)
    requires head <= pos < tail <= head + |mem| && pos % 4 == 0
    requires Pending(mem, pos, tail, msgs, padGone) && (|mem| >= 4 ==> |mem| % 4 == 0) && AtPad(mem, pos, msgs, padGone)
    ensures Ix(pos, |mem|) + 4 <= |mem|
    ensures var next := pos - Ix(pos, |mem|) + |mem|;
      && pos < next <= tail && next % 4 == 0 && Ix(next, |mem|) == 0
      && Pending(Zeroed(mem, Ix(pos, |mem|)), next, tail, msgs, true)
  {
    hide Ix, At, Zeroed, Required, Padding, Holds, HoldsRecord;
    PendingFits(mem, pos, tail, msgs, padGone);
    Placement(|mem|, pos, msgs[0]);
    IndexAligned(pos, |mem|);
    SkippedAligned(pos, Ix(pos, |mem|), |mem|);
    HoldsFirst(mem, pos, tail, msgs);
    ClearBefore(mem, head, pos, pos + Padding(|mem|, pos, msgs[0]), tail, msgs);
  }

  lemma HoldsFirst(mem: seq<byte>, pos: nat, tail: nat, msgs: seq<Msg>)
    requires Holds(mem, pos, tail, msgs) && msgs != []
    ensures ValidMsg(msgs[0]) && HoldsRecord(mem, pos + Padding(|mem|, pos, msgs[0]), tail, msgs)
  {
    hide RecordAt, Padding;
  }

  lemma SkippedAligned(pos: nat, i: nat, capacity: nat)
    requires pos % 4 == 0 && i % 4 == 0 && capacity % 4 == 0
    ensures (pos - i + capacity) % 4 == 0
  {}

  lemma ClearBefore(mem: seq<byte>, head: nat, pos: nat, p: nat, tail: nat, msgs: seq<Msg>)
    requires |mem| > 0 && Ix(pos, |mem|) + 4 <= |mem| && msgs != []
    requires head <= pos && pos + 4 <= p && tail <= head + |mem| && HoldsRecord(mem, p, tail, msgs)
    ensures HoldsRecord(Zeroed(mem, Ix(pos, |mem|)), p, tail, msgs)
    ensures p <= tail
  {
    hide Ix, At, Zeroed, HoldsRecord;
    HoldsRecordOrder(mem, p, tail, msgs);
    ClearKeeps(mem, head, pos, p, tail);
    HoldsRecordFrame(mem, Zeroed(mem, Ix(pos, |mem|)), p, tail, msgs);
  }

  lemma HoldsRecordOrder(mem: seq<byte>, p: nat, tail: nat, msgs: seq<Msg>)
    requires |mem| > 0 && msgs != [] && HoldsRecord(mem, p, tail, msgs)
    ensures p < tail
  {
    hide RecordAt;
  }

  lemma HoldsRecordFrame(mem: seq<byte>, mem': seq<byte>, p: nat, tail: nat, msgs: seq<Msg>)
    requires msgs != [] && Agree(mem, mem', p, tail) && HoldsRecord(mem, p, tail, msgs)
    ensures HoldsRecord(mem', p, tail, msgs)
  {
    hide At, RecordAt, Holds, Required;
    RecordFrame(mem, mem', p, msgs[0]);
    HoldsFrame(mem, mem', p + Required(msgs[0]), tail, msgs[1..]);
  }

  lemma ClearRecord(mem: seq<byte>, head: nat, pos: nat, tail: nat, msgs: seq<Msg>, padGone: bool)
    requires head <= pos < tail <= head + |mem| && pos % 4 == 0
    requires Pending(mem, pos, tail, msgs, padGone) && (|mem| >= 4 ==> |mem| % 4 == 0) &&
        !AtPad(mem, pos, msgs, padGone)
    ensures Ix(pos, |mem|) + 4 <= |mem|
    ensures var next := pos + Required(msgs[0]);
      && next <= tail && next % 4 == 0
      && Pending(Zeroed(mem, Ix(pos, |mem|)), next, tail, msgs[1..], false)
  {
    hide Ix, At, RecordAt, Zeroed;
    PendingFits(mem, pos, tail, msgs, padGone);
    Placement(|mem|, pos, msgs[0]);
    var next := pos + Required(msgs[0]);
    assert HoldsRecord(mem, pos, tail, msgs);
    HoldsOrder(mem, next, tail, msgs[1..]);
    ClearKeeps(mem, head, pos, next, tail);
    HoldsFrame(mem, Zeroed(mem, Ix(pos, |mem|)), next, tail, msgs[1..]);
  }

  lemma PendingEnds(mem: seq<byte>, tail: nat, msgs: seq<Msg>, padGone: bool)
    requires Pending(mem, tail, tail, msgs, padGone)
    ensures msgs == [] && Holds(mem, tail, tail, [])
  {
    hide RecordAt;
    if !padGone { HoldsOrder(mem, tail, tail, msgs); }
  }

  lemma PendingFrame(mem: seq<byte>, mem': seq<byte>, pos: nat, tail: nat, msgs: seq<Msg>, padGone: bool)
    requires Pending(mem, pos, tail, msgs, padGone) && Agree(mem, mem', pos, tail)
    ensures Pending(mem', pos, tail, msgs, padGone)
  {
    hide Ix, At, Holds, HoldsRecord, Required;
    if padGone {
      HoldsRecordFrame(mem, mem', pos, tail, msgs);
    } else {
      HoldsFrame(mem, mem', pos, tail, msgs);
    }
  }

  /** The layout behind a padding record. */
  lemma PendingSkip(mem: seq<byte>, pos: nat, tail: nat, msgs: seq<Msg>, padGone: bool)
    requires pos < tail <= pos + |mem| && pos % 4 == 0 && |mem| % 4 == 0
    requires Pending(mem, pos, tail, msgs, padGone) && AtPad(mem, pos, msgs, padGone)
    ensures var next := pos - Ix(pos, |mem|) + |mem|;
      pos < next <= tail && next % 4 == 0 && Ix(next, |mem|) == 0 && Pending(mem, next, tail, msgs, true)
  {
    hide Ix, At, Required, Padding, Holds, HoldsRecord;
    PendingFits(mem, pos, tail, msgs, padGone);
    Placement(|mem|, pos, msgs[0]);
    IndexAligned(pos, |mem|);
    SkippedAligned(pos, Ix(pos, |mem|), |mem|);
    HoldsFirst(mem, pos, tail, msgs);
    HoldsRecordOrder(mem, pos + Padding(|mem|, pos, msgs[0]), tail, msgs);
  }

  /** The layout behind the first record. */
  lemma PendingNext(mem: seq<byte>, pos: nat, tail: nat, msgs: seq<Msg>, padGone: bool)
    requires pos < tail <= pos + |mem| && pos % 4 == 0 && |mem| % 4 == 0
    requires Pending(mem, pos, tail, msgs, padGone) && msgs != [] && !AtPad(mem, pos, msgs, padGone)
    ensures var next := pos + Required(msgs[0]);
      next <= tail && next % 4 == 0 && Pending(mem, next, tail, msgs[1..], false)
  {
    hide Ix, At, RecordAt;
    PendingFits(mem, pos, tail, msgs, padGone);
    Placement(|mem|, pos, msgs[0]);
    assert HoldsRecord(mem, pos, tail, msgs);
    HoldsOrder(mem, pos + Required(msgs[0]), tail, msgs[1..]);
  }

  /** Storing a message in free space extends what is pending. */
  lemma PendingExtends(mem: seq<byte>, floor: nat, pos: nat, tail: nat, msgs: seq<Msg>, padGone: bool, m: Msg)
    requires 0 < |mem| < TWO_31 && |mem| % 4 == 0 && tail % 4 == 0 && ValidMsg(m)
    requires Pending(mem, pos, tail, msgs, padGone)
    requires floor <= pos <= tail && tail + Claimed(|mem|, tail, m) <= floor + |mem|
    ensures Required(m) <= |mem|
    ensures Pending(Stored(mem, tail, m), pos, tail + Claimed(|mem|, tail, m), msgs + [m], padGone)
    ensures (tail + Claimed(|mem|, tail, m)) % 4 == 0
    ensures Agree(mem, Stored(mem, tail, m), floor, tail)
  {
    hide Ix, At, WordAt, Required, RecordAt, Padding, Stored, ValidMsg, Holds, HoldsRecord;
    StoredAt(mem, floor, tail, m);
    if padGone {
      RestHeld(mem, pos, tail, msgs);
      StoredExtends(mem, pos + Required(msgs[0]), tail, msgs[1..], m);
      RestExtended(mem, Stored(mem, tail, m), pos, tail, tail + Claimed(|mem|, tail, m), msgs, m);
    } else {
      StoredExtends(mem, pos, tail, msgs, m);
    }
  }

  lemma RestHeld(mem: seq<byte>, p: nat, tail: nat, msgs: seq<Msg>)
    requires |mem| > 0 && msgs != [] && HoldsRecord(mem, p, tail, msgs)
    ensures RecordAt(mem, p, msgs[0]) && p + Required(msgs[0]) <= tail &&
        Holds(mem, p + Required(msgs[0]), tail, msgs[1..])
  {
    hide RecordAt;
  }

  lemma RestExtended(mem: seq<byte>, mem': seq<byte>, p: nat, tail: nat, tail': nat, msgs: seq<Msg>, m: Msg)
    requires |mem| > 0 && msgs != [] && HoldsRecord(mem, p, tail, msgs) && Agree(mem, mem', p, tail) && tail <= tail'
    requires Holds(mem', p + Required(msgs[0]), tail', msgs[1..] + [m])
    ensures HoldsRecord(mem', p, tail', msgs + [m])
  {
    hide RecordAt, At, Required;
    RestHeld(mem, p, tail, msgs);
    RecordFrame(mem, mem', p, msgs[0]);
    assert (msgs + [m])[1..] == msgs[1..] + [m];
  }
}
