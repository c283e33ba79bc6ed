/** Unblocking at a stream position: the right term, the right offset, and the next term. */
module LogBufferUnblocker {
  import opened Bits
  import opened Bytes
  import opened Frames
  import opened Packed
  import opened Positions
  import opened Rotation
  import opened LogBufferDescriptor
  import opened TermPadding
  import opened TermReader
  import opened TermGapScanner
  import opened TermGapFiller
  import opened GapRepair
  import opened TermUnblocker

  /** Three terms of one power-of-two length, tails inside their terms, term ids with room
      around them. */
  predicate Readable(terms: seq<seq<byte>>, meta: seq<byte>, termLength: nat) {
    && |terms| == 3 && |meta| == LOG_META_DATA_LENGTH
    && IsPowerOfTwo(termLength) && termLength % 32 == 0 && termLength <= 0x4000_0000
    && (forall i :: 0 <= i < 3 ==> |terms[i]| == termLength)
    && 0 <= ActiveTermCount(meta) < INT_MAX
    && (forall i: nat :: i < 3 ==> TailInTerm(RawTail(meta, i), termLength))
  }

  predicate TailInTerm(tail: int, termLength: nat) {
    IsI64(tail) && 0 <= High(tail) <= termLength && High(tail) % 32 == 0 && -TWO_31 + 2 <= Low(tail) < INT_MAX
  }

  // A blocked position is frame-aligned and its term count fits an i32.
  predicate Arguments(terms: seq<seq<byte>>, meta: seq<byte>, position: nat, termLength: nat) {
    && Readable(terms, meta, termLength)
    && BlockedTermCount(position, PositionBitsToShift(termLength)) < INT_MAX
    && BlockedOffset(position, termLength) % 32 == 0
  }

  datatype LogUnblock = LogUnblock(unblocked: bool, terms: seq<seq<byte>>, meta: seq<byte>)

  /** Unblocking the term of count c at `offset`, up to that term's own tail. */
  function UnblockIn(terms: seq<seq<byte>>, meta: seq<byte>, termLength: nat, c: int, offset: nat): Unblocking
    requires Readable(terms, meta, termLength) && offset + 32 <= termLength
  {
    var tail := RawTail(meta, IndexByTermCount(c));
    Unblock(terms[IndexByTermCount(c)], DefaultHeader(meta), offset, High(tail), Low(tail))
  }

  function UnblockedLog(terms: seq<seq<byte>>, meta: seq<byte>, position: nat, termLength: nat): (r: LogUnblock)
    requires Arguments(terms, meta, position, termLength)
  {
    var count, offset := BlockedTermCount(position, PositionBitsToShift(termLength)),
        BlockedOffset(position, termLength);
    var active := ActiveTermCount(meta);
    if offset == 0 && count == active + 1 then
      var r := RotatedLog(meta, active, Low(RawTail(meta, IndexByTermCount(active))));
      LogUnblock(r.rotated, terms, r.meta)
    else
      OffsetInTerm(position, termLength);
      var u := UnblockIn(terms, meta, termLength, count, offset);
      var terms' := terms[IndexByTermCount(count) := u.term];
      if u.status.UnblockedToEnd? then
        LogUnblock(true, terms', RotatedLog(meta, active, Low(RawTail(meta, IndexByTermCount(count)))).meta)
      else LogUnblock(u.status.Unblocked?, terms', meta)
  }

  lemma OffsetInTerm(position: nat, termLength: nat)
    requires IsPowerOfTwo(termLength) && termLength % 32 == 0 && BlockedOffset(position, termLength) % 32 == 0
    ensures BlockedOffset(position, termLength) + 32 <= termLength
  {
    MaskIsRemainder(position, termLength);
    RoomForWord(BlockedOffset(position, termLength), termLength, termLength);
  }

  function Contents(terms: seq<array<byte>>): (r: seq<seq<byte>>)
    reads terms
    ensures |r| == |terms| && forall i :: 0 <= i < |terms| ==> r[i] == terms[i][..]
  {
    if terms == [] then [] else Contents(terms[..|terms| - 1]) + [terms[|terms| - 1][..]]
  }

  method UnblockLog(terms: seq<array<byte>>, meta: array<byte>, blockedPosition: nat, termLength: nat)
    returns (unblocked: bool)
    requires Arguments(Contents(terms), meta[..], blockedPosition, termLength)
    requires terms[0] != terms[1] && terms[1] != terms[2] && terms[0] != terms[2] && meta !in terms
    modifies terms, meta
    ensures LogUnblock(unblocked, Contents(terms), meta[..])
         == UnblockedLog(old(Contents(terms)), old(meta[..]), blockedPosition, termLength)
  {
    hide Unblock, RotatedLog, High, Low, I64At, I32At, And, BlockedTermCount, PositionBitsToShift, DefaultHeader;
    assert forall i: nat :: i < 3 ==> TailInTerm(RawTail(meta[..], i), termLength);
    var positionBitsToShift := PositionBitsToShift(termLength);
    var blockedTermCount := BlockedTermCount(blockedPosition, positionBitsToShift);
    var blockedOffset := BlockedOffset(blockedPosition, termLength);
    OffsetInTerm(blockedPosition, termLength);
    var activeTermCount := GetI32(meta, ACTIVE_TERM_COUNT_OFFSET);
    if blockedOffset == 0 && blockedTermCount == activeTermCount + 1 {
      var currentIndex := IndexByTermCount(activeTermCount);
      var currentTail := GetI64(meta, 8 * currentIndex);
      assert currentTail == RawTail(meta[..], currentIndex);
      unblocked := RotateLog(meta, activeTermCount, Low(currentTail));
      return;
    }
    var partitionIndex := IndexByTermCount(blockedTermCount);
    var rawTail := GetI64(meta, 8 * partitionIndex);
    assert rawTail == RawTail(meta[..], partitionIndex);
    assert Contents(terms)[partitionIndex] == terms[partitionIndex][..];
    var status := UnblockTerm(meta, terms[partitionIndex], blockedOffset, High(rawTail), Low(rawTail));
    assert Contents(terms) == old(Contents(terms))[partitionIndex := terms[partitionIndex][..]];
    if status.UnblockedToEnd? {
      var _ := RotateLog(meta, activeTermCount, Low(rawTail));
      return true;
    }
    return status.Unblocked?;
  }

  // ---- Which term is unblocked ----

  /** A position that is not the start of the next term is unblocked in the partition of its
      term count, at its offset, with the term id and up to the tail found there; the other
      terms stay as they are. The term acted on carries the position's term id if and only if
      the log still holds its count, one of the three newest; any other position is unblocked
      in a term that only shares its partition. The log is rotated, by one term, exactly when
      the scan reached the tail of the active term's partition. */
  lemma UnblocksTheRightTerm(terms: seq<seq<byte>>, meta: seq<byte>, termLength: nat, initial: int, c: nat, offset: nat,
                             position: nat)
    requires Arguments(terms, meta, position, termLength) && offset < termLength
    requires position == ComputePosition(initial + c, offset, PositionBitsToShift(termLength), initial)
    requires HoldsTerms(Tails(meta), initial, ActiveTermCount(meta))
    requires offset == 0 ==> c != ActiveTermCount(meta) + 1
    ensures offset + 32 <= termLength
    ensures var active := ActiveTermCount(meta);
            var u := UnblockIn(terms, meta, termLength, c, offset);
            var r := UnblockedLog(terms, meta, position, termLength);
            && (Low(RawTail(meta, IndexByTermCount(c))) == initial + c <==> active - 2 <= c <= active)
            && r.terms == terms[IndexByTermCount(c) := u.term]
            && (r.unblocked <==> !u.status.NoAction?)
            && if u.status.UnblockedToEnd? && IndexByTermCount(c) == IndexByTermCount(active) then
                 HoldsTermsOfCount(r.meta, initial, active + 1)
               else r.meta == meta
  {
    hide UnblockIn, HoldsTerms, ComputePosition, BlockedOffset, BlockedTermCount, RotatedLog, UnblockedLog,
         IndexByTermCount, RawTail, Readable, HoldsTermsOfCount, Tails, Low, ActiveTermCount, IsPowerOfTwo;
    SizesOf(terms, meta, termLength);
    DecomposesPosition(termLength, initial, c, offset);
    var active := ActiveTermCount(meta);
    HeldInSlot(meta, initial, active, c);
    var held := CountInSlot(meta, initial, active, c);
    TailRange(terms, meta, termLength, c);
    UnblocksAt(terms, meta, position, termLength, c, offset);
    RotationOutcome(meta, initial, active, held);
  }

  // The slot of count c holds the term id of c exactly while c is one of the three newest.
  lemma HeldInSlot(meta: seq<byte>, initial: int, newest: int, c: int)
    requires |meta| == LOG_META_DATA_LENGTH && HoldsTerms(Tails(meta), initial, newest)
    ensures Low(RawTail(meta, IndexByTermCount(c))) == initial + c <==> newest - 2 <= c <= newest
  {
    hide RawTail, Low, High, HoldsTerms;
    HeldExactly(Tails(meta), initial, newest, c);
  }

  // The count that the slot of c holds.
  lemma CountInSlot(meta: seq<byte>, initial: int, newest: int, c: int) returns (held: int)
    requires |meta| == LOG_META_DATA_LENGTH && HoldsTerms(Tails(meta), initial, newest)
    ensures Low(RawTail(meta, IndexByTermCount(c))) == initial + held && newest - 2 <= held <= newest
    ensures held == newest <==> IndexByTermCount(c) == IndexByTermCount(newest)
  {
    hide RawTail, Low, High;
    held := LatestAt(newest, IndexByTermCount(c));
    LatestFacts(newest, c);
    LatestFacts(newest, newest);
    assert Tails(meta)[IndexByTermCount(c)].termId == initial + held;
  }

  predicate HoldsTermsOfCount(meta: seq<byte>, initial: int, count: int) {
    |meta| == LOG_META_DATA_LENGTH && ActiveTermCount(meta) == count && HoldsTerms(Tails(meta), initial, count)
  }

  lemma SizesOf(terms: seq<seq<byte>>, meta: seq<byte>, termLength: nat)
    requires Readable(terms, meta, termLength)
    ensures |terms| == 3 && |meta| == LOG_META_DATA_LENGTH && IsPowerOfTwo(termLength) && termLength % 32 == 0
    ensures 0 <= ActiveTermCount(meta) < INT_MAX
  {}

  lemma TailRange(terms: seq<seq<byte>>, meta: seq<byte>, termLength: nat, c: int)
    requires Readable(terms, meta, termLength)
    ensures -TWO_31 + 2 <= Low(RawTail(meta, IndexByTermCount(c))) < INT_MAX
  {
    assert TailInTerm(RawTail(meta, IndexByTermCount(c)), termLength);
  }

  lemma UnblocksAt(terms: seq<seq<byte>>, meta: seq<byte>, position: nat, termLength: nat, c: nat, offset: nat)
    requires Arguments(terms, meta, position, termLength)
    requires BlockedTermCount(position, PositionBitsToShift(termLength)) == c &&
        BlockedOffset(position, termLength) == offset
    requires offset == 0 ==> c != ActiveTermCount(meta) + 1
    ensures offset + 32 <= termLength && -TWO_31 + 2 <= Low(RawTail(meta, IndexByTermCount(c))) < INT_MAX
    ensures var u := UnblockIn(terms, meta, termLength, c, offset);
            UnblockedLog(terms, meta, position, termLength)
              == LogUnblock(!u.status.NoAction?, terms[IndexByTermCount(c) := u.term],
                            if u.status.UnblockedToEnd? then
                              RotatedLog(meta, ActiveTermCount(meta), Low(RawTail(meta, IndexByTermCount(c)))).meta
                            else meta)
  {
    hide UnblockIn, IndexByTermCount, RawTail, BlockedOffset, BlockedTermCount, RotatedLog, Low, Readable;
    SizesOf(terms, meta, termLength);
    TailRange(terms, meta, termLength, c);
    OffsetInTerm(position, termLength);
  }

  lemma RotationOutcome(meta: seq<byte>, initial: int, active: int, c: int)
    requires |meta| == LOG_META_DATA_LENGTH && HoldsTerms(Tails(meta), initial, active) &&
        ActiveTermCount(meta) == active
    requires 0 <= active < INT_MAX && active - 2 <= c <= active && -TWO_31 + 2 <= initial + c < INT_MAX
    ensures var r := RotatedLog(meta, active, initial + c);
            && (r.rotated <==> c == active)
            && if c == active then HoldsTermsOfCount(r.meta, initial, c + 1) else r.meta == meta
  {
    hide Low, High, I64At, I32At, HoldsTerms, IndexByTermCount, RawTail, ActiveTermCount, EncI64, EncI32, Pack,
        LatestAt;
    var next := IndexByTermCount(active + 1);
    NextTailHolds(meta, initial, active);
    if c == active {
      var word := Pack(0, initial + active + 1);
      Unpacks(0, initial + active + 1);
      TailStored(meta, next, word);
      CountStored(Splice(meta, 8 * next, EncI64(word)), active + 1);
      OneTermOn(Tails(meta), initial, active);
    }
  }

  lemma NextTailHolds(meta: seq<byte>, initial: int, active: int)
    requires |meta| == LOG_META_DATA_LENGTH && HoldsTerms(Tails(meta), initial, active)
    ensures Low(RawTail(meta, IndexByTermCount(active + 1))) == initial + active - 2
  {
    hide RawTail, Low, High, HoldsTerms;
    NextSlotIsOldest(active);
    HeldInSlot(meta, initial, active, active - 2);
  }

  lemma NextSlotIsOldest(active: int)
    ensures IndexByTermCount(active + 1) == IndexByTermCount(active - 2)
  {}

  // The offset half of the tail of the partition of count c.
  function TailOffset(meta: seq<byte>, c: int): int
    requires |meta| == LOG_META_DATA_LENGTH
  {
    High(RawTail(meta, IndexByTermCount(c)))
  }

  // The position of offset `offset` in the term of count c, which is not the start of the next.
  ghost predicate Blocked(terms: seq<seq<byte>>, meta: seq<byte>, termLength: nat, initial: int, c: nat, offset: nat,
                          position: nat)
  {
    && Arguments(terms, meta, position, termLength) && offset < termLength
    && position == ComputePosition(initial + c, offset, PositionBitsToShift(termLength), initial)
    && HoldsTerms(Tails(meta), initial, ActiveTermCount(meta))
    && (offset == 0 ==> c != ActiveTermCount(meta) + 1)
  }

  /** Blocked at the first uncommitted cell of a term that is a row of cells up to its own tail:
      exactly the unfinished claim there, or the run of untouched cells, becomes one padding
      cell, which ends at that tail or before and carries the position's term id if and only if
      the log still holds its count. Nothing outside the padding's header changes, in that term
      or another; the log rotates, to the next term, exactly when the run of untouched cells
      reaches the tail of the active partition. */
  lemma UnblocksRow(terms: seq<seq<byte>>, meta: seq<byte>, termLength: nat, initial: int, c: nat, offset: nat,
                    position: nat, cells: seq<Cell>)
    requires Blocked(terms, meta, termLength, initial, c, offset, position)
    requires |terms| == 3 && |meta| == LOG_META_DATA_LENGTH && 0 <= TailOffset(meta, c)
    requires Tiled(terms[IndexByTermCount(c)], 0, cells, TailOffset(meta, c))
    requires Prefix(cells) < |cells| && offset == Off(cells, Prefix(cells))
    ensures offset + 32 <= TailOffset(meta, c) <= termLength
    ensures var i, active, p, b := IndexByTermCount(c), ActiveTermCount(meta), Prefix(cells), Freed(cells);
            var r := UnblockedLog(terms, meta, position, termLength);
            && r.unblocked && |r.terms| == 3 && (forall j :: 0 <= j < 3 && j != i ==> r.terms[j] == terms[j])
            && Tiled(r.terms[i], 0, FillCells(cells, p, b), TailOffset(meta, c))
            && Deliverable(r.terms[i], 0, FillCells(cells, p, b)) == Deliverable(terms[i], 0, cells)
            && SameOutside(terms[i], r.terms[i], offset, offset + 32)
            && I32At(r.terms[i], offset + 8) == offset
            && (I32At(r.terms[i], offset + 20) == initial + c <==> active - 2 <= c <= active)
            && if !cells[p].kind.Started? && b == |cells| && i == IndexByTermCount(active) then
                 HoldsTermsOfCount(r.meta, initial, active + 1)
               else r.meta == meta
  {
    hide UnblockedLog, HoldsTerms, ComputePosition, Tiled, Deliverable, FillCells, Prefix, Unblock, Off, Span, CellAt,
         IndexByTermCount, RawTail, High, Low, HoldsTermsOfCount, Tails, ActiveTermCount, BlockedOffset, I32At,
         BlockedTermCount, PositionBitsToShift, DefaultHeader, WalkFrames, AlignedLength, Arguments;
    var i := IndexByTermCount(c);
    TermFacts(terms, meta, position, termLength, c);
    UnblocksTheRightTerm(terms, meta, termLength, initial, c, offset, position);
    var tail, termId := TailOffset(meta, c), Low(RawTail(meta, i));
    UnblockFrees(terms[i], DefaultHeader(meta), termId, 0, cells, tail);
    var _ := FreedHeader(terms[i], DefaultHeader(meta), termId, 0, cells, tail);
  }

  lemma TermFacts(terms: seq<seq<byte>>, meta: seq<byte>, position: nat, termLength: nat, c: int)
    requires Arguments(terms, meta, position, termLength)
    ensures |terms| == 3 && |meta| == LOG_META_DATA_LENGTH && |terms[IndexByTermCount(c)]| == termLength <= 0x4000_0000
    ensures 0 <= TailOffset(meta, c) <= termLength && IsI32(TailOffset(meta, c) + 32)
    ensures IsI32(Low(RawTail(meta, IndexByTermCount(c))))
  {
    hide High, Low, RawTail, BlockedTermCount, BlockedOffset;
    assert TailInTerm(RawTail(meta, IndexByTermCount(c)), termLength);
  }

  /** Blocked at the tail itself, or at a frame that is published, there is nothing to unblock:
      no term changes, the log is not rotated, and the call says so. */
  lemma NothingBlocked(terms: seq<seq<byte>>, meta: seq<byte>, termLength: nat, initial: int, c: nat, offset: nat,
                       position: nat)
    requires Blocked(terms, meta, termLength, initial, c, offset, position)
    requires |terms| == 3 && |meta| == LOG_META_DATA_LENGTH
    requires var word := FrameLength(terms[IndexByTermCount(c)], offset);
             word > 0 || (word == 0 && offset == TailOffset(meta, c))
    ensures UnblockedLog(terms, meta, position, termLength) == LogUnblock(false, terms, meta)
  {
    hide UnblockedLog, HoldsTerms, ComputePosition, IndexByTermCount, RawTail, High, Low, HoldsTermsOfCount, Tails,
         ActiveTermCount, BlockedOffset, BlockedTermCount, PositionBitsToShift, DefaultHeader, FrameLength, Arguments;
    TermFacts(terms, meta, position, termLength, c);
    UnblocksTheRightTerm(terms, meta, termLength, initial, c, offset, position);
    var i := IndexByTermCount(c);
    assert terms[i := terms[i]] == terms;
  }

  /** Blocked at the start of the next term, the log is rotated to it. */
  lemma RotatesToTheNextTerm(terms: seq<seq<byte>>, meta: seq<byte>, termLength: nat, initial: int, next: nat,
      position: nat)
    requires Arguments(terms, meta, position, termLength) && next == ActiveTermCount(meta) + 1
    requires position == ComputePosition(initial + next, 0, PositionBitsToShift(termLength), initial)
    requires HoldsTerms(Tails(meta), initial, ActiveTermCount(meta))
    ensures var r := UnblockedLog(terms, meta, position, termLength);
            r.unblocked && r.terms == terms && HoldsTermsOfCount(r.meta, initial, next)
  {
    hide HoldsTerms, ComputePosition, BlockedOffset, BlockedTermCount, RotatedLog, UnblockedLog, IndexByTermCount,
         RawTail, Readable;
    SizesOf(terms, meta, termLength);
    var active := ActiveTermCount(meta);
    DecomposesPosition(termLength, initial, next, 0);
    HeldInSlot(meta, initial, active, active);
    TailRange(terms, meta, termLength, active);
    RotatesAt(terms, meta, position, termLength);
    RotationOutcome(meta, initial, active, active);
  }

  lemma RotatesAt(terms: seq<seq<byte>>, meta: seq<byte>, position: nat, termLength: nat)
    requires Arguments(terms, meta, position, termLength)
    requires BlockedTermCount(position, PositionBitsToShift(termLength)) == ActiveTermCount(meta) + 1
    requires BlockedOffset(position, termLength) == 0
    ensures -TWO_31 + 2 <= Low(RawTail(meta, IndexByTermCount(ActiveTermCount(meta)))) < INT_MAX
    ensures var r := RotatedLog(meta, ActiveTermCount(meta),
        Low(RawTail(meta, IndexByTermCount(ActiveTermCount(meta)))));
            UnblockedLog(terms, meta, position, termLength) == LogUnblock(r.rotated, terms, r.meta)
  {
    hide UnblockIn, IndexByTermCount, RawTail, BlockedOffset, BlockedTermCount, RotatedLog, Low, Readable;
    SizesOf(terms, meta, termLength);
    TailRange(terms, meta, termLength, ActiveTermCount(meta));
  }

  /** Reaching the tail rotates the log although the tail need not be the end of the term:
      afterwards the reader comes to the end of the term if and only if the tail was there. */
  lemma ToEndMeansTail(t: seq<byte>, header: seq<byte>, termId: int, o: nat, cells: seq<Cell>, tail: nat)
    requires |header| == 32 && IsI32(termId) && IsI32(tail + 32) && o <= tail <= |t|
    requires Tiled(t, o, cells, tail) && Prefix(cells) < |cells| && AllUntouched(cells[Prefix(cells)..])
    requires FrameLength(t, tail) == 0
    ensures WalkFrames(t, o, tail) + 32 <= tail
    ensures var u := Unblock(t, header, WalkFrames(t, o, tail), tail, termId);
            u.status.UnblockedToEnd? && (WalkFrames(u.term, o, |t|) == |t| <==> tail == |t|)
  {
    hide Tiled, CellAt, Span, Off, Unblock, WalkFrames, FrameLength, FillCells, Deliverable, Prefix, RunEnd;
    var p := Prefix(cells);
    UntouchedRun(cells, p);
    StuckAt(t, o, cells, tail);
    UnblockFrees(t, header, termId, o, cells, tail);
    var t' := Unblock(t, header, WalkFrames(t, o, tail), tail, termId).term;
    FilledToEnd(cells, p);
    WordAlike(t, t', tail);
    WalkThrough(t', o, FillCells(cells, p, |cells|), tail, |t|);
    WalkStops(t', tail, |t|);
  }

  lemma UntouchedRun(cells: seq<Cell>, p: nat)
    requires p < |cells| && AllUntouched(cells[p..])
    ensures RunEnd(cells, p) == |cells| && cells[p].kind.Untouched?
  {
    hide RunEnd;
    var run := cells[p..];
    assert run[0] == cells[p];
    assert forall i :: p <= i < |cells| ==> cells[i] == run[i - p];
  }

  lemma FilledToEnd(cells: seq<Cell>, p: nat)
    requires p < |cells| && forall i :: 0 <= i < p ==> cells[i].Committed()
    ensures AllCommitted(FillCells(cells, p, |cells|))
  {
    hide Span;
  }

  lemma WalkStops(t: seq<byte>, o: nat, limit: nat)
    requires FrameLength(t, o) <= 0
    ensures WalkFrames(t, o, limit) == o
  {}

  lemma {:induction false} WalkThrough(t: seq<byte>, o: nat, cells: seq<Cell>, e: nat, limit: nat)
    requires Tiled(t, o, cells, e) && AllCommitted(cells) && e <= limit && o <= e <= |t|
    ensures WalkFrames(t, o, limit) == WalkFrames(t, e, limit)
    decreases |cells|
  {
    hide CellAt, FrameLength, AlignedLength;
    if cells != [] {
      UncommittedStep(t, o, cells, e);
      CellFits(t, o, cells[0]);
      TiledSpan(t, o + cells[0].size, cells[1..], e);
      CommittedStep(t, o, cells, e);
      WalkThrough(t, o + cells[0].size, cells[1..], e, limit);
    }
  }
}
