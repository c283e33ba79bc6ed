/** Unblocking a publisher that left a claim unfinished, and the reader afterwards. */
module TermUnblocker {
  import opened Bytes
  import opened Frames
  import opened TermPadding
  import opened TermReader
  import opened TermGapScanner
  import opened TermGapFiller
  import opened GapRepair

  datatype UnblockStatus = NoAction | Unblocked | UnblockedToEnd

  datatype Unblocking = Unblocking(status: UnblockStatus, term: seq<byte>)

  // -n in 32 bits.
  function Negated(n: int): (m: int)
    requires IsI32(n)
    ensures IsI32(m) && (n > -TWO_31 ==> m == -n)
  {
    if n == -TWO_31 then n else -n
  }

  /** A half-written claim becomes padding of its own length; untouched space becomes padding
      up to the next non-zero word, or up to the tail; a published frame is left alone. */
  function Unblock(t: seq<byte>, header: seq<byte>, blocked: nat, tail: nat, termId: int): (u: Unblocking)
    requires |header| == 32 && blocked + 32 <= |t| && IsI32(blocked + 32) && IsI32(tail + 32) && IsI32(termId)
    ensures |u.term| == |t|
  {
    var length := FrameLength(t, blocked);
    if length < 0 then Unblocking(Unblocked, Padded(t, header, blocked, Negated(length), termId))
    else if length == 0 then
      var current := WalkZeros(t, blocked, tail);
      if current < tail then Unblocking(Unblocked, Padded(t, header, blocked, current - blocked, termId))
      else if tail == blocked then Unblocking(NoAction, t)
      else Unblocking(UnblockedToEnd, Padded(t, header, blocked, tail - blocked, termId))
    else Unblocking(NoAction, t)
  }

  /** What the call does when the term has become t by the time it acts: `length` is the word
      it loaded at the blocked offset and, for an empty slot, `current` is where its forward
      scan ended. A claim is taken by a compare-and-set, which fails when the publisher has
      been there; space is filled up to a non-zero word only if it is still zero. */
  ghost function UnblockLate(t: seq<byte>, header: seq<byte>, blocked: nat, tail: nat, termId: int,
                             length: int, current: nat): (u: Unblocking)
    requires |header| == 32 && blocked + 32 <= |t| && IsI32(blocked + 32) && IsI32(tail + 32) && IsI32(termId)
    requires IsI32(length) && IsI32(current)
    ensures |u.term| == |t|
  {
    if length < 0 then
      if FrameLength(t, blocked) != length then Unblocking(NoAction, t)
      else Unblocking(Unblocked, Padded(t, header, blocked, Negated(length), termId))
    else if length > 0 then Unblocking(NoAction, t)
    else if current < tail then
      if current <= blocked || !ZeroWords(t, blocked, current) then Unblocking(NoAction, t)
      else Unblocking(Unblocked, Padded(t, header, blocked, current - blocked, termId))
    else if tail == blocked then Unblocking(NoAction, t)
    else Unblocking(UnblockedToEnd, Padded(t, header, blocked, tail - blocked, termId))
  }

  /** Nothing changed in between: the call does what `Unblock` says. */
  lemma UndisturbedUnblock(t: seq<byte>, header: seq<byte>, blocked: nat, tail: nat, termId: int)
    requires |header| == 32 && blocked + 32 <= |t| && IsI32(blocked + 32) && IsI32(tail + 32) && IsI32(termId)
    requires blocked % 32 == 0 && tail % 32 == 0 && tail <= |t|
    ensures IsI32(WalkZeros(t, blocked, tail))
    ensures UnblockLate(t, header, blocked, tail, termId, FrameLength(t, blocked), WalkZeros(t, blocked, tail))
         == Unblock(t, header, blocked, tail, termId)
  {
    hide FrameLength, Padded, ZeroWords, WalkZeros;
    WalkedZeros(t, blocked, tail);
    if FrameLength(t, blocked) == 0 { WalkedOne(t, blocked, tail); }
  }

  lemma {:induction false} WalkedZeros(t: seq<byte>, o: nat, limit: nat)
    requires o % 32 == 0 && limit % 32 == 0 && limit <= |t| && o <= |t|
    ensures WalkZeros(t, o, limit) <= (if o < limit then limit else o) && ZeroWords(t, o, WalkZeros(t, o, limit))
    decreases limit - o
  {
    hide FrameLength, ZeroWords;
    if o < limit && FrameLength(t, o) == 0 {
      RoomForWord(o, limit, limit);
      WalkedZeros(t, o + 32, limit);
      ZeroWordsOne(t, o);
      ZeroWordsJoin(t, o, o + 32, WalkZeros(t, o, limit));
    } else {
      ZeroWordsNone(t, o);
    }
  }

  /** The two guards against a publisher that comes back: a claim completed since its word was
      loaded is kept, whatever it holds now. A slot that has been claimed or published since
      the forward scan is kept exactly when that scan ended in front of the tail: one that
      reached the tail fills up to it without looking again. */
  lemma LateUnblockKeepsIff(t: seq<byte>, header: seq<byte>, blocked: nat, tail: nat, termId: int,
                            length: int, current: nat)
    requires |header| == 32 && blocked + 32 <= |t| && IsI32(blocked + 32) && IsI32(tail + 32) && IsI32(termId)
    requires blocked % 32 == 0 && tail % 32 == 0 && current % 32 == 0 && IsI32(length) && IsI32(current)
    requires FrameLength(t, blocked) != length && blocked < tail <= |t|
    ensures UnblockLate(t, header, blocked, tail, termId, length, current).status == NoAction
       <==> length != 0 || current < tail
    ensures UnblockLate(t, header, blocked, tail, termId, length, current).status == NoAction
        ==> UnblockLate(t, header, blocked, tail, termId, length, current).term == t
  {
    hide FrameLength, Padded;
    if length == 0 && blocked < current < tail {
      RoomForWord(blocked, current, current);
      NonZeroWord(t, blocked, current, blocked);
    }
  }

  /** Beyond the tail there is nothing to unblock, but the call does not look: an empty slot
      gets a length that is not negative if and only if it does not lie beyond the tail. Beyond
      it the length written is the negative distance, a claim that no publisher will finish,
      and the status is that of a call that reached the end. */
  lemma LengthWrittenIffWithinTail(t: seq<byte>, header: seq<byte>, blocked: nat, tail: nat, termId: int)
    requires |header| == 32 && blocked + 32 <= |t| && IsI32(blocked + 32) && IsI32(tail + 32) && IsI32(termId)
    requires FrameLength(t, blocked) == 0
    ensures var u := Unblock(t, header, blocked, tail, termId);
            && (FrameLength(u.term, blocked) >= 0 <==> blocked <= tail)
            && (blocked > tail ==> u.status == UnblockedToEnd && FrameLength(u.term, blocked) == tail - blocked)
  {
    hide FrameLength, Padded, WalkZeros;
    WalkedOne(t, blocked, tail);
    var current := WalkZeros(t, blocked, tail);
    WalkBounds(t, blocked, tail);
    if current < tail {
      PaddedReads(t, header, blocked, current - blocked, termId);
    } else if tail != blocked {
      PaddedReads(t, header, blocked, tail - blocked, termId);
    }
  }

  lemma {:induction false} WalkBounds(t: seq<byte>, o: nat, limit: nat)
    ensures WalkZeros(t, o, limit) >= o && (o >= limit ==> WalkZeros(t, o, limit) == o)
    decreases limit - o
  {
    hide FrameLength;
    if o < limit && FrameLength(t, o) == 0 { WalkBounds(t, o + 32, limit); }
  }

  method ScanBackToConfirmZeroed(term: array<byte>, from: nat, to: int) returns (zeroed: bool)
    requires from % 32 == 0 && to % 32 == 0 && from - 32 <= to && to + 32 <= term.Length
    ensures zeroed <==> ZeroWords(term[..], from, to + 32)
  {
    hide FrameLength, ZeroWords;
    var offset := to;
    ZeroWordsNone(term[..], to + 32);
    while offset >= from
      invariant from - 32 <= offset <= to && offset % 32 == 0
      invariant ZeroWords(term[..], offset + 32, to + 32)
      decreases offset
    {
      if FrameLengthOf(term, offset) != 0 {
        NonZeroWord(term[..], from, to + 32, offset);
        return false;
      }
      ZeroWordsBack(term[..], offset, to + 32);
      BackwardStep(from, offset);
      offset := offset - FRAME_ALIGNMENT;
    }
    LastWord(from, offset);
    return true;
  }

  lemma LastWord(from: nat, offset: int)
    requires from % 32 == 0 && offset % 32 == 0 && from - 32 <= offset < from
    ensures offset + 32 == from
  {}

  method UnblockTerm(meta: array<byte>, term: array<byte>, blockedOffset: nat, tailOffset: nat, termId: int)
    returns (status: UnblockStatus)
    requires meta != term && DEFAULT_FRAME_HEADER_OFFSET + 32 <= meta.Length
    requires blockedOffset % 32 == 0 && tailOffset % 32 == 0 && blockedOffset + 32 <= term.Length
    requires term.Length % 32 == 0 && tailOffset <= term.Length && IsI32(term.Length + 32) && IsI32(termId)
    modifies term
    ensures Unblocking(status, term[..])
         == Unblock(old(term[..]), DefaultHeader(meta[..]), blockedOffset, tailOffset, termId)
  {
    hide FrameLength, Padded, DefaultHeader, ZeroWords, WalkZeros, Unblock;
    UndisturbedUnblock(term[..], DefaultHeader(meta[..]), blockedOffset, tailOffset, termId);
    var frameLength := FrameLengthOf(term, blockedOffset);
    if frameLength < 0 {
      status := UnblockClaim(meta, term, blockedOffset, termId, frameLength);
      return;
    }
    if frameLength == 0 {
      var current := SkipZeros(term, blockedOffset, tailOffset);
      status := UnblockEmpty(meta, term, blockedOffset, tailOffset, termId, current);
      return;
    }
    return NoAction;
  }

  // The case of a half-written frame whose word was loaded as `frameLength`; the term may
  // have changed since.
  method UnblockClaim(meta: array<byte>, term: array<byte>, blockedOffset: nat, termId: int, frameLength: int)
    returns (status: UnblockStatus)
    requires meta != term && DEFAULT_FRAME_HEADER_OFFSET + 32 <= meta.Length
    requires blockedOffset + 32 <= term.Length && IsI32(blockedOffset + 32) && IsI32(termId)
    requires IsI32(frameLength) && frameLength < 0
    modifies term
    ensures forall tail: nat, current: nat :: IsI32(tail + 32) && IsI32(current) ==>
              Unblocking(status, term[..])
              == UnblockLate(old(term[..]), DefaultHeader(meta[..]), blockedOffset, tail, termId, frameLength, current)
  {
    hide FrameLength, Padded, DefaultHeader, ZeroWords;
    ghost var t, header := term[..], DefaultHeader(meta[..]);
    var absLength := Negated(frameLength);
    if FrameLengthOf(term, blockedOffset) != frameLength {
      return NoAction;
    }
    PutI32(term, blockedOffset, absLength);
    WritePaddingHeader(meta, term, blockedOffset, absLength, termId);
    PaddedOver(t, header, blockedOffset, absLength, termId);
    return Unblocked;
  }

  // The case of an empty slot from which the forward scan came to `current`; the term may
  // have changed since.
  method UnblockEmpty(meta: array<byte>, term: array<byte>, blockedOffset: nat, tailOffset: nat, termId: int,
                      current: nat)
    returns (status: UnblockStatus)
    requires meta != term && DEFAULT_FRAME_HEADER_OFFSET + 32 <= meta.Length
    requires blockedOffset % 32 == 0 && tailOffset % 32 == 0 && blockedOffset + 32 <= term.Length
    requires tailOffset <= term.Length && IsI32(term.Length + 32) && IsI32(termId)
    requires blockedOffset <= current && current % 32 == 0 && IsI32(current)
    modifies term
    ensures Unblocking(status, term[..])
         == UnblockLate(old(term[..]), DefaultHeader(meta[..]), blockedOffset, tailOffset, termId, 0, current)
  {
    hide FrameLength, Padded, DefaultHeader, ZeroWords;
    if current < tailOffset {
      BackFrom(blockedOffset, current);
      var zeroed := ScanBackToConfirmZeroed(term, blockedOffset, current - FRAME_ALIGNMENT);
      if zeroed {
        var paddingLength := current - blockedOffset;
        if paddingLength == 0 {
          return NoAction;
        }
        WritePaddingHeader(meta, term, blockedOffset, paddingLength, termId);
        return Unblocked;
      }
    } else {
      var paddingLength := tailOffset - blockedOffset;
      if paddingLength == 0 {
        return NoAction;
      }
      WritePaddingHeader(meta, term, blockedOffset, paddingLength, termId);
      return UnblockedToEnd;
    }
    return NoAction;
  }

  lemma BackFrom(from: nat, current: nat)
    requires from % 32 == 0 && current % 32 == 0 && from <= current
    ensures (current - 32) % 32 == 0
  {}

  lemma WalkedOne(t: seq<byte>, o: nat, limit: nat)
    requires FrameLength(t, o) == 0
    ensures WalkZeros(t, o, limit) < limit ==> WalkZeros(t, o, limit) > o
  {
    hide FrameLength;
  }

  // The length stored by the compare-and-set is overwritten with the header.
  lemma PaddedOver(t: seq<byte>, header: seq<byte>, o: nat, length: int, termId: int)
    requires |header| == 32 && o + 32 <= |t| && IsI32(o) && IsI32(length) && IsI32(termId)
    ensures Padded(Splice(t, o, EncI32(length)), header, o, length, termId) == Padded(t, header, o, length, termId)
  {
    hide EncI32;
    assert Splice(Splice(t, o, EncI32(length)), o, header) == Splice(t, o, header);
  }

  // ---- One unblocking against the row of cells ----

  // The cells one unblocking at the first uncommitted cell turns into padding.
  function Freed(cells: seq<Cell>): (b: nat)
    requires Prefix(cells) < |cells|
    ensures Prefix(cells) < b <= |cells|
    ensures forall i :: Prefix(cells) <= i < b ==> !cells[i].Committed()
  {
    var p := Prefix(cells);
    if cells[p].kind.Started? then p + 1 else RunEnd(cells, p)
  }

  /** Unblocking where the reader is stuck turns exactly the first unfinished claim, or the
      first run of untouched space, into padding. */
  lemma UnblockFrees(t: seq<byte>, header: seq<byte>, termId: int, o: nat, cells: seq<Cell>, tail: nat)
    requires |header| == 32 && IsI32(termId) && IsI32(tail + 32) && o <= tail <= |t|
    requires Tiled(t, o, cells, tail) && Prefix(cells) < |cells|
    ensures var p, b := Prefix(cells), Freed(cells);
            var stuck := o + Off(cells, p);
            && WalkFrames(t, o, tail) == stuck && stuck + 32 <= tail
            && var u := Unblock(t, header, stuck, tail, termId);
               && u.status == (if cells[p].kind.Started? || b < |cells| then Unblocked else UnblockedToEnd)
               && Tiled(u.term, o, FillCells(cells, p, b), tail)
               && Deliverable(u.term, o, FillCells(cells, p, b)) == Deliverable(t, o, cells)
               && SameOutside(t, u.term, stuck, stuck + 32)
  {
    hide Tiled, CellAt, Span, Off, Unblock, Padded, Deliverable, FrameLength, WalkFrames, WalkEnd, FillCells,
        AlignedLength;
    var p, b := Prefix(cells), Freed(cells);
    var stuck := o + Off(cells, p);
    StretchAligned(t, o, cells, tail, p, b);
    SpanBetween(cells, p, b);
    CellWidth(t, o, cells, tail, p, b);
    StuckAt(t, o, cells, tail);
    var length := FreedLength(t, header, termId, o, cells, tail);
    PaddedOutside(t, header, stuck, length, termId);
    PaddedTiles(t, header, o, cells, tail, p, b, length, termId);
    DeliverableFreed(t, header, termId, o, cells, tail, p, b, length);
    FillCellsSize(cells, p, b);
  }

  lemma FillCellsSize(cells: seq<Cell>, a: nat, b: nat)
    requires a <= b <= |cells| && Off(cells, a) <= Off(cells, b)
    ensures FillCells(cells, a, b) == cells[..a] + [Cell(Padding, Off(cells, b) - Off(cells, a))] + cells[b..]
  {
    hide Off, Span;
    SpanBetween(cells, a, b);
  }

  lemma StuckAt(t: seq<byte>, o: nat, cells: seq<Cell>, tail: nat)
    requires Tiled(t, o, cells, tail) && Prefix(cells) < |cells| && o <= tail <= |t|
    ensures WalkFrames(t, o, tail) == o + Off(cells, Prefix(cells)) <= tail - 32
  {
    hide Tiled, CellAt, Span, Off, WalkFrames, WalkEnd;
    var p := Prefix(cells);
    TiledCell(t, o, cells, tail, p);
    CellFits(t, o + Off(cells, p), cells[p]);
    OffOrder(cells, p, |cells|);
    WholeRow(t, o, cells, tail);
    WalkFramesEnds(t, o, cells, tail, tail);
    WalkEndIs(o, cells, tail);
  }

  // What is written, and its length.
  lemma FreedLength(t: seq<byte>, header: seq<byte>, termId: int, o: nat, cells: seq<Cell>, tail: nat)
    returns (length: nat)
    requires |header| == 32 && IsI32(termId) && IsI32(tail + 32) && o <= tail <= |t|
    requires Tiled(t, o, cells, tail) && Prefix(cells) < |cells|
    requires o + Off(cells, Prefix(cells)) + 32 <= tail
    ensures var p, b := Prefix(cells), Freed(cells);
            var stuck := o + Off(cells, p);
            && length > 0 && IsI32(length) && AlignedLength(length) == Off(cells, b) - Off(cells, p)
            && Unblock(t, header, stuck, tail, termId)
               == Unblocking(if cells[p].kind.Started? || b < |cells| then Unblocked else UnblockedToEnd,
                             Padded(t, header, stuck, length, termId))
  {
    hide Tiled, Span, Off, Padded, FrameLength, WalkZeros, AlignedLength;
    var p, b := Prefix(cells), Freed(cells);
    var stuck := o + Off(cells, p);
    TiledCell(t, o, cells, tail, p);
    if cells[p].kind.Started? {
      length := -FrameLength(t, stuck);
      OffStep(cells, p);
      CellFits(t, stuck, cells[p]);
      TailBound(t, o, cells, tail, b);
      assert Negated(FrameLength(t, stuck)) == length;
      assert Unblock(t, header, stuck, tail, termId) == Unblocking(Unblocked, Padded(t, header, stuck, length, termId));
    } else {
      UntouchedWord(t, stuck, cells[p]);
      TiledSuffix(t, o, cells, tail, p);
      assert cells[p..][..b - p] == cells[p..b];
      assert AllUntouched(cells[p..b]);
      OffTail(cells, p, b);
      OffOrder(cells, p, b);
      TailBound(t, o, cells, tail, b);
      WalkZerosEnds(t, stuck, cells[p..], tail, tail, b - p);
      StretchAligned(t, o, cells, tail, p, b);
      length := Off(cells, b) - Off(cells, p);
      AlignedAlready(length);
      CellFits(t, stuck, cells[p]);
      assert WalkZeros(t, stuck, tail) == o + Off(cells, b);
      assert length > 0;
      assert Unblock(t, header, stuck, tail, termId).term == Padded(t, header, stuck, length, termId);
    }
  }

  /** The padding written where the reader is stuck carries its own offset, the term id given, the
      default header's session and stream, and a length that takes exactly the cells freed. */
  lemma FreedHeader(t: seq<byte>, header: seq<byte>, termId: int, o: nat, cells: seq<Cell>, tail: nat)
    returns (length: nat)
    requires |header| == 32 && IsI32(termId) && IsI32(tail + 32) && o <= tail <= |t|
    requires Tiled(t, o, cells, tail) && Prefix(cells) < |cells|
    ensures var p, b := Prefix(cells), Freed(cells);
            var stuck := o + Off(cells, p);
            && stuck + 32 <= tail && length > 0 && AlignedLength(length) == Off(cells, b) - Off(cells, p)
            && PaddingHeader(Unblock(t, header, stuck, tail, termId).term, stuck, header, length, termId)
  {
    hide Tiled, CellAt, Span, Off, Unblock, Padded, WalkFrames, WalkEnd, AlignedLength, Prefix, PaddingHeader;
    StuckAt(t, o, cells, tail);
    length := FreedLength(t, header, termId, o, cells, tail);
    PaddedHeader(t, header, o + Off(cells, Prefix(cells)), length, termId);
  }

  lemma TailBound(t: seq<byte>, o: nat, cells: seq<Cell>, tail: nat, b: nat)
    requires Tiled(t, o, cells, tail) && b <= |cells|
    ensures tail % 32 == 0 && o + Off(cells, b) <= tail && (b == |cells| <==> o + Off(cells, b) == tail)
  {
    hide Tiled, CellAt, Span, Off;
    TiledSpan(t, o, cells, tail);
    WholeRow(t, o, cells, tail);
    OffOrder(cells, b, |cells|);
    if b < |cells| {
      TiledCell(t, o, cells, tail, b);
      CellFits(t, o + Off(cells, b), cells[b]);
    }
  }

  lemma DeliverableFreed(t: seq<byte>, header: seq<byte>, termId: int, o: nat, cells: seq<Cell>, e: nat,
                         a: nat, b: nat, length: nat)
    requires |header| == 32 && IsI32(termId) && IsI32(e) && e <= |t| && IsI32(length)
    requires Tiled(t, o, cells, e) && a < b <= |cells| && forall i :: a <= i < b ==> !cells[i].kind.Data?
    requires IsI32(o + Off(cells, a)) && o + Off(cells, a) + 32 <= |t|
    ensures Deliverable(Padded(t, header, o + Off(cells, a), length, termId), o, FillCells(cells, a, b))
         == Deliverable(t, o, cells)
  {
    hide Padded, Deliverable, Off, Tiled;
    PaddedOutside(t, header, o + Off(cells, a), length, termId);
    DeliverableReplaced(t, Padded(t, header, o + Off(cells, a), length, termId), o, cells, e, a, b);
  }

  // ---- Unblocking repeatedly ----

  /** Up to n rounds of walking to where the reader is stuck and unblocking there. */
  ghost function UnblockedTerm(n: nat, t: seq<byte>, header: seq<byte>, termId: int, o: nat, tail: nat): (r: seq<byte>)
    requires |header| == 32 && IsI32(termId) && tail % 32 == 0 && tail <= |t| && IsI32(tail + 32) && o % 32 == 0
    ensures |r| == |t|
  {
    var stuck := WalkFrames(t, o, tail);
    if n == 0 || stuck >= tail then t
    else
      WalkAligned(t, o, tail);
      UnblockedTerm(n - 1, Unblock(t, header, stuck, tail, termId).term, header, termId, o, tail)
  }

  lemma {:induction false} WalkAligned(t: seq<byte>, o: nat, tail: nat)
    requires o % 32 == 0 && tail % 32 == 0
    ensures WalkFrames(t, o, tail) % 32 == 0
    ensures WalkFrames(t, o, tail) < tail ==> WalkFrames(t, o, tail) + 32 <= tail
    decreases tail - o
  {
    hide FrameLength, AlignedLength;
    if o < tail {
      RoomForWord(o, tail, tail);
      if FrameLength(t, o) > 0 {
        AlignedSum(o, AlignedLength(FrameLength(t, o)));
        WalkAligned(t, o + AlignedLength(FrameLength(t, o)), tail);
      }
    }
  }

  function Unfinished(cells: seq<Cell>): nat {
    if cells == [] then 0 else (if cells[0].Committed() then 0 else 1) + Unfinished(cells[1..])
  }

  // k lies in the 32 header bytes of a cell that is not committed.
  ghost predicate InClaimHeader(o: nat, cells: seq<Cell>, k: nat) {
    exists i :: 0 <= i < |cells| && !cells[i].Committed() && o + Off(cells, i) <= k < o + Off(cells, i) + 32
  }

  ghost predicate OnlyClaimHeaders(t: seq<byte>, t': seq<byte>, o: nat, cells: seq<Cell>) {
    |t| == |t'| && forall k :: 0 <= k < |t| && t'[k] != t[k] ==> InClaimHeader(o, cells, k)
  }

  /** Unblocking again and again where the reader is stuck ends after at most one round per
      unfinished claim; it writes only 32-byte headers of unfinished claims and leaves frames
      that the reader can walk to the tail, with exactly the published data among them. */
  lemma {:induction false} UnblockingEnds(n: nat, t: seq<byte>, header: seq<byte>, termId: int,
                                          o: nat, cells: seq<Cell>, tail: nat)
    returns (row: seq<Cell>)
    requires |header| == 32 && IsI32(termId) && IsI32(tail + 32) && o <= tail <= |t|
    requires Tiled(t, o, cells, tail) && n >= Unfinished(cells) && o % 32 == 0 && tail % 32 == 0
    ensures var r := UnblockedTerm(n, t, header, termId, o, tail);
            && Tiled(r, o, row, tail) && AllCommitted(row)
            && WalkFrames(r, o, tail) == tail
            && Deliverable(r, o, row) == Deliverable(t, o, cells)
            && OnlyClaimHeaders(t, r, o, cells)
    decreases n
  {
    hide Tiled, CellAt, Span, Off, Unblock, Deliverable, WalkFrames, FillCells, Unfinished, OnlyClaimHeaders;
    if Prefix(cells) == |cells| {
      AllFinished(t, o, cells, tail);
      row := cells;
    } else {
      SomeUnfinished(cells);
      UnblockFrees(t, header, termId, o, cells, tail);
      var stuck := o + Off(cells, Prefix(cells));
      var cells' := FillCells(cells, Prefix(cells), Freed(cells));
      FewerUnfinished(cells, Prefix(cells), Freed(cells));
      var t1 := Unblock(t, header, stuck, tail, termId).term;
      row := UnblockingEnds(n - 1, t1, header, termId, o, cells', tail);
      HeadersOnly(t, t1, UnblockedTerm(n - 1, t1, header, termId, o, tail), o, cells, Prefix(cells), Freed(cells));
    }
  }

  lemma AllFinished(t: seq<byte>, o: nat, cells: seq<Cell>, tail: nat)
    requires Tiled(t, o, cells, tail) && Prefix(cells) == |cells| && o <= tail <= |t|
    ensures AllCommitted(cells) && WalkFrames(t, o, tail) == tail && OnlyClaimHeaders(t, t, o, cells)
  {
    hide Tiled, WalkFrames, Off;
    WalkFramesEnds(t, o, cells, tail, tail);
    WalkEndIs(o, cells, tail);
    WholeRow(t, o, cells, tail);
  }

  lemma {:induction false} SomeUnfinished(cells: seq<Cell>)
    requires Prefix(cells) < |cells|
    ensures Unfinished(cells) > 0
  {
    if cells[0].Committed() { SomeUnfinished(cells[1..]); }
  }

  lemma {:induction false} UnfinishedJoin(a: seq<Cell>, b: seq<Cell>)
    ensures Unfinished(a + b) == Unfinished(a) + Unfinished(b)
    decreases |a|
  {
    if a == [] {
      assert a + b == b;
    } else {
      assert (a + b)[1..] == a[1..] + b;
      UnfinishedJoin(a[1..], b);
    }
  }

  lemma UnfinishedOfThree(a: seq<Cell>, b: seq<Cell>, c: seq<Cell>)
    ensures Unfinished(a + b + c) == Unfinished(a) + Unfinished(b) + Unfinished(c)
  {
    hide Unfinished;
    UnfinishedJoin(a + b, c);
    UnfinishedJoin(a, b);
  }

  lemma FirstUnfinished(cells: seq<Cell>)
    requires cells != []
    ensures !cells[0].Committed() ==> Unfinished(cells) > 0
    ensures |cells| == 1 && cells[0].Committed() ==> Unfinished(cells) == 0
  {}

  lemma FewerUnfinished(cells: seq<Cell>, a: nat, b: nat)
    requires a < b <= |cells| && !cells[a].Committed()
    ensures Unfinished(FillCells(cells, a, b)) < Unfinished(cells)
  {
    hide Span, Unfinished;
    var left, run, right := cells[..a], cells[a..b], cells[b..];
    var pad := [Cell(Padding, Span(run))];
    UnfinishedOfThree(left, pad, right);
    UnfinishedOfThree(left, run, right);
    assert cells == left + run + right;
    FirstUnfinished(run);
    FirstUnfinished(pad);
  }

  lemma HeadersOnly(t: seq<byte>, t1: seq<byte>, r: seq<byte>, o: nat, cells: seq<Cell>, a: nat, b: nat)
    requires a < b <= |cells| && !cells[a].Committed()
    requires SameOutside(t, t1, o + Off(cells, a), o + Off(cells, a) + 32)
    requires OnlyClaimHeaders(t1, r, o, FillCells(cells, a, b))
    ensures OnlyClaimHeaders(t, r, o, cells)
  {
    hide Off, FillCells, InClaimHeader;
    forall k: nat | k < |t| && r[k] != t[k] ensures InClaimHeader(o, cells, k) {
      if r[k] != t1[k] {
        ClaimStillThere(o, cells, a, b, k);
      } else {
        HeaderOf(o, cells, a, k);
      }
    }
  }

  lemma HeaderOf(o: nat, cells: seq<Cell>, a: nat, k: nat)
    requires a < |cells| && !cells[a].Committed() && o + Off(cells, a) <= k < o + Off(cells, a) + 32
    ensures InClaimHeader(o, cells, k)
  {
    hide Off;
  }

  lemma ClaimStillThere(o: nat, cells: seq<Cell>, a: nat, b: nat, k: nat)
    requires a < b <= |cells| && InClaimHeader(o, FillCells(cells, a, b), k)
    ensures InClaimHeader(o, cells, k)
  {
    hide Off, Span;
    var row := FillCells(cells, a, b);
    var i :| 0 <= i < |row| && !row[i].Committed() && o + Off(row, i) <= k < o + Off(row, i) + 32;
    OffAfterFill(cells, a, b, i);
    var j := if i <= a then i else i - a - 1 + b;
    assert row[i] == cells[j] && o + Off(cells, j) <= k < o + Off(cells, j) + 32;
  }

  /** The reader afterwards: from any starting cell it delivers exactly the data frames that
      had been published and stops at the tail. */
  lemma ReaderIsFree(n: nat, t: seq<byte>, header: seq<byte>, termId: int,
                     o: nat, cells: seq<Cell>, tail: nat, limit: int)
    requires |header| == 32 && IsI32(termId) && IsI32(tail + 32) && o <= tail <= |t|
    requires Tiled(t, o, cells, tail) && n >= Unfinished(cells) && o % 32 == 0 && tail % 32 == 0
    requires FrameLength(t, tail) <= 0 && limit > |Deliverable(t, o, cells)|
    ensures Outcomes(UnblockedTerm(n, t, header, termId, o, tail), o, limit) == Outcome(tail, Deliverable(t, o, cells))
  {
    hide Tiled, CellAt, Off, Span, Deliverable, WalkFrames, UnblockedTerm, FrameLength, Outcomes;
    var row := UnblockingEnds(n, t, header, termId, o, cells, tail);
    var r := UnblockedTerm(n, t, header, termId, o, tail);
    forall k: nat | tail <= k < |t| ensures r[k] == t[k] {
      if InClaimHeader(o, cells, k) { ClaimsBelow(t, o, cells, tail, k); }
    }
    WordAlike(t, r, tail);
    EveryPrefix(row);
    ReadDelivers(r, o, row, tail, limit);
    TiledSpan(r, o, row, tail);
  }

  lemma ClaimsBelow(t: seq<byte>, o: nat, cells: seq<Cell>, tail: nat, k: nat)
    requires Tiled(t, o, cells, tail) && InClaimHeader(o, cells, k)
    ensures k < tail
  {
    hide Tiled, CellAt, Off, Span;
    var i :| 0 <= i < |cells| && !cells[i].Committed() && o + Off(cells, i) <= k < o + Off(cells, i) + 32;
    TiledCell(t, o, cells, tail, i);
    CellFits(t, o + Off(cells, i), cells[i]);
    OffOrder(cells, i, |cells|);
    WholeRow(t, o, cells, tail);
  }

  lemma EveryPrefix(cells: seq<Cell>)
    requires AllCommitted(cells)
    ensures Prefix(cells) == |cells| && cells[..Prefix(cells)] == cells
  {}
}
