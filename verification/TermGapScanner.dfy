/** Finding the first gap in a partly rebuilt term. */
module TermGapScanner {
  import opened Bytes
  import opened Frames
  import opened Wrappers
  import opened TermReader
  import opened TermRebuilder

  // What the gap handler is told.
  datatype Gap = Gap(termId: int, offset: nat, length: nat)

  datatype Scan = Scan(offset: nat, gap: Option<Gap>)

  /** Phase one: over published frames, one aligned length at a time. */
  function WalkFrames(t: seq<byte>, o: nat, limit: nat): nat
    decreases limit - o
  {
    if o < limit && FrameLength(t, o) > 0 then WalkFrames(t, o + AlignedLength(FrameLength(t, o)), limit) else o
  }

  /** Phase two: over zero length words, 32 bytes at a time. */
  function WalkZeros(t: seq<byte>, o: nat, limit: nat): (end: nat)
    ensures end == o || o < end < limit + 32
    decreases limit - o
  {
    if o < limit && FrameLength(t, o) == 0 then WalkZeros(t, o + 32, limit) else o
  }

  function Scanned(t: seq<byte>, termId: int, o: nat, limit: nat): (s: Scan)
    ensures s.gap.Some? ==> s.gap.value.offset < limit && s.gap.value.offset + s.gap.value.length < limit + 32
  {
    var begin := WalkFrames(t, o, limit);
    if begin < limit then
      var end := WalkZeros(t, begin, limit);
      Scan(end, if end > begin then Some(Gap(termId, begin, end - begin)) else None)
    else Scan(begin, None)
  }

  method ScanForGap(term: array<byte>, termId: int, termOffset: nat, limitOffset: nat)
    returns (offset: nat, gap: Option<Gap>)
    requires termOffset % 32 == 0 && term.Length % 32 == 0 && limitOffset <= term.Length
    ensures Scan(offset, gap) == Scanned(term[..], termId, termOffset, limitOffset)
  {
    hide FrameLength, AlignedLength, Scanned, WalkFrames, WalkZeros;
    gap := None;
    offset := SkipFrames(term, termOffset, limitOffset);
    ghost var begin := offset;
    if offset < limitOffset {
      var gapBegin := offset;
      offset := SkipZeros(term, gapBegin, limitOffset);
      var gapLength := offset - gapBegin;
      if gapLength > 0 {
        gap := Some(Gap(termId, gapBegin, gapLength));
      }
    }
    ScannedFrom(term[..], termId, termOffset, limitOffset, begin, offset);
  }

  // The loop of phase one.
  method SkipFrames(term: array<byte>, from: nat, limit: nat) returns (offset: nat)
    requires from % 32 == 0 && term.Length % 32 == 0 && limit <= term.Length
    ensures offset == WalkFrames(term[..], from, limit) && offset % 32 == 0
  {
    hide FrameLength, AlignedLength;
    offset := from;
    while offset < limit
      invariant offset % 32 == 0
      invariant WalkFrames(term[..], from, limit) == WalkFrames(term[..], offset, limit)
      decreases limit - offset
    {
      RoomForWord(offset, limit, term.Length);
      var frameLength := FrameLengthOf(term, offset);
      if frameLength == 0 {
        break;
      }
      if frameLength < 0 {
        break;
      }
      AlignedSum(offset, AlignedLength(frameLength));
      offset := offset + AlignedLength(frameLength);
    }
  }

  // The loop of phase two, which the unblocker's forward scan repeats.
  method SkipZeros(term: array<byte>, from: nat, limit: nat) returns (offset: nat)
    requires from % 32 == 0 && term.Length % 32 == 0 && limit <= term.Length
    ensures offset == WalkZeros(term[..], from, limit) && offset % 32 == 0 && offset >= from
    ensures ZeroWords(term[..], from, offset) || offset == from
  {
    hide FrameLength, ZeroWords;
    offset := from;
    while offset < limit
      invariant offset % 32 == 0 && offset >= from
      invariant WalkZeros(term[..], from, limit) == WalkZeros(term[..], offset, limit)
      invariant ZeroWords(term[..], from, offset) || offset == from
      decreases limit - offset
    {
      RoomForWord(offset, limit, term.Length);
      if FrameLengthOf(term, offset) != 0 {
        break;
      }
      ZeroWordsOne(term[..], offset);
      if offset != from { ZeroWordsJoin(term[..], from, offset, offset + 32); }
      offset := offset + HEADER_LENGTH;
    }
  }

  lemma ScannedFrom(t: seq<byte>, termId: int, o: nat, limit: nat, begin: nat, end: nat)
    requires begin == WalkFrames(t, o, limit) && end >= begin
    requires if begin < limit then end == WalkZeros(t, begin, limit) else end == begin
    ensures Scanned(t, termId, o, limit) ==
        Scan(end, if end > begin then Some(Gap(termId, begin, end - begin)) else None)
  {
    hide WalkFrames, WalkZeros;
  }

  // ---- The two walks against the row of cells ----

  /** The first cell boundary at which a walk over committed cells has to stop. */
  function WalkEnd(o: nat, cells: seq<Cell>, limit: nat): nat
    decreases |cells|
  {
    if cells != [] && o < limit && cells[0].Committed() then WalkEnd(o + cells[0].size, cells[1..], limit) else o
  }

  lemma {:induction false} WalkFramesEnds(t: seq<byte>, o: nat, cells: seq<Cell>, e: nat, limit: nat)
    requires Tiled(t, o, cells, e) && o <= e <= |t| && limit <= e
    ensures WalkFrames(t, o, limit) == WalkEnd(o, cells, limit)
    decreases |cells|
  {
    hide FrameLength, AlignedLength, CellAt;
    if cells != [] && o < limit {
      UncommittedStep(t, o, cells, e);
      if cells[0].Committed() {
        CommittedStep(t, o, cells, e);
        TiledSpan(t, o + cells[0].size, cells[1..], e);
        WalkFramesEnds(t, o + cells[0].size, cells[1..], e, limit);
      }
    }
  }

  /** The walk stops at the first cell that is not committed, or at or past the limit. */
  lemma {:induction false} WalkEndIs(o: nat, cells: seq<Cell>, limit: nat)
    ensures var first := o + Off(cells, Prefix(cells));
            if first < limit then WalkEnd(o, cells, limit) == first
            else limit <= WalkEnd(o, cells, limit) <= first || (o >= limit && WalkEnd(o, cells, limit) == o)
    decreases |cells|
  {
    if cells != [] && cells[0].Committed() {
      WalkEndIs(o + cells[0].size, cells[1..], limit);
      var p := Prefix(cells[1..]);
      assert cells[..p + 1][1..] == cells[1..][..p];
    } else {
      assert cells[..0] == [];
    }
  }

  lemma {:induction false} WalkZerosSkips(t: seq<byte>, o: nat, m: nat, limit: nat)
    requires o % 32 == 0 && m % 32 == 0 && o <= m <= limit && ZeroWords(t, o, m)
    ensures WalkZeros(t, o, limit) == WalkZeros(t, m, limit)
    decreases m - o
  {
    hide FrameLength;
    if o < m {
      RoomForWord(o, m, m);
      assert FrameLength(t, o) == 0;
      WalkZerosSkips(t, o + 32, m, limit);
    }
  }

  ghost predicate AllUntouched(cells: seq<Cell>) {
    forall i :: 0 <= i < |cells| ==> cells[i].kind.Untouched?
  }

  lemma {:induction false} UntouchedIsZero(t: seq<byte>, o: nat, cells: seq<Cell>, e: nat)
    requires Tiled(t, o, cells, e) && o <= e <= |t| && AllUntouched(cells)
    ensures ZeroWords(t, o, e)
    decreases |cells|
  {
    hide FrameLength;
    if cells != [] {
      TiledSpan(t, o + cells[0].size, cells[1..], e);
      UntouchedIsZero(t, o + cells[0].size, cells[1..], e);
      ZeroWordsJoin(t, o, o + cells[0].size, e);
    }
  }

  function Min(a: nat, b: nat): nat { if a < b then a else b }

  /** Over a run of untouched cells the zero walk stops where the run does, or at the limit. */
  lemma WalkZerosEnds(t: seq<byte>, o: nat, cells: seq<Cell>, e: nat, limit: nat, b: nat)
    requires Tiled(t, o, cells, e) && o <= limit <= e <= |t| && limit % 32 == 0
    requires b <= |cells| && AllUntouched(cells[..b]) && (b < |cells| ==> !cells[b].kind.Untouched?)
    ensures WalkZeros(t, o, limit) == Min(limit, o + Off(cells, b))
  {
    hide FrameLength, CellAt, Span;
    var end := o + Off(cells, b);
    TiledSplit(t, o, cells, e, b);
    TiledSpan(t, o, cells[..b], end);
    TiledSpan(t, end, cells[b..], e);
    UntouchedIsZero(t, o, cells[..b], end);
    if end < limit {
      WalkZerosSkips(t, o, end, limit);
      UncommittedStep(t, end, cells[b..], e);
      TouchedWord(t, end, cells[b]);
    } else {
      ZeroWordsPart(t, o, end, limit);
      WalkZerosSkips(t, o, limit, limit);
    }
  }

  lemma TouchedWord(t: seq<byte>, o: nat, c: Cell)
    requires CellAt(t, o, c) && !c.kind.Untouched?
    ensures FrameLength(t, o) != 0
  {}

  /** No gap is reported exactly when the first cell that is not committed lies at or past
      the limit, or is a claim still being written. */
  lemma NoGapExactly(t: seq<byte>, termId: int, o: nat, cells: seq<Cell>, e: nat, limit: nat)
    requires Tiled(t, o, cells, e) && o <= limit <= e <= |t| && limit % 32 == 0
    ensures var p := Prefix(cells);
            var stops := p == |cells| || o + Off(cells, p) >= limit || cells[p].kind.Started?;
            Scanned(t, termId, o, limit).gap.None? <==> stops
  {
    hide FrameLength, CellAt, Span, Off;
    var p := Prefix(cells);
    WalkFramesEnds(t, o, cells, e, limit);
    WalkEndIs(o, cells, limit);
    var first := o + Off(cells, p);
    assert p == |cells| ==> first >= limit by { if p == |cells| { WholeRow(t, o, cells, e); } }
    if first < limit {
      TiledCell(t, o, cells, e, p);
      if cells[p].kind.Started? {
        TouchedWord(t, first, cells[p]);
      } else {
        UntouchedWord(t, first, cells[p]);
      }
    }
  }

  lemma WholeRow(t: seq<byte>, o: nat, cells: seq<Cell>, e: nat)
    requires Tiled(t, o, cells, e)
    ensures o + Off(cells, |cells|) == e
  {
    hide CellAt;
    TiledSpan(t, o, cells, e);
    assert cells[..|cells|] == cells;
  }

  /** The gap reported runs exactly from the first missing cell to the next cell that is
      there, or to the limit. */
  lemma GapExactly(t: seq<byte>, termId: int, o: nat, cells: seq<Cell>, e: nat, limit: nat, b: nat)
    requires Tiled(t, o, cells, e) && o <= limit <= e <= |t| && limit % 32 == 0
    requires Prefix(cells) < b <= |cells| && AllUntouched(cells[Prefix(cells)..b])
    requires b < |cells| ==> !cells[b].kind.Untouched?
    requires o + Off(cells, Prefix(cells)) < limit
    ensures var begin, end := o + Off(cells, Prefix(cells)), Min(limit, o + Off(cells, b));
            begin < end && Scanned(t, termId, o, limit) == Scan(end, Some(Gap(termId, begin, end - begin)))
  {
    hide FrameLength, CellAt, Span;
    var p := Prefix(cells);
    WalkFramesEnds(t, o, cells, e, limit);
    WalkEndIs(o, cells, limit);
    TiledSplit(t, o, cells, e, p);
    var begin := o + Off(cells, p);
    assert cells[p..][..b - p] == cells[p..b];
    OffTail(cells, p, b);
    WalkZerosEnds(t, begin, cells[p..], e, limit, b - p);
    TiledCell(t, o, cells, e, p);
    CellFits(t, begin, cells[p]);
    OffOrder(cells, p, b);
  }

  lemma OffTail(cells: seq<Cell>, p: nat, b: nat)
    requires p <= b <= |cells|
    ensures Off(cells, p) + Off(cells[p..], b - p) == Off(cells, b)
  {
    assert cells[..b] == cells[..p] + cells[p..][..b - p];
    SpanJoin(cells[..p], cells[p..][..b - p]);
  }

  // The end of the run of untouched cells that starts at a.
  function RunEnd(cells: seq<Cell>, a: nat): (b: nat)
    requires a <= |cells|
    ensures a <= b <= |cells| && (b < |cells| ==> !cells[b].kind.Untouched?)
    ensures forall i :: a <= i < b ==> cells[i].kind.Untouched?
    ensures a < |cells| && cells[a].kind.Untouched? ==> a < b
    decreases |cells| - a
  {
    if a < |cells| && cells[a].kind.Untouched? then RunEnd(cells, a + 1) else a
  }

  /** A scan depends on the row of cells alone. */
  lemma ScansAlike(t: seq<byte>, t': seq<byte>, termId: int, o: nat, cells: seq<Cell>, e: nat, limit: nat)
    requires Tiled(t, o, cells, e) && Tiled(t', o, cells, e)
    requires o <= limit <= e <= |t| && e <= |t'| && limit % 32 == 0
    ensures Scanned(t', termId, o, limit) == Scanned(t, termId, o, limit)
  {
    hide FrameLength, CellAt, Span, Off, Tiled;
    WalkFramesEnds(t, o, cells, e, limit);
    WalkFramesEnds(t', o, cells, e, limit);
    WalkEndIs(o, cells, limit);
    var p := Prefix(cells);
    var begin := o + Off(cells, p);
    if begin < limit {
      TiledSuffix(t, o, cells, e, p);
      TiledSuffix(t', o, cells, e, p);
      var b := RunEnd(cells[p..], 0);
      assert AllUntouched(cells[p..][..b]);
      WalkZerosEnds(t, begin, cells[p..], e, limit, b);
      WalkZerosEnds(t', begin, cells[p..], e, limit, b);
    }
  }

  lemma TiledSuffix(t: seq<byte>, o: nat, cells: seq<Cell>, e: nat, p: nat)
    requires Tiled(t, o, cells, e) && p <= |cells|
    ensures Tiled(t, o + Off(cells, p), cells[p..], e) && o + Off(cells, p) <= e
  {
    hide CellAt;
    TiledSplit(t, o, cells, e, p);
    TiledSpan(t, o + Off(cells, p), cells[p..], e);
  }

  // ---- Scanning a rebuilt term ----

  /** Frame a is missing, every frame from `from` to a was received, none from a to b was,
      and b is the next one received. */
  predicate Missing(cells: seq<Cell>, got: set<nat>, from: nat, a: nat, b: nat) {
    && from <= a < b <= |cells|
    && (forall i :: from <= i < a ==> i in got)
    && (forall i :: a <= i < b ==> i !in got)
    && (b < |cells| ==> b in got)
  }

  // Every frame from `from` on that starts below the limit was received.
  predicate ReceivedBelow(cells: seq<Cell>, got: set<nat>, from: nat, limit: nat) {
    forall i :: from <= i < |cells| && Off(cells, i) < limit ==> i in got
  }

  ghost predicate IsFirstGap(cells: seq<Cell>, got: set<nat>, from: nat, limit: nat, termId: int, gap: Gap) {
    exists a: nat, b: nat :: Missing(cells, got, from, a, b)
      && gap.termId == termId && gap.offset == Off(cells, a) && gap.offset + gap.length == Min(limit, Off(cells, b))
  }

  /** On a partly rebuilt term, scanned from a frame boundary: nothing is reported exactly
      when every frame that starts below the limit was received; otherwise the gap is the
      first missing range, cut at the limit. */
  lemma ScanRebuilt(src: seq<byte>, cells: seq<Cell>, got: set<nat>, from: nat, limit: nat, termId: int)
    requires Source(src, cells) && from <= |cells| && limit % 32 == 0 && Off(cells, from) <= limit <= Span(cells)
    ensures var gap := Scanned(Image(src, cells, got), termId, Off(cells, from), limit).gap;
            && (gap.None? <==> ReceivedBelow(cells, got, from, limit))
            && (gap.Some? ==> IsFirstGap(cells, got, from, limit, termId, gap.value))
  {
    hide Tiled, Source, Span, Off, Image, Scanned, Mask, IsFirstGap, Prefix;
    var t, m := Image(src, cells, got), Mask(cells, got);
    ImageIsTiled(src, cells, got);
    TiledSuffix(t, 0, m, Span(cells), from);
    MaskSpan(cells, got, from);
    SourceSize(src, cells);
    NoGapRebuilt(t, cells, got, from, limit, termId);
    if Scanned(t, termId, Off(cells, from), limit).gap.Some? {
      GapRebuilt(t, cells, got, from, limit, termId);
    }
  }

  lemma NoGapRebuilt(t: seq<byte>, cells: seq<Cell>, got: set<nat>, from: nat, limit: nat, termId: int)
    requires AllCommitted(cells) && from <= |cells| && Off(cells, from) <= limit <= Span(cells) <= |t|
    requires limit % 32 == 0 && Tiled(t, Off(cells, from), Mask(cells, got)[from..], Span(cells))
    ensures var gap := Scanned(t, termId, Off(cells, from), limit).gap;
            var p := Prefix(Mask(cells, got)[from..]);
            && (gap.None? <==> ReceivedBelow(cells, got, from, limit))
            && (gap.Some? ==> from + p < |cells| && Off(cells, from + p) < limit)
  {
    hide Tiled, Span, Off, Scanned, Mask, Prefix, AllCommitted, ReceivedBelow;
    var rest := Mask(cells, got)[from..];
    NoGapExactly(t, termId, Off(cells, from), rest, Span(cells), limit);
    MaskOff(cells, got, from, Prefix(rest));
    BelowIff(cells, got, from, limit);
  }

  lemma SourceSize(src: seq<byte>, cells: seq<Cell>)
    requires Source(src, cells)
    ensures Span(cells) <= |src| && AllCommitted(cells)
  {}

  lemma GapRebuilt(t: seq<byte>, cells: seq<Cell>, got: set<nat>, from: nat, limit: nat, termId: int)
    requires AllCommitted(cells) && from <= |cells| && Off(cells, from) <= limit <= Span(cells) <= |t|
    requires limit % 32 == 0 && Tiled(t, Off(cells, from), Mask(cells, got)[from..], Span(cells))
    requires var p := Prefix(Mask(cells, got)[from..]);
             from + p < |cells| && Off(cells, from + p) < limit
    ensures var gap := Scanned(t, termId, Off(cells, from), limit).gap;
            gap.Some? && IsFirstGap(cells, got, from, limit, termId, gap.value)
  {
    hide Tiled, Span, Off, Scanned, Mask, Missing, FrameLength, RunEnd, Prefix, AllCommitted;
    var rest := Mask(cells, got)[from..];
    var p := Prefix(rest);
    FirstMissing(cells, got, from);
    MaskOff(cells, got, from, p);
    var q := RunEnd(rest, p);
    MaskOff(cells, got, from, q);
    assert AllUntouched(rest[p..q]);
    MissingRun(cells, got, from, p, q);
    GapExactly(t, termId, Off(cells, from), rest, Span(cells), limit, q);
    assert Missing(cells, got, from, from + p, from + q);
  }

  lemma MaskOff(cells: seq<Cell>, got: set<nat>, from: nat, p: nat)
    requires from + p <= |cells|
    ensures Off(cells, from) + Off(Mask(cells, got)[from..], p) == Off(cells, from + p)
  {
    MaskSpan(cells, got, from);
    MaskSpan(cells, got, from + p);
    OffTail(Mask(cells, got), from, from + p);
  }

  // The first cell of the mask that is not committed is the first frame not received.
  lemma FirstMissing(cells: seq<Cell>, got: set<nat>, from: nat)
    requires from <= |cells| && AllCommitted(cells)
    ensures var rest := Mask(cells, got)[from..];
            var p := Prefix(rest);
            && (forall i :: from <= i < from + p ==> i in got)
            && (from + p < |cells| ==> from + p !in got && rest[p].kind.Untouched?)
  {
    var rest := Mask(cells, got)[from..];
    var p := Prefix(rest);
    forall i | from <= i < from + p ensures i in got {
      assert rest[i - from].Committed();
    }
    if from + p < |cells| {
      assert !rest[p].Committed();
    }
  }

  // They were all received exactly when the first cell not received starts at the limit or beyond.
  lemma BelowIff(cells: seq<Cell>, got: set<nat>, from: nat, limit: nat)
    requires from <= |cells| && limit <= Span(cells) && AllCommitted(cells)
    ensures var rest := Mask(cells, got)[from..];
            var p := Prefix(rest);
            && (ReceivedBelow(cells, got, from, limit) <==> Off(cells, from + p) >= limit)
            && (Off(cells, from + p) < limit ==> from + p < |cells| && rest[p].kind.Untouched?)
  {
    hide Off, Span, Prefix, Mask, AllCommitted;
    NoOffset(cells);
    FirstMissing(cells, got, from);
    UpTo(cells, got, from, from + Prefix(Mask(cells, got)[from..]), limit);
  }

  lemma UpTo(cells: seq<Cell>, got: set<nat>, from: nat, a: nat, limit: nat)
    requires from <= a <= |cells| && (forall i :: from <= i < a ==> i in got) && (a < |cells| ==> a !in got)
    requires a == |cells| ==> Off(cells, a) >= limit
    ensures ReceivedBelow(cells, got, from, limit) <==> Off(cells, a) >= limit
  {
    hide Off, Span;
    if Off(cells, a) >= limit {
      forall i | from <= i < |cells| && Off(cells, i) < limit ensures i in got {
        if i >= a { OffOrder(cells, a, i); }
      }
    }
  }

  lemma MissingRun(cells: seq<Cell>, got: set<nat>, from: nat, p: nat, q: nat)
    requires from <= |cells| && AllCommitted(cells)
    requires p < q <= |cells| - from
    requires var rest := Mask(cells, got)[from..];
             AllUntouched(rest[p..q]) && (q < |rest| ==> !rest[q].kind.Untouched?)
    requires forall i :: from <= i < from + p ==> i in got
    ensures Missing(cells, got, from, from + p, from + q)
  {
    var rest := Mask(cells, got)[from..];
    forall i | from + p <= i < from + q ensures i !in got {
      assert rest[p..q][i - from - p].kind.Untouched?;
    }
  }
}
