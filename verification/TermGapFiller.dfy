/** Filling a gap in a term with one padding frame. */
module TermGapFiller {
  import opened Bytes
  import opened Frames
  import opened TermPadding
  import opened TermReader
  import opened TermRebuilder
  import opened TermGapScanner

  datatype Fill = Fill(filled: bool, term: seq<byte>)

  /** A gap is filled exactly when its length is positive and aligned and every length word
      in it is still zero; otherwise nothing changes. */
  ghost function Filled(t: seq<byte>, header: seq<byte>, termId: int, gapOffset: nat, gapLength: int): (f: Fill)
    requires |header| == 32 && IsI32(termId) && IsI32(gapOffset) && IsI32(gapLength)
    ensures |f.term| == |t|
    ensures f.filled <==> gapLength > 0 && gapLength % 32 == 0 && ZeroWords(t, gapOffset, gapOffset + gapLength)
    ensures !f.filled ==> f.term == t
  {
    if gapLength > 0 && gapLength % 32 == 0 && ZeroWords(t, gapOffset, gapOffset + gapLength) then
      Fill(true, Padded(t, header, gapOffset, gapLength, termId))
    else Fill(false, t)
  }

  method TryFillGap(meta: array<byte>, term: array<byte>, termId: int, gapOffset: nat, gapLength: int)
    returns (filled: bool)
    requires meta != term && DEFAULT_FRAME_HEADER_OFFSET + 32 <= meta.Length
    requires gapOffset % 32 == 0 && gapOffset + gapLength <= term.Length
    requires IsI32(termId) && IsI32(gapOffset) && IsI32(gapLength)
    modifies term
    ensures Fill(filled, term[..]) == Filled(old(term[..]), DefaultHeader(meta[..]), termId, gapOffset, gapLength)
  {
    hide FrameLength, Padded, DefaultHeader, ZeroWords, Filled;
    FilledCases(term[..], DefaultHeader(meta[..]), termId, gapOffset, gapLength);
    if gapLength <= 0 || gapLength % FRAME_ALIGNMENT != 0 {
      return false;
    }
    ghost var t, end := term[..], gapOffset + gapLength;
    ZeroWordsNone(t, end);
    BackwardStart(gapOffset, gapLength);
    var offset: int := gapOffset + gapLength - FRAME_ALIGNMENT;
    while offset >= gapOffset
      invariant gapOffset - 32 <= offset <= end - 32 && offset % 32 == 0
      invariant ZeroWords(t, offset + 32, end) && term[..] == t && (offset < gapOffset ==> offset + 32 == gapOffset)
      decreases offset
    {
      if FrameLengthOf(term, offset) != 0 {
        NonZeroWord(t, gapOffset, end, offset);
        return false;
      }
      ZeroWordsBack(t, offset, end);
      BackwardStep(gapOffset, offset);
      offset := offset - FRAME_ALIGNMENT;
    }
    WritePaddingHeader(meta, term, gapOffset, gapLength, termId);
    return true;
  }

  lemma FilledCases(t: seq<byte>, header: seq<byte>, termId: int, gapOffset: nat, gapLength: int)
    requires |header| == 32 && IsI32(termId) && IsI32(gapOffset) && IsI32(gapLength)
    ensures gapLength <= 0 || gapLength % FRAME_ALIGNMENT != 0 ==>
              Filled(t, header, termId, gapOffset, gapLength) == Fill(false, t)
    ensures gapLength > 0 && !ZeroWords(t, gapOffset, gapOffset + gapLength) ==>
              Filled(t, header, termId, gapOffset, gapLength) == Fill(false, t)
    ensures gapLength > 0 && gapLength % FRAME_ALIGNMENT == 0 && gapOffset + 32 <= |t|
            && ZeroWords(t, gapOffset, gapOffset + gapLength) ==>
              Filled(t, header, termId, gapOffset, gapLength)
                == Fill(true, Padded(t, header, gapOffset, gapLength, termId))
  {
    hide ZeroWords, Padded;
  }

  lemma BackwardStart(gapOffset: nat, gapLength: nat)
    requires gapOffset % 32 == 0 && gapLength % 32 == 0 && gapLength > 0
    ensures (gapOffset + gapLength - 32) % 32 == 0 && gapOffset + gapLength - 32 >= gapOffset
  {}

  lemma BackwardStep(from: nat, o: nat)
    requires from % 32 == 0 && o % 32 == 0 && from <= o
    ensures (o - 32) % 32 == 0 && (o - 32 < from ==> o == from)
  {}

  lemma NonZeroWord(t: seq<byte>, from: nat, e: nat, o: nat)
    requires from <= o && o + 32 <= e && o % 32 == 0 && FrameLength(t, o) != 0
    ensures !ZeroWords(t, from, e)
  {
    hide FrameLength;
  }

  // A run of cells replaced by one padding cell.
  function FillCells(cells: seq<Cell>, a: nat, b: nat): seq<Cell>
    requires a <= b <= |cells|
  {
    cells[..a] + [Cell(Padding, Span(cells[a..b]))] + cells[b..]
  }

  lemma SpanBetween(cells: seq<Cell>, a: nat, b: nat)
    requires a <= b <= |cells|
    ensures Off(cells, a) + Span(cells[a..b]) == Off(cells, b)
  {
    assert cells[..b] == cells[..a] + cells[a..b];
    SpanJoin(cells[..a], cells[a..b]);
  }

  /** Filling a run of untouched cells always succeeds and leaves one padding cell. */
  lemma FillRunOfCells(t: seq<byte>, header: seq<byte>, o: nat, cells: seq<Cell>, e: nat, a: nat, b: nat, termId: int)
    requires |header| == 32 && IsI32(termId) && IsI32(e) && e <= |t|
    requires Tiled(t, o, cells, e) && a < b <= |cells| && AllUntouched(cells[a..b])
    ensures var from, length := o + Off(cells, a), Span(cells[a..b]);
            && IsI32(from) && IsI32(length) && length >= 32 && from + length <= |t|
            && Filled(t, header, termId, from, length) == Fill(true, Padded(t, header, from, length, termId))
            && Tiled(Padded(t, header, from, length, termId), o, FillCells(cells, a, b), e)
  {
    hide CellAt, FrameLength, Padded, Span, Off;
    var from := o + Off(cells, a);
    SplitAt(t, o, cells, e, a);
    StretchAligned(t, o, cells, e, a, b);
    OffTail(cells, a, b);
    SpanBetween(cells, a, b);
    OffOrder(cells, a, b);
    TiledCell(t, o, cells, e, a);
    CellFits(t, from, cells[a]);
    SplitAt(t, from, cells[a..], e, b - a);
    assert cells[a..][..b - a] == cells[a..b];
    UntouchedIsZero(t, from, cells[a..b], o + Off(cells, b));
    AlignedAlready(Span(cells[a..b]));
    PaddedTiles(t, header, o, cells, e, a, b, Span(cells[a..b]), termId);
  }

}
