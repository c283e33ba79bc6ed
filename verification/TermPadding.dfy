/** The padding frame that the gap filler and the unblocker write over an empty stretch. */
module TermPadding {
  import opened Bytes
  import opened Frames

  const DEFAULT_FRAME_HEADER_OFFSET := 320

  /** The term after the default header, the type, the offset, the term id and the length
      have been written at o, in that order. */
  function Padded(t: seq<byte>, header: seq<byte>, o: nat, length: int, termId: int): (r: seq<byte>)
    requires |header| == 32 && o + 32 <= |t| && IsI32(o) && IsI32(length) && IsI32(termId)
    ensures |r| == |t|
  {
    var t1 := Splice(t, o, header);
    var t2 := Splice(t1, o + 6, [0, 0]);
    var t3 := Splice(t2, o + 8, EncI32(o));
    var t4 := Splice(t3, o + 20, EncI32(termId));
    Splice(t4, o, EncI32(length))
  }

  method ApplyDefaultHeader(meta: array<byte>, term: array<byte>, termOffset: nat)
    requires meta != term && DEFAULT_FRAME_HEADER_OFFSET + 32 <= meta.Length && termOffset + 32 <= term.Length
    modifies term
    ensures term[..] == Splice(old(term[..]), termOffset, DefaultHeader(meta[..]))
  {
    PutBytes(term, termOffset, meta[DEFAULT_FRAME_HEADER_OFFSET..DEFAULT_FRAME_HEADER_OFFSET + 32]);
  }

  function DefaultHeader(meta: seq<byte>): (h: seq<byte>)
    requires DEFAULT_FRAME_HEADER_OFFSET + 32 <= |meta|
    ensures |h| == 32
  {
    meta[DEFAULT_FRAME_HEADER_OFFSET..DEFAULT_FRAME_HEADER_OFFSET + 32]
  }

  method WritePaddingHeader(meta: array<byte>, term: array<byte>, offset: nat, paddingLength: int, termId: int)
    requires meta != term && DEFAULT_FRAME_HEADER_OFFSET + 32 <= meta.Length && offset + 32 <= term.Length
    requires IsI32(offset) && IsI32(paddingLength) && IsI32(termId)
    modifies term
    ensures term[..] == Padded(old(term[..]), DefaultHeader(meta[..]), offset, paddingLength, termId)
  {
    hide Splice, EncI32, DefaultHeader;
    ApplyDefaultHeader(meta, term, offset);
    PutBytes(term, offset + 6, [0, 0]);
    PutI32(term, offset + 8, offset);
    PutI32(term, offset + 20, termId);
    PutI32(term, offset, paddingLength);
  }

  /** The frame written is padding of the given length carrying its own offset and term id,
      the default header's version, flags, session, stream and reserved value; nothing beyond its 32 bytes changes. */
  lemma PaddedReads(t: seq<byte>, header: seq<byte>, o: nat, length: int, termId: int)
    requires |header| == 32 && o + 32 <= |t| && IsI32(o) && IsI32(length) && IsI32(termId)
    ensures var r := Padded(t, header, o, length, termId);
            && FrameLength(r, o) == length && IsPaddingFrame(r, o)
            && I32At(r, o + 8) == o && TermId(r, o) == termId
            && SessionId(r, o) == SessionId(header, 0) && StreamId(r, o) == StreamId(header, 0)
            && r[o + 4..o + 6] == header[4..6] && r[o + 24..o + 32] == header[24..32]
  {
    hide EncI32, Signed32, Word;
    var r := Padded(t, header, o, length, termId);
    WordCopied(r, o, EncI32(length), 0);
    WordCopied(r, o + 8, EncI32(o), 0);
    WordCopied(r, o + 20, EncI32(termId), 0);
    WordCopied(r, o + 12, header, 12);
    WordCopied(r, o + 16, header, 16);
    HeaderKept(t, header, o, length, termId);
  }

  // The words of a padding header at o.
  ghost predicate PaddingHeader(r: seq<byte>, o: nat, header: seq<byte>, length: int, termId: int) {
    && |header| == 32 && o + 32 <= |r|
    && I32At(r, o) == length && r[o + 6..o + 8] == [0, 0] && I32At(r, o + 8) == o && I32At(r, o + 20) == termId
    && I32At(r, o + 12) == I32At(header, 12) && I32At(r, o + 16) == I32At(header, 16)
  }

  lemma PaddedHeader(t: seq<byte>, header: seq<byte>, o: nat, length: int, termId: int)
    requires |header| == 32 && o + 32 <= |t| && IsI32(o) && IsI32(length) && IsI32(termId)
    ensures PaddingHeader(Padded(t, header, o, length, termId), o, header, length, termId)
  {
    hide Padded, I32At;
    PaddedReads(t, header, o, length, termId);
    PaddedType(t, header, o, length, termId);
  }

  lemma PaddedType(t: seq<byte>, header: seq<byte>, o: nat, length: int, termId: int)
    requires |header| == 32 && o + 32 <= |t| && IsI32(o) && IsI32(length) && IsI32(termId)
    ensures Padded(t, header, o, length, termId)[o + 6..o + 8] == [0, 0]
  {
    hide EncI32, Splice;
  }

  lemma HeaderKept(t: seq<byte>, header: seq<byte>, o: nat, length: int, termId: int)
    requires |header| == 32 && o + 32 <= |t| && IsI32(o) && IsI32(length) && IsI32(termId)
    ensures var r := Padded(t, header, o, length, termId);
            r[o + 4..o + 6] == header[4..6] && r[o + 24..o + 32] == header[24..32]
  {
    hide EncI32, Splice;
  }

  lemma WordCopied(r: seq<byte>, o: nat, s: seq<byte>, i: nat)
    requires o + 4 <= |r| && i + 4 <= |s|
    requires r[o] == s[i] && r[o + 1] == s[i + 1] && r[o + 2] == s[i + 2] && r[o + 3] == s[i + 3]
    ensures I32At(r, o) == I32At(s, i)
  {}

  lemma PaddedOutside(t: seq<byte>, header: seq<byte>, o: nat, length: int, termId: int)
    requires |header| == 32 && o + 32 <= |t| && IsI32(o) && IsI32(length) && IsI32(termId)
    ensures var r := Padded(t, header, o, length, termId);
            forall k :: 0 <= k < |t| && !(o <= k < o + 32) ==> r[k] == t[k]
  {
    hide EncI32;
  }

  /** Padding written over a whole stretch of cells is one committed cell in their place. */
  lemma PaddedTiles(t: seq<byte>, header: seq<byte>, o: nat, cells: seq<Cell>, e: nat, a: nat, b: nat, length: int,
      termId: int)
    requires |header| == 32 && IsI32(termId) && IsI32(length)
    requires Tiled(t, o, cells, e) && a < b <= |cells|
    requires length > 0 && AlignedLength(length) == Off(cells, b) - Off(cells, a)
    requires o + Off(cells, a) + 32 <= |t| && IsI32(e)
    ensures IsI32(o + Off(cells, a)) && Off(cells, a) < Off(cells, b)
    ensures Tiled(Padded(t, header, o + Off(cells, a), length, termId), o,
                  cells[..a] + [Cell(Padding, Off(cells, b) - Off(cells, a))] + cells[b..], e)
  {
    hide Span, CellAt, Padded, Off, AlignedLength;
    var at := o + Off(cells, a);
    TiledSpan(t, o, cells, e);
    OffOrder(cells, a, b);
    StretchAligned(t, o, cells, e, a, b);
    var size := Off(cells, b) - Off(cells, a);
    var t' := Padded(t, header, at, length, termId);
    PaddedOutside(t, header, at, length, termId);
    PaddingCell(t, header, at, length, size, termId);
    SplitAt(t, o, cells, e, a);
    SplitAt(t, o, cells, e, b);
    SameVisibleOutside(t, t', o, cells[..a], at, at + 32);
    TiledFrame(t, t', o, cells[..a], at);
    SameVisibleOutside(t, t', at + size, cells[b..], at, at + 32);
    TiledFrame(t, t', at + size, cells[b..], e);
    OneCell(t', at, Cell(Padding, size));
    TiledJoin(t', o, cells[..a], at, [Cell(Padding, size)], at + size);
    TiledJoin(t', o, cells[..a] + [Cell(Padding, size)], at + size, cells[b..], e);
  }

  lemma OneCell(t: seq<byte>, o: nat, c: Cell)
    requires CellAt(t, o, c) && o % 32 == 0
    ensures Tiled(t, o, [c], o + c.size)
  {
    hide CellAt;
    CellFits(t, o, c);
    AlignedSum(o, c.size);
  }

  lemma SplitAt(t: seq<byte>, o: nat, cells: seq<Cell>, e: nat, k: nat)
    requires Tiled(t, o, cells, e) && k <= |cells|
    ensures Span(cells[..k]) == Off(cells, k)
    ensures Tiled(t, o, cells[..k], o + Off(cells, k)) && Tiled(t, o + Off(cells, k), cells[k..], e)
  {
    TiledSplit(t, o, cells, e, k);
  }

  lemma StretchAligned(t: seq<byte>, o: nat, cells: seq<Cell>, e: nat, a: nat, b: nat)
    requires Tiled(t, o, cells, e) && a < b <= |cells|
    ensures (Off(cells, b) - Off(cells, a)) % 32 == 0
    ensures (o + Off(cells, a)) % 32 == 0 && o + Off(cells, b) <= e <= |t|
  {
    hide Span, CellAt, Off;
    TiledCell(t, o, cells, e, a);
    SplitAt(t, o, cells, e, b);
    TiledSpan(t, o, cells[..b], o + Off(cells, b));
    TiledSpan(t, o, cells, e);
    OffOrder(cells, a, b);
    DifferenceAligned(o + Off(cells, a), o + Off(cells, b));
  }

  lemma DifferenceAligned(x: nat, y: nat)
    requires x % 32 == 0 && y % 32 == 0 && x <= y
    ensures (y - x) % 32 == 0
  {}

  lemma PaddingCell(t: seq<byte>, header: seq<byte>, o: nat, length: nat, size: nat, termId: int)
    requires |header| == 32 && IsI32(o) && IsI32(length) && IsI32(termId)
    requires length > 0 && AlignedLength(length) == size && o + size <= |t|
    ensures CellAt(Padded(t, header, o, length, termId), o, Cell(Padding, size))
  {
    hide Padded, FrameLength, IsPaddingFrame;
    PaddedReads(t, header, o, length, termId);
  }

  lemma AlignedAlready(n: nat)
    requires n % 32 == 0
    ensures AlignedLength(n) == n
  {
    UniqueMultiple(n, AlignedLength(n));
  }

  lemma UniqueMultiple(n: nat, m: nat)
    requires n % 32 == 0 && m % 32 == 0 && n <= m < n + 32
    ensures m == n
  {}
}
