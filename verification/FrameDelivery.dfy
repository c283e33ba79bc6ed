/** From the bytes a publisher lays out to what a subscriber's handler is given. */
module FrameDelivery {
  import opened Bits
  import opened Bytes
  import opened Frames
  import opened TermReader
  import opened TermRebuilder
  import opened TermGapScanner
  import opened GapRepair

  const UNFRAGMENTED := 0xC0
  const HDR_TYPE_DATA := 1

  // A data frame as its publisher means it; any type but that of padding is data.
  datatype DataFrame = DataFrame(
    version: byte, flags: byte, typeCode: nat, termOffset: int, sessionId: int, streamId: int, termId: int,
    reserved: seq<byte>, payload: seq<byte>)

  predicate ValidFrame(f: DataFrame) {
    && HDR_TYPE_PAD != f.typeCode < 0x1_0000 && IsI32(f.termOffset) && IsI32(f.sessionId) && IsI32(f.streamId)
    && IsI32(f.termId) && |f.reserved| == 8 && HEADER_LENGTH + |f.payload| < TWO_31
  }

  // The first 24 bytes of the header.
  function Fields(length: int, version: byte, flags: byte, typeCode: nat, termOffset: int, sessionId: int,
                  streamId: int, termId: int): (bs: seq<byte>)
    requires IsI32(length) && typeCode < 0x1_0000 && IsI32(termOffset)
    requires IsI32(sessionId) && IsI32(streamId) && IsI32(termId)
    ensures |bs| == 24
  {
    EncI32(length) + [version, flags, typeCode % 0x100, typeCode / 0x100] + EncI32(termOffset) + EncI32(sessionId)
      + EncI32(streamId) + EncI32(termId)
  }

  /** The bytes of the frame: the length of header and payload, version, flags, type, offset, the
      session, the stream, the term id, the reserved value, the payload. */
  function Laid(f: DataFrame): (bs: seq<byte>)
    requires ValidFrame(f)
    ensures |bs| == HEADER_LENGTH + |f.payload|
  {
    Fields(HEADER_LENGTH + |f.payload|, f.version, f.flags, f.typeCode, f.termOffset, f.sessionId, f.streamId, f.termId)
      + f.reserved + f.payload
  }

  predicate WrittenAt(t: seq<byte>, o: nat, f: DataFrame) {
    ValidFrame(f) && o + HEADER_LENGTH + |f.payload| <= |t| && t[o..o + HEADER_LENGTH + |f.payload|] == Laid(f)
  }

  /** `write_default_header`: eight stores that lay out the fields of an unfragmented data frame
      and touch nothing else. */
  method WriteDefaultHeader(term: array<byte>, termOffset: nat, frameLength: int, sessionId: int, streamId: int,
                            termId: int)
    requires termOffset + 24 <= term.Length && IsI32(termOffset) && IsI32(frameLength)
    requires IsI32(sessionId) && IsI32(streamId) && IsI32(termId)
    modifies term
    ensures term[..] == Splice(old(term[..]), termOffset,
                               Fields(frameLength, 0, UNFRAGMENTED, HDR_TYPE_DATA, termOffset, sessionId, streamId,
                                      termId))
  {
    hide Splice, EncI32;
    ghost var t := term[..];
    PutI32(term, termOffset, frameLength);
    PutBytes(term, termOffset + 4, [0]);
    PutBytes(term, termOffset + 5, [UNFRAGMENTED]);
    PutBytes(term, termOffset + 6, [HDR_TYPE_DATA, 0]);
    PutI32(term, termOffset + 8, termOffset);
    PutI32(term, termOffset + 12, sessionId);
    PutI32(term, termOffset + 16, streamId);
    PutI32(term, termOffset + 20, termId);
    EightStores(t, term[..], termOffset, frameLength, sessionId, streamId, termId);
  }

  lemma EightStores(t: seq<byte>, t': seq<byte>, o: nat, length: int, sessionId: int, streamId: int, termId: int)
    requires o + 24 <= |t| && IsI32(o) && IsI32(length) && IsI32(sessionId) && IsI32(streamId) && IsI32(termId)
    requires t' == Splice(Splice(Splice(Splice(Splice(Splice(Splice(Splice(t, o, EncI32(length)), o + 4, [0]),
                     o + 5, [UNFRAGMENTED]), o + 6, [HDR_TYPE_DATA, 0]), o + 8, EncI32(o)), o + 12, EncI32(sessionId)),
                     o + 16, EncI32(streamId)), o + 20, EncI32(termId))
    ensures t' == Splice(t, o, Fields(length, 0, UNFRAGMENTED, HDR_TYPE_DATA, o, sessionId, streamId, termId))
  {
    hide Splice, EncI32;
    var a := EncI32(length);
    Appended(t, o, a, [0]);
    Appended(t, o, a + [0], [UNFRAGMENTED]);
    Appended(t, o, a + [0] + [UNFRAGMENTED], [HDR_TYPE_DATA, 0]);
    var b := a + [0] + [UNFRAGMENTED] + [HDR_TYPE_DATA, 0];
    assert b == a + [0, UNFRAGMENTED, HDR_TYPE_DATA, 0];
    Appended(t, o, b, EncI32(o));
    Appended(t, o, b + EncI32(o), EncI32(sessionId));
    Appended(t, o, b + EncI32(o) + EncI32(sessionId), EncI32(streamId));
    Appended(t, o, b + EncI32(o) + EncI32(sessionId) + EncI32(streamId), EncI32(termId));
  }

  // A store right behind another.
  lemma Appended(t: seq<byte>, o: nat, a: seq<byte>, b: seq<byte>)
    requires o + |a| + |b| <= |t|
    ensures Splice(Splice(t, o, a), o + |a|, b) == Splice(t, o, a + b)
  {}

  // ---- What the handler is given ----

  /** The handler call for a frame written at o. */
  function Handed(o: nat, f: DataFrame): Fragment
    requires ValidFrame(f)
  {
    Fragment(offset := o, termId := f.termId, sessionId := f.sessionId, streamId := f.streamId, frame := Laid(f))
  }

  lemma WrittenReads(t: seq<byte>, o: nat, f: DataFrame)
    requires WrittenAt(t, o, f)
    ensures FragmentAt(t, o) == Handed(o, f)
    ensures FrameLength(t, o) == HEADER_LENGTH + |f.payload| && !IsPaddingFrame(t, o)
  {
    hide EncI32, I32At, Laid;
    var bs := Laid(f);
    LaidWords(f);
    LaidType(f);
    forall k | 0 <= k < |bs| ensures t[o + k] == bs[k] {
      assert t[o..o + |bs|][k] == t[o + k];
    }
    SameWord32(t, o, bs, 0);
    SameWord32(t, o, bs, 12);
    SameWord32(t, o, bs, 16);
    SameWord32(t, o, bs, 20);
  }

  lemma SameWord32(t: seq<byte>, o: nat, bs: seq<byte>, i: nat)
    requires i + 4 <= |bs| && o + |bs| <= |t| && forall k :: 0 <= k < |bs| ==> t[o + k] == bs[k]
    ensures I32At(t, o + i) == I32At(bs, i)
  {}

  lemma LaidWords(f: DataFrame)
    requires ValidFrame(f)
    ensures var bs := Laid(f);
            && I32At(bs, 0) == HEADER_LENGTH + |f.payload| && I32At(bs, 12) == f.sessionId
            && I32At(bs, 16) == f.streamId && I32At(bs, 20) == f.termId
  {
    hide EncI32, I32At;
    var bs := Laid(f);
    EncodedAt(bs, 0, HEADER_LENGTH + |f.payload|);
    EncodedAt(bs, 12, f.sessionId);
    EncodedAt(bs, 16, f.streamId);
    EncodedAt(bs, 20, f.termId);
  }

  lemma EncodedAt(bs: seq<byte>, i: nat, v: int)
    requires IsI32(v) && i + 4 <= |bs| && bs[i..i + 4] == EncI32(v)
    ensures I32At(bs, i) == v
  {
    hide EncI32;
    var e := EncI32(v);
    assert bs[i] == e[0] && bs[i + 1] == e[1] && bs[i + 2] == e[2] && bs[i + 3] == e[3];
    assert I32At(bs, i) == I32At(e, 0);
  }

  lemma LaidType(f: DataFrame)
    requires ValidFrame(f)
    ensures Laid(f)[6] == f.typeCode % 0x100 && Laid(f)[7] == f.typeCode / 0x100
    ensures (Laid(f)[6] as int) + 0x100 * (Laid(f)[7] as int) == f.typeCode
  {
    hide EncI32;
  }

  // Every data cell among the first m holds its frame.
  ghost predicate RowWritten(t: seq<byte>, o: nat, cells: seq<Cell>, frames: seq<DataFrame>, m: nat)
    requires m <= |cells|
  {
    |frames| == |cells| && forall i :: 0 <= i < m && cells[i].kind.Data? ==> WrittenAt(t, o + Off(cells, i), frames[i])
  }

  /** The handler calls for the first m cells, in order: one per data frame, padding skipped. */
  ghost function HandedRow(o: nat, cells: seq<Cell>, frames: seq<DataFrame>, m: nat): (fs: seq<Fragment>)
    requires m <= |cells| == |frames|
    requires forall i :: 0 <= i < m && cells[i].kind.Data? ==> ValidFrame(frames[i])
  {
    if m == 0 then []
    else
      var before := HandedRow(o, cells, frames, m - 1);
      if cells[m - 1].kind.Data? then before + [Handed(o + Off(cells, m - 1), frames[m - 1])] else before
  }

  lemma {:induction false} DeliverableIsHanded(t: seq<byte>, o: nat, cells: seq<Cell>, frames: seq<DataFrame>, m: nat)
    requires m <= |cells| && RowWritten(t, o, cells, frames, m)
    ensures Deliverable(t, o, cells[..m]) == HandedRow(o, cells, frames, m)
    decreases m
  {
    hide FragmentAt, Off, Deliverable, Laid;
    if m == 0 {
      NothingThere(t, o);
    } else {
      var last := cells[m - 1];
      assert cells[..m] == cells[..m - 1] + [last];
      DeliverableIsHanded(t, o, cells, frames, m - 1);
      DeliverableJoin(t, o, cells[..m - 1], [last]);
      OneDeliverable(t, o + Off(cells, m - 1), last);
      OffIsSpan(cells, m - 1);
      if last.kind.Data? { WrittenReads(t, o + Off(cells, m - 1), frames[m - 1]); }
    }
  }

  lemma NothingThere(t: seq<byte>, o: nat)
    ensures Deliverable(t, o, []) == []
  {}

  lemma OneDeliverable(t: seq<byte>, o: nat, c: Cell)
    ensures Deliverable(t, o, [c]) == if c.kind.Data? then [FragmentAt(t, o)] else []
  {
    hide FragmentAt;
    assert [c][1..] == [];
    assert Deliverable(t, o + c.size, []) == [];
  }

  lemma OffIsSpan(cells: seq<Cell>, i: nat)
    requires i <= |cells|
    ensures Off(cells, i) == Span(cells[..i])
  {}

  /** A read hands over exactly the first `limit` of the frames published in front of the first
      unpublished cell, each with its own offset, term id, session, stream and bytes. */
  lemma ReadHandsOver(t: seq<byte>, o: nat, cells: seq<Cell>, frames: seq<DataFrame>, e: nat, limit: int)
    requires Tiled(t, o, cells, e) && o <= e <= |t| && Quiet(t, e) && RowWritten(t, o, cells, frames, Prefix(cells))
    ensures Outcomes(t, o, limit).fragments == Take(HandedRow(o, cells, frames, Prefix(cells)), limit)
  {
    hide Tiled, Off, Deliverable, Outcomes, Prefix, Quiet, HandedRow, Laid;
    ReadDelivers(t, o, cells, e, limit);
    DeliverableIsHanded(t, o, cells, frames, Prefix(cells));
  }

  // ---- Through the receiver ----

  /** The frames from `from` on up to the first that was not placed. */
  ghost function Arrived(cells: seq<Cell>, got: set<nat>, from: nat): (m: nat)
    requires from <= |cells|
    ensures from <= m <= |cells| && (forall i :: from <= i < m ==> i in got) && (m < |cells| ==> m !in got)
    decreases |cells| - from
  {
    if from == |cells| || from !in got then from else Arrived(cells, got, from + 1)
  }

  /** From the source to the handler: after any packets of a published term have been placed, in
      any order and with any losses, a read from any frame hands over exactly the first `limit`
      of the source's frames up to the first that is missing, with the source's ids and bytes. */
  lemma RebuiltHandsOver(src: seq<byte>, cells: seq<Cell>, frames: seq<DataFrame>, order: seq<Block>, from: nat,
                         limit: int)
    requires Source(src, cells) && RowWritten(src, 0, cells, frames, |cells|) && from <= |cells|
    requires forall b :: b in order ==> IsBlock(cells, b)
    ensures var m := Arrived(cells, Placed(order), from);
            var t := InsertAll(Zeros(|src|), src, cells, order);
            && from <= m <= |cells|
            && Outcomes(t, Off(cells, from), limit).fragments
               == Take(HandedRow(Off(cells, from), cells[from..], frames[from..], m - from), limit)
  {
    hide Source, RowWritten, Off, Image, InsertAll, Placed, Tiled, Outcomes, HandedRow, IsBlock, Mask, Laid, Prefix;
    RebuildsImage(src, cells, order);
    var got := Placed(order);
    var t, row := Image(src, cells, got), Mask(cells, got)[from..];
    var m := Arrived(cells, got, from);
    ImageIsTiled(src, cells, got);
    SourceSize(src, cells);
    TiledSuffix(t, 0, Mask(cells, got), Span(cells), from);
    MaskSpan(cells, got, from);
    TiledSpan(t, Off(cells, from), row, Span(cells));
    ImageQuiet(src, cells, got);
    PrefixArrived(cells, got, from);
    MaskWritten(src, cells, frames, got, from, m);
    ReadHandsOver(t, Off(cells, from), row, frames[from..], Span(cells), limit);
    AllValid(src, cells, frames);
    MaskHanded(cells, frames, got, from, m);
  }

  lemma AllValid(src: seq<byte>, cells: seq<Cell>, frames: seq<DataFrame>)
    requires RowWritten(src, 0, cells, frames, |cells|)
    ensures |frames| == |cells| && forall i :: 0 <= i < |cells| && cells[i].kind.Data? ==> ValidFrame(frames[i])
  {
    hide Laid, Off;
  }

  lemma ImageQuiet(src: seq<byte>, cells: seq<Cell>, got: set<nat>)
    requires Span(cells) <= |src|
    ensures Quiet(Image(src, cells, got), Span(cells))
  {
    hide Span, Covered;
    var t, e := Image(src, cells, got), Span(cells);
    forall k: nat | e <= k < |src| ensures t[k] == 0 {
      if Covered(cells, got, k) { NoFrameBeyond(cells, got, k); }
    }
    if e + 4 <= |t| { ZeroI32(t, e); }
  }

  lemma PrefixArrived(cells: seq<Cell>, got: set<nat>, from: nat)
    requires from <= |cells| && AllCommitted(cells)
    ensures Prefix(Mask(cells, got)[from..]) == Arrived(cells, got, from) - from
  {
    hide Mask, Prefix, AllCommitted;
    FirstMissing(cells, got, from);
    var p, m := Prefix(Mask(cells, got)[from..]), Arrived(cells, got, from);
    assert p <= |cells| - from;
    assert from + p < m ==> from + p in got;
    assert m < from + p ==> m in got;
  }

  lemma MaskWritten(src: seq<byte>, cells: seq<Cell>, frames: seq<DataFrame>, got: set<nat>, from: nat, m: nat)
    requires Source(src, cells) && RowWritten(src, 0, cells, frames, |cells|)
    requires from <= m <= |cells| && forall i :: from <= i < m ==> i in got
    ensures |frames| == |cells|
    ensures RowWritten(Image(src, cells, got), Off(cells, from), Mask(cells, got)[from..], frames[from..], m - from)
  {
    hide Source, Off, Image, WrittenAt;
    var t, row := Image(src, cells, got), Mask(cells, got)[from..];
    forall i | 0 <= i < m - from && row[i].kind.Data?
      ensures WrittenAt(t, Off(cells, from) + Off(row, i), frames[from..][i])
    {
      MaskOff(cells, got, from, i);
      FrameCopied(src, cells, frames, got, from + i);
    }
  }

  lemma FrameCopied(src: seq<byte>, cells: seq<Cell>, frames: seq<DataFrame>, got: set<nat>, i: nat)
    requires Source(src, cells) && RowWritten(src, 0, cells, frames, |cells|)
    requires i < |cells| && i in got && cells[i].kind.Data?
    ensures WrittenAt(Image(src, cells, got), Off(cells, i), frames[i])
  {
    hide Source, Image, Off, Laid;
    var o, f := Off(cells, i), frames[i];
    assert WrittenAt(src, 0 + o, f);
    WrittenReads(src, o, f);
    ImageInside(src, cells, got, i);
    CellHolds(src, cells, i);
    var t := Image(src, cells, got);
    assert t[o..o + HEADER_LENGTH + |f.payload|] == src[o..o + HEADER_LENGTH + |f.payload|];
  }

  lemma CellHolds(src: seq<byte>, cells: seq<Cell>, i: nat)
    requires Source(src, cells) && i < |cells| && cells[i].kind.Data?
    ensures FrameLength(src, Off(cells, i)) <= cells[i].size == VisibleSize(cells[i])
  {
    hide Off, Span, FrameLength, Tiled;
    TiledCell(src, 0, cells, Span(cells), i);
  }

  // The calls for the mask are those for the source's cells.
  lemma MaskHanded(cells: seq<Cell>, frames: seq<DataFrame>, got: set<nat>, from: nat, m: nat)
    requires |frames| == |cells| && from <= m <= |cells| && forall i :: from <= i < m ==> i in got
    requires forall i :: 0 <= i < |cells| && cells[i].kind.Data? ==> ValidFrame(frames[i])
    ensures forall i :: 0 <= i < m - from && Mask(cells, got)[from..][i].kind.Data? ==> ValidFrame(frames[from..][i])
    ensures HandedRow(Off(cells, from), Mask(cells, got)[from..], frames[from..], m - from)
         == HandedRow(Off(cells, from), cells[from..], frames[from..], m - from)
  {
    hide Off, Laid, HandedRow, ValidFrame;
    var row := Mask(cells, got)[from..];
    assert forall i :: 0 <= i < m - from ==> row[i] == cells[from..][i];
    forall i | 0 <= i < m - from ensures Off(row, i) == Off(cells[from..], i) {
      MaskOff(cells, got, from, i);
      OffTail(cells, from, from + i);
    }
    SameHanded(Off(cells, from), row, cells[from..], frames[from..], m - from);
  }

  lemma {:induction false} SameHanded(o: nat, a: seq<Cell>, b: seq<Cell>, frames: seq<DataFrame>, m: nat)
    requires m <= |a| == |b| == |frames| && forall i :: 0 <= i < m ==> a[i] == b[i] && Off(a, i) == Off(b, i)
    requires forall i :: 0 <= i < m && a[i].kind.Data? ==> ValidFrame(frames[i])
    ensures HandedRow(o, a, frames, m) == HandedRow(o, b, frames, m)
    decreases m
  {
    hide Off, Laid, ValidFrame;
    if m > 0 { SameHanded(o, a, b, frames, m - 1); }
  }
}
