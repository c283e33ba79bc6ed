/** Reading frames from a term and handing each data frame to a handler. */
module TermReader {
  import opened Bits
  import opened Bytes
  import opened Frames
  import opened Packed

  // What one handler call sees: the header fields and the frame in the term buffer.
  datatype Fragment = Fragment(offset: nat, termId: int, sessionId: int, streamId: int, frame: seq<byte>)

  datatype Outcome = Outcome(offset: nat, fragments: seq<Fragment>)

  function FragmentAt(t: seq<byte>, o: nat): Fragment {
    Fragment(o, TermId(t, o), SessionId(t, o), StreamId(t, o), FrameBytes(t, o))
  }

  /** The fragments one call delivers and the offset it ends at. */
  function Outcomes(t: seq<byte>, o: nat, limit: int): (r: Outcome)
    ensures r.offset >= o + 32 * |r.fragments|
    decreases |t| - o
  {
    if limit <= 0 || o >= |t| || FrameLength(t, o) <= 0 then Outcome(o, [])
    else
      var next := o + AlignedLength(FrameLength(t, o));
      if IsPaddingFrame(t, o) then Outcomes(t, next, limit)
      else
        var rest := Outcomes(t, next, limit - 1);
        Outcome(rest.offset, [FragmentAt(t, o)] + rest.fragments)
  }

  /** Any aligned term, whatever its length words hold, as long as no frame on the way leads
      beyond an i32. */
  method Read(term: array<byte>, termOffset: nat, limit: int) returns (outcome: int, fragments: seq<Fragment>)
    requires term.Length % 32 == 0 && termOffset % 32 == 0
    requires Outcomes(term[..], termOffset, limit).offset <= INT_MAX
    ensures fragments == Outcomes(term[..], termOffset, limit).fragments
    ensures IsI64(outcome)
    ensures High(outcome) == Outcomes(term[..], termOffset, limit).offset && Low(outcome) == |fragments|
  {
    hide AlignedLength, FrameLength, IsPaddingFrame, FragmentAt, Pack, High, Low;
    fragments := [];
    var offset := termOffset;
    ghost var all := Outcomes(term[..], termOffset, limit);
    while |fragments| < limit && offset < term.Length
      invariant offset % 32 == 0
      invariant all.offset == Outcomes(term[..], offset, limit - |fragments|).offset
      invariant all.fragments == fragments + Outcomes(term[..], offset, limit - |fragments|).fragments
      decreases term.Length - offset
    {
      RoomForWord(offset, term.Length, term.Length);
      var frameLength := FrameLengthOf(term, offset);
      if frameLength == 0 || frameLength < 0 {
        break;
      }
      var alignedLength := AlignedLength(frameLength);
      AlignedSum(offset, alignedLength);
      if IsPaddingFrame(term[..], offset) {
        offset := offset + alignedLength;
        continue;
      }
      var fragment := FragmentAt(term[..], offset);
      fragments := fragments + [fragment];
      offset := offset + alignedLength;
    }
    Unpacks(offset, |fragments|);
    outcome := Pack(offset, |fragments|);
  }

  /** On a row of cells no frame leads beyond the end of the row. */
  lemma {:induction false} ReadsInside(t: seq<byte>, o: nat, cells: seq<Cell>, e: nat, limit: int)
    requires Tiled(t, o, cells, e) && o <= e <= |t| && Quiet(t, e)
    ensures Outcomes(t, o, limit).offset <= e
    decreases |cells|
  {
    hide CellAt, AlignedLength, FrameLength, IsPaddingFrame, FragmentAt;
    if limit > 0 && cells != [] && FrameLength(t, o) > 0 {
      CellFits(t, o, cells[0]);
      TiledSpan(t, o + cells[0].size, cells[1..], e);
      CommittedStep(t, o, cells, e);
      ReadsInside(t, o + cells[0].size, cells[1..], e, if IsPaddingFrame(t, o) then limit else limit - 1);
    }
  }

  // A positive length word heads a committed cell.
  lemma CommittedStep(t: seq<byte>, o: nat, cells: seq<Cell>, e: nat)
    requires Tiled(t, o, cells, e) && o < e <= |t| && FrameLength(t, o) > 0
    ensures cells != [] && cells[0].Committed() && CellAt(t, o, cells[0])
    ensures cells[0].size == AlignedLength(FrameLength(t, o)) && (cells[0].kind.Padding? <==> IsPaddingFrame(t, o))
    ensures Tiled(t, o + cells[0].size, cells[1..], e)
  {}

  lemma FrameIsWhole(t: seq<byte>, o: nat, c: Cell)
    requires CellAt(t, o, c) && c.kind.Data?
    ensures |FrameBytes(t, o)| == FrameLength(t, o) && AlignedLength(FrameLength(t, o)) == c.size
  {
    hide IsPaddingFrame;
  }

  // A length word that is not positive heads a cell that is not committed.
  lemma UncommittedStep(t: seq<byte>, o: nat, cells: seq<Cell>, e: nat)
    requires Tiled(t, o, cells, e) && cells != []
    ensures o + 32 <= |t| && (FrameLength(t, o) > 0 <==> cells[0].Committed())
    ensures FrameLength(t, o) < 0 <==> cells[0].kind.Started?
  {}

  // ---- The reader against the row of cells ----

  /** The number of cells before the first that is not committed. */
  function Prefix(cells: seq<Cell>): (n: nat)
    ensures n <= |cells|
    ensures forall i :: 0 <= i < n ==> cells[i].Committed()
    ensures n < |cells| ==> !cells[n].Committed()
  {
    if cells == [] || !cells[0].Committed() then 0 else 1 + Prefix(cells[1..])
  }

  /** Every data frame of a row of cells, in order. */
  function Deliverable(t: seq<byte>, o: nat, cells: seq<Cell>): seq<Fragment>
    decreases |cells|
  {
    if cells == [] then []
    else
      var rest := Deliverable(t, o + cells[0].size, cells[1..]);
      if cells[0].kind.Data? then [FragmentAt(t, o)] + rest else rest
  }

  // Nothing published at e: the term ends there or its length word is not positive.
  predicate Quiet(t: seq<byte>, e: nat) {
    FrameLength(t, e) <= 0
  }

  function Take<T>(all: seq<T>, limit: int): seq<T> {
    if limit <= 0 then [] else if limit < |all| then all[..limit] else all
  }

  /** Of the frames `all`, which end at `end`, the first `limit` are delivered in order; the
      read ends behind the last of them, or at `end` when there are fewer. */
  ghost predicate DeliversFirst(r: Outcome, all: seq<Fragment>, o: nat, end: nat, limit: int) {
    && r.fragments == Take(all, limit)
    && (limit <= 0 ==> r.offset == o)
    && (limit > |all| ==> r.offset == end)
    && (0 < limit <= |all| ==> r.offset == all[limit - 1].offset + AlignedLength(|all[limit - 1].frame|))
  }

  /** A read delivers exactly the first `limit` data frames before the first unpublished
      cell, in order; it ends after the last of them, or at the first unpublished cell
      when the limit is not reached. */
  lemma {:induction false} ReadDelivers(t: seq<byte>, o: nat, cells: seq<Cell>, e: nat, limit: int)
    requires Tiled(t, o, cells, e) && o <= e <= |t| && Quiet(t, e)
    ensures DeliversFirst(Outcomes(t, o, limit), Deliverable(t, o, cells[..Prefix(cells)]), o,
                          o + Span(cells[..Prefix(cells)]), limit)
    decreases |cells|
  {
    hide CellAt, AlignedLength, FrameLength, IsPaddingFrame, FragmentAt, DeliversFirst, Outcomes, Deliverable, Tiled,
        Quiet;
    if cells == [] || !cells[0].Committed() {
      Unpublished(t, o, cells, e, limit);
      DeliversNothing([], o, o, limit);
    } else if limit <= 0 {
      DeliversNothing(Deliverable(t, o, cells[..Prefix(cells)]), o, o + Span(cells[..Prefix(cells)]), limit);
      NoLimit(t, o, limit);
    } else {
      var next := o + cells[0].size;
      var first, rest := cells[..Prefix(cells)], cells[1..][..Prefix(cells[1..])];
      assert first[1..] == rest;
      PublishedStep(t, o, cells, e, limit);
      DeliverableStep(t, o, first);
      ReadDelivers(t, next, cells[1..], e, if cells[0].kind.Data? then limit - 1 else limit);
      if cells[0].kind.Data? {
        DeliversOneMore(Outcomes(t, next, limit - 1), Deliverable(t, next, rest), FragmentAt(t, o), o, next,
                        next + Span(rest), limit);
      } else {
        SkipsPadding(Outcomes(t, next, limit), Deliverable(t, next, rest), o, next, next + Span(rest), limit);
      }
    }
  }

  lemma NoLimit(t: seq<byte>, o: nat, limit: int)
    requires limit <= 0
    ensures Outcomes(t, o, limit) == Outcome(o, [])
  {}

  // The reader stops in front of a cell that is not published.
  lemma Unpublished(t: seq<byte>, o: nat, cells: seq<Cell>, e: nat, limit: int)
    requires Tiled(t, o, cells, e) && Quiet(t, e) && (cells == [] || !cells[0].Committed())
    ensures Outcomes(t, o, limit) == Outcome(o, [])
    ensures Prefix(cells) == 0 && Deliverable(t, o, cells[..0]) == [] && Span(cells[..0]) == 0
  {
    hide FrameLength, CellAt, FragmentAt;
    if cells != [] { UncommittedStep(t, o, cells, e); }
  }

  // It takes one published cell at a time.
  lemma PublishedStep(t: seq<byte>, o: nat, cells: seq<Cell>, e: nat, limit: int)
    requires Tiled(t, o, cells, e) && e <= |t| && cells != [] && cells[0].Committed() && limit > 0
    ensures var next := o + cells[0].size;
            && Tiled(t, next, cells[1..], e) && next <= e
            && Outcomes(t, o, limit) ==
                 (if cells[0].kind.Data? then
                    Outcome(Outcomes(t, next, limit - 1).offset,
                            [FragmentAt(t, o)] + Outcomes(t, next, limit - 1).fragments)
                  else Outcomes(t, next, limit))
    ensures cells[0].kind.Data? ==>
        FragmentAt(t, o).offset + AlignedLength(|FragmentAt(t, o).frame|) == o + cells[0].size
  {
    hide CellAt, AlignedLength, FrameLength, IsPaddingFrame, FrameBytes;
    CellFits(t, o, cells[0]);
    UncommittedStep(t, o, cells, e);
    TiledSpan(t, o + cells[0].size, cells[1..], e);
    CommittedStep(t, o, cells, e);
    if cells[0].kind.Data? { FrameIsWhole(t, o, cells[0]); }
  }

  lemma DeliverableStep(t: seq<byte>, o: nat, cells: seq<Cell>)
    requires cells != []
    ensures var rest := Deliverable(t, o + cells[0].size, cells[1..]);
            Deliverable(t, o, cells) == if cells[0].kind.Data? then [FragmentAt(t, o)] + rest else rest
  {
    hide FragmentAt;
  }

  lemma DeliversNothing(all: seq<Fragment>, o: nat, end: nat, limit: int)
    requires limit <= 0 || (all == [] && end == o)
    ensures DeliversFirst(Outcome(o, []), all, o, end, limit)
  {}

  lemma DeliversOneMore(r: Outcome, all: seq<Fragment>, f: Fragment, o: nat, next: nat, end: nat, limit: int)
    requires limit > 0 && DeliversFirst(r, all, next, end, limit - 1)
    requires f.offset + AlignedLength(|f.frame|) == next
    ensures DeliversFirst(Outcome(r.offset, [f] + r.fragments), [f] + all, o, end, limit)
  {
    hide AlignedLength;
  }

  lemma SkipsPadding(r: Outcome, all: seq<Fragment>, o: nat, next: nat, end: nat, limit: int)
    requires limit > 0 && DeliversFirst(r, all, next, end, limit)
    ensures DeliversFirst(r, all, o, end, limit)
  {}

  /** A read limited to a and one limited to b that resumes where it ended make one
      read limited to a + b. */
  lemma {:induction false} ReadsCompose(t: seq<byte>, o: nat, a: nat, b: nat)
    ensures var first := Outcomes(t, o, a);
            var second := Outcomes(t, first.offset, b);
            Outcomes(t, o, a + b) == Outcome(second.offset, first.fragments + second.fragments)
    decreases |t| - o
  {
    hide FragmentAt, FrameLength, IsPaddingFrame, AlignedLength;
    if a == 0 {
      assert [] + Outcomes(t, o, b).fragments == Outcomes(t, o, b).fragments;
    } else if o < |t| && FrameLength(t, o) > 0 {
      var next := o + AlignedLength(FrameLength(t, o));
      if IsPaddingFrame(t, o) {
        ReadsCompose(t, next, a, b);
      } else {
        ReadsCompose(t, next, a - 1, b);
        var first := Outcomes(t, next, a - 1);
        var second := Outcomes(t, first.offset, b);
        assert [FragmentAt(t, o)] + (first.fragments + second.fragments)
            == ([FragmentAt(t, o)] + first.fragments) + second.fragments;
      }
    }
  }

  /** Terms that agree on what readers can see are read alike. */
  lemma {:induction false} ReadsAlike(t: seq<byte>, t': seq<byte>, o: nat, cells: seq<Cell>, e: nat, limit: int)
    requires Tiled(t, o, cells, e) && o <= e <= |t| && Quiet(t, e) && Quiet(t', e)
    requires SameVisible(t, t', o, cells)
    ensures Outcomes(t', o, limit) == Outcomes(t, o, limit)
    decreases |cells|
  {
    hide AlignedLength, FrameLength, IsPaddingFrame, FragmentAt, CellAt, VisibleSize;
    if limit > 0 && cells != [] {
      CellFits(t, o, cells[0]);
      HeadAlike(t, t', o, cells[0]);
      if FrameLength(t, o) > 0 {
        CommittedStep(t, o, cells, e);
        var next := o + cells[0].size;
        TiledSpan(t, next, cells[1..], e);
        ReadsAlike(t, t', next, cells[1..], e, if IsPaddingFrame(t, o) then limit else limit - 1);
      }
    }
  }

  lemma HeadAlike(t: seq<byte>, t': seq<byte>, o: nat, c: Cell)
    requires |t| == |t'| && CellAt(t, o, c) && o % 32 == 0
    requires forall k :: o <= k < o + VisibleSize(c) && k < |t| ==> t'[k] == t[k]
    ensures FrameLength(t', o) == FrameLength(t, o) && (IsPaddingFrame(t', o) <==> IsPaddingFrame(t, o))
    ensures FrameLength(t, o) > 0 && !IsPaddingFrame(t, o) ==> FragmentAt(t', o) == FragmentAt(t, o)
  {
    hide FrameLength, FragmentAt, AlignedLength;
    HeadersAlike(t, t', o, VisibleSize(c));
    if c.kind.Data? { FrameAlike(t, t', o, c); }
    if c.kind.Untouched? { UntouchedWord(t, o, c); }
  }

  lemma HeadersAlike(t: seq<byte>, t': seq<byte>, o: nat, n: nat)
    requires |t| == |t'| && n >= 32 && o + n <= |t|
    requires forall k :: o <= k < o + n ==> t'[k] == t[k]
    ensures FrameLength(t', o) == FrameLength(t, o) && FrameType(t', o) == FrameType(t, o)
    ensures TermId(t', o) == TermId(t, o) && SessionId(t', o) == SessionId(t, o) && StreamId(t', o) == StreamId(t, o)
  {
    hide Signed32, Word;
  }

  lemma FrameAlike(t: seq<byte>, t': seq<byte>, o: nat, c: Cell)
    requires |t| == |t'| && CellAt(t, o, c) && c.kind.Data?
    requires forall k :: o <= k < o + c.size ==> t'[k] == t[k]
    ensures FrameLength(t', o) == FrameLength(t, o) > 0 && FragmentAt(t', o) == FragmentAt(t, o)
  {
    hide Signed32, Word, Span;
    HeadersAlike(t, t', o, c.size);
    var n := FrameLength(t, o);
    assert n <= c.size;
    assert t'[o..o + n] == t[o..o + n];
  }
}
