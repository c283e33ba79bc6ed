/** How much of a term the sender may put into one packet, and the block scanner beside it. */
module TermScanner {
  import opened Bits
  import opened Bytes
  import opened Frames
  import opened Packed
  import opened TermPadding
  import opened TermReader
  import opened TermGapScanner

  datatype Availability = Availability(available: int, padding: nat)

  /** The scan from offset o with `available` bytes already accepted. */
  function Available(t: seq<byte>, o: nat, maxLength: int, available: nat): Availability
    decreases |t| - o
  {
    var alignedLength := if FrameLength(t, o) > 0 then AlignedLength(FrameLength(t, o)) else 0;
    if o >= |t| || FrameLength(t, o) <= 0 then Availability(available, 0)
    else if IsPaddingFrame(t, o) then
      if available + HEADER_LENGTH > maxLength then
          Availability(if available == 0 then -HEADER_LENGTH else available, 0)
      else Availability(available + HEADER_LENGTH, alignedLength - HEADER_LENGTH)
    else if available + alignedLength > maxLength then
      Availability(if available == 0 then -alignedLength else available, 0)
    else Available(t, o + alignedLength, maxLength, available + alignedLength)
  }

  // No frame that the scan meets leads beyond an i32.
  predicate InRange(t: seq<byte>, o: nat, maxLength: int, available: nat)
    decreases |t| - o
  {
    if o >= |t| || FrameLength(t, o) <= 0 then true
    else
      var next := o + AlignedLength(FrameLength(t, o));
      && next <= INT_MAX
      && (IsPaddingFrame(t, o) || available + (next - o) > maxLength ||
          InRange(t, next, maxLength, available + (next - o)))
  }

  method ScanForAvailability(term: array<byte>, offset: nat, maxLength: int) returns (result: int)
    requires term.Length % 32 == 0 && offset % 32 == 0 && InRange(term[..], offset, maxLength, 0)
    ensures IsI64(result)
    ensures Low(result) == Available(term[..], offset, maxLength, 0).available
    ensures High(result) == Available(term[..], offset, maxLength, 0).padding
  {
    hide AlignedLength, FrameLength, IsPaddingFrame, Pack, High, Low;
    var at := offset;
    var available, padding := 0, 0;
    while at < term.Length
      invariant at % 32 == 0 && offset <= at && (at > offset ==> at <= INT_MAX)
      invariant padding == 0 && available == at - offset && InRange(term[..], at, maxLength, available)
      invariant Available(term[..], offset, maxLength, 0) == Available(term[..], at, maxLength, available)
      decreases term.Length - at
    {
      RoomForWord(at, term.Length, term.Length);
      var frameLength := FrameLengthOf(term, at);
      if frameLength == 0 {
        break;
      }
      if frameLength < 0 {
        break;
      }
      var alignedLength := AlignedLength(frameLength);
      if IsPaddingFrame(term[..], at) {
        if available + HEADER_LENGTH > maxLength {
          if available == 0 {
            available := -HEADER_LENGTH;
          }
          break;
        }
        available := available + HEADER_LENGTH;
        padding := alignedLength - HEADER_LENGTH;
        break;
      }
      if available + alignedLength > maxLength {
        if available == 0 {
          available := -(available + alignedLength);
        }
        break;
      }
      AlignedSum(at, alignedLength);
      available := available + alignedLength;
      at := at + alignedLength;
    }
    assert Available(term[..], offset, maxLength, 0) == Availability(available, padding);
    Unpacks(padding, available);
    result := Pack(padding, available);
  }

  /** On a row of cells every frame stays inside the row. */
  lemma {:induction false} RowInRange(t: seq<byte>, o: nat, cells: seq<Cell>, e: nat, maxLength: int, available: nat)
    requires Tiled(t, o, cells, e) && o <= e <= |t| && e <= INT_MAX && Quiet(t, e)
    ensures InRange(t, o, maxLength, available)
    decreases |cells|
  {
    hide CellAt, AlignedLength, FrameLength, IsPaddingFrame;
    if cells != [] && FrameLength(t, o) > 0 {
      CellFits(t, o, cells[0]);
      TiledSpan(t, o + cells[0].size, cells[1..], e);
      CommittedStep(t, o, cells, e);
      RowInRange(t, o + cells[0].size, cells[1..], e, maxLength, available + cells[0].size);
    }
  }

  /** The end of a contiguous block: padding is consumed only at the start, and then only its header. */
  function BlockEnd(t: seq<byte>, start: nat, o: nat, limit: nat): nat
    decreases |t| - o
  {
    if o >= |t| || o >= limit || FrameLength(t, o) <= 0 then o
    else if IsPaddingFrame(t, o) then if o == start then o + HEADER_LENGTH else o
    else if o + AlignedLength(FrameLength(t, o)) > limit then o
    else BlockEnd(t, start, o + AlignedLength(FrameLength(t, o)), limit)
  }

  method ScanBlock(term: array<byte>, termOffset: nat, limitOffset: nat) returns (offset: nat)
    requires term.Length % 32 == 0 && termOffset % 32 == 0
    ensures offset == BlockEnd(term[..], termOffset, termOffset, limitOffset)
  {
    hide AlignedLength, FrameLength, IsPaddingFrame;
    offset := termOffset;
    while offset < term.Length && offset < limitOffset
      invariant offset % 32 == 0
      invariant BlockEnd(term[..], termOffset, termOffset, limitOffset) ==
          BlockEnd(term[..], termOffset, offset, limitOffset)
      decreases term.Length - offset
    {
      RoomForWord(offset, term.Length, term.Length);
      var frameLength := FrameLengthOf(term, offset);
      if frameLength == 0 {
        break;
      }
      if frameLength < 0 {
        break;
      }
      var alignedLength := AlignedLength(frameLength);
      if IsPaddingFrame(term[..], offset) {
        if offset == termOffset {
          return offset + HEADER_LENGTH;
        }
        break;
      }
      if offset + alignedLength > limitOffset {
        break;
      }
      AlignedSum(offset, alignedLength);
      offset := offset + alignedLength;
    }
  }

  // ---- Against the row of cells ----

  // The bytes of a published cell that count as available.
  function Needed(c: Cell): nat {
    if c.kind.Padding? then HEADER_LENGTH else c.size
  }

  /** The number of cells that the scan covers. */
  function Covers(cells: seq<Cell>, maxLength: int, available: nat): (j: nat)
    ensures j <= |cells|
    decreases |cells|
  {
    if cells == [] || !cells[0].Committed() || available + Needed(cells[0]) > maxLength then 0
    else if cells[0].kind.Padding? then 1
    else 1 + Covers(cells[1..], maxLength, available + cells[0].size)
  }

  /** What is covered: data frames one behind the other, at most the last one padding, all
      published, together within the maximum; and one cell more would not have done. */
  ghost predicate IsMaximalRun(cells: seq<Cell>, maxLength: int, available: nat, j: nat) {
    && j <= |cells|
    && (forall i :: 0 <= i < j ==> cells[i].Committed())
    && (forall i :: 0 <= i < j - 1 ==> cells[i].kind.Data?)
    && (j > 0 ==> available + Off(cells, j - 1) + Needed(cells[j - 1]) <= maxLength)
    && (j == |cells| || !cells[j].Committed() || available + Off(cells, j) + Needed(cells[j]) > maxLength
        || (j > 0 && cells[j - 1].kind.Padding?))
  }

  lemma {:induction false} CoversMaximalRun(cells: seq<Cell>, maxLength: int, available: nat)
    ensures IsMaximalRun(cells, maxLength, available, Covers(cells, maxLength, available))
    decreases |cells|
  {
    var j := Covers(cells, maxLength, available);
    if j == 0 {
    } else if cells[0].kind.Padding? {
    } else {
      var rest := cells[1..];
      CoversMaximalRun(rest, maxLength, available + cells[0].size);
      assert forall i :: 0 < i < j ==> cells[i] == rest[i - 1];
      OffCons(cells, j - 1);
      OffCons(cells, j);
    }
  }

  lemma OffCons(cells: seq<Cell>, j: nat)
    requires 0 <= j <= |cells|
    ensures j > 0 ==> Off(cells, j) == cells[0].size + Off(cells[1..], j - 1)
    ensures j == 0 ==> Off(cells, j) == 0
  {
    if j > 0 { assert cells[..j][1..] == cells[1..][..j - 1]; }
  }

  // What the scan reports when it covers j cells.
  function Reported(cells: seq<Cell>, available: nat, j: nat): Availability
    requires j <= |cells| && (j > 0 ==> cells[j - 1].size >= Needed(cells[j - 1]))
  {
    if j > 0 then
      Availability(available + Off(cells, j - 1) + Needed(cells[j - 1]), cells[j - 1].size - Needed(cells[j - 1]))
    else if available == 0 && cells != [] && cells[0].Committed() then Availability(0 - Needed(cells[0]), 0)
    else Availability(available, 0)
  }

  /** Available is the maximal run of published frames within the maximum and padding the
      rest of a padding frame that ends it; available is negative exactly when a frame is
      published but the first one does not fit. */
  lemma {:induction false} ScanReports(t: seq<byte>, o: nat, cells: seq<Cell>, e: nat, maxLength: int, available: nat)
    requires Tiled(t, o, cells, e) && o <= e <= |t| && Quiet(t, e)
    ensures var j := Covers(cells, maxLength, available);
            && (j > 0 ==> cells[j - 1].size >= Needed(cells[j - 1]))
            && Available(t, o, maxLength, available) == Reported(cells, available, j)
    decreases |cells|
  {
    hide CellAt, AlignedLength, FrameLength, IsPaddingFrame, Span;
    if cells != [] {
      CellFits(t, o, cells[0]);
      UncommittedStep(t, o, cells, e);
      TiledSpan(t, o + cells[0].size, cells[1..], e);
      if cells[0].Committed() {
        CommittedStep(t, o, cells, e);
        OffCons(cells, 0);
        if cells[0].kind.Data? && available + cells[0].size <= maxLength {
          var j := Covers(cells[1..], maxLength, available + cells[0].size);
          ScanReports(t, o + cells[0].size, cells[1..], e, maxLength, available + cells[0].size);
          OffCons(cells, j);
        }
      }
    }
  }

  lemma AvailableNegative(t: seq<byte>, o: nat, cells: seq<Cell>, e: nat, maxLength: int)
    requires Tiled(t, o, cells, e) && o <= e <= |t| && Quiet(t, e)
    ensures Available(t, o, maxLength, 0).available < 0
       <==> cells != [] && cells[0].Committed() && Needed(cells[0]) > maxLength
  {
    hide Available, FrameLength, AlignedLength, Span;
    ScanReports(t, o, cells, e, maxLength, 0);
    if cells != [] { CellFits(t, o, cells[0]); }
  }

  /** When something is available the block scanner, limited to offset + maximum, ends at the
      same place, less the header of a padding frame that ends the run behind other frames. */
  lemma BlockEndsAlike(t: seq<byte>, o: nat, cells: seq<Cell>, e: nat, maxLength: nat)
    requires Tiled(t, o, cells, e) && o <= e <= |t| && Quiet(t, e)
    requires Available(t, o, maxLength, 0).available > 0
    ensures var j := Covers(cells, maxLength, 0);
            j > 0 && BlockEnd(t, o, o, o + maxLength)
                  == o + Available(t, o, maxLength, 0).available
                     - (if j > 1 && cells[j - 1].kind.Padding? then HEADER_LENGTH else 0)
  {
    hide Available, FrameLength, AlignedLength, CellAt, BlockEnd;
    ScanReports(t, o, cells, e, maxLength, 0);
    BlockFollows(t, o, o, cells, e, maxLength);
  }

  lemma {:induction false} BlockFollows(t: seq<byte>, start: nat, o: nat, cells: seq<Cell>, e: nat, maxLength: nat)
    requires Tiled(t, o, cells, e) && start <= o <= e <= |t| && Quiet(t, e)
    requires o == start ==> cells != [] && cells[0].Committed() && Needed(cells[0]) <= maxLength
    ensures var j := Covers(cells, maxLength, o - start);
            BlockEnd(t, start, o, start + maxLength)
              == if j == 0 then o
                 else o + Off(cells, j - 1)
                      + (if cells[j - 1].kind.Padding? && (j > 1 || o > start) then 0 else Needed(cells[j - 1]))
    decreases |cells|
  {
    hide CellAt, AlignedLength, FrameLength, IsPaddingFrame, Span;
    if cells != [] {
      CellFits(t, o, cells[0]);
      UncommittedStep(t, o, cells, e);
      TiledSpan(t, o + cells[0].size, cells[1..], e);
      OffCons(cells, 0);
      if cells[0].Committed() {
        CommittedStep(t, o, cells, e);
        if cells[0].kind.Data? && o - start + cells[0].size <= maxLength {
          var j := Covers(cells[1..], maxLength, o - start + cells[0].size);
          BlockFollows(t, start, o + cells[0].size, cells[1..], e, maxLength);
          OffCons(cells, j);
        }
      }
    }
  }

  /** When nothing is available the block scanner stays where it is, but for a padding frame at
      its start: it takes that frame's header whenever the limit lies behind the start, even a
      limit inside the header. */
  lemma BlockEndsOtherwise(t: seq<byte>, o: nat, cells: seq<Cell>, e: nat, maxLength: nat)
    requires Tiled(t, o, cells, e) && o <= e <= |t| && Quiet(t, e)
    requires Available(t, o, maxLength, 0).available <= 0
    ensures BlockEnd(t, o, o, o + maxLength)
         == if cells != [] && cells[0].kind.Padding? && maxLength > 0 then o + HEADER_LENGTH else o
  {
    hide Available, FrameLength, AlignedLength, CellAt;
    ScanReports(t, o, cells, e, maxLength, 0);
    if cells != [] {
      CellFits(t, o, cells[0]);
      UncommittedStep(t, o, cells, e);
      if Covers(cells, maxLength, 0) > 0 { CoveredWidth(t, o, cells, e, Covers(cells, maxLength, 0) - 1); }
      if cells[0].Committed() { CommittedStep(t, o, cells, e); }
    }
  }

  // ---- The sender over time ----

  /** At some moment the term shows the first m cells of the stream and nothing behind them. */
  ghost predicate Shows(t: seq<byte>, o: nat, cells: seq<Cell>, m: nat) {
    && m <= |cells| && Tiled(t, o, cells[..m], o + Off(cells, m)) && AllCommitted(cells[..m])
    && o + Off(cells, m) <= |t| && Quiet(t, o + Off(cells, m))
  }

  /** Where a sender stands that scanned each of these views of the term in turn and moved
      on by available + padding whenever something was available. */
  function SenderAt(views: seq<seq<byte>>, o: nat, maxLength: int): nat {
    if views == [] then o
    else
      var at := SenderAt(views[..|views| - 1], o, maxLength);
      var s := Available(views[|views| - 1], at, maxLength, 0);
      if s.available > 0 then at + s.available + s.padding else at
  }

  // Packet k was taken from view k and holds exactly the frames starts[k]..starts[k + 1].
  ghost predicate PacketIs(views: seq<seq<byte>>, o: nat, cells: seq<Cell>, maxLength: int, k: nat, start: nat,
      next: nat) {
    && k < |views| && start <= next <= |cells|
    && var s := Available(views[k], SenderAt(views[..k], o, maxLength), maxLength, 0);
       if s.available > 0 then start < next && s.available + s.padding == Off(cells, next) - Off(cells, start)
       else next == start
  }

  /** However the term grows between scans, the sender always stands on a frame boundary, and
      the packets cover the published frames one behind the other: packet k holds exactly
      the frames starts[k]..starts[k+1], so each frame is in exactly one packet. */
  lemma {:induction false} SenderCovers(views: seq<seq<byte>>, o: nat, cells: seq<Cell>, shown: seq<nat>,
      maxLength: int)
    returns (starts: seq<nat>)
    requires |shown| == |views|
    requires forall k :: 0 <= k < |views| ==> Shows(views[k], o, cells, shown[k])
    requires forall k, l :: 0 <= k < l < |views| ==> shown[k] <= shown[l]
    ensures |starts| == |views| + 1 && starts[0] == 0
    ensures forall k :: 0 <= k <= |views| ==>
              starts[k] <= |cells| && SenderAt(views[..k], o, maxLength) == o + Off(cells, starts[k])
    ensures forall k :: 0 <= k < |views| ==> starts[k + 1] <= shown[k]
    ensures forall k :: 0 <= k < |views| ==> PacketIs(views, o, cells, maxLength, k, starts[k], starts[k + 1])
    decreases |views|
  {
    hide Available, Shows, Off, Span, PacketIs, SenderAt;
    if views == [] {
      starts := [0];
      NoOffsetAt(cells);
      SenderAtStart(o, maxLength);
    } else {
      var n := |views| - 1;
      var before := views[..n];
      assert before[..n] == before;
      var earlier := SenderCovers(before, o, cells, shown[..n], maxLength);
      assert views[..n + 1] == views;
      var from := earlier[n];
      assert from <= shown[n] by { if n > 0 { assert from <= shown[n - 1]; } }
      var next := SenderMoves(views, o, cells, shown[n], from, maxLength);
      starts := earlier + [next];
      forall k | 0 <= k <= |views|
        ensures starts[k] <= |cells| && SenderAt(views[..k], o, maxLength) == o + Off(cells, starts[k])
      {
        if k <= n { assert before[..k] == views[..k]; }
      }
      forall k | 0 <= k < |views| ensures PacketIs(views, o, cells, maxLength, k, starts[k], starts[k + 1]) {
        if k < n { PacketEarlier(views, o, cells, maxLength, k, earlier[k], earlier[k + 1]); }
      }
    }
  }

  lemma SenderAtStart(o: nat, maxLength: int)
    ensures SenderAt([], o, maxLength) == o
  {}

  lemma PacketEarlier(views: seq<seq<byte>>, o: nat, cells: seq<Cell>, maxLength: int, k: nat, start: nat, next: nat)
    requires k < |views| - 1 && PacketIs(views[..|views| - 1], o, cells, maxLength, k, start, next)
    ensures PacketIs(views, o, cells, maxLength, k, start, next)
  {
    hide Available, Off, SenderAt;
    assert views[..|views| - 1][..k] == views[..k];
  }

  lemma SenderMoves(views: seq<seq<byte>>, o: nat, cells: seq<Cell>, m: nat, from: nat, maxLength: int)
    returns (next: nat)
    requires views != [] && Shows(views[|views| - 1], o, cells, m) && from <= m && from <= |cells|
    requires SenderAt(views[..|views| - 1], o, maxLength) == o + Off(cells, from)
    ensures from <= next <= m && next <= |cells| && PacketIs(views, o, cells, maxLength, |views| - 1, from, next)
    ensures SenderAt(views, o, maxLength) == o + Off(cells, next)
  {
    hide Available, Off, Shows;
    next := SenderStep(views[|views| - 1], o, cells, m, from, maxLength);
  }

  lemma NoOffsetAt(cells: seq<Cell>)
    ensures Off(cells, 0) == 0
  {}

  lemma SenderStep(t: seq<byte>, o: nat, cells: seq<Cell>, m: nat, from: nat, maxLength: int) returns (next: nat)
    requires Shows(t, o, cells, m) && from <= m
    ensures m <= |cells| && from <= next <= m
    ensures var s := Available(t, o + Off(cells, from), maxLength, 0);
            if s.available > 0 then
              from < next && s.available + s.padding == Off(cells, next) - Off(cells, from)
            else next == from
  {
    hide Available, Off, Span, CellAt, FrameLength, Quiet;
    var row := cells[..m];
    assert cells[..m][..from] == cells[..from];
    SameOff(cells, m, from);
    TiledSuffix(t, o, row, o + Off(cells, m), from);
    var j := Covers(row[from..], maxLength, 0);
    ScanReports(t, o + Off(cells, from), row[from..], o + Off(cells, m), maxLength, 0);
    next := from + j;
    SameOff(cells, m, next);
    OffTail(row, from, next);
    if j > 0 {
      OffStep(row[from..], j - 1);
      CoveredWidth(t, o + Off(cells, from), row[from..], o + Off(cells, m), j - 1);
    } else {
      NoOffsetAt(row[from..]);
    }
  }

  lemma CoveredWidth(t: seq<byte>, o: nat, cells: seq<Cell>, e: nat, i: nat)
    requires Tiled(t, o, cells, e) && i < |cells|
    ensures Needed(cells[i]) >= 32
  {
    hide CellAt, Off;
    TiledCell(t, o, cells, e, i);
    CellFits(t, o + Off(cells, i), cells[i]);
  }

  lemma SameOff(cells: seq<Cell>, m: nat, i: nat)
    requires i <= m <= |cells|
    ensures Off(cells[..m], i) == Off(cells, i)
  {
    assert cells[..m][..i] == cells[..i];
  }

  /** Nothing is left behind: once every published frame fits the maximum, scanning a view
      that shows m cells m times ends behind all of them. */
  lemma {:induction false} SenderDrains(n: nat, t: seq<byte>, o: nat, cells: seq<Cell>, m: nat, maxLength: int,
      from: nat)
    requires Shows(t, o, cells, m) && from <= m && n >= m - from
    requires forall i :: 0 <= i < m ==> Needed(cells[i]) <= maxLength
    ensures Drained(n, t, o + Off(cells, from), maxLength) == o + Off(cells, m)
    decreases n
  {
    hide Available, Off, Span, Shows;
    var next := SenderStep(t, o, cells, m, from, maxLength);
    if from < m {
      SomethingAvailable(t, o, cells, m, from, maxLength);
      SenderDrains(n - 1, t, o, cells, m, maxLength, next);
    } else if n > 0 {
      SenderDrains(n - 1, t, o, cells, m, maxLength, from);
    }
  }

  function Drained(n: nat, t: seq<byte>, o: nat, maxLength: int): nat {
    if n == 0 then o
    else
      var s := Available(t, o, maxLength, 0);
      Drained(n - 1, t, if s.available > 0 then o + s.available + s.padding else o, maxLength)
  }

  lemma SomethingAvailable(t: seq<byte>, o: nat, cells: seq<Cell>, m: nat, from: nat, maxLength: int)
    requires Shows(t, o, cells, m) && from < m && Needed(cells[from]) <= maxLength
    ensures Available(t, o + Off(cells, from), maxLength, 0).available > 0
  {
    hide Available, Off, Span, CellAt, FrameLength, Quiet;
    var row := cells[..m];
    SameOff(cells, m, from);
    TiledSuffix(t, o, row, o + Off(cells, m), from);
    ScanReports(t, o + Off(cells, from), row[from..], o + Off(cells, m), maxLength, 0);
    assert row[from].Committed() && row[from..][0] == cells[from];
    CoveredWidth(t, o + Off(cells, from), row[from..], o + Off(cells, m), Covers(row[from..], maxLength, 0) - 1);
  }
}
