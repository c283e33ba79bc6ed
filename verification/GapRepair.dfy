/** Gap repair end to end: the rebuilder, the gap scanner, the gap filler and the reader together. */
module GapRepair {
  import opened Bytes
  import opened Frames
  import opened TermPadding
  import opened TermReader
  import opened TermRebuilder
  import opened TermGapScanner
  import opened TermGapFiller

  // ---- Late packets ----

  ghost predicate SameOutside(t: seq<byte>, t': seq<byte>, lo: nat, hi: nat) {
    |t| == |t'| && forall k :: 0 <= k < |t| && !(lo <= k < hi) ==> t'[k] == t[k]
  }

  predicate Late(cells: seq<Cell>, a: nat, b: nat, late: seq<Block>) {
    forall k :: k in late ==> IsBlock(cells, k) && a <= k.first && k.end <= b
  }

  // Late packets write only behind the 32 header bytes of the padding that replaced them.
  lemma {:induction false} LateWritesInside(
      t: seq<byte>, src: seq<byte>, cells: seq<Cell>, a: nat, b: nat, late: seq<Block>)
    requires Source(src, cells) && |t| == |src| && a < b <= |cells| && Late(cells, a, b, late)
    requires FrameLength(t, Off(cells, a)) != 0
    ensures SameOutside(t, InsertAll(t, src, cells, late), Off(cells, a) + 32, Off(cells, b))
    decreases |late|
  {
    hide Source, Off, FrameLength, IsBlock, Inserted;
    if late != [] {
      var before, k := late[..|late| - 1], late[|late| - 1];
      LateWritesInside(t, src, cells, a, b, before);
      LateStep(t, InsertAll(t, src, cells, before), src, cells, a, b, k);
    }
  }

  lemma LateStep(t: seq<byte>, t1: seq<byte>, src: seq<byte>, cells: seq<Cell>, a: nat, b: nat, k: Block)
    requires Source(src, cells) && |t| == |src| && a < b <= |cells| && IsBlock(cells, k) && a <= k.first && k.end <= b
    requires FrameLength(t, Off(cells, a)) != 0
    requires SameOutside(t, t1, Off(cells, a) + 32, Off(cells, b))
    ensures Off(cells, k.first) <= BlockEnd(cells, k) <= |src|
    ensures SameOutside(t, Inserted(t1, Off(cells, k.first), Packet(src, cells, k)), Off(cells, a) + 32, Off(cells, b))
  {
    hide Source, Off, FrameLength, BlockEnd;
    BlockFits(src, cells, k);
    OffOrder(cells, k.end, b);
    if k.first == a {
      WordAlike(t, t1, Off(cells, a));
    } else {
      CellSize(src, cells, a);
      OffOrder(cells, a, k.first);
    }
  }

  lemma WordAlike(t: seq<byte>, t': seq<byte>, o: nat)
    requires |t| == |t'| && forall k :: 0 <= k < |t| && o <= k < o + 4 ==> t'[k] == t[k]
    ensures FrameLength(t', o) == FrameLength(t, o)
  {}

  lemma CellSize(src: seq<byte>, cells: seq<Cell>, i: nat)
    requires Source(src, cells) && i < |cells|
    ensures cells[i].size >= 32 && Off(cells, i) + cells[i].size <= |src|
  {
    hide CellAt, Off, Span;
    TiledCell(src, 0, cells, Span(cells), i);
    CellFits(src, Off(cells, i), cells[i]);
  }

  /** The term after the gap of the missing frames a..b has been filled. */
  ghost function AfterFill(
      src: seq<byte>, cells: seq<Cell>, got: set<nat>, a: nat, b: nat, header: seq<byte>, termId: int): (t: seq<byte>)
    requires Source(src, cells) && IsI32(|src|) && a < b <= |cells| && |header| == 32 && IsI32(termId)
    ensures |t| == |src|
  {
    GapInRange(src, cells, a, b);
    Filled(Image(src, cells, got), header, termId, Off(cells, a), Span(cells[a..b])).term
  }

  lemma GapInRange(src: seq<byte>, cells: seq<Cell>, a: nat, b: nat)
    requires Source(src, cells) && IsI32(|src|) && a < b <= |cells|
    ensures IsI32(Off(cells, a)) && IsI32(Span(cells[a..b])) && Off(cells, a) + 32 <= |src|
  {
    hide Off, Span;
    OffOrder(cells, a, b);
    CellSize(src, cells, a);
    SpanBetween(cells, a, b);
    OffOrder(cells, b, b);
  }

  lemma FilledRow(src: seq<byte>, cells: seq<Cell>, got: set<nat>, a: nat, b: nat, header: seq<byte>, termId: int)
    requires Source(src, cells) && IsI32(|src|) && a < b <= |cells| && |header| == 32 && IsI32(termId)
    requires forall i :: a <= i < b ==> i !in got
    ensures Tiled(AfterFill(src, cells, got, a, b, header, termId), 0, FillCells(Mask(cells, got), a, b), Span(cells))
    ensures FrameLength(AfterFill(src, cells, got, a, b, header, termId), Off(cells, a)) != 0
    ensures Off(Mask(cells, got), a) == Off(cells, a) && Span(Mask(cells, got)[a..b]) == Span(cells[a..b])
  {
    hide Source, Off, Span, CellAt, Padded, FrameLength, Image, Mask, Tiled, FillCells;
    var m := Mask(cells, got);
    ImageIsTiled(src, cells, got);
    MaskSpan(cells, got, a);
    MaskSpan(cells, got, b);
    SpanBetween(cells, a, b);
    SpanBetween(m, a, b);
    SourceSize(src, cells);
    GapInRange(src, cells, a, b);
    assert AllUntouched(m[a..b]);
    FillRunOfCells(Image(src, cells, got), header, 0, m, Span(cells), a, b, termId);
    PaddedReads(Image(src, cells, got), header, Off(cells, a), Span(cells[a..b]), termId);
  }

  lemma BeyondSource(src: seq<byte>, cells: seq<Cell>, got: set<nat>, a: nat, b: nat, header: seq<byte>, termId: int)
    requires Source(src, cells) && IsI32(|src|) && a < b <= |cells| && |header| == 32 && IsI32(termId)
    ensures FrameLength(AfterFill(src, cells, got, a, b, header, termId), Span(cells)) == 0
  {
    hide Source, Off, Padded, Image, Span, Covered, Signed32, ZeroWords;
    var t, t1 := Image(src, cells, got), AfterFill(src, cells, got, a, b, header, termId);
    var e := Span(cells);
    GapInRange(src, cells, a, b);
    CellSize(src, cells, a);
    OffOrder(cells, a, b);
    OffOrder(cells, b, b);
    PaddedOutside(t, header, Off(cells, a), Span(cells[a..b]), termId);
    forall k: nat | e <= k < |src| ensures t1[k] == 0 {
      if Covered(cells, got, k) {
        NoFrameBeyond(cells, got, k);
      }
    }
    if e + 4 <= |t1| { ZeroI32(t1, e); }
  }

  lemma NoFrameBeyond(cells: seq<Cell>, got: set<nat>, k: nat)
    requires Covered(cells, got, k)
    ensures k < Span(cells)
  {
    hide Off, Span;
    var i :| i in got && Within(cells, i, k);
    OffOrder(cells, i, |cells|);
  }

  /** Packets of a filled gap that arrive after the filling, at its start or inside it, in
      any order and number, are invisible: the padded row of cells stands as it was. */
  lemma LatePacketsUnseen(src: seq<byte>, cells: seq<Cell>, got: set<nat>, a: nat, b: nat,
                          header: seq<byte>, termId: int, late: seq<Block>)
    requires Source(src, cells) && IsI32(|src|) && a < b <= |cells| && |header| == 32 && IsI32(termId)
    requires (forall i :: a <= i < b ==> i !in got) && Late(cells, a, b, late)
    ensures var t, row := AfterFill(src, cells, got, a, b, header, termId), FillCells(Mask(cells, got), a, b);
            SameVisible(t, InsertAll(t, src, cells, late), 0, row) &&
                Tiled(InsertAll(t, src, cells, late), 0, row, Span(cells))
    ensures var t := AfterFill(src, cells, got, a, b, header, termId);
            FrameLength(InsertAll(t, src, cells, late), Span(cells)) == 0
  {
    hide Source, Off, Span, CellAt, FrameLength, Mask, Tiled, AfterFill, InsertAll, IsBlock, SameVisible;
    var m := Mask(cells, got);
    var t := AfterFill(src, cells, got, a, b, header, termId);
    var t' := InsertAll(t, src, cells, late);
    var lo, hi := Off(cells, a) + 32, Off(cells, b);
    FilledRow(src, cells, got, a, b, header, termId);
    BeyondSource(src, cells, got, a, b, header, termId);
    LateWritesInside(t, src, cells, a, b, late);
    OffOrder(cells, a, b);
    OffOrder(cells, b, b);
    SpanBetween(cells, a, b);
    OnlyPaddingTouched(t, t', m, a, b, lo, hi);
    WordAlike(t, t', Span(cells));
    TiledFrame(t, t', 0, FillCells(m, a, b), Span(cells));
  }

  lemma OnlyPaddingTouched(t: seq<byte>, t': seq<byte>, m: seq<Cell>, a: nat, b: nat, lo: nat, hi: nat)
    requires a < b <= |m| && SameOutside(t, t', lo, hi)
    requires lo == Off(m, a) + 32 && hi <= Off(m, a) + Span(m[a..b])
    ensures SameVisible(t, t', 0, FillCells(m, a, b))
  {
    hide Span, Off;
    var pad := [Cell(Padding, Span(m[a..b]))];
    LeftSpan(m, a);
    SameVisibleOutside(t, t', 0, m[..a], lo, hi);
    PaddingVisible(t, t', Off(m, a), Span(m[a..b]), lo, hi);
    SameVisibleOutside(t, t', Off(m, a) + Span(m[a..b]), m[b..], lo, hi);
    SameVisibleJoin(t, t', Off(m, a), pad, m[b..]);
    SameVisibleJoin(t, t', 0, m[..a], pad + m[b..]);
    assert m[..a] + (pad + m[b..]) == FillCells(m, a, b);
  }

  lemma LeftSpan(m: seq<Cell>, a: nat)
    requires a <= |m|
    ensures Span(m[..a]) == Off(m, a)
  {}

  lemma PaddingVisible(t: seq<byte>, t': seq<byte>, o: nat, size: nat, lo: nat, hi: nat)
    requires SameOutside(t, t', lo, hi) && lo == o + 32
    ensures SameVisible(t, t', o, [Cell(Padding, size)]) && Span([Cell(Padding, size)]) == size
  {}

  /** So, from any cell boundary, the reader returns the same frames and final offset and
      the gap scan the same result as before the late packets. */
  lemma LatePacketsChangeNothing(src: seq<byte>, cells: seq<Cell>, got: set<nat>, a: nat, b: nat,
                                 header: seq<byte>, termId: int, late: seq<Block>, s: nat, fragments: int, limit: nat)
    requires Source(src, cells) && IsI32(|src|) && a < b <= |cells| && |header| == 32 && IsI32(termId)
    requires (forall i :: a <= i < b ==> i !in got) && Late(cells, a, b, late)
    requires s <= |FillCells(Mask(cells, got), a, b)|
    requires Off(FillCells(Mask(cells, got), a, b), s) <= limit <= Span(cells) && limit % 32 == 0
    ensures var t := AfterFill(src, cells, got, a, b, header, termId);
            var o := Off(FillCells(Mask(cells, got), a, b), s);
            && Outcomes(InsertAll(t, src, cells, late), o, fragments) == Outcomes(t, o, fragments)
            && Scanned(InsertAll(t, src, cells, late), termId, o, limit) == Scanned(t, termId, o, limit)
  {
    hide Source, Off, Span, CellAt, FrameLength, Mask, Tiled, AfterFill, InsertAll, IsBlock, SameVisible, FillCells;
    var row := FillCells(Mask(cells, got), a, b);
    var t := AfterFill(src, cells, got, a, b, header, termId);
    var t' := InsertAll(t, src, cells, late);
    var e := Span(cells);
    FilledRow(src, cells, got, a, b, header, termId);
    LatePacketsUnseen(src, cells, got, a, b, header, termId, late);
    BeyondSource(src, cells, got, a, b, header, termId);
    SourceSize(src, cells);
    TiledSuffix(t, 0, row, e, s);
    TiledSuffix(t', 0, row, e, s);
    SameVisibleFrom(t, t', 0, row, s);
    ReadsAlike(t, t', Off(row, s), row[s..], e, fragments);
    ScansAlike(t, t', termId, Off(row, s), row[s..], e, limit);
  }

  // ---- Scan and fill, repeated ----

  datatype Repair = Repair(term: seq<byte>, allFilled: bool)

  /** Up to n rounds of scanning for a gap and trying to fill the gap found. */
  ghost function Repaired(n: nat, t: seq<byte>, header: seq<byte>, termId: int, o: nat, limit: nat): (r: Repair)
    requires |header| == 32 && IsI32(termId) && limit + 32 < TWO_31
    ensures |r.term| == |t|
  {
    var scan := Scanned(t, termId, o, limit);
    if n == 0 || scan.gap.None? then Repair(t, true)
    else
      var f := Filled(t, header, termId, scan.gap.value.offset, scan.gap.value.length);
      var rest := Repaired(n - 1, f.term, header, termId, o, limit);
      Repair(rest.term, f.filled && rest.allFilled)
  }

  function Holes(cells: seq<Cell>): nat {
    if cells == [] then 0 else (if cells[0].kind.Untouched? then 1 else 0) + Holes(cells[1..])
  }

  lemma {:induction false} HolesJoin(a: seq<Cell>, b: seq<Cell>)
    ensures Holes(a + b) == Holes(a) + Holes(b)
    decreases |a|
  {
    if a == [] {
      assert a + b == b;
    } else {
      assert (a + b)[1..] == a[1..] + b;
      HolesJoin(a[1..], b);
    }
  }

  lemma FillClosesHoles(cells: seq<Cell>, a: nat, b: nat)
    requires a < b <= |cells| && cells[a].kind.Untouched?
    ensures Holes(FillCells(cells, a, b)) < Holes(cells)
  {
    hide Span, Holes;
    var left, run, right := cells[..a], cells[a..b], cells[b..];
    var pad := [Cell(Padding, Span(run))];
    HolesOfThree(left, pad, right);
    HolesOfThree(left, run, right);
    assert cells == left + run + right;
    FirstHole(run);
    FirstHole(pad);
  }

  lemma HolesOfThree(a: seq<Cell>, b: seq<Cell>, c: seq<Cell>)
    ensures Holes(a + b + c) == Holes(a) + Holes(b) + Holes(c)
  {
    hide Holes;
    HolesJoin(a + b, c);
    HolesJoin(a, b);
  }

  lemma FirstHole(cells: seq<Cell>)
    requires cells != []
    ensures cells[0].kind.Untouched? ==> Holes(cells) > 0
    ensures |cells| == 1 && !cells[0].kind.Untouched? ==> Holes(cells) == 0
  {}

  lemma {:induction false} NoHoles(cells: seq<Cell>)
    requires Holes(cells) == 0 && NoneStarted(cells)
    ensures AllCommitted(cells)
  {
    if cells != [] {
      assert NoneStarted(cells[1..]);
      NoHoles(cells[1..]);
      assert forall i :: 0 < i < |cells| ==> cells[i] == cells[1..][i - 1];
    }
  }

  ghost predicate NoneStarted(cells: seq<Cell>) {
    forall i :: 0 <= i < |cells| ==> !cells[i].kind.Started?
  }

  /** The row holds exactly the cells that start below the limit, the last one cut at the
      limit unless it is a frame. */
  ghost predicate UpTo(o: nat, cells: seq<Cell>, e: nat, limit: nat) {
    && NoneStarted(cells)
    && (forall i :: 0 <= i < |cells| ==> o + Off(cells, i) < limit)
    && limit <= e && (e == limit || (cells != [] && cells[|cells| - 1].Committed()))
  }

  lemma FillKeepsUpTo(o: nat, cells: seq<Cell>, e: nat, limit: nat, a: nat, b: nat)
    requires UpTo(o, cells, e, limit) && a < b <= |cells| && (e == limit || b < |cells|)
    ensures UpTo(o, FillCells(cells, a, b), e, limit)
  {
    hide Off, Span;
    var row := FillCells(cells, a, b);
    forall i | 0 <= i < |row| ensures o + Off(row, i) < limit && !row[i].kind.Started? {
      OffAfterFill(cells, a, b, i);
    }
  }

  lemma OffAfterFill(cells: seq<Cell>, a: nat, b: nat, i: nat)
    requires a < b <= |cells| && i <= |FillCells(cells, a, b)|
    ensures Off(FillCells(cells, a, b), i) == Off(cells, if i <= a then i else i - a - 1 + b)
  {
    hide Span;
    var row, pad := FillCells(cells, a, b), [Cell(Padding, Span(cells[a..b]))];
    if i <= a {
      assert row[..i] == cells[..i];
    } else {
      var j := i - a - 1 + b;
      assert row[..i] == cells[..a] + pad + cells[b..j];
      SpanJoin(cells[..a] + pad, cells[b..j]);
      SpanJoin(cells[..a], pad);
      PadSpan(pad[0]);
      SpanBetween(cells, a, b);
      SpanBetween(cells, b, j);
    }
  }

  lemma PadSpan(c: Cell)
    ensures Span([c]) == c.size
  {}

  /** One round: the first gap found is filled for certain, the next gap lies behind it, and
      the frames to deliver are the same. */
  lemma FillAdvances(t: seq<byte>, header: seq<byte>, termId: int, o: nat, cells: seq<Cell>, e: nat, limit: nat)
    returns (row: seq<Cell>)
    requires |header| == 32 && IsI32(termId) && IsI32(e) && e <= |t| && limit + 32 < TWO_31 && limit % 32 == 0
    requires Tiled(t, o, cells, e) && UpTo(o, cells, e, limit) && o <= limit
    requires Scanned(t, termId, o, limit).gap.Some?
    ensures var g := Scanned(t, termId, o, limit).gap.value;
            var f := Filled(t, header, termId, g.offset, g.length);
            && f.filled && g.offset + g.length <= limit
            && Tiled(f.term, o, row, e) && UpTo(o, row, e, limit) && Holes(row) < Holes(cells)
            && Deliverable(f.term, o, row) == Deliverable(t, o, cells)
            && (var next := Scanned(f.term, termId, o, limit).gap;
                next.Some? ==> next.value.offset >= g.offset + g.length)
  {
    hide Tiled, CellAt, Span, Off, Scanned, Filled, Padded, Deliverable, Holes, FrameLength, FillCells, UpTo;
    var p := Prefix(cells);
    UpToParts(o, cells, e, limit);
    NoGapExactly(t, termId, o, cells, e, limit);
    FirstUntouched(o, cells, e, limit);
    var b := RunEnd(cells, p);
    assert AllUntouched(cells[p..b]);
    GapExactly(t, termId, o, cells, e, limit, b);
    RunBelow(t, o, cells, e, limit, b);
    FillRunOfCells(t, header, o, cells, e, p, b, termId);
    SpanBetween(cells, p, b);
    row := FillCells(cells, p, b);
    FillClosesHoles(cells, p, b);
    FillKeepsUpTo(o, cells, e, limit, p, b);
    var t' := Padded(t, header, o + Off(cells, p), Span(cells[p..b]), termId);
    PaddedOutside(t, header, o + Off(cells, p), Span(cells[p..b]), termId);
    DeliverableReplaced(t, t', o, cells, e, p, b);
    NextGap(t', termId, o, cells, e, limit, p, b);
  }

  lemma FirstUntouched(o: nat, cells: seq<Cell>, e: nat, limit: nat)
    requires UpTo(o, cells, e, limit)
    ensures var p := Prefix(cells); p < |cells| ==> cells[p].kind.Untouched?
  {}

  // A run of missing cells below the limit ends at or below it.
  lemma RunBelow(t: seq<byte>, o: nat, cells: seq<Cell>, e: nat, limit: nat, b: nat)
    requires Tiled(t, o, cells, e) && UpTo(o, cells, e, limit) && 0 < b <= |cells| && cells[b - 1].kind.Untouched?
    ensures o + Off(cells, b) <= limit && (e == limit || b < |cells|)
  {
    hide Off, Tiled;
    if b == |cells| { WholeRow(t, o, cells, e); }
  }

  lemma NextGap(t: seq<byte>, termId: int, o: nat, cells: seq<Cell>, e: nat, limit: nat, p: nat, b: nat)
    requires p < b <= |cells| && (forall i :: 0 <= i < p ==> cells[i].Committed())
    requires Tiled(t, o, FillCells(cells, p, b), e) && UpTo(o, FillCells(cells, p, b), e, limit)
    requires o <= limit <= e <= |t| && limit % 32 == 0
    ensures var next := Scanned(t, termId, o, limit).gap;
            next.Some? ==> next.value.offset >= o + Off(cells, b)
  {
    hide Off, Span, Tiled, Scanned, UpTo;
    var row := FillCells(cells, p, b);
    var q := Prefix(row);
    assert forall i :: 0 <= i <= p ==> row[i].Committed();
    assert q > p;
    NoGapExactly(t, termId, o, row, e, limit);
    if Scanned(t, termId, o, limit).gap.Some? {
      FirstUntouched(o, row, e, limit);
      var r := RunEnd(row, q);
      assert AllUntouched(row[q..r]);
      GapExactly(t, termId, o, row, e, limit, r);
      OffAfterFill(cells, p, b, q);
      OffOrder(cells, b, q - p - 1 + b);
    }
  }

  lemma {:induction false} DeliverableJoin(t: seq<byte>, o: nat, a: seq<Cell>, b: seq<Cell>)
    ensures Deliverable(t, o, a + b) == Deliverable(t, o, a) + Deliverable(t, o + Span(a), b)
    decreases |a|
  {
    hide FragmentAt;
    if a == [] {
      assert a + b == b;
    } else {
      assert (a + b)[1..] == a[1..] + b;
      DeliverableJoin(t, o + a[0].size, a[1..], b);
    }
  }

  lemma {:induction false} NothingToDeliver(t: seq<byte>, o: nat, cells: seq<Cell>)
    requires forall i :: 0 <= i < |cells| ==> !cells[i].kind.Data?
    ensures Deliverable(t, o, cells) == []
    decreases |cells|
  {
    if cells != [] {
      NothingToDeliver(t, o + cells[0].size, cells[1..]);
    }
  }

  /** Cells whose visible bytes agree deliver the same frames. */
  lemma {:induction false} DeliverableAlike(t: seq<byte>, t': seq<byte>, o: nat, cells: seq<Cell>, e: nat)
    requires Tiled(t, o, cells, e) && SameVisible(t, t', o, cells)
    ensures Deliverable(t', o, cells) == Deliverable(t, o, cells)
    decreases |cells|
  {
    hide CellAt, FragmentAt, FrameLength, VisibleSize;
    if cells != [] {
      if cells[0].kind.Data? {
        DataVisible(cells[0]);
        CellFits(t, o, cells[0]);
        FrameAlike(t, t', o, cells[0]);
      }
      DeliverableAlike(t, t', o + cells[0].size, cells[1..], e);
    }
  }

  lemma DataVisible(c: Cell)
    requires c.kind.Data?
    ensures VisibleSize(c) == c.size
  {}

  // Replacing cells that deliver nothing, with no byte changed outside their first 32.
  lemma DeliverableReplaced(t: seq<byte>, t': seq<byte>, o: nat, cells: seq<Cell>, e: nat, a: nat, b: nat)
    requires Tiled(t, o, cells, e) && a < b <= |cells| && forall i :: a <= i < b ==> !cells[i].kind.Data?
    requires SameOutside(t, t', o + Off(cells, a), o + Off(cells, a) + 32)
    ensures Deliverable(t', o, FillCells(cells, a, b)) == Deliverable(t, o, cells)
  {
    hide Tiled, CellAt, Span, Deliverable, Off;
    var at, size := o + Off(cells, a), Span(cells[a..b]);
    var pad := [Cell(Padding, size)];
    LeftSpan(cells, a);
    SpanBetween(cells, a, b);
    StretchAligned(t, o, cells, e, a, b);
    SplitAt(t, o, cells, e, a);
    SplitAt(t, o, cells, e, b);
    CellWidth(t, o, cells, e, a, b);
    SameVisibleOutside(t, t', o, cells[..a], at, at + 32);
    DeliverableAlike(t, t', o, cells[..a], at);
    SameVisibleOutside(t, t', at + size, cells[b..], at, at + 32);
    DeliverableAlike(t, t', at + size, cells[b..], e);
    NothingToDeliver(t, at, cells[a..b]);
    NothingToDeliver(t', at, pad);
    PadSpan(pad[0]);
    assert cells == cells[..a] + (cells[a..b] + cells[b..]);
    DeliverableJoin(t, o, cells[..a], cells[a..b] + cells[b..]);
    DeliverableJoin(t, at, cells[a..b], cells[b..]);
    assert FillCells(cells, a, b) == cells[..a] + (pad + cells[b..]);
    DeliverableJoin(t', o, cells[..a], pad + cells[b..]);
    DeliverableJoin(t', at, pad, cells[b..]);
  }

  lemma CellWidth(t: seq<byte>, o: nat, cells: seq<Cell>, e: nat, a: nat, b: nat)
    requires Tiled(t, o, cells, e) && a < b <= |cells|
    ensures Span(cells[a..b]) >= 32
  {
    hide Span, Off, CellAt;
    TiledCell(t, o, cells, e, a);
    CellFits(t, o + Off(cells, a), cells[a]);
    OffOrder(cells, a, b);
    SpanBetween(cells, a, b);
  }

  /** Scanning and filling over and over fills every gap found and ends with a row of
      frames that a walk follows to the limit, delivering what was there before. */
  lemma {:induction false} RepairCloses(n: nat, t: seq<byte>, header: seq<byte>, termId: int,
                                        o: nat, cells: seq<Cell>, e: nat, limit: nat)
    returns (row: seq<Cell>)
    requires |header| == 32 && IsI32(termId) && IsI32(e) && e <= |t| && limit + 32 < TWO_31 && limit % 32 == 0
    requires Tiled(t, o, cells, e) && UpTo(o, cells, e, limit) && o <= limit
    requires n >= Holes(cells)
    ensures var r := Repaired(n, t, header, termId, o, limit);
            && r.allFilled
            && Tiled(r.term, o, row, e) && AllCommitted(row)
            && Deliverable(r.term, o, row) == Deliverable(t, o, cells)
            && Scanned(r.term, termId, o, limit).gap.None?
            && limit <= WalkFrames(r.term, o, limit) <= e
    decreases n
  {
    hide Tiled, CellAt, Span, Off, Scanned, Filled, Deliverable, Holes, UpTo, WalkFrames, WalkEnd;
    UpToParts(o, cells, e, limit);
    if Scanned(t, termId, o, limit).gap.None? {
      NoGapLeft(t, termId, o, cells, e, limit);
      row := cells;
    } else if n == 0 {
      NoHoles(cells);
      CommittedHasNoGap(t, termId, o, cells, e, limit);
    } else {
      var cells' := FillAdvances(t, header, termId, o, cells, e, limit);
      var g := Scanned(t, termId, o, limit).gap.value;
      row := RepairCloses(n - 1, Filled(t, header, termId, g.offset, g.length).term, header, termId, o, cells', e,
          limit);
    }
  }

  lemma UpToParts(o: nat, cells: seq<Cell>, e: nat, limit: nat)
    requires UpTo(o, cells, e, limit)
    ensures NoneStarted(cells) && limit <= e
  {}

  lemma CommittedHasNoGap(t: seq<byte>, termId: int, o: nat, cells: seq<Cell>, e: nat, limit: nat)
    requires Tiled(t, o, cells, e) && o <= limit <= e <= |t| && limit % 32 == 0 && AllCommitted(cells)
    ensures Scanned(t, termId, o, limit).gap.None?
  {
    hide Tiled, Off, Scanned;
    NoGapExactly(t, termId, o, cells, e, limit);
  }

  lemma NoGapLeft(t: seq<byte>, termId: int, o: nat, cells: seq<Cell>, e: nat, limit: nat)
    requires Tiled(t, o, cells, e) && UpTo(o, cells, e, limit) && o <= limit <= e <= |t| && limit % 32 == 0
    requires Scanned(t, termId, o, limit).gap.None?
    ensures AllCommitted(cells) && limit <= WalkFrames(t, o, limit) <= e
  {
    hide Tiled, Off, Scanned;
    NoGapExactly(t, termId, o, cells, e, limit);
    var p := Prefix(cells);
    assert p == |cells|;
    WalkFramesEnds(t, o, cells, e, limit);
    WalkEndIs(o, cells, limit);
    WholeRow(t, o, cells, e);
  }

  // ---- Repairing any partly rebuilt term ----

  /** Any row without half-written claims can be cut to the cells that start below the limit. */
  lemma {:induction false} CutAt(t: seq<byte>, o: nat, cells: seq<Cell>, e: nat, limit: nat)
    returns (row: seq<Cell>, e': nat, k: nat)
    requires Tiled(t, o, cells, e) && NoneStarted(cells) && o <= limit <= e && limit % 32 == 0
    ensures Tiled(t, o, row, e') && UpTo(o, row, e', limit) && e' <= e
    ensures k <= |cells| && |row| == k && Deliverable(t, o, row) == Deliverable(t, o, cells[..k])
    decreases |cells|
  {
    hide CellAt, FragmentAt;
    if o == limit {
      row, e', k := [], o, 0;
    } else {
      var c := cells[0];
      CellFits(t, o, c);
      TiledSpan(t, o + c.size, cells[1..], e);
      if o + c.size >= limit {
        k := 1;
        assert cells[..1] == [c];
        if c.kind.Untouched? {
          DifferenceAligned(o, limit);
          CutCell(t, o, c, limit - o);
          row, e' := [Cell(Untouched, limit - o)], limit;
        } else {
          row, e' := [c], o + c.size;
        }
      } else {
        var rest, j;
        rest, e', j := CutAt(t, o + c.size, cells[1..], e, limit);
        row, k := [c] + rest, j + 1;
        assert cells[..k][1..] == cells[1..][..j] && row[1..] == rest;
        ConsUpTo(o, c, rest, e', limit);
      }
    }
  }

  lemma CutCell(t: seq<byte>, o: nat, c: Cell, size: nat)
    requires CellAt(t, o, c) && c.kind.Untouched? && 32 <= size <= c.size && size % 32 == 0
    ensures CellAt(t, o, Cell(Untouched, size))
  {
    ZeroWordsPart(t, o, o + c.size, o + size);
  }

  lemma ConsUpTo(o: nat, c: Cell, rest: seq<Cell>, e: nat, limit: nat)
    requires UpTo(o + c.size, rest, e, limit) && !c.kind.Started? && o + c.size < limit
    ensures UpTo(o, [c] + rest, e, limit)
  {
    hide Span;
    var row := [c] + rest;
    PadSpan(c);
    forall i | 0 <= i < |row| ensures o + Off(row, i) < limit && !row[i].kind.Started? {
      if i > 0 {
        assert row[..i] == [c] + rest[..i - 1];
        SpanJoin([c], rest[..i - 1]);
        assert o + c.size + Off(rest, i - 1) < limit;
      } else {
        NoOffset(row);
      }
    }
  }

  /** From any frame boundary of any partly rebuilt term, as many rounds as there are frames
      fill every gap up to an aligned limit, and the walk then reaches the limit. */
  lemma RepairRebuilt(src: seq<byte>, cells: seq<Cell>, got: set<nat>, from: nat, limit: nat,
                      header: seq<byte>, termId: int, n: nat)
    returns (row: seq<Cell>, e: nat, k: nat)
    requires Source(src, cells) && |header| == 32 && IsI32(termId) && Span(cells) + 32 < TWO_31
    requires from <= |cells| && Off(cells, from) <= limit <= Span(cells) && limit % 32 == 0 && n >= |cells|
    ensures var t, o := Image(src, cells, got), Off(cells, from);
            var r := Repaired(n, t, header, termId, o, limit);
            && r.allFilled
            && Scanned(r.term, termId, o, limit).gap.None?
            && limit <= WalkFrames(r.term, o, limit) <= e
            && Tiled(r.term, o, row, e) && AllCommitted(row)
            && from + k <= |cells|
            && Deliverable(r.term, o, row) == Deliverable(t, o, Mask(cells, got)[from..from + k])
  {
    hide Source, Tiled, CellAt, Span, Off, Scanned, Repaired, Deliverable, Holes, UpTo, WalkFrames, Image, Mask;
    var t, m, o := Image(src, cells, got), Mask(cells, got), Off(cells, from);
    ImageIsTiled(src, cells, got);
    SourceSize(src, cells);
    TiledSuffix(t, 0, m, Span(cells), from);
    MaskSpan(cells, got, from);
    var cut;
    cut, e, k := CutAt(t, o, m[from..], Span(cells), limit);
    assert m[from..][..k] == m[from..from + k];
    HolesBound(cut);
    UpToParts(o, cut, e, limit);
    row := RepairCloses(n, t, header, termId, o, cut, e, limit);
  }

  lemma {:induction false} HolesBound(cells: seq<Cell>)
    ensures Holes(cells) <= |cells|
  {
    if cells != [] { HolesBound(cells[1..]); }
  }
}
