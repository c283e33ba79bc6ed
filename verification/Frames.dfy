/** A term buffer seen as a row of 32-byte-aligned frames. */
module Frames {
  import opened Bits
  import opened Bytes

  const FRAME_ALIGNMENT := 32
  const HEADER_LENGTH := 32
  const HDR_TYPE_PAD := 0

  // ---- Header fields ----

  // The header fields of a frame; zero where the header would leave the term.
  function FrameLength(t: seq<byte>, o: nat): (n: int)
    ensures IsI32(n)
    ensures n != 0 ==> o + 4 <= |t|
  {
    if o + 4 <= |t| then I32At(t, o) else 0
  }

  function FrameType(t: seq<byte>, o: nat): nat {
    if o + 8 <= |t| then (t[o + 6] as int) + 0x100 * (t[o + 7] as int) else 0
  }

  predicate IsPaddingFrame(t: seq<byte>, o: nat) {
    FrameType(t, o) == HDR_TYPE_PAD
  }

  function SessionId(t: seq<byte>, o: nat): int {
    if o + 16 <= |t| then I32At(t, o + 12) else 0
  }

  function StreamId(t: seq<byte>, o: nat): int {
    if o + 20 <= |t| then I32At(t, o + 16) else 0
  }

  function TermId(t: seq<byte>, o: nat): int {
    if o + 24 <= |t| then I32At(t, o + 20) else 0
  }

  // The bytes of the frame at o, header included.
  function FrameBytes(t: seq<byte>, o: nat): seq<byte> {
    var end := o + FrameLength(t, o);
    if o <= end <= |t| then t[o..end] else []
  }

  /** The space a frame of `length` bytes takes in the term. */
  function AlignedLength(length: nat): (a: nat)
    ensures length <= a < length + 32 && a % 32 == 0
    ensures length > 0 ==> a >= 32
  {
    (length + 31) / 32 * 32
  }

  /** It is what `align` gives for the frame alignment. */
  lemma AlignedLengthIsAlign(length: nat)
    requires length + 31 <= INT_MAX
    ensures Align(length, FRAME_ALIGNMENT) == Aligned(AlignedLength(length))
  {
    hide And, AndNot, AlignedLength;
    assert IsPowerOfTwo(32) by { Pow2IsPowerOfTwo(5); assert Pow2(5) == 32; }
    SameMultiple(AlignedLength(length), RoundUp(length, FRAME_ALIGNMENT), length);
  }

  lemma SameMultiple(a: nat, b: nat, n: nat)
    requires a % 32 == 0 && b % 32 == 0 && n <= a < n + 32 && n <= b < n + 32
    ensures a == b
  {}

  function FrameLengthOf(term: array<byte>, o: nat): (n: int)
    requires o + 4 <= term.Length
    reads term
    ensures n == FrameLength(term[..], o)
  {
    GetI32(term, o)
  }

  // ---- Cells ----

  // Data and Padding are committed frames, Started is a claim with its length still
  // negative, Untouched is space whose frame-length words are all zero.
  datatype Kind = Data | Padding | Started | Untouched

  datatype Cell = Cell(kind: Kind, size: nat) {
    predicate Committed() { kind.Data? || kind.Padding? }
  }

  function Span(cells: seq<Cell>): nat {
    if cells == [] then 0 else cells[0].size + Span(cells[1..])
  }

  ghost predicate ZeroWords(t: seq<byte>, o: nat, e: nat) {
    e <= |t| && forall k: nat {:trigger FrameLength(t, k)} ::
      o <= k && k + 32 <= e && k % 32 == 0 ==> FrameLength(t, k) == 0
  }

  /** The term holds cell c at offset o. */
  ghost predicate CellAt(t: seq<byte>, o: nat, c: Cell) {
    && c.size >= 32 && c.size % 32 == 0 && o + c.size <= |t|
    && match c.kind
       case Data => FrameLength(t, o) > 0 && AlignedLength(FrameLength(t, o)) == c.size && !IsPaddingFrame(t, o)
       case Padding => FrameLength(t, o) > 0 && AlignedLength(FrameLength(t, o)) == c.size && IsPaddingFrame(t, o)
       case Started => FrameLength(t, o) < 0 && AlignedLength(-FrameLength(t, o)) == c.size
       case Untouched => ZeroWords(t, o, o + c.size)
  }

  /** From offset o up to e the term is the row of `cells`. */
  ghost predicate Tiled(t: seq<byte>, o: nat, cells: seq<Cell>, e: nat)
    decreases |cells|
  {
    && o % 32 == 0
    && if cells == [] then o == e else CellAt(t, o, cells[0]) && Tiled(t, o + cells[0].size, cells[1..], e)
  }

  lemma RoomForWord(o: nat, limit: nat, length: nat)
    requires o % 32 == 0 && length % 32 == 0 && o < limit <= length
    ensures o + 32 <= length && (o + 32) % 32 == 0
  {}

  lemma ZeroWordsNone(t: seq<byte>, e: nat)
    requires e <= |t|
    ensures ZeroWords(t, e, e)
  {}

  lemma ZeroWordsOne(t: seq<byte>, o: nat)
    requires o % 32 == 0 && o + 32 <= |t| && FrameLength(t, o) == 0
    ensures ZeroWords(t, o, o + 32)
  {
    hide FrameLength;
  }

  lemma ZeroWordsPart(t: seq<byte>, o: nat, e: nat, m: nat)
    requires ZeroWords(t, o, e) && m <= e
    ensures ZeroWords(t, o, m)
  {}

  lemma ZeroWordsJoin(t: seq<byte>, o: nat, m: nat, e: nat)
    requires o <= m <= e && m % 32 == 0 && ZeroWords(t, o, m) && ZeroWords(t, m, e)
    ensures ZeroWords(t, o, e)
  {
    hide FrameLength;
    forall k: nat | o <= k && k + 32 <= e && k % 32 == 0 ensures FrameLength(t, k) == 0 {
      if k < m { RoomForWord(k, m, m); }
    }
  }

  lemma ZeroWordsBack(t: seq<byte>, o: nat, e: nat)
    requires o % 32 == 0 && o + 32 <= |t| && o + 32 <= e && FrameLength(t, o) == 0 && ZeroWords(t, o + 32, e)
    ensures ZeroWords(t, o, e)
  {
    hide FrameLength, ZeroWords;
    ZeroWordsOne(t, o);
    ZeroWordsJoin(t, o, o + 32, e);
  }

  lemma UntouchedWord(t: seq<byte>, o: nat, c: Cell)
    requires CellAt(t, o, c) && c.kind.Untouched? && o % 32 == 0
    ensures FrameLength(t, o) == 0
  {}

  ghost predicate AllCommitted(cells: seq<Cell>) {
    forall i :: 0 <= i < |cells| ==> cells[i].Committed()
  }

  lemma AlignedSum(a: nat, b: nat)
    requires a % 32 == 0 && b % 32 == 0
    ensures (a + b) % 32 == 0
  {}

  lemma {:induction false} TiledSpan(t: seq<byte>, o: nat, cells: seq<Cell>, e: nat)
    requires Tiled(t, o, cells, e)
    ensures e == o + Span(cells) && e % 32 == 0
    ensures cells != [] ==> e <= |t|
    decreases |cells|
  {
    hide CellAt;
    if cells != [] {
      TiledSpan(t, o + cells[0].size, cells[1..], e);
      if |cells| == 1 { CellFits(t, o, cells[0]); }
    }
  }

  lemma TiledRoom(t: seq<byte>, o: nat, cells: seq<Cell>, e: nat)
    requires Tiled(t, o, cells, e) && o < e && |t| % 32 == 0
    ensures o + 32 <= |t| && o % 32 == 0
  {
    CellFits(t, o, cells[0]);
  }

  lemma CellFits(t: seq<byte>, o: nat, c: Cell)
    requires CellAt(t, o, c)
    ensures o + c.size <= |t| && c.size >= 32 && c.size % 32 == 0
  {}

  /** Tilings concatenate and split. */
  lemma {:induction false} TiledJoin(t: seq<byte>, o: nat, a: seq<Cell>, m: nat, b: seq<Cell>, e: nat)
    requires Tiled(t, o, a, m) && Tiled(t, m, b, e)
    ensures Tiled(t, o, a + b, e)
    decreases |a|
  {
    hide CellAt;
    if a == [] {
      assert a + b == b;
    } else {
      assert (a + b)[1..] == a[1..] + b;
      TiledJoin(t, o + a[0].size, a[1..], m, b, e);
    }
  }

  lemma {:induction false} TiledSplit(t: seq<byte>, o: nat, cells: seq<Cell>, e: nat, k: nat)
    requires Tiled(t, o, cells, e) && k <= |cells|
    ensures Tiled(t, o, cells[..k], o + Span(cells[..k])) && Tiled(t, o + Span(cells[..k]), cells[k..], e)
    decreases k
  {
    hide CellAt;
    if k > 0 {
      TiledSplit(t, o + cells[0].size, cells[1..], e, k - 1);
      assert cells[..k][1..] == cells[1..][..k - 1] && cells[k..] == cells[1..][k - 1..];
    }
  }

  lemma {:induction false} SpanJoin(a: seq<Cell>, b: seq<Cell>)
    ensures Span(a + b) == Span(a) + Span(b)
    decreases |a|
  {
    if a == [] {
      assert a + b == b;
    } else {
      assert (a + b)[1..] == a[1..] + b;
      SpanJoin(a[1..], b);
    }
  }

  // ---- Cells by number ----

  /** Where cell i starts, relative to the first. */
  function Off(cells: seq<Cell>, i: nat): nat
    requires i <= |cells|
  {
    Span(cells[..i])
  }

  lemma OffStep(cells: seq<Cell>, i: nat)
    requires i < |cells|
    ensures Off(cells, i + 1) == Off(cells, i) + cells[i].size
  {
    assert cells[..i + 1] == cells[..i] + [cells[i]];
    SpanJoin(cells[..i], [cells[i]]);
  }

  lemma {:induction false} OffOrder(cells: seq<Cell>, i: nat, j: nat)
    requires i <= j <= |cells|
    ensures Off(cells, i) <= Off(cells, j) <= Span(cells)
    ensures i < j ==> Off(cells, i) + cells[i].size <= Off(cells, j)
    decreases |cells| - i
  {
    hide Span;
    assert cells[..|cells|] == cells;
    if i < j {
      OffStep(cells, i);
      OffOrder(cells, i + 1, j);
    } else if j < |cells| {
      OffStep(cells, j);
      OffOrder(cells, j + 1, j + 1);
    }
  }

  lemma {:induction false} TiledCell(t: seq<byte>, o: nat, cells: seq<Cell>, e: nat, i: nat)
    requires Tiled(t, o, cells, e) && i < |cells|
    ensures CellAt(t, o + Off(cells, i), cells[i]) && (o + Off(cells, i)) % 32 == 0
    decreases i
  {
    hide CellAt;
    if i > 0 {
      TiledCell(t, o + cells[0].size, cells[1..], e, i - 1);
      assert cells[..i][1..] == cells[1..][..i - 1];
    }
  }

  /** A row is tiled once each of its cells stands in its place. */
  lemma {:induction false} TiledFromCells(t: seq<byte>, o: nat, cells: seq<Cell>)
    requires o % 32 == 0
    requires forall i :: 0 <= i < |cells| ==> CellAt(t, o + Off(cells, i), cells[i])
    ensures Tiled(t, o, cells, o + Span(cells))
    decreases |cells|
  {
    hide CellAt;
    if cells != [] {
      assert Off(cells, 0) == 0;
      CellFits(t, o, cells[0]);
      AlignedSum(o, cells[0].size);
      var rest := cells[1..];
      forall i | 0 <= i < |rest| ensures CellAt(t, o + cells[0].size + Off(rest, i), rest[i]) {
        assert cells[..i + 1][1..] == rest[..i];
        assert CellAt(t, o + Off(cells, i + 1), cells[i + 1]);
      }
      TiledFromCells(t, o + cells[0].size, rest);
    }
  }

  // ---- What readers see ----

  // The bytes of a cell that anything reading the term can depend on.
  function VisibleSize(c: Cell): nat {
    if c.kind.Padding? && c.size > HEADER_LENGTH then HEADER_LENGTH else c.size
  }

  ghost predicate SameVisible(t: seq<byte>, t': seq<byte>, o: nat, cells: seq<Cell>)
    decreases |cells|
  {
    && |t| == |t'|
    && (cells != [] ==>
          && (forall k :: o <= k < o + VisibleSize(cells[0]) && k < |t| ==> t'[k] == t[k])
          && SameVisible(t, t', o + cells[0].size, cells[1..]))
  }

  /** Cells stay where they are when their visible bytes do. */
  lemma {:induction false} TiledFrame(t: seq<byte>, t': seq<byte>, o: nat, cells: seq<Cell>, e: nat)
    requires Tiled(t, o, cells, e) && SameVisible(t, t', o, cells)
    ensures Tiled(t', o, cells, e)
    decreases |cells|
  {
    hide CellAt;
    if cells != [] {
      CellFrame(t, t', o, cells[0]);
      TiledFrame(t, t', o + cells[0].size, cells[1..], e);
    }
  }

  lemma CellFrame(t: seq<byte>, t': seq<byte>, o: nat, c: Cell)
    requires CellAt(t, o, c) && |t| == |t'|
    requires forall k :: o <= k < o + VisibleSize(c) && k < |t| ==> t'[k] == t[k]
    ensures CellAt(t', o, c)
  {
    hide Signed32, Word, AlignedLength;
    if c.kind.Untouched? {
      forall k: nat | o <= k && k + 32 <= o + c.size && k % 32 == 0 ensures FrameLength(t', k) == 0 {
        assert FrameLength(t, k) == 0;
      }
    }
  }

  lemma {:induction false} SameVisibleOutside(t: seq<byte>, t': seq<byte>, o: nat, cells: seq<Cell>, lo: nat, hi: nat)
    requires |t| == |t'| && (forall k :: 0 <= k < |t| && !(lo <= k < hi) ==> t'[k] == t[k])
    requires hi <= o || o + Span(cells) <= lo
    ensures SameVisible(t, t', o, cells)
    decreases |cells|
  {
    if cells != [] {
      SameVisibleOutside(t, t', o + cells[0].size, cells[1..], lo, hi);
    }
  }

  lemma {:induction false} SameVisibleJoin(t: seq<byte>, t': seq<byte>, o: nat, a: seq<Cell>, b: seq<Cell>)
    requires SameVisible(t, t', o, a) && SameVisible(t, t', o + Span(a), b)
    ensures SameVisible(t, t', o, a + b)
    decreases |a|
  {
    if a == [] {
      assert a + b == b;
    } else {
      assert (a + b)[1..] == a[1..] + b;
      SameVisibleJoin(t, t', o + a[0].size, a[1..], b);
    }
  }

  lemma {:induction false} SameVisibleFrom(t: seq<byte>, t': seq<byte>, o: nat, cells: seq<Cell>, s: nat)
    requires SameVisible(t, t', o, cells) && s <= |cells|
    ensures SameVisible(t, t', o + Off(cells, s), cells[s..])
    decreases s
  {
    if s > 0 {
      SameVisibleFrom(t, t', o + cells[0].size, cells[1..], s - 1);
      assert cells[..s][1..] == cells[1..][..s - 1] && cells[s..] == cells[1..][s - 1..];
    }
  }
}
