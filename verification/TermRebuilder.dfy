/** Placing received packets into a term, and what any arrival order leaves there. */
module TermRebuilder {
  import opened Bytes
  import opened Frames

  /** A packet is written only where no frame is yet. */
  function Inserted(t: seq<byte>, o: nat, packet: seq<byte>): (r: seq<byte>)
    requires o + |packet| <= |t|
    ensures |r| == |t|
  {
    if FrameLength(t, o) != 0 then t else Splice(t, o, packet)
  }

  /** Payload first, then the header from its end, the length word last. The 32 header
      bytes are copied whatever `length` says. */
  method Insert(term: array<byte>, termOffset: nat, packet: array<byte>, length: int)
    requires term != packet
    requires HEADER_LENGTH <= packet.Length && length <= packet.Length
    requires termOffset + HEADER_LENGTH <= term.Length && termOffset + length <= term.Length
    modifies term
    ensures term[..] == Inserted(old(term[..]), termOffset, packet[..if length > 32 then length else 32])
  {
    hide FrameLength, I64At, I32At, EncI64, EncI32, Splice, GetI64, GetI32, FrameLengthOf;
    if FrameLengthOf(term, termOffset) != 0 {
      return;
    }
    ghost var t, p := term[..], packet[..if length > 32 then length else 32];
    var payloadLength := length - HEADER_LENGTH;
    if payloadLength > 0 {
      PutBytes(term, termOffset + HEADER_LENGTH, packet[HEADER_LENGTH..length]);
      assert packet[HEADER_LENGTH..length] == p[32..];
    } else {
      SpliceNothing(t, termOffset + 32);
      assert p[32..] == [];
    }
    CopyHeader(term, termOffset, packet, t, p);
    assert p[0..] == p;
  }

  // The 32 header bytes from their end, behind which everything is copied already.
  method CopyHeader(term: array<byte>, termOffset: nat, packet: array<byte>, ghost t: seq<byte>, ghost p: seq<byte>)
    requires term != packet && 32 <= |p| <= packet.Length && p == packet[..|p|]
    requires termOffset + |p| <= term.Length == |t| && term[..] == Splice(t, termOffset + 32, p[32..])
    modifies term
    ensures term[..] == Splice(t, termOffset, p[0..])
  {
    hide I64At, I32At, EncI64, EncI32, Splice, GetI64, GetI32;
    ghost var bytes := packet[..];
    var reserved := GetI64(packet, 24);
    PutI64(term, termOffset + 24, reserved);
    WordOf(bytes, p, 24);
    CopyWord(t, termOffset, p, 24, p[24..32]);
    var streamAndTerm := GetI64(packet, 16);
    PutI64(term, termOffset + 16, streamAndTerm);
    WordOf(bytes, p, 16);
    CopyWord(t, termOffset, p, 16, p[16..24]);
    var offsetAndSession := GetI64(packet, 8);
    PutI64(term, termOffset + 8, offsetAndSession);
    WordOf(bytes, p, 8);
    CopyWord(t, termOffset, p, 8, p[8..16]);
    var versionFlagsType := GetI32(packet, 4);
    PutI32(term, termOffset + 4, versionFlagsType);
    WordOf(bytes, p, 4);
    CopyWord(t, termOffset, p, 4, p[4..8]);
    var frameLength := GetI32(packet, 0);
    PutI32(term, termOffset, frameLength);
    WordOf(bytes, p, 0);
    CopyWord(t, termOffset, p, 0, p[0..4]);
  }

  // Copying the word at i of a packet whose bytes behind it are copied already.
  lemma CopyWord(t: seq<byte>, o: nat, p: seq<byte>, i: nat, word: seq<byte>)
    requires i + |word| <= |p| && word == p[i..i + |word|] && o + |p| <= |t|
    ensures Splice(Splice(t, o + i + |word|, p[i + |word|..]), o + i, word) == Splice(t, o + i, p[i..])
  {
    hide Splice;
    assert word + p[i + |word|..] == p[i..];
    SpliceJoin(t, o + i, word, p[i + |word|..]);
  }

  lemma WordOf(packet: seq<byte>, p: seq<byte>, i: nat)
    requires i + 8 <= |p| <= |packet| && p == packet[..|p|]
    ensures EncI64(I64At(packet, i)) == p[i..i + 8] && EncI32(I32At(packet, i)) == p[i..i + 4]
  {
    hide EncI64, EncI32, I64At, I32At;
    ReencodeI64(packet, i);
    ReencodeU32(packet, i);
  }

  lemma SpliceNothing(t: seq<byte>, o: nat)
    requires o <= |t|
    ensures Splice(t, o, []) == t
  {}

  // ---- Packets of a source term ----

  /** A term published completely up to the end of its cells. */
  ghost predicate Source(src: seq<byte>, cells: seq<Cell>) {
    AllCommitted(cells) && Tiled(src, 0, cells, Span(cells)) && Span(cells) <= |src|
  }

  // One packet carries the frames first..end; a padding frame travels as its header alone
  // and ends the packet.
  datatype Block = Block(first: nat, end: nat)

  predicate IsBlock(cells: seq<Cell>, b: Block) {
    && b.first < b.end <= |cells|
    && forall i :: b.first <= i < b.end - 1 ==> cells[i].kind.Data?
  }

  function BlockEnd(cells: seq<Cell>, b: Block): nat
    requires IsBlock(cells, b)
  {
    Off(cells, b.end - 1) + VisibleSize(cells[b.end - 1])
  }

  function Packet(src: seq<byte>, cells: seq<Cell>, b: Block): (p: seq<byte>)
    requires IsBlock(cells, b) && Off(cells, b.first) <= BlockEnd(cells, b) <= |src|
  {
    src[Off(cells, b.first)..BlockEnd(cells, b)]
  }

  lemma BlockFits(src: seq<byte>, cells: seq<Cell>, b: Block)
    requires Source(src, cells) && IsBlock(cells, b)
    ensures Off(cells, b.first) + 32 <= BlockEnd(cells, b) <= Off(cells, b.end) <= Span(cells) <= |src|
    ensures b.first < |cells|
  {
    hide Span, CellAt, Tiled, Off;
    var last := b.end - 1;
    OffOrder(cells, b.first, last);
    OffOrder(cells, last, b.end);
    TiledCell(src, 0, cells, Span(cells), last);
    CellFits(src, Off(cells, last), cells[last]);
  }

  ghost function InsertAll(t: seq<byte>, src: seq<byte>, cells: seq<Cell>, order: seq<Block>): (r: seq<byte>)
    requires Source(src, cells) && |t| == |src|
    requires forall b :: b in order ==> IsBlock(cells, b)
    ensures |r| == |t|
  {
    if order == [] then t
    else
      var b := order[|order| - 1];
      BlockFits(src, cells, b);
      Inserted(InsertAll(t, src, cells, order[..|order| - 1]), Off(cells, b.first), Packet(src, cells, b))
  }

  // ---- The image of a set of received frames ----

  predicate Within(cells: seq<Cell>, i: nat, k: nat) {
    i < |cells| && Off(cells, i) <= k < Off(cells, i) + VisibleSize(cells[i])
  }

  ghost predicate Covered(cells: seq<Cell>, got: set<nat>, k: nat) {
    exists i :: i in got && Within(cells, i, k)
  }

  /** The source bytes on the received frames and zeros elsewhere. */
  ghost function Image(src: seq<byte>, cells: seq<Cell>, got: set<nat>): (t: seq<byte>)
    ensures |t| == |src|
    ensures forall k :: 0 <= k < |src| ==> t[k] == if Covered(cells, got, k) then src[k] else 0
  {
    seq(|src|, k requires 0 <= k < |src| => if Covered(cells, got, k) then src[k] else 0)
  }

  predicate InBlock(b: Block, i: nat) {
    b.first <= i < b.end
  }

  ghost function Numbers(b: Block): set<nat> {
    set i: nat | i < b.end && InBlock(b, i)
  }

  /** The frames a list of packets places: a packet whose first frame is already there is
      dropped as a whole. */
  ghost function Placed(order: seq<Block>): set<nat> {
    if order == [] then {}
    else
      var before, b := Placed(order[..|order| - 1]), order[|order| - 1];
      if b.first in before then before else before + Numbers(b)
  }

  /** Whatever packets arrive, in whatever order and however often, the term holds exactly
      the source bytes of the frames placed and zeros elsewhere. */
  lemma {:induction false} RebuildsImage(src: seq<byte>, cells: seq<Cell>, order: seq<Block>)
    requires Source(src, cells)
    requires forall b :: b in order ==> IsBlock(cells, b)
    ensures InsertAll(Zeros(|src|), src, cells, order) == Image(src, cells, Placed(order))
    ensures forall i :: i in Placed(order) ==> i < |cells|
    decreases |order|
  {
    hide Source, Covered, Inserted, IsBlock;
    if order == [] {
      NothingCovered(cells);
    } else {
      var before := order[..|order| - 1];
      RebuildsImage(src, cells, before);
      PlaceBlock(src, cells, Placed(before), order[|order| - 1]);
      BlockInside(cells, order[|order| - 1]);
    }
  }

  lemma NothingCovered(cells: seq<Cell>)
    ensures forall k: nat :: !Covered(cells, {}, k)
  {}

  lemma BlockInside(cells: seq<Cell>, b: Block)
    requires IsBlock(cells, b)
    ensures forall i :: i in Numbers(b) ==> i < |cells|
  {}

  lemma PlaceBlock(src: seq<byte>, cells: seq<Cell>, got: set<nat>, b: Block)
    requires Source(src, cells) && IsBlock(cells, b)
    ensures BlockEnd(cells, b) <= |src| && Off(cells, b.first) <= BlockEnd(cells, b)
    ensures Inserted(Image(src, cells, got), Off(cells, b.first), Packet(src, cells, b))
         == Image(src, cells, if b.first in got then got else got + Numbers(b))
  {
    hide Source, IsBlock, Covered, Off, FrameLength, BlockEnd;
    BlockFits(src, cells, b);
    SourceWord(src, cells, got, b.first);
    if b.first !in got {
      var o := Off(cells, b.first);
      var t := Inserted(Image(src, cells, got), o, Packet(src, cells, b));
      forall k | 0 <= k < |src| ensures t[k] == Image(src, cells, got + Numbers(b))[k] {
        BlockCovers(src, cells, got, b, k);
      }
    }
  }

  // The length word of frame i is the source's when it was received and zero otherwise.
  lemma SourceWord(src: seq<byte>, cells: seq<Cell>, got: set<nat>, i: nat)
    requires Source(src, cells) && i < |cells|
    ensures FrameLength(Image(src, cells, got), Off(cells, i)) != 0 <==> i in got
  {
    hide Image, Off, Span, Covered, CellAt;
    var t, o := Image(src, cells, got), Off(cells, i);
    TiledCell(src, 0, cells, Span(cells), i);
    SourceLength(src, o, cells[i]);
    forall k | o <= k < o + 4 ensures Covered(cells, got, k) <==> i in got {
      CoveredInside(cells, got, i, k);
    }
    assert forall k :: o <= k < o + 4 ==> t[k] == if i in got then src[k] else 0;
  }

  lemma SourceLength(src: seq<byte>, o: nat, c: Cell)
    requires CellAt(src, o, c) && c.Committed()
    ensures FrameLength(src, o) > 0 && c.size >= 32 && VisibleSize(c) >= 32 && o + c.size <= |src|
  {}

  // Inside the visible bytes of cell i only i covers.
  lemma CoveredInside(cells: seq<Cell>, got: set<nat>, i: nat, k: nat)
    requires i < |cells| && Off(cells, i) <= k < Off(cells, i) + cells[i].size
    ensures Covered(cells, got, k) <==> i in got && k < Off(cells, i) + VisibleSize(cells[i])
  {
    hide Off;
    if Covered(cells, got, k) {
      var j :| j in got && Within(cells, j, k);
      if j < i { OffOrder(cells, j, i); }
      if i < j { OffOrder(cells, i, j); }
    }
    if i in got && k < Off(cells, i) + VisibleSize(cells[i]) {
      assert Within(cells, i, k);
    }
  }

  lemma BlockCovers(src: seq<byte>, cells: seq<Cell>, got: set<nat>, b: Block, k: nat)
    requires Source(src, cells) && IsBlock(cells, b)
    ensures Covered(cells, got + Numbers(b), k)
       <==> Covered(cells, got, k) || Off(cells, b.first) <= k < BlockEnd(cells, b)
  {
    hide Off, Source;
    if Covered(cells, got + Numbers(b), k) {
      var i :| i in got + Numbers(b) && Within(cells, i, k);
      if i !in got {
        OffOrder(cells, b.first, i);
        OffOrder(cells, i, b.end - 1);
      }
    }
    if Covered(cells, got, k) {
      var i :| i in got && Within(cells, i, k);
      assert i in got + Numbers(b);
    }
    if Off(cells, b.first) <= k < BlockEnd(cells, b) {
      var i := FrameHolding(cells, b, k);
      assert i in got + Numbers(b);
    }
  }

  lemma {:induction false} FrameHolding(cells: seq<Cell>, b: Block, k: nat) returns (i: nat)
    requires IsBlock(cells, b) && Off(cells, b.first) <= k < BlockEnd(cells, b)
    ensures b.first <= i < b.end && Within(cells, i, k)
    decreases b.end - b.first
  {
    hide Off;
    i := b.first;
    if i < b.end - 1 {
      OffStep(cells, i);
      if k >= Off(cells, i + 1) {
        i := FrameHolding(cells, Block(i + 1, b.end), k);
      }
    }
  }

  /** A frame is there, with its source length, exactly when it was placed. */
  lemma PlacedLength(src: seq<byte>, cells: seq<Cell>, order: seq<Block>, i: nat)
    requires Source(src, cells) && i < |cells| && forall b :: b in order ==> IsBlock(cells, b)
    ensures var length := FrameLength(InsertAll(Zeros(|src|), src, cells, order), Off(cells, i));
            if i in Placed(order) then length == FrameLength(src, Off(cells, i)) > 0 else length == 0
  {
    hide Source, InsertAll, Image, FrameLength, Placed, Off, IsBlock;
    RebuildsImage(src, cells, order);
    SourceWord(src, cells, Placed(order), i);
    if i in Placed(order) { ImageLength(src, cells, Placed(order), i); }
  }

  lemma ImageLength(src: seq<byte>, cells: seq<Cell>, got: set<nat>, i: nat)
    requires Source(src, cells) && i < |cells| && i in got
    ensures FrameLength(Image(src, cells, got), Off(cells, i)) == FrameLength(src, Off(cells, i)) > 0
  {
    hide Off, Span, Covered, CellAt;
    var o := Off(cells, i);
    TiledCell(src, 0, cells, Span(cells), i);
    SourceLength(src, o, cells[i]);
    ImageInside(src, cells, got, i);
  }

  lemma ImageInside(src: seq<byte>, cells: seq<Cell>, got: set<nat>, i: nat)
    requires Source(src, cells) && i < |cells|
    ensures Off(cells, i) + cells[i].size <= |src|
    ensures forall k :: Off(cells, i) <= k < Off(cells, i) + cells[i].size ==>
              Image(src, cells, got)[k] == if i in got && k < Off(cells, i) + VisibleSize(cells[i]) then src[k] else 0
  {
    hide Off, Span, Covered, CellAt;
    var o := Off(cells, i);
    TiledCell(src, 0, cells, Span(cells), i);
    CellFits(src, o, cells[i]);
    forall k | o <= k < o + cells[i].size
      ensures Image(src, cells, got)[k] == if i in got && k < o + VisibleSize(cells[i]) then src[k] else 0
    {
      CoveredInside(cells, got, i, k);
    }
  }

  // ---- When the order of arrival matters ----

  /** Two lists of packets leave the same term if and only if they place the same frames. */
  lemma SameTermIffSamePlaced(src: seq<byte>, cells: seq<Cell>, one: seq<Block>, other: seq<Block>)
    requires Source(src, cells)
    requires (forall b :: b in one ==> IsBlock(cells, b)) && (forall b :: b in other ==> IsBlock(cells, b))
    ensures InsertAll(Zeros(|src|), src, cells, one) == InsertAll(Zeros(|src|), src, cells, other)
       <==> Placed(one) == Placed(other)
  {
    hide Source, InsertAll, Image, FrameLength, Placed, Off, IsBlock;
    RebuildsImage(src, cells, one);
    RebuildsImage(src, cells, other);
    if InsertAll(Zeros(|src|), src, cells, one) == InsertAll(Zeros(|src|), src, cells, other) {
      forall i | i in Placed(one) || i in Placed(other) ensures i in Placed(one) && i in Placed(other) {
        PlacedLength(src, cells, one, i);
        PlacedLength(src, cells, other, i);
      }
    }
  }

  /** Two packets can be swapped when each holds the other's frames if it holds the first of
      them: neither is dropped for frames it would have brought. */
  predicate Commute(b: Block, c: Block) {
    && (InBlock(b, c.first) ==> c.end <= b.end)
    && (InBlock(c, b.first) ==> b.end <= c.end)
  }

  /** The order of two packets matters to the term if and only if they do not commute, which
      their frame ranges tell before either is inserted. */
  lemma PairConvergesIffCommute(src: seq<byte>, cells: seq<Cell>, b: Block, c: Block)
    requires Source(src, cells) && IsBlock(cells, b) && IsBlock(cells, c)
    ensures InsertAll(Zeros(|src|), src, cells, [b, c]) == InsertAll(Zeros(|src|), src, cells, [c, b])
       <==> Commute(b, c)
  {
    hide Source, InsertAll, Placed, Numbers;
    SameTermIffSamePlaced(src, cells, [b, c], [c, b]);
    PlacedPair(b, c);
    PlacedPair(c, b);
    InNumbers(b);
    InNumbers(c);
    if InBlock(b, c.first) && b.end < c.end {
      assert c.end - 1 in Placed([c, b]) && c.end - 1 !in Placed([b, c]);
    }
    if InBlock(c, b.first) && c.end < b.end {
      assert b.end - 1 in Placed([b, c]) && b.end - 1 !in Placed([c, b]);
    }
  }

  lemma InNumbers(b: Block)
    ensures forall i: nat :: i in Numbers(b) <==> InBlock(b, i)
  {}

  lemma PlacedPair(b: Block, c: Block)
    ensures Placed([b, c]) == if InBlock(b, c.first) then Numbers(b) else Numbers(b) + Numbers(c)
  {
    assert [b, c][..1] == [b] && [b][..0] == [];
    assert Placed([]) == {};
    assert Placed([b]) == {} + Numbers(b) == Numbers(b);
    InNumbers(b);
  }

  ghost function AllNumbers(blocks: seq<Block>): set<nat> {
    set b, i | b in blocks && i in Numbers(b) :: i
  }

  predicate SameBlocks(one: seq<Block>, other: seq<Block>) {
    (forall b :: b in one ==> b in other) && (forall b :: b in other ==> b in one)
  }

  // Packet b brings frame i in every order: whatever packet brings its first frame before it
  // brings i as well.
  predicate Brings(blocks: seq<Block>, b: Block, i: nat) {
    InBlock(b, i) && forall c :: c in blocks && InBlock(c, b.first) ==> InBlock(c, i)
  }

  /** Each frame of the packets has one that brings it in every order. */
  ghost predicate Anchored(blocks: seq<Block>) {
    forall i :: i in AllNumbers(blocks) ==> exists b :: b in blocks && Brings(blocks, b, i)
  }

  /** The packets of a list leave the same term in every order in which they can arrive, each
      of them once or more often, if and only if they are anchored; that term then holds all
      their frames. */
  lemma ConvergesIffAnchored(src: seq<byte>, cells: seq<Cell>, blocks: seq<Block>)
    requires Source(src, cells) && forall b :: b in blocks ==> IsBlock(cells, b)
    ensures (forall other :: SameBlocks(blocks, other) ==>
               InsertAll(Zeros(|src|), src, cells, other) == InsertAll(Zeros(|src|), src, cells, blocks))
       <==> Anchored(blocks)
    ensures Anchored(blocks) ==> InsertAll(Zeros(|src|), src, cells, blocks) == Image(src, cells, AllNumbers(blocks))
  {
    hide Source, Placed, InsertAll, Image, AllNumbers, IsBlock, Anchored;
    if Anchored(blocks) {
      forall other | SameBlocks(blocks, other) ensures Placed(other) == AllNumbers(blocks) {
        AnchoredPlaced(blocks, other);
      }
      assert SameBlocks(blocks, blocks);
      RebuildsImage(src, cells, blocks);
      forall other | SameBlocks(blocks, other)
        ensures InsertAll(Zeros(|src|), src, cells, other) == InsertAll(Zeros(|src|), src, cells, blocks)
      {
        SameTermIffSamePlaced(src, cells, other, blocks);
      }
    } else {
      forall b | b in blocks ensures b.first < b.end { BlockRange(cells, b); }
      var full, lossy := TwoOrders(blocks);
      SameTermIffSamePlaced(src, cells, full, lossy);
    }
  }

  lemma BlockRange(cells: seq<Cell>, b: Block)
    requires IsBlock(cells, b)
    ensures b.first < b.end <= |cells|
  {}

  // A frame that is there came with a whole packet.
  lemma {:induction false} PlacedWhole(order: seq<Block>, i: nat) returns (b: Block)
    requires i in Placed(order)
    ensures b in order && i in Numbers(b) && Numbers(b) <= Placed(order)
    decreases |order|
  {
    hide Numbers;
    var before := order[..|order| - 1];
    if i in Placed(before) {
      b := PlacedWhole(before, i);
    } else {
      b := order[|order| - 1];
    }
  }

  lemma {:induction false} BroughtIsPlaced(blocks: seq<Block>, order: seq<Block>, b: Block, i: nat)
    requires b in order && Brings(blocks, b, i) && forall c :: c in order ==> c in blocks
    ensures i in Placed(order)
    decreases |order|
  {
    hide Numbers;
    var before, last := order[..|order| - 1], order[|order| - 1];
    assert order == before + [last];
    InNumbers(b);
    if b in before {
      BroughtIsPlaced(blocks, before, b, i);
    } else if b.first in Placed(before) {
      var c := PlacedWhole(before, b.first);
      InNumbers(c);
    }
  }

  lemma {:induction false} OnlyTheirs(order: seq<Block>)
    ensures Placed(order) <= AllNumbers(order)
  {
    hide Numbers, Placed;
    forall i | i in Placed(order) ensures i in AllNumbers(order) {
      var b := PlacedWhole(order, i);
    }
  }

  lemma AnchoredPlaced(blocks: seq<Block>, order: seq<Block>)
    requires Anchored(blocks) && SameBlocks(blocks, order)
    ensures Placed(order) == AllNumbers(blocks)
  {
    hide Numbers, Placed, Brings;
    OnlyTheirs(order);
    assert AllNumbers(order) == AllNumbers(blocks);
    forall i | i in AllNumbers(blocks) ensures i in Placed(order) {
      var b :| b in blocks && Brings(blocks, b, i);
      BroughtIsPlaced(blocks, order, b, i);
    }
  }

  // Packets sorted so that the one with the least first frame comes last are all placed.
  lemma {:induction false} PlaceAll(blocks: set<Block>) returns (order: seq<Block>)
    requires forall b :: b in blocks ==> b.first < b.end
    ensures (forall b :: b in order <==> b in blocks) && Placed(order) == AllNumbers(order)
    decreases |blocks|
  {
    hide Numbers, Placed, AllNumbers;
    order := [];
    if blocks == {} {
      NothingPlaced();
    } else {
      var last := LeastFirst(blocks);
      var before := PlaceAll(blocks - {last});
      order := before + [last];
      LastPlaced(before, last);
    }
  }

  lemma NothingPlaced()
    ensures Placed([]) == AllNumbers([]) == {}
  {}

  // The packet with the least first frame, and the shortest of those.
  lemma {:induction false} LeastFirst(blocks: set<Block>) returns (least: Block)
    requires blocks != {}
    ensures least in blocks
    ensures forall c :: c in blocks ==> least.first < c.first || (least.first == c.first && least.end <= c.end)
    decreases |blocks|
  {
    least :| least in blocks;
    if blocks - {least} != {} {
      var other := LeastFirst(blocks - {least});
      if other.first < least.first || (other.first == least.first && other.end <= least.end) { least := other; }
    }
  }

  lemma LastPlaced(before: seq<Block>, last: Block)
    requires Placed(before) == AllNumbers(before)
    requires forall c :: c in before ==> last.first < c.first || (last.first == c.first && last.end <= c.end)
    ensures Placed(before + [last]) == AllNumbers(before + [last])
  {
    hide Numbers, Placed;
    AppendPlaced(before, last);
    if last.first in Placed(before) {
      var c := PlacedWhole(before, last.first);
      InNumbers(c);
      InNumbers(last);
    }
    assert AllNumbers(before + [last]) == AllNumbers(before) + Numbers(last);
  }

  lemma AppendPlaced(before: seq<Block>, b: Block)
    ensures Placed(before + [b]) == if b.first in Placed(before) then Placed(before) else Placed(before) + Numbers(b)
  {
    assert (before + [b])[..|before|] == before;
  }

  // Packets whose first frames are all there already add nothing.
  lemma {:induction false} DroppedAll(before: seq<Block>, more: seq<Block>)
    requires forall b :: b in more ==> b.first in Placed(before)
    ensures Placed(before + more) == Placed(before)
    decreases |more|
  {
    hide Placed, Numbers;
    if more == [] {
      assert before + more == before;
    } else {
      var b := more[|more| - 1];
      DroppedAll(before, more[..|more| - 1]);
      assert before + more == before + more[..|more| - 1] + [b];
      AppendPlaced(before + more[..|more| - 1], b);
    }
  }

  // When no packet brings frame i in every order, all packets without i, then those with it,
  // leave i out.
  lemma TwoOrders(blocks: seq<Block>) returns (full: seq<Block>, lossy: seq<Block>)
    requires !Anchored(blocks) && forall b :: b in blocks ==> b.first < b.end
    ensures SameBlocks(blocks, full) && SameBlocks(blocks, lossy)
    ensures Placed(full) != Placed(lossy)
  {
    hide Placed, AllNumbers, Numbers;
    full := PlaceAll(set b | b in blocks);
    assert AllNumbers(full) == AllNumbers(blocks) by { SameNumbers(full, blocks); }
    var i :| i in AllNumbers(blocks) && forall b :: b in blocks ==> !Brings(blocks, b, i);
    var without := PlaceAll(set b | b in blocks && !InBlock(b, i));
    var more := PlaceAll(set b | b in blocks && InBlock(b, i));
    forall b | b in more ensures b.first in Placed(without) {
      var c :| c in blocks && InBlock(c, b.first) && !InBlock(c, i);
      FrameIn(without, c, b.first);
    }
    DroppedAll(without, more);
    lossy := without + more;
    if i in Placed(lossy) {
      var b := PlacedWhole(without, i);
      InNumbers(b);
    }
  }

  lemma FrameIn(blocks: seq<Block>, b: Block, i: nat)
    requires b in blocks && InBlock(b, i)
    ensures i in AllNumbers(blocks)
  {
    assert i in Numbers(b);
  }

  lemma SameNumbers(one: seq<Block>, other: seq<Block>)
    requires SameBlocks(one, other)
    ensures AllNumbers(one) == AllNumbers(other)
  {}

  /** Packets that commute pairwise are anchored: they leave the same term in every order. */
  lemma CommutingAreAnchored(blocks: seq<Block>)
    requires forall b, c :: b in blocks && c in blocks ==> Commute(b, c)
    ensures Anchored(blocks)
  {
    hide Commute;
    forall i | i in AllNumbers(blocks) ensures exists b :: b in blocks && Brings(blocks, b, i) {
      var b :| b in blocks && i in Numbers(b);
      forall c | c in blocks && InBlock(c, b.first) ensures InBlock(c, i) {
        CommuteInside(b, c);
      }
      assert Brings(blocks, b, i);
    }
  }

  lemma CommuteInside(b: Block, c: Block)
    requires Commute(b, c) && InBlock(c, b.first)
    ensures forall i: nat :: InBlock(b, i) ==> InBlock(c, i)
  {}

  ghost function Singles(numbers: seq<nat>): (order: seq<Block>)
    ensures forall b :: b in order ==> b.first in numbers && b.end == b.first + 1
  {
    seq(|numbers|, j requires 0 <= j < |numbers| => Block(numbers[j], numbers[j] + 1))
  }

  lemma SingleIn(numbers: seq<nat>, i: nat)
    requires i in numbers
    ensures Block(i, i + 1) in Singles(numbers)
  {
    var j :| 0 <= j < |numbers| && numbers[j] == i;
    assert Singles(numbers)[j] == Block(i, i + 1);
  }

  lemma SinglesHold(numbers: seq<nat>)
    ensures AllNumbers(Singles(numbers)) == set i | i in numbers
  {
    hide Singles;
    forall i: nat | i in numbers ensures i in AllNumbers(Singles(numbers)) {
      SingleIn(numbers, i);
      assert i in Numbers(Block(i, i + 1));
    }
    forall i | i in AllNumbers(Singles(numbers)) ensures i in numbers {
      var b :| b in Singles(numbers) && i in Numbers(b);
    }
  }

  lemma SameSingles(one: seq<nat>, other: seq<nat>, b: Block)
    requires forall i :: i in other ==> i in one
    ensures b in Singles(other) ==> b in Singles(one)
  {
    hide Singles;
    if b in Singles(other) { SingleIn(one, b.first); }
  }

  /** Single-frame packets commute: the term depends only on the set of frames that arrived. */
  lemma SinglesConverge(src: seq<byte>, cells: seq<Cell>, one: seq<nat>, other: seq<nat>)
    requires Source(src, cells)
    requires forall i :: i in one ==> i < |cells|
    requires forall i :: i in other <==> i in one
    ensures InsertAll(Zeros(|src|), src, cells, Singles(one)) == Image(src, cells, set i | i in one)
    ensures InsertAll(Zeros(|src|), src, cells, Singles(other)) == InsertAll(Zeros(|src|), src, cells, Singles(one))
  {
    hide Source, Placed, InsertAll, Image, AllNumbers, Numbers;
    SinglesHold(one);
    SinglesHold(other);
    forall b, c | b in Singles(one) && c in Singles(one) ensures Commute(b, c) {
      InNumbers(b);
      InNumbers(c);
    }
    forall b ensures b in Singles(other) <==> b in Singles(one) {
      SameSingles(one, other, b);
      SameSingles(other, one, b);
    }
    assert SameBlocks(Singles(one), Singles(other));
    CommutingAreAnchored(Singles(one));
    ConvergesIffAnchored(src, cells, Singles(one));
  }

  /** Packets of several frames do not converge: a packet of frames 0 and 1 is dropped when
      frame 0 is there already, and frame 1 is lost. */
  lemma BlocksDiverge(src: seq<byte>, cells: seq<Cell>)
    requires Source(src, cells) && |cells| >= 2 && cells[0].kind.Data?
    ensures var single, pair := Block(0, 1), Block(0, 2);
            && FrameLength(InsertAll(Zeros(|src|), src, cells, [single, pair]), cells[0].size) == 0
            && FrameLength(InsertAll(Zeros(|src|), src, cells, [pair, single]), cells[0].size) > 0
  {
    hide Source, InsertAll, FrameLength, Placed, Off, IsBlock;
    var single, pair := Block(0, 1), Block(0, 2);
    PlacedPairs();
    SmallBlocks(cells);
    OffStep(cells, 0);
    NoOffset(cells);
    PlacedLength(src, cells, [single, pair], 1);
    PlacedLength(src, cells, [pair, single], 1);
  }

  lemma SmallBlocks(cells: seq<Cell>)
    requires |cells| >= 2 && cells[0].kind.Data?
    ensures IsBlock(cells, Block(0, 1)) && IsBlock(cells, Block(0, 2))
  {}

  lemma PlacedPairs()
    ensures Placed([Block(0, 1), Block(0, 2)]) == {0} && Placed([Block(0, 2), Block(0, 1)]) == {0, 1}
  {
    PlacedPair(Block(0, 1), Block(0, 2));
    PlacedPair(Block(0, 2), Block(0, 1));
  }

  // ---- A partly rebuilt term is a row of cells ----

  function Mask(cells: seq<Cell>, got: set<nat>): (m: seq<Cell>)
    ensures |m| == |cells|
    ensures forall i :: 0 <= i < |cells| ==> m[i] == if i in got then cells[i] else Cell(Untouched, cells[i].size)
  {
    seq(|cells|, i requires 0 <= i < |cells| => if i in got then cells[i] else Cell(Untouched, cells[i].size))
  }

  lemma {:induction false} MaskSpan(cells: seq<Cell>, got: set<nat>, i: nat)
    requires i <= |cells|
    ensures Off(Mask(cells, got), i) == Off(cells, i)
  {
    hide Off;
    if i > 0 {
      MaskSpan(cells, got, i - 1);
      OffStep(cells, i - 1);
      OffStep(Mask(cells, got), i - 1);
    } else {
      NoOffset(cells);
      NoOffset(Mask(cells, got));
    }
  }

  lemma NoOffset(cells: seq<Cell>)
    ensures Off(cells, 0) == 0 && Off(cells, |cells|) == Span(cells)
  {
    assert cells[..|cells|] == cells;
  }

  /** Received frames are committed cells in their source places, missing ones untouched. */
  lemma ImageIsTiled(src: seq<byte>, cells: seq<Cell>, got: set<nat>)
    requires Source(src, cells)
    ensures Tiled(Image(src, cells, got), 0, Mask(cells, got), Span(cells))
  {
    hide Source, Image, Off, Span, CellAt;
    var t, m := Image(src, cells, got), Mask(cells, got);
    forall i | 0 <= i < |m| ensures CellAt(t, Off(m, i), m[i]) {
      MaskSpan(cells, got, i);
      MaskedCell(src, cells, got, i);
    }
    NoOffset(cells);
    NoOffset(m);
    MaskSpan(cells, got, |cells|);
    TiledFromCells(t, 0, m);
  }

  lemma MaskedCell(src: seq<byte>, cells: seq<Cell>, got: set<nat>, i: nat)
    requires Source(src, cells) && i < |cells|
    ensures CellAt(Image(src, cells, got), Off(cells, i), Mask(cells, got)[i])
  {
    hide Image, Off, Span, FrameLength, Signed32, Word;
    var t, o := Image(src, cells, got), Off(cells, i);
    TiledCell(src, 0, cells, Span(cells), i);
    ImageInside(src, cells, got, i);
    if i in got {
      CellFrame(src, t, o, cells[i]);
    } else {
      ZerosAreWords(t, o, o + cells[i].size);
    }
  }

  lemma ZerosAreWords(t: seq<byte>, o: nat, e: nat)
    requires e <= |t| && forall k :: o <= k < e ==> t[k] == 0
    ensures ZeroWords(t, o, e)
  {}
}
