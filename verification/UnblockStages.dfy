/** A reader beside an unblocker or gap filler at work: the padding header is six stores, and
    the reader's two loads of a frame can fall between any of them. */
module UnblockStages {
  import opened Bytes
  import opened Frames
  import opened TermPadding
  import opened TermReader
  import opened GapRepair
  import opened TermUnblocker

  const STORES := 6

  /** The term after the first `done` stores at o: the compare-and-set of a claim's length (an
      empty slot has none), the default header, the type, the offset, the term id and at last
      the length. */
  function Stage(t: seq<byte>, header: seq<byte>, o: nat, length: int, termId: int, done: nat): (r: seq<byte>)
    requires |header| == 32 && o + 32 <= |t| && IsI32(o) && IsI32(length) && IsI32(termId)
    ensures |r| == |t|
  {
    if done == 0 then t
    else
      var before := Stage(t, header, o, length, termId, done - 1);
      match done
      case 1 => if FrameLength(t, o) < 0 then Splice(before, o, EncI32(length)) else before
      case 2 => Splice(before, o, header)
      case 3 => Splice(before, o + 6, [0, 0])
      case 4 => Splice(before, o + 8, EncI32(o))
      case 5 => Splice(before, o + 20, EncI32(termId))
      case 6 => Splice(before, o, EncI32(length))
      case _ => before
  }

  /** The last stage is the padding the whole call leaves. */
  lemma LastStageIsPadded(t: seq<byte>, header: seq<byte>, o: nat, length: int, termId: int)
    requires |header| == 32 && o + 32 <= |t| && IsI32(o) && IsI32(length) && IsI32(termId)
    ensures Stage(t, header, o, length, termId, STORES) == Padded(t, header, o, length, termId)
  {
    hide EncI32, FrameLength, Splice;
    if FrameLength(t, o) < 0 { PaddedOver(t, header, o, length, termId); }
    SixStores(t, header, o, length, termId);
  }

  lemma SixStores(t: seq<byte>, header: seq<byte>, o: nat, length: int, termId: int)
    requires |header| == 32 && o + 32 <= |t| && IsI32(o) && IsI32(length) && IsI32(termId)
    ensures Stage(t, header, o, length, termId, STORES) ==
        Padded(Stage(t, header, o, length, termId, 1), header, o, length, termId)
  {
    hide EncI32, FrameLength, Splice;
    var s1 := Stage(t, header, o, length, termId, 1);
    var s2 := Stage(t, header, o, length, termId, 2);
    var s3 := Stage(t, header, o, length, termId, 3);
    var s4 := Stage(t, header, o, length, termId, 4);
    var s5 := Stage(t, header, o, length, termId, 5);
    assert s2 == Splice(s1, o, header) && s3 == Splice(s2, o + 6, [0, 0]);
    assert s4 == Splice(s3, o + 8, EncI32(o)) && s5 == Splice(s4, o + 20, EncI32(termId));
  }

  // What a reader does at a frame whose length it loads from one state of the term and whose
  // type from a later one.
  datatype Look = Stops | Skips(size: nat) | Delivers

  function LookAt(atLength: seq<byte>, atType: seq<byte>, o: nat): Look {
    if FrameLength(atLength, o) <= 0 then Stops
    else if IsPaddingFrame(atType, o) then Skips(AlignedLength(FrameLength(atLength, o)))
    else Delivers
  }

  /** Both loads in one state: the reader's own step. */
  lemma LookIsReaderStep(t: seq<byte>, o: nat, limit: int)
    requires o < |t| && limit > 0
    ensures match LookAt(t, t, o)
            case Stops => Outcomes(t, o, limit) == Outcome(o, [])
            case Skips(size) => Outcomes(t, o, limit) == Outcomes(t, o + size, limit)
            case Delivers =>
                    Outcomes(t, o, limit).fragments != [] && Outcomes(t, o, limit).fragments[0] == FragmentAt(t, o)
  {
    hide FrameLength, FragmentAt, AlignedLength;
  }

  // The length word and the type that each stage shows.
  lemma {:induction false} StageShows(t: seq<byte>, header: seq<byte>, o: nat, length: int, termId: int, k: nat)
    requires |header| == 32 && o + 32 <= |t| && IsI32(o) && IsI32(length) && IsI32(termId) && k <= STORES
    ensures FrameLength(Stage(t, header, o, length, termId, k), o)
         == if k == 0 || (k == 1 && FrameLength(t, o) >= 0) then FrameLength(t, o)
            else if k == 1 || k == STORES then length
            else FrameLength(header, 0)
    ensures IsPaddingFrame(Stage(t, header, o, length, termId, k), o)
       <==> if k < 2 then IsPaddingFrame(t, o) else k > 2 || IsPaddingFrame(header, 0)
    decreases k
  {
    hide EncI32, Signed32, Word;
    if k > 0 {
      StageShows(t, header, o, length, termId, k - 1);
      var before := Stage(t, header, o, length, termId, k - 1);
      match k
      case 1 => if FrameLength(t, o) < 0 { LengthStored(before, o, length); }
      case 2 => HeaderStored(before, o, header);
      case 3 => TypeStored(before, o);
      case 4 => StoredElsewhere(before, o, o + 8, EncI32(o));
      case 5 => StoredElsewhere(before, o, o + 20, EncI32(termId));
      case _ => LengthStored(before, o, length);
    }
  }

  lemma LengthStored(t: seq<byte>, o: nat, length: int)
    requires o + 32 <= |t| && IsI32(length)
    ensures var r := Splice(t, o, EncI32(length));
            FrameLength(r, o) == length && (IsPaddingFrame(r, o) <==> IsPaddingFrame(t, o))
  {
    hide EncI32, Signed32, Word;
    WordCopied(Splice(t, o, EncI32(length)), o, EncI32(length), 0);
  }

  lemma HeaderStored(t: seq<byte>, o: nat, header: seq<byte>)
    requires o + 32 <= |t| && |header| == 32
    ensures var r := Splice(t, o, header);
            FrameLength(r, o) == FrameLength(header, 0) && (IsPaddingFrame(r, o) <==> IsPaddingFrame(header, 0))
  {
    hide Signed32, Word;
    WordCopied(Splice(t, o, header), o, header, 0);
  }

  lemma TypeStored(t: seq<byte>, o: nat)
    requires o + 32 <= |t|
    ensures FrameLength(Splice(t, o + 6, [0, 0]), o) == FrameLength(t, o) && IsPaddingFrame(Splice(t, o + 6, [0, 0]), o)
  {
    hide Signed32, Word;
  }

  lemma StoredElsewhere(t: seq<byte>, o: nat, at: nat, word: seq<byte>)
    requires o + 32 <= |t| && o + 8 <= at && |word| == 4 && at + 4 <= o + 32
    ensures FrameLength(Splice(t, at, word), o) == FrameLength(t, o)
    ensures IsPaddingFrame(Splice(t, at, word), o) <==> IsPaddingFrame(t, o)
  {
    hide Signed32, Word;
  }

  /** What a reader at the blocked offset does, exactly, with its length load after the first i
      stores and its type load after the first j: it stops while it sees no positive length,
      which the compare-and-set shows for a claim and the default header shows if its own
      length is positive; what it then takes the frame for is the old type before the default
      header, that header's type until the type store, and padding afterwards. */
  lemma ReaderAtStage(t: seq<byte>, header: seq<byte>, o: nat, length: int, termId: int, i: nat, j: nat)
    requires |header| == 32 && o + 32 <= |t| && IsI32(o) && IsI32(length) && IsI32(termId)
    requires i <= j <= STORES && FrameLength(t, o) <= 0 && length > 0
    ensures var claim, h := FrameLength(t, o) < 0, FrameLength(header, 0);
            LookAt(Stage(t, header, o, length, termId, i), Stage(t, header, o, length, termId, j), o)
              == if i == 0 || (i == 1 && !claim) || (1 < i < STORES && h <= 0) then Stops
                 else if (j < 2 && !IsPaddingFrame(t, o)) || (j == 2 && !IsPaddingFrame(header, 0)) then Delivers
                 else Skips(AlignedLength(if i == 1 || i == STORES then length else h))
  {
    hide Stage, FrameLength, IsPaddingFrame, AlignedLength;
    StageShows(t, header, o, length, termId, i);
    StageShows(t, header, o, length, termId, j);
  }

  // At no two moments of the call does a reader take the unfinished frame for data or step
  // over it by another size than the padding's.
  ghost predicate NeverMisled(t: seq<byte>, header: seq<byte>, o: nat, length: int, termId: int)
    requires |header| == 32 && o + 32 <= |t| && IsI32(o) && IsI32(length) && IsI32(termId) && length > 0
  {
    forall i, j :: 0 <= i <= j <= STORES ==>
      LookAt(Stage(t, header, o, length, termId, i), Stage(t, header, o, length, termId, j), o)
      in {Stops, Skips(AlignedLength(length))}
  }

  // What the default header shows between its copy and the last store.
  predicate HeaderHides(header: seq<byte>, length: nat) {
    FrameLength(header, 0) > 0 ==> AlignedLength(FrameLength(header, 0)) == AlignedLength(length)
  }

  /** A claim being unblocked never misleads a reader if and only if it and the default header
      already have the padding type, and the header's length, if positive, takes the same
      space. With a data header there is always a moment at which the claim is taken for data:
      its length is made positive before its type is stored. */
  lemma ClaimNeverMisleadsIff(t: seq<byte>, header: seq<byte>, o: nat, length: int, termId: int)
    requires |header| == 32 && o + 32 <= |t| && IsI32(o) && IsI32(length) && IsI32(termId)
    requires FrameLength(t, o) < 0 && length > 0
    ensures NeverMisled(t, header, o, length, termId)
       <==> IsPaddingFrame(t, o) && IsPaddingFrame(header, 0) && HeaderHides(header, length)
  {
    hide Stage, FrameLength, IsPaddingFrame, AlignedLength, LookAt;
    forall i: nat, j: nat | i <= j <= STORES
      ensures IsPaddingFrame(t, o) && IsPaddingFrame(header, 0) && HeaderHides(header, length) ==>
                LookAt(Stage(t, header, o, length, termId, i), Stage(t, header, o, length, termId, j), o)
                in {Stops, Skips(AlignedLength(length))}
    {
      ReaderAtStage(t, header, o, length, termId, i, j);
    }
    ReaderAtStage(t, header, o, length, termId, 1, 1);
    ReaderAtStage(t, header, o, length, termId, 1, 2);
    ReaderAtStage(t, header, o, length, termId, 2, 3);
  }

  /** An empty slot being filled, by the unblocker or by the gap filler, never misleads a reader
      if and only if the default header's length is not positive, or the header is padding that
      takes the same space. */
  lemma EmptyNeverMisleadsIff(t: seq<byte>, header: seq<byte>, o: nat, length: int, termId: int)
    requires |header| == 32 && o + 32 <= |t| && IsI32(o) && IsI32(length) && IsI32(termId)
    requires FrameLength(t, o) == 0 && length > 0
    ensures NeverMisled(t, header, o, length, termId)
       <==> FrameLength(header, 0) <= 0 || (IsPaddingFrame(header, 0) && HeaderHides(header, length))
  {
    hide Stage, FrameLength, IsPaddingFrame, AlignedLength, LookAt;
    forall i: nat, j: nat | i <= j <= STORES
      ensures FrameLength(header, 0) <= 0 || (IsPaddingFrame(header, 0) && HeaderHides(header, length)) ==>
                LookAt(Stage(t, header, o, length, termId, i), Stage(t, header, o, length, termId, j), o)
                in {Stops, Skips(AlignedLength(length))}
    {
      ReaderAtStage(t, header, o, length, termId, i, j);
    }
    ReaderAtStage(t, header, o, length, termId, 2, 2);
    ReaderAtStage(t, header, o, length, termId, 2, 3);
  }

  lemma {:induction false} StagesElsewhere(t: seq<byte>, header: seq<byte>, o: nat, length: int, termId: int, k: nat)
    requires |header| == 32 && o + 32 <= |t| && IsI32(o) && IsI32(length) && IsI32(termId)
    ensures forall i :: 0 <= i < |t| && !(o <= i < o + 32) ==> Stage(t, header, o, length, termId, k)[i] == t[i]
    decreases k
  {
    hide EncI32, FrameLength;
    if k > 0 { StagesElsewhere(t, header, o, length, termId, k - 1); }
  }

  /** Everywhere else a reader is safe at every moment: a row of cells in front of the blocked
      offset, or behind its 32 bytes, is there at each stage with the same frames to deliver. */
  lemma ReadersElsewhere(t: seq<byte>, header: seq<byte>, o: nat, length: int, termId: int, k: nat,
                         from: nat, cells: seq<Cell>, e: nat)
    requires |header| == 32 && o + 32 <= |t| && IsI32(o) && IsI32(length) && IsI32(termId)
    requires Tiled(t, from, cells, e) && (e <= o || o + 32 <= from)
    ensures Tiled(Stage(t, header, o, length, termId, k), from, cells, e)
    ensures Deliverable(Stage(t, header, o, length, termId, k), from, cells) == Deliverable(t, from, cells)
  {
    hide Stage, Tiled, CellAt, Span, Deliverable;
    var t' := Stage(t, header, o, length, termId, k);
    StagesElsewhere(t, header, o, length, termId, k);
    TiledSpan(t, from, cells, e);
    SameVisibleOutside(t, t', from, cells, o, o + 32);
    TiledFrame(t, t', from, cells, e);
    DeliverableAlike(t, t', from, cells, e);
  }
}
