/** The tail counters and the active term count in the log metadata, and rotating the log. */
module LogBufferDescriptor {
  import opened Bits
  import opened Bytes
  import opened Packed
  import opened Rotation

  const ACTIVE_TERM_COUNT_OFFSET := 24
  const LOG_META_DATA_LENGTH := 4096

  function RawTail(meta: seq<byte>, index: nat): (word: int)
    requires |meta| == LOG_META_DATA_LENGTH && index < 3
    ensures IsI64(word)
  {
    I64At(meta, 8 * index)
  }

  function ActiveTermCount(meta: seq<byte>): (n: int)
    requires |meta| == LOG_META_DATA_LENGTH
    ensures IsI32(n)
  {
    I32At(meta, ACTIVE_TERM_COUNT_OFFSET)
  }

  // Callers pass a count that was once the active one and a term id with room around it.
  predicate RotateArguments(termCount: int, termId: int) {
    0 <= termCount < INT_MAX && -TWO_31 + 2 <= termId < INT_MAX
  }

  datatype Rotate = Rotate(rotated: bool, meta: seq<byte>)

  /** One undisturbed call: the next tail is replaced when it holds the term id three before
      the next one; then the count moves if it still is the caller's. */
  function RotatedLog(meta: seq<byte>, termCount: int, termId: int): (r: Rotate)
    requires |meta| == LOG_META_DATA_LENGTH && RotateArguments(termCount, termId)
    ensures |r.meta| == |meta|
  {
    var next := IndexByTermCount(termCount + 1);
    if Low(RawTail(meta, next)) != termId + 1 - 3 then Rotate(false, meta)
    else
      var swapped := Splice(meta, 8 * next, EncI64(Pack(0, termId + 1)));
      if ActiveTermCount(swapped) == termCount then
        Rotate(true, Splice(swapped, ACTIVE_TERM_COUNT_OFFSET, EncI32(termCount + 1)))
      else Rotate(false, swapped)
  }

  method RotateLog(meta: array<byte>, termCount: int, termId: int) returns (rotated: bool)
    requires meta.Length == LOG_META_DATA_LENGTH && RotateArguments(termCount, termId)
    modifies meta
    ensures Rotate(rotated, meta[..]) == RotatedLog(old(meta[..]), termCount, termId)
  {
    hide I64At, I32At, EncI64, EncI32, Pack, Low;
    var nextTermId := termId + 1;
    var nextTermCount := termCount + 1;
    var nextIndex := IndexByTermCount(nextTermCount);
    var expectedTermId := nextTermId - 3;
    var rawTail := GetI64(meta, 8 * nextIndex);
    if expectedTermId != Low(rawTail) {
      return false;
    }
    // Undisturbed, the first round of the compare-and-set loop succeeds.
    PutI64(meta, 8 * nextIndex, Pack(0, nextTermId));
    if GetI32(meta, ACTIVE_TERM_COUNT_OFFSET) == termCount {
      PutI32(meta, ACTIVE_TERM_COUNT_OFFSET, nextTermCount);
      return true;
    }
    return false;
  }

  method InitialiseTailWithTermId(meta: array<byte>, partitionIndex: nat, termId: int)
    requires meta.Length == LOG_META_DATA_LENGTH && partitionIndex < 3 && IsI32(termId)
    modifies meta
    ensures meta[..] == Splice(old(meta[..]), 8 * partitionIndex, EncI64(Pack(0, termId)))
  {
    PutI64(meta, 8 * partitionIndex, Pack(0, termId));
  }

  // ---- The metadata as a state of the step system ----

  function TailOf(word: int): Tail
    requires IsI64(word)
  {
    Tail(High(word), Low(word))
  }

  function Tails(meta: seq<byte>): (tails: seq<Tail>)
    requires |meta| == LOG_META_DATA_LENGTH
    ensures |tails| == 3
  {
    [TailOf(RawTail(meta, 0)), TailOf(RawTail(meta, 1)), TailOf(RawTail(meta, 2))]
  }

  /** An undisturbed call does what the caller's three steps do one after the other. */
  lemma CallIsThreeSteps(meta: seq<byte>, termCount: int, termId: int, s: State, i: nat, initial: int)
    requires |meta| == LOG_META_DATA_LENGTH && RotateArguments(termCount, termId)
    requires s.tails == Tails(meta) && s.count == ActiveTermCount(meta) && s.At(i) == Ready(termCount, termId)
    ensures var r := RotatedLog(meta, termCount, termId);
            var t := Next(Next(Next(s, LoadTail(i), initial), CasTail(i), initial), CasCount(i), initial);
            && t.tails == Tails(r.meta) && t.count == ActiveTermCount(r.meta)
            && t.wins == (if r.rotated then s.wins + [termCount] else s.wins) && t.At(i).Idle?
  {
    hide I64At, I32At, EncI64, EncI32, Pack, Low, High, RawTail, ActiveTermCount, IndexByTermCount;
    var next := IndexByTermCount(termCount + 1);
    var word := Pack(0, termId + 1);
    var swapped := Splice(meta, 8 * next, EncI64(word));
    Unpacks(0, termId + 1);
    TailStored(meta, next, word);
    CountStored(swapped, termCount + 1);
    assert Tails(meta)[next] == TailOf(RawTail(meta, next));
  }

  lemma TailStored(meta: seq<byte>, index: nat, word: int)
    requires |meta| == LOG_META_DATA_LENGTH && index < 3 && IsI64(word)
    ensures Tails(Splice(meta, 8 * index, EncI64(word))) == Tails(meta)[index := TailOf(word)]
    ensures ActiveTermCount(Splice(meta, 8 * index, EncI64(word))) == ActiveTermCount(meta)
  {
    hide EncI64, High, Low, Splice, I64At;
    var r := Splice(meta, 8 * index, EncI64(word));
    forall i: nat | i < 3 ensures RawTail(r, i) == if i == index then word else RawTail(meta, i) {
      LongStored(meta, 8 * index, word, 8 * i);
    }
    CountKept(meta, r);
  }

  lemma LongStored(meta: seq<byte>, o: nat, word: int, at: nat)
    requires o + 8 <= |meta| && at + 8 <= |meta| && IsI64(word) && (at == o || at + 8 <= o || o + 8 <= at)
    ensures I64At(Splice(meta, o, EncI64(word)), at) == if at == o then word else I64At(meta, at)
  {
    hide EncI64, Signed32, Word;
    var bs := EncI64(word);
    var r := Splice(meta, o, bs);
    if at == o {
      assert r[o] == bs[0] && r[o + 1] == bs[1] && r[o + 2] == bs[2] && r[o + 3] == bs[3];
      assert r[o + 4] == bs[4] && r[o + 5] == bs[5] && r[o + 6] == bs[6] && r[o + 7] == bs[7];
    }
  }

  lemma CountKept(meta: seq<byte>, r: seq<byte>)
    requires |meta| == |r| == LOG_META_DATA_LENGTH && forall k :: 24 <= k < 28 ==> r[k] == meta[k]
    ensures ActiveTermCount(r) == ActiveTermCount(meta)
  {}

  lemma CountStored(meta: seq<byte>, n: int)
    requires |meta| == LOG_META_DATA_LENGTH && IsI32(n)
    ensures Tails(Splice(meta, ACTIVE_TERM_COUNT_OFFSET, EncI32(n))) == Tails(meta)
    ensures ActiveTermCount(Splice(meta, ACTIVE_TERM_COUNT_OFFSET, EncI32(n))) == n
  {
    hide EncI32, High, Low, Signed32, Word;
    var r := Splice(meta, ACTIVE_TERM_COUNT_OFFSET, EncI32(n));
    var bs := EncI32(n);
    assert r[24] == bs[0] && r[25] == bs[1] && r[26] == bs[2] && r[27] == bs[3];
  }
}
