/** Stream positions: term count and offset folded into one number. */
module Positions {
  import opened Bits

  /** The number of trailing zero bits of a term length. */
  function PositionBitsToShift(termLength: nat): (k: nat)
    requires termLength > 0
  {
    if termLength % 2 == 1 then 0 else 1 + PositionBitsToShift(termLength / 2)
  }

  // (term count << bits) + offset
  function ComputePosition(activeTermId: int, termOffset: int, bits: nat, initialTermId: int): int {
    (activeTermId - initialTermId) * Pow2(bits) + termOffset
  }

  // position >> bits, and position & (term length - 1)
  function BlockedTermCount(position: nat, bits: nat): nat {
    Quotient(position, Pow2(bits))
  }

  function Quotient(n: nat, d: nat): nat
    requires d > 0
  {
    n / d
  }

  function BlockedOffset(position: nat, termLength: nat): nat
    requires IsPowerOfTwo(termLength)
  {
    And(position, termLength - 1)
  }

  lemma {:induction false} ShiftIsLength(termLength: nat)
    requires IsPowerOfTwo(termLength)
    ensures Pow2(PositionBitsToShift(termLength)) == termLength
  {
    if termLength > 1 {
      ShiftIsLength(termLength / 2);
    }
  }

  /** Shift and mask take a computed position apart again, for every power-of-two length. */
  lemma DecomposesPosition(termLength: nat, initialTermId: int, termCount: nat, termOffset: nat)
    requires IsPowerOfTwo(termLength) && termOffset < termLength
    ensures var bits := PositionBitsToShift(termLength);
            var position := ComputePosition(initialTermId + termCount, termOffset, bits, initialTermId);
            position >= 0 && BlockedTermCount(position, bits) == termCount
            && BlockedOffset(position, termLength) == termOffset
  {
    hide And, Pow2, IsPowerOfTwo, PositionBitsToShift;
    ShiftIsLength(termLength);
    MaskIsRemainder(termLength * termCount + termOffset, termLength);
    DivModUnique(termLength * termCount + termOffset, termLength, termCount, termOffset);
  }

  /** And every position is the one computed from its two parts. */
  lemma RecomposesPosition(termLength: nat, initialTermId: int, position: nat)
    requires IsPowerOfTwo(termLength)
    ensures var bits := PositionBitsToShift(termLength);
            && BlockedOffset(position, termLength) < termLength
            && ComputePosition(initialTermId + BlockedTermCount(position, bits), BlockedOffset(position, termLength),
                bits, initialTermId)
               == position
  {
    hide And, Pow2, IsPowerOfTwo;
    ShiftIsLength(termLength);
    MaskIsRemainder(position, termLength);
    var q, r := position / termLength, position % termLength;
    assert position == q * termLength + r;
  }

  /** Positions are ordered as (term count, offset) pairs are. */
  lemma PositionsOrdered(termLength: nat, initial: int, c1: nat, o1: nat, c2: nat, o2: nat)
    requires IsPowerOfTwo(termLength) && o1 < termLength && o2 < termLength
    ensures var bits := PositionBitsToShift(termLength);
            var less :=
              ComputePosition(initial + c1, o1, bits, initial) < ComputePosition(initial + c2, o2, bits, initial);
            less <==> c1 < c2 || (c1 == c2 && o1 < o2)
  {
    ShiftIsLength(termLength);
    if c1 < c2 { StepDominates(termLength, c1, c2); }
    if c2 < c1 { StepDominates(termLength, c2, c1); }
  }

  /** The end of one term is the start of the next. */
  lemma PositionsContinue(termLength: nat, initial: int, c: nat)
    requires IsPowerOfTwo(termLength)
    ensures var bits := PositionBitsToShift(termLength);
            ComputePosition(initial + c, termLength, bits, initial) ==
                ComputePosition(initial + c + 1, 0, bits, initial)
  {
    ShiftIsLength(termLength);
  }
}
