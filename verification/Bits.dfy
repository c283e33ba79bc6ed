/** Powers of two, the bit masks the buffers index with, and alignment. */
module Bits {

  const INT_MAX := 0x7FFF_FFFF

  function Pow2(k: nat): (r: nat)
    ensures r > 0
  {
    if k == 0 then 1 else 2 * Pow2(k - 1)
  }

  predicate IsPowerOfTwo(n: int)
    decreases n
  {
    n > 0 && (n == 1 || (n % 2 == 0 && IsPowerOfTwo(n / 2)))
  }

  // Bitwise conjunction and bit clearing on naturals, bit by bit.
  function And(x: nat, y: nat): nat {
    if x == 0 then 0 else 2 * And(x / 2, y / 2) + (x % 2) * (y % 2)
  }

  function AndNot(x: nat, y: nat): nat {
    if x == 0 then 0 else 2 * AndNot(x / 2, y / 2) + (x % 2) * (1 - y % 2)
  }

  /** The least multiple of `alignment` that is not below `value`. */
  function RoundUp(value: nat, alignment: nat): (r: nat)
    requires alignment > 0
    ensures value <= r < value + alignment
    ensures r % alignment == 0
  {
    var q := (value + alignment - 1) / alignment;
    MultipleHasNoRemainder(q, alignment);
    q * alignment
  }

  lemma MultipleHasNoRemainder(q: nat, a: nat)
    requires a > 0
    ensures (q * a) % a == 0
  {
    assert q * a == a * q + 0;
    DivModUnique(q * a, a, q, 0);
  }

  lemma {:induction false} DivModUnique(n: nat, a: nat, q: nat, r: nat)
    requires a > 0 && n == a * q + r && r < a
    ensures n / a == q && n % a == r
  {
    var q', r' := n / a, n % a;
    assert n == a * q' + r';
    if q > q' {
      StepDominates(a, q', q);
    } else if q < q' {
      StepDominates(a, q, q');
    }
  }

  lemma StepDominates(a: nat, q: nat, q': nat)
    requires q < q'
    ensures a * q + a <= a * q'
  {
    assert a * q' == a * q + a * (q' - q);
    assert a * (q' - q) == a + a * (q' - q - 1);
  }

  lemma {:induction false} PowerOfTwoIsPow2(n: nat) returns (k: nat)
    requires IsPowerOfTwo(n)
    ensures n == Pow2(k)
  {
    if n == 1 {
      k := 0;
    } else {
      var j := PowerOfTwoIsPow2(n / 2);
      k := j + 1;
    }
  }

  lemma {:induction false} Pow2IsPowerOfTwo(k: nat)
    ensures IsPowerOfTwo(Pow2(k))
  {
    if k > 0 {
      Pow2IsPowerOfTwo(k - 1);
    }
  }

  lemma HalfRemainder(x: nat, m: nat)
    requires m > 0
    ensures x % (2 * m) == 2 * ((x / 2) % m) + x % 2
  {
    var h := x / 2;
    var q, r := h / m, h % m;
    assert h == m * q + r;
    assert x == (2 * m) * q + (2 * r + x % 2);
    DivModUnique(x, 2 * m, q, 2 * r + x % 2);
  }

  /** Masking with 2^k - 1 is the remainder modulo 2^k, for every k. */
  lemma {:induction false} AndMask(x: nat, k: nat)
    ensures And(x, Pow2(k) - 1) == x % Pow2(k)
    decreases k
  {
    if k == 0 {
      AndZero(x);
    } else if x != 0 {
      var m := Pow2(k - 1);
      AndMask(x / 2, k - 1);
      HalfRemainder(x, m);
      assert (2 * m - 1) / 2 == m - 1 && (2 * m - 1) % 2 == 1;
    }
  }

  lemma {:induction false} AndZero(x: nat)
    ensures And(x, 0) == 0
  {
    if x != 0 {
      AndZero(x / 2);
    }
  }

  /** Clearing the low k bits subtracts the remainder modulo 2^k. */
  lemma {:induction false} AndNotMask(x: nat, k: nat)
    ensures AndNot(x, Pow2(k) - 1) == x - x % Pow2(k)
    decreases k
  {
    if k == 0 {
      AndNotZero(x);
    } else if x != 0 {
      var m := Pow2(k - 1);
      AndNotMask(x / 2, k - 1);
      HalfRemainder(x, m);
      assert (2 * m - 1) / 2 == m - 1 && (2 * m - 1) % 2 == 1;
    }
  }

  lemma {:induction false} AndNotZero(x: nat)
    ensures AndNot(x, 0) == x
  {
    if x != 0 {
      AndNotZero(x / 2);
    }
  }

  datatype AlignResult = Aligned(value: nat) | InvalidAlignment | Overflow

  /** `align`: rejects an alignment that is no power of two and a result beyond
      the 32-bit range; otherwise the rounded-up value. */
  function Align(value: nat, alignment: int): (r: AlignResult)
    ensures r.InvalidAlignment? <==> !IsPowerOfTwo(alignment)
    ensures r.Overflow? <==> IsPowerOfTwo(alignment) && RoundUp(value, alignment) > INT_MAX
    ensures r.Aligned? ==> r.value == RoundUp(value, alignment)
  {
    if !IsPowerOfTwo(alignment) then InvalidAlignment
    else
      var result := AndNot(value + alignment - 1, alignment - 1);
      AlignedValue(value, alignment);
      if result > INT_MAX then Overflow else Aligned(result)
  }

  lemma AlignedValue(value: nat, a: nat)
    requires IsPowerOfTwo(a)
    ensures AndNot(value + a - 1, a - 1) == RoundUp(value, a)
  {
    var k := PowerOfTwoIsPow2(a);
    var n := value + a - 1;
    AndNotMask(n, k);
    DivisionIdentity(n, a);
  }

  lemma DivisionIdentity(n: nat, a: nat)
    requires a > 0
    ensures n / a * a == n - n % a
  {}

  lemma MaskIsRemainder(position: nat, capacity: nat)
    requires IsPowerOfTwo(capacity)
    ensures And(position, capacity - 1) == position % capacity
  {
    var k := PowerOfTwoIsPow2(capacity);
    AndMask(position, k);
  }
}
