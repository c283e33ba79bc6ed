/** The record format of the message buffers: a data region addressed by
    ever-growing positions, each masked to an index into the region. */
module Records {
  import opened Bits
  import opened Bytes

  const MSG_HEADER_LENGTH := 8
  const PADDING_MSG_TYPE_ID := -1

  datatype Msg = Msg(typeId: int, body: seq<byte>)

  predicate ValidMsg(m: Msg) {
    IsI32(m.typeId) && m.typeId != PADDING_MSG_TYPE_ID && MSG_HEADER_LENGTH + |m.body| < TWO_31
  }

  function RecordLength(m: Msg): nat {
    MSG_HEADER_LENGTH + |m.body|
  }

  /** Space taken by a record and the length word that follows it. */
  function Required(m: Msg): (r: nat)
    ensures RecordLength(m) + 4 <= r < RecordLength(m) + 8
  {
    RoundUp(RecordLength(m) + 4, 4)
  }

  /** The index of a position: its remainder after whole laps of the region. */
  function Ix(p: nat, capacity: nat): (i: nat)
    requires capacity > 0
    ensures i < capacity
    decreases p
  {
    if p < capacity then p else Ix(p - capacity, capacity)
  }

  /** The mask the code applies gives this index. */
  lemma {:induction false} MaskIsIndex(p: nat, capacity: nat)
    requires IsPowerOfTwo(capacity)
    ensures And(p, capacity - 1) == Ix(p, capacity)
  {
    MaskIsRemainder(p, capacity);
    var q := Laps(p, capacity);
    DivModUnique(p, capacity, q, Ix(p, capacity));
  }

  lemma {:induction false} Laps(p: nat, capacity: nat) returns (q: nat)
    requires capacity > 0
    ensures p == capacity * q + Ix(p, capacity)
    decreases p
  {
    if p < capacity {
      q := 0;
    } else {
      var r := Laps(p - capacity, capacity);
      q := r + 1;
      assert capacity * q == capacity * r + capacity;
    }
  }

  /** Dead bytes between position `tail` and the record of `m` claimed there:
      the rest of the region when the record does not fit before its end. */
  function Padding(capacity: nat, tail: nat, m: Msg): (pad: nat)
    requires capacity > 0
  {
    var toEnd := capacity - Ix(tail, capacity);
    if toEnd < RecordLength(m) + 4 then toEnd else 0
  }

  // The byte and the word that a position denotes.
  function At(mem: seq<byte>, p: nat): byte
    requires |mem| > 0
  {
    mem[Ix(p, |mem|)]
  }

  function WordAt(mem: seq<byte>, p: nat): int
    requires |mem| > 0
  {
    Signed32(Word(At(mem, p), At(mem, p + 1), At(mem, p + 2), At(mem, p + 3)))
  }

  ghost predicate BodyAt(mem: seq<byte>, p: nat, body: seq<byte>)
    requires |mem| > 0
  {
    forall k :: 0 <= k < |body| ==> At(mem, p + k) == body[k]
  }

  // The two memories agree on the positions from `lo` up to `hi`.
  ghost predicate Agree(mem: seq<byte>, mem': seq<byte>, lo: nat, hi: nat) {
    |mem| == |mem'| > 0 && forall p :: lo <= p < hi ==> At(mem, p) == At(mem', p)
  }

  // ---- Single accesses to the region, as the steps of the interleaved models make them ----

  function Load(mem: seq<byte>, i: nat): int {
    if i + 4 <= |mem| then I32At(mem, i) else 0
  }

  function Store(mem: seq<byte>, i: nat, bs: seq<byte>): (mem': seq<byte>)
    ensures |mem'| == |mem|
  {
    if i + |bs| <= |mem| then Splice(mem, i, bs) else mem
  }

  function StoreI32(mem: seq<byte>, i: nat, v: int): (mem': seq<byte>)
    ensures |mem'| == |mem|
  {
    if IsI32(v) then Store(mem, i, EncI32(v)) else mem
  }

  // What the handler sees of a record: its type and its body.
  function MessageAt(mem: seq<byte>, i: nat, length: nat): Msg {
    Msg(Load(mem, i + 4), if 8 <= length && i + length <= |mem| then mem[i + 8..i + length] else [])
  }

  // ---- Indices ----

  lemma {:induction false} IndexStep(p: nat, k: nat, capacity: nat)
    requires capacity > 0 && Ix(p, capacity) + k < capacity
    ensures Ix(p + k, capacity) == Ix(p, capacity) + k
    decreases p
  {
    if p >= capacity {
      IndexStep(p - capacity, k, capacity);
    }
  }

  lemma {:induction false} IndexWrap(p: nat, capacity: nat)
    requires capacity > 0
    ensures Ix(p + (capacity - Ix(p, capacity)), capacity) == 0
    decreases p
  {
    if p >= capacity {
      IndexWrap(p - capacity, capacity);
    }
  }

  // Positions closer than the capacity have different indices.
  lemma {:induction false} IndexDistinct(p: nat, q: nat, capacity: nat)
    requires capacity > 0 && p < q < p + capacity
    ensures Ix(p, capacity) != Ix(q, capacity)
    decreases p
  {
    if p >= capacity {
      IndexDistinct(p - capacity, q - capacity, capacity);
    }
  }

  lemma {:induction false} PowerOfTwoDivisible(n: nat)
    requires IsPowerOfTwo(n) && n >= 4
    ensures n % 4 == 0
  {
    assert IsPowerOfTwo(n / 2);
    if n / 2 != 2 {
      assert IsPowerOfTwo(n / 2 / 2);
    }
  }

  lemma {:induction false} IndexAligned(p: nat, capacity: nat)
    requires capacity > 0 && capacity % 4 == 0 && p % 4 == 0
    ensures Ix(p, capacity) % 4 == 0
    ensures Ix(p, capacity) + 4 <= capacity
    decreases p
  {
    if p >= capacity {
      IndexAligned(p - capacity, capacity);
    }
  }

  /** A store of bytes at a position lands there and nowhere else within one
      lap of the region. */
  lemma StoreAt(mem: seq<byte>, p: nat, bs: seq<byte>, lo: nat, hi: nat)
    requires |mem| > 0 && Ix(p, |mem|) + |bs| <= |mem|
    requires lo <= p && p + |bs| <= hi <= lo + |mem|
    ensures var mem' := Splice(mem, Ix(p, |mem|), bs);
            && (forall k :: 0 <= k < |bs| ==> At(mem', p + k) == bs[k])
            && (forall r :: lo <= r < hi && !(p <= r < p + |bs|) ==> At(mem', r) == At(mem, r))
  {
    hide Ix, Splice;
    var cap := |mem|;
    var mem' := Splice(mem, Ix(p, cap), bs);
    forall k | 0 <= k < |bs| ensures At(mem', p + k) == bs[k] {
      IndexStep(p, k, cap);
    }
    forall r | lo <= r < hi && !(p <= r < p + |bs|) ensures At(mem', r) == At(mem, r) {
      StoredElsewhere(p, |bs|, r, cap);
    }
  }

  lemma StoredElsewhere(p: nat, n: nat, r: nat, cap: nat)
    requires cap > 0 && Ix(p, cap) + n <= cap && !(p <= r < p + n) && r < p + cap && p + n <= r + cap
    ensures !(Ix(p, cap) <= Ix(r, cap) < Ix(p, cap) + n)
  {
    hide Ix;
    if Ix(p, cap) <= Ix(r, cap) < Ix(p, cap) + n {
      var k := Ix(r, cap) - Ix(p, cap);
      IndexStep(p, k, cap);
      if r < p + k { IndexDistinct(r, p + k, cap); } else { IndexDistinct(p + k, r, cap); }
    }
  }

  lemma WordIsIndexed(mem: seq<byte>, p: nat)
    requires |mem| > 0 && Ix(p, |mem|) + 4 <= |mem|
    ensures WordAt(mem, p) == I32At(mem, Ix(p, |mem|))
  {
    IndexStep(p, 1, |mem|);
    IndexStep(p, 2, |mem|);
    IndexStep(p, 3, |mem|);
  }

  /** Storing a word at a position makes the position denote that word. */
  lemma StoreWord(mem: seq<byte>, p: nat, v: int, lo: nat, hi: nat)
    requires |mem| > 0 && Ix(p, |mem|) + 4 <= |mem| && IsI32(v)
    requires lo <= p && p + 4 <= hi <= lo + |mem|
    ensures var mem' := Splice(mem, Ix(p, |mem|), EncI32(v));
            && WordAt(mem', p) == v
            && (forall r :: lo <= r < hi && !(p <= r < p + 4) ==> At(mem', r) == At(mem, r))
  {
    StoreAt(mem, p, EncI32(v), lo, hi);
    var mem' := Splice(mem, Ix(p, |mem|), EncI32(v));
    assert At(mem', p + 0) == EncI32(v)[0];
  }

  /** The bytes of a body lying contiguously in the region. */
  lemma BodyIsIndexed(mem: seq<byte>, p: nat, n: nat)
    requires |mem| > 0 && Ix(p, |mem|) + n <= |mem|
    ensures BodyAt(mem, p, mem[Ix(p, |mem|)..Ix(p, |mem|) + n])
  {
    var i := Ix(p, |mem|);
    var body := mem[i..i + n];
    forall k | 0 <= k < n ensures At(mem, p + k) == body[k] {
      IndexStep(p, k, |mem|);
    }
  }

  lemma BodyUnique(mem: seq<byte>, p: nat, body: seq<byte>)
    requires |mem| > 0 && Ix(p, |mem|) + |body| <= |mem| && BodyAt(mem, p, body)
    ensures mem[Ix(p, |mem|)..Ix(p, |mem|) + |body|] == body
  {
    BodyIsIndexed(mem, p, |body|);
    var i := Ix(p, |mem|);
    var got := mem[i..i + |body|];
    forall k | 0 <= k < |body| ensures got[k] == body[k] {
      assert At(mem, p + k) == body[k];
    }
  }
}
