/** The same queue one call at a time, in place. */
module ArrayQueue {
  import opened Bits
  import opened Records
  import opened ArrayQueueSystem

  datatype Result<T> = Ok(value: T) | InvalidArgument | DoesNotFit

  /** The least power of two not below n. */
  function BitCeil(n: nat): (c: nat)
    requires n > 0
    ensures IsPowerOfTwo(c) && n <= c && (n > 1 ==> c < 2 * n)
    ensures forall k: nat :: IsPowerOfTwo(k) && n <= k ==> c <= k
  {
    CeilStep(n);
    if n == 1 then 1 else 2 * BitCeil((n + 1) / 2)
  }

  lemma CeilStep(n: nat)
    requires n > 0
    ensures forall k: nat :: IsPowerOfTwo(k) && n <= k && n > 1 ==>
              k % 2 == 0 && IsPowerOfTwo(k / 2) && (n + 1) / 2 <= k / 2
    ensures forall k: nat :: IsPowerOfTwo(k) ==> IsPowerOfTwo(2 * k)
  {}

  class OneToOneConcurrentArrayQueue<T> {
    const storage: array<Slot<T>>
    const mask: nat
    var head: nat
    var tail: nat
    ghost var contents: seq<T>

    ghost predicate Valid()
      reads this, storage
    {
      && IsPowerOfTwo(storage.Length) && mask == storage.Length - 1
      && head <= tail <= head + storage.Length && |contents| == tail - head
      && forall p: nat :: head <= p < head + storage.Length ==>
           storage[Ix(p, storage.Length)] == if p < tail then Live(contents[p - head]) else Raw
    }

    constructor (capacity: nat)
      requires IsPowerOfTwo(capacity)
      ensures Valid() && contents == [] && storage.Length == capacity && fresh(storage)
    {
      storage := new Slot<T>[capacity](_ => Raw);
      mask := capacity - 1;
      head, tail, contents := 0, 0, [];
    }

    /** The source's constructor on every i32: a capacity that is not positive is refused, any
        other is rounded up to a power of two. Above 2^30 that power is 2^31, which no i32
        holds: the size asked of the allocator is then no size and there is no queue. */
    static method Create(capacity: int) returns (r: Result<OneToOneConcurrentArrayQueue<T>>)
      requires -INT_MAX - 1 <= capacity <= INT_MAX
      ensures r.InvalidArgument? <==> capacity <= 0
      ensures r.DoesNotFit? <==> capacity > 0 && BitCeil(capacity) > INT_MAX
      ensures r.DoesNotFit? <==> capacity > 0x4000_0000
      ensures r.Ok? ==> fresh(r.value) && fresh(r.value.storage) && r.value.Valid() && r.value.contents == []
                        && r.value.storage.Length == BitCeil(capacity) <= INT_MAX
    {
      if capacity <= 0 {
        return InvalidArgument;
      }
      CeilFits(capacity);
      if BitCeil(capacity) > INT_MAX {
        return DoesNotFit;
      }
      var q := new OneToOneConcurrentArrayQueue<T>(BitCeil(capacity));
      return Ok(q);
    }

    method Enqueue(value: T) returns (ok: bool)
      requires Valid()
      modifies this`tail, this`contents, storage
      ensures Valid() && (ok <==> |old(contents)| < storage.Length)
      ensures contents == if ok then old(contents) + [value] else old(contents)
    {
      hide IsPowerOfTwo, And, Ix;
      if tail - head >= storage.Length {
        return false;
      }
      MaskIsIndex(tail, storage.Length);
      ghost var before := storage[..];
      storage[And(tail, mask)] := Live(value);
      forall p: nat | head <= p < head + storage.Length && p != tail
        ensures storage[Ix(p, storage.Length)] == before[Ix(p, storage.Length)]
      {
        OtherSlots(before, tail, Live(value), p);
      }
      tail, contents := tail + 1, contents + [value];
      return true;
    }

    method TryDequeue(leftover: T) returns (ok: bool, out: T)
      requires Valid()
      modifies this`head, this`contents, storage
      ensures Valid() && (ok <==> old(contents) != [])
      ensures if ok then out == old(contents)[0] && contents == old(contents)[1..] else contents == old(contents)
    {
      hide IsPowerOfTwo, And;
      if head == tail {
        return false, leftover;
      }
      MaskIsIndex(head, storage.Length);
      ghost var before := storage[..];
      var i := And(head, mask);
      out := storage[i].value;
      storage[i] := Raw;
      forall p: nat | head < p < head + storage.Length
        ensures storage[Ix(p, storage.Length)] == before[Ix(p, storage.Length)]
      {
        OtherSlots(before, head, Raw, p);
      }
      head, contents := head + 1, contents[1..];
      return true, out;
    }

    /** The destructor destroys exactly the objects between head and tail, each once. */
    method Destroy()
      requires Valid()
      modifies storage
      ensures forall i :: 0 <= i < storage.Length ==> storage[i].Raw?
    {
      hide IsPowerOfTwo, And, Ix;
      var i := head;
      while i < tail
        invariant head <= i <= tail
        invariant forall p: nat :: head <= p < head + storage.Length ==>
          storage[Ix(p, storage.Length)] == if i <= p < tail then Live(contents[p - head]) else Raw
      {
        MaskIsIndex(i, storage.Length);
        ghost var before := storage[..];
        assert storage[Ix(i, storage.Length)].Live?;
        storage[And(i, mask)] := Raw;
        forall p: nat | head <= p < head + storage.Length && p != i
          ensures storage[Ix(p, storage.Length)] == before[Ix(p, storage.Length)]
        {
          OtherSlots(before, i, Raw, p);
        }
        i := i + 1;
      }
      forall k | 0 <= k < storage.Length ensures storage[k].Raw? {
        var p := PositionOf(k, head, storage.Length);
        assert storage[Ix(p, storage.Length)].Raw?;
      }
    }
  }

  lemma CeilFits(capacity: nat)
    requires 0 < capacity <= INT_MAX
    ensures BitCeil(capacity) <= INT_MAX <==> capacity <= 0x4000_0000
  {
    hide Pow2, IsPowerOfTwo, BitCeil;
    LargePowers();
    Pow2IsPowerOfTwo(30);
    NoPowerBetween(BitCeil(capacity), 30);
  }

  lemma LargePowers()
    ensures Pow2(30) == 0x4000_0000 && Pow2(31) == 0x8000_0000
  {
    hide Pow2;
    ThirtyTwoTimes(0);
    ThirtyTwoTimes(5);
    ThirtyTwoTimes(10);
    ThirtyTwoTimes(15);
    ThirtyTwoTimes(20);
    ThirtyTwoTimes(25);
  }

  lemma ThirtyTwoTimes(k: nat)
    ensures Pow2(k + 5) == 32 * Pow2(k) && Pow2(k + 6) == 64 * Pow2(k) && Pow2(0) == 1
  {
    assert Pow2(k + 6) == 2 * Pow2(k + 5) == 4 * Pow2(k + 4);
    assert Pow2(k + 3) == 2 * Pow2(k + 2);
    assert Pow2(k + 1) == 2 * Pow2(k);
  }

  // No power of two lies strictly between two neighbours.
  lemma {:induction false} NoPowerBetween(c: nat, k: nat)
    requires IsPowerOfTwo(c)
    ensures !(Pow2(k) < c < Pow2(k + 1))
    decreases k
  {
    if k > 0 && c > 1 { NoPowerBetween(c / 2, k - 1); }
  }

  // Every slot is that of some index within one lap of the head.
  lemma {:induction false} PositionOf(k: nat, head: nat, capacity: nat) returns (p: nat)
    requires k < capacity
    ensures head <= p < head + capacity && Ix(p, capacity) == k
    decreases head
  {
    if head < capacity {
      p := if k >= head then k else k + capacity;
    } else {
      var q := PositionOf(k, head - capacity, capacity);
      p := q + capacity;
    }
  }
}
