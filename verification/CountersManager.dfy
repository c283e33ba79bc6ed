/** `CountersManager`, one call at a time. */
module CountersManager {
  import opened Bits
  import opened Bytes
  import opened CounterSlots

  datatype Allocation = Allocated(id: nat) | InvalidTypeId | NegativeLength | DoesNotFit | NoFreeSlot

  datatype CreateResult = Created(manager: Manager) | Rejected

  datatype Lookup<T> = Found(value: T) | OutOfRange

  class Manager {
    const metadata: array<byte>
    const values: array<byte>
    const slotSize: nat
    const maxCounterId: nat
    ghost var table: Table

    ghost predicate Valid()
      reads this, metadata, values
    {
      metadata != values && Represents(metadata[..], values[..], slotSize, maxCounterId, table)
    }

    // Over zeroed buffers of matching size.
    constructor (metadata: array<byte>, values: array<byte>, slotSize: nat)
      requires metadata != values && METADATA_KEY_OFFSET <= slotSize < TWO_31
      requires values.Length / COUNTER_LENGTH == metadata.Length / slotSize
      requires (forall k :: 0 <= k < metadata.Length ==> metadata[k] == 0)
      ensures Valid() && table == map[] && maxCounterId == values.Length / COUNTER_LENGTH
      ensures this.metadata == metadata && this.values == values && this.slotSize == slotSize
    {
      this.metadata, this.values, this.slotSize := metadata, values, slotSize;
      maxCounterId := values.Length / COUNTER_LENGTH;
      table := map[];
      new;
      ZeroedRepresents(metadata[..], values[..], slotSize, maxCounterId);
    }

    /** The source's checks: a slot must hold the fixed fields and the two buffers the same
        number of counters. */
    static method Create(metadata: array<byte>, values: array<byte>, slotSize: int) returns (r: CreateResult)
      requires metadata != values && slotSize <= INT_MAX
      requires forall k :: 0 <= k < metadata.Length ==> metadata[k] == 0
      ensures r.Rejected? <==>
              slotSize < METADATA_KEY_OFFSET || values.Length / COUNTER_LENGTH != metadata.Length / slotSize
      ensures r.Created? ==> fresh(r.manager) && r.manager.Valid() && r.manager.table == map[]
                             && r.manager.maxCounterId == values.Length / COUNTER_LENGTH
    {
      if slotSize < METADATA_KEY_OFFSET {
        return Rejected;
      }
      if values.Length / COUNTER_LENGTH != metadata.Length / slotSize {
        return Rejected;
      }
      var manager := new Manager(metadata, values, slotSize);
      return Created(manager);
    }

    /** The lowest free id is claimed, whatever holds ids above it; only a full table has none. */
    method Allocate(typeId: int, key: seq<byte>, keyLength: int, labelBytes: seq<byte>, labelLength: int)
      returns (r: Allocation)
      requires Valid() && IsI32(typeId) && keyLength <= |key| && labelLength <= |labelBytes|
      requires METADATA_KEY_OFFSET + keyLength + labelLength <= INT_MAX
      modifies this`table, metadata, values
      ensures Valid()
      ensures r.InvalidTypeId? <==> typeId == FREE || typeId == NOT_FREE
      ensures r.NegativeLength? <==> typeId != FREE && typeId != NOT_FREE && (keyLength < 0 || labelLength < 0)
      ensures r.DoesNotFit? <==> typeId != FREE && typeId != NOT_FREE && keyLength >= 0 && labelLength >= 0
                                 && METADATA_KEY_OFFSET + keyLength + labelLength > slotSize
      ensures r.NoFreeSlot? ==> forall id: nat :: id < maxCounterId ==> id in old(table)
      ensures r.Allocated? ==>
                && r.id < maxCounterId && r.id !in old(table)
                && (forall j: nat :: j < r.id ==> j in old(table))
                && keyLength >= 0 && labelLength >= 0
                && table == old(table)[r.id := Entry(typeId, key[..keyLength], labelBytes[..labelLength], 0)]
      ensures !r.Allocated? ==>
              table == old(table) && metadata[..] == old(metadata[..]) && values[..] == old(values[..])
    {
      hide Represents, GetI32, GetI64, EncI32, EncI64, Base;
      if typeId == FREE || typeId == NOT_FREE {
        return InvalidTypeId;
      }
      if keyLength < 0 || labelLength < 0 {
        return NegativeLength;
      }
      if METADATA_KEY_OFFSET + keyLength + labelLength > slotSize {
        return DoesNotFit;
      }
      var found, counterId := FindFreeCounterId();
      if !found {
        return NoFreeSlot;
      }
      ghost var e := Entry(typeId, key[..keyLength], labelBytes[..labelLength], 0);
      AllocateRepresents(metadata[..], values[..], slotSize, maxCounterId, table, counterId, e);
      WriteSlot(Base(counterId, slotSize), typeId, key, keyLength, labelBytes, labelLength);
      PutI64(values, counterId * COUNTER_LENGTH, 0);
      table := table[counterId := e];
      return Allocated(counterId);
    }

    // The compare-and-set of FREE by NOT_FREE succeeds when no one else allocates; the word
    // is overwritten with the type id before the call returns.
    method FindFreeCounterId() returns (found: bool, id: nat)
      requires Valid()
      ensures if found then id < maxCounterId && id !in table && forall j: nat :: j < id ==> j in table
              else forall j: nat :: j < maxCounterId ==> j in table
    {
      hide Represents, GetI32, GetI64, Base;
      id := 0;
      while id < maxCounterId
        invariant id <= maxCounterId && forall j: nat :: j < id ==> j in table
      {
        SlotReadable(metadata[..], values[..], slotSize, maxCounterId, table, id);
        if GetI32(metadata, Base(id, slotSize)) == FREE {
          return true, id;
        }
        id := id + 1;
      }
      return false, id;
    }

    method WriteSlot(o: nat, typeId: int, key: seq<byte>, keyLength: nat, labelBytes: seq<byte>, labelLength: nat)
      requires metadata != values && keyLength <= |key| && labelLength <= |labelBytes| && IsI32(typeId)
      requires METADATA_KEY_OFFSET + keyLength + labelLength < TWO_31
      requires o + METADATA_KEY_OFFSET + keyLength + labelLength <= metadata.Length
      modifies metadata
      ensures metadata[..] ==
          Filled(old(metadata[..]), o, Entry(typeId, key[..keyLength], labelBytes[..labelLength], 0))
    {
      hide EncI32, Splice;
      PutI32(metadata, o + 4, keyLength);
      PutBytes(metadata, o + METADATA_KEY_OFFSET, key[..keyLength]);
      PutI32(metadata, o + 8, labelLength);
      PutBytes(metadata, o + METADATA_KEY_OFFSET + keyLength, labelBytes[..labelLength]);
      PutI32(metadata, o, typeId);
    }

    /** FREE is stored before the value is zeroed. */
    method Free(counterId: int) returns (ok: bool)
      requires Valid()
      modifies this`table, metadata, values
      ensures Valid() && (ok <==> 0 <= counterId < maxCounterId)
      ensures if ok then table == Without(old(table), counterId) && I64At(values[..], 8 * counterId) == 0
              else table == old(table) && metadata[..] == old(metadata[..]) && values[..] == old(values[..])
    {
      hide Represents, GetI32, GetI64, EncI32, EncI64, Base;
      if counterId < 0 || counterId >= maxCounterId {
        return false;
      }
      FreeRepresents(metadata[..], values[..], slotSize, maxCounterId, table, counterId);
      PutI32(metadata, Base(counterId, slotSize), FREE);
      ValueStored(values[..], counterId * COUNTER_LENGTH, 0);
      PutI64(values, counterId * COUNTER_LENGTH, 0);
      table := Without(table, counterId);
      return true;
    }

    method SetCounterValue(counterId: int, value: int) returns (ok: bool)
      requires Valid() && IsI64(value)
      modifies this`table, values
      ensures Valid() && (ok <==> 0 <= counterId < maxCounterId)
      ensures table == if ok then WithValue(old(table), counterId, value) else old(table)
    {
      hide Represents, GetI32, GetI64, EncI64;
      if counterId < 0 || counterId >= maxCounterId {
        return false;
      }
      SetRepresents(metadata[..], values[..], slotSize, maxCounterId, table, counterId, value);
      PutI64(values, counterId * COUNTER_LENGTH, value);
      table := WithValue(table, counterId, value);
      return true;
    }

    method GetCounterValue(counterId: int) returns (r: Lookup<int>)
      requires Valid()
      ensures r.OutOfRange? <==> !(0 <= counterId < maxCounterId)
      ensures r.Found? ==> 8 * counterId + 8 <= values.Length && r.value == I64At(values[..], 8 * counterId)
      ensures r.Found? && counterId in table ==> r.value == table[counterId].value
    {
      hide Represents, GetI32, GetI64;
      if counterId < 0 || counterId >= maxCounterId {
        return OutOfRange;
      }
      SlotReadable(metadata[..], values[..], slotSize, maxCounterId, table, counterId);
      return Found(GetI64(values, counterId * COUNTER_LENGTH));
    }

    method GetTypeId(counterId: int) returns (r: Lookup<int>)
      requires Valid()
      ensures r.OutOfRange? <==> !(0 <= counterId < maxCounterId)
      ensures r.Found? ==> r.value == if counterId in table then table[counterId].typeId else FREE
    {
      hide Represents, GetI32, GetI64, Base;
      if counterId < 0 || counterId >= maxCounterId {
        return OutOfRange;
      }
      SlotReadable(metadata[..], values[..], slotSize, maxCounterId, table, counterId);
      return Found(GetI32(metadata, Base(counterId, slotSize)));
    }

    // The lesser of `length` and `dstLength` bytes of metadata from offset `from`.
    method CopyOut(from: nat, length: nat, dst: array<byte>, dstLength: int)
      requires dst != metadata && dstLength <= dst.Length && from + length <= metadata.Length
      modifies dst
      ensures Copied(dst[..], old(dst[..]), metadata[..][from..from + length], dstLength)
    {
      hide Splice;
      ghost var bytes, was := metadata[..][from..from + length], dst[..];
      var copyLength := if length < dstLength then length else dstLength;
      if copyLength > 0 {
        assert metadata[from..from + copyLength] == bytes[..copyLength];
        PutBytes(dst, 0, metadata[from..from + copyLength]);
        SpliceCopies(was, bytes, dstLength, copyLength);
      }
    }

    /** At most `dstLength` bytes of the key in the slot are copied, and its whole length is
        returned; the key is the table's when the counter is there, and what the last holder
        of the slot left when it is free. */
    method GetKey(counterId: int, dst: array<byte>, dstLength: int) returns (r: Lookup<int>)
      requires Valid() && dst != metadata && dst != values && dstLength <= dst.Length
      modifies dst
      ensures r.OutOfRange? <==> !(0 <= counterId < maxCounterId)
      ensures r.OutOfRange? ==> dst[..] == old(dst[..])
      ensures r.Found? ==>
                && LengthsFit(metadata[..], Base(counterId, slotSize), slotSize)
                && var key := KeyAt(metadata[..], slotSize, Base(counterId, slotSize));
                   && (counterId in table ==> key == table[counterId].key)
                   && r.value == |key| && Copied(dst[..], old(dst[..]), key, dstLength)
    {
      hide Represents, GetI32, GetI64, Base, I32At, Copied, LengthsFit;
      if counterId < 0 || counterId >= maxCounterId {
        return OutOfRange;
      }
      SlotTexts(metadata[..], values[..], slotSize, maxCounterId, table, counterId);
      var o := Base(counterId, slotSize);
      TextsInside(metadata[..], slotSize, o);
      var keyLength := GetI32(metadata, o + 4);
      CopyOut(o + METADATA_KEY_OFFSET, keyLength, dst, dstLength);
      return Found(keyLength);
    }

    /** The same for the label, which lies behind the key. */
    method GetLabel(counterId: int, dst: array<byte>, dstLength: int) returns (r: Lookup<int>)
      requires Valid() && dst != metadata && dst != values && dstLength <= dst.Length
      modifies dst
      ensures r.OutOfRange? <==> !(0 <= counterId < maxCounterId)
      ensures r.OutOfRange? ==> dst[..] == old(dst[..])
      ensures r.Found? ==>
                && LengthsFit(metadata[..], Base(counterId, slotSize), slotSize)
                && var labelBytes := LabelAt(metadata[..], slotSize, Base(counterId, slotSize));
                   && (counterId in table ==> labelBytes == table[counterId].labelBytes)
                   && r.value == |labelBytes| && Copied(dst[..], old(dst[..]), labelBytes, dstLength)
    {
      hide Represents, GetI32, GetI64, Base, I32At, Copied, LengthsFit;
      if counterId < 0 || counterId >= maxCounterId {
        return OutOfRange;
      }
      SlotTexts(metadata[..], values[..], slotSize, maxCounterId, table, counterId);
      var o := Base(counterId, slotSize);
      TextsInside(metadata[..], slotSize, o);
      var keyLength := GetI32(metadata, o + 4);
      var labelLength := GetI32(metadata, o + 8);
      CopyOut(o + METADATA_KEY_OFFSET + keyLength, labelLength, dst, dstLength);
      return Found(labelLength);
    }

    /** The handler calls, in order. */
    method ForEach() returns (visits: seq<(nat, int)>)
      requires Valid()
      ensures visits == Listed(table, maxCounterId)
    {
      hide Represents, GetI32, GetI64, Base, I32At;
      visits := [];
      for i := 0 to maxCounterId
        invariant visits == Listed(table, i)
      {
        SlotReadable(metadata[..], values[..], slotSize, maxCounterId, table, i);
        var typeId := GetI32(metadata, Base(i, slotSize));
        if typeId > 0 {
          visits := visits + [(i, typeId)];
        }
      }
    }
  }

  lemma SpliceCopies(was: seq<byte>, bytes: seq<byte>, room: int, n: nat)
    requires n <= |was| && n == if |bytes| < room then |bytes| else room
    ensures Copied(Splice(was, 0, bytes[..n]), was, bytes, room)
  {}

  // What the accessors read from a slot.
  lemma SlotReadable(meta: seq<byte>, values: seq<byte>, slotSize: nat, max: nat, table: Table, id: nat)
    requires Represents(meta, values, slotSize, max, table) && id < max
    ensures Base(id, slotSize) + slotSize <= |meta| && 12 <= slotSize && 8 * id + 8 <= |values|
    ensures if id in table then I32At(meta, Base(id, slotSize)) == table[id].typeId != FREE
        else I32At(meta, Base(id, slotSize)) == FREE
    ensures id in table ==> I64At(values, 8 * id) == table[id].value
  {
    hide Base, I32At, I64At;
    assert SlotOk(meta, values, slotSize, id, table);
  }

  lemma SlotTexts(meta: seq<byte>, values: seq<byte>, slotSize: nat, max: nat, table: Table, id: nat)
    requires Represents(meta, values, slotSize, max, table) && id < max
    ensures LengthsFit(meta, Base(id, slotSize), slotSize)
    ensures id in table ==> KeyAt(meta, slotSize, Base(id, slotSize)) == table[id].key
    ensures id in table ==> LabelAt(meta, slotSize, Base(id, slotSize)) == table[id].labelBytes
  {
    hide Base, I32At, I64At;
    assert SlotOk(meta, values, slotSize, id, table);
  }

  lemma TextsInside(meta: seq<byte>, slotSize: nat, o: nat)
    requires LengthsFit(meta, o, slotSize)
    ensures o + 12 <= |meta|
    ensures var n, l := I32At(meta, o + 4), I32At(meta, o + 8); 0 <= n && 0 <= l && o + 12 + n + l <= |meta|
  {}

  lemma ZeroedRepresents(meta: seq<byte>, values: seq<byte>, slotSize: nat, max: nat)
    requires METADATA_KEY_OFFSET <= slotSize < TWO_31 && max == |values| / 8 == |meta| / slotSize
    requires forall k :: 0 <= k < |meta| ==> meta[k] == 0
    ensures Represents(meta, values, slotSize, max, map[])
  {
    hide Base, SlotOk;
    WholeSlots(|meta|, slotSize);
    forall id: nat | id < max ensures SlotOk(meta, values, slotSize, id, map[]) {
      BaseInside(id, max, slotSize, |meta|);
      ZeroedSlot(meta, values, slotSize, id);
    }
  }

  lemma ZeroedSlot(meta: seq<byte>, values: seq<byte>, slotSize: nat, id: nat)
    requires METADATA_KEY_OFFSET <= slotSize && Base(id, slotSize) + slotSize <= |meta| && 8 * id + 8 <= |values|
    requires forall k :: 0 <= k < |meta| ==> meta[k] == 0
    ensures SlotOk(meta, values, slotSize, id, map[])
  {
    hide Base, I32At, I64At, Holds;
    var o := Base(id, slotSize);
    ZeroI32(meta, o);
    ZeroI32(meta, o + 4);
    ZeroI32(meta, o + 8);
  }

  lemma WholeSlots(length: nat, slotSize: nat)
    requires slotSize > 0
    ensures Base(length / slotSize, slotSize) <= length
  {}
}
