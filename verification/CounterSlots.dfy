/** The counter slots: a metadata record and a value per counter, and the table they stand for. */
module CounterSlots {
  import opened Bits
  import opened Bytes

  const COUNTER_LENGTH := 8
  const METADATA_KEY_OFFSET := 12
  const FREE := 0
  const NOT_FREE := -1

  datatype Entry = Entry(typeId: int, key: seq<byte>, labelBytes: seq<byte>, value: int)

  // Where the metadata of a counter starts.
  function Base(id: nat, slotSize: nat): nat {
    id * slotSize
  }

  lemma BasesApart(i: nat, j: nat, slotSize: nat)
    requires i < j
    ensures Base(i, slotSize) + slotSize <= Base(j, slotSize)
  {
    StepDominates(slotSize, i, j);
  }

  lemma BaseInside(id: nat, max: nat, slotSize: nat, length: nat)
    requires id < max && Base(max, slotSize) <= length
    ensures Base(id, slotSize) + slotSize <= length
  {
    hide Base;
    BasesApart(id, max, slotSize);
  }

  /** The slot at offset o holds entry e, its value aside. */
  ghost predicate Holds(meta: seq<byte>, o: nat, slotSize: nat, e: Entry) {
    && slotSize >= METADATA_KEY_OFFSET && o + slotSize <= |meta|
    && METADATA_KEY_OFFSET + |e.key| + |e.labelBytes| <= slotSize
    && I32At(meta, o) == e.typeId && I32At(meta, o + 4) == |e.key| && I32At(meta, o + 8) == |e.labelBytes|
    && meta[o + 12..o + 12 + |e.key|] == e.key
    && meta[o + 12 + |e.key|..o + 12 + |e.key| + |e.labelBytes|] == e.labelBytes
  }

  // The lengths in a slot, free or not, stay inside it.
  predicate LengthsFit(meta: seq<byte>, o: nat, slotSize: nat) {
    && slotSize >= METADATA_KEY_OFFSET && o + slotSize <= |meta|
    && I32At(meta, o + 4) >= 0 && I32At(meta, o + 8) >= 0
    && METADATA_KEY_OFFSET + I32At(meta, o + 4) + I32At(meta, o + 8) <= slotSize
  }

  /** The metadata after `allocate` has written a slot: lengths and bytes first, the type last. */
  function Filled(meta: seq<byte>, o: nat, e: Entry): (r: seq<byte>)
    requires o + METADATA_KEY_OFFSET + |e.key| + |e.labelBytes| <= |meta| && IsI32(e.typeId)
    requires METADATA_KEY_OFFSET + |e.key| + |e.labelBytes| < TWO_31
    ensures |r| == |meta|
  {
    var m1 := Splice(meta, o + 4, EncI32(|e.key|));
    var m2 := Splice(m1, o + 12, e.key);
    var m3 := Splice(m2, o + 8, EncI32(|e.labelBytes|));
    var m4 := Splice(m3, o + 12 + |e.key|, e.labelBytes);
    Splice(m4, o, EncI32(e.typeId))
  }

  lemma FilledParts(meta: seq<byte>, o: nat, e: Entry)
    requires o + METADATA_KEY_OFFSET + |e.key| + |e.labelBytes| <= |meta| && IsI32(e.typeId)
    requires METADATA_KEY_OFFSET + |e.key| + |e.labelBytes| < TWO_31
    ensures var r, n := Filled(meta, o, e), o + 12 + |e.key|;
            && r[o..o + 4] == EncI32(e.typeId)
            && r[o + 4..o + 8] == EncI32(|e.key|)
            && r[o + 8..o + 12] == EncI32(|e.labelBytes|)
            && r[o + 12..n] == e.key && r[n..n + |e.labelBytes|] == e.labelBytes
            && forall k :: 0 <= k < |meta| && !(o <= k < n + |e.labelBytes|) ==> r[k] == meta[k]
  {
    hide EncI32, Splice;
  }

  lemma FilledHolds(meta: seq<byte>, o: nat, slotSize: nat, e: Entry)
    requires slotSize >= METADATA_KEY_OFFSET && o + slotSize <= |meta| && IsI32(e.typeId)
    requires METADATA_KEY_OFFSET + |e.key| + |e.labelBytes| <= slotSize < TWO_31
    ensures Holds(Filled(meta, o, e), o, slotSize, e) && LengthsFit(Filled(meta, o, e), o, slotSize)
    ensures forall k :: 0 <= k < |meta| && !(o <= k < o + slotSize) ==> Filled(meta, o, e)[k] == meta[k]
  {
    hide EncI32, I32At, Filled;
    FilledParts(meta, o, e);
    var r := Filled(meta, o, e);
    WordIs(r, o, e.typeId);
    WordIs(r, o + 4, |e.key|);
    WordIs(r, o + 8, |e.labelBytes|);
  }

  lemma WordIs(r: seq<byte>, o: nat, v: int)
    requires o + 4 <= |r| && IsI32(v) && r[o..o + 4] == EncI32(v)
    ensures I32At(r, o) == v
  {
    hide EncI32, Signed32;
    var bs := EncI32(v);
    assert r[o] == bs[0] && r[o + 1] == bs[1] && r[o + 2] == bs[2] && r[o + 3] == bs[3];
  }

  lemma HoldsFrame(meta: seq<byte>, meta': seq<byte>, o: nat, slotSize: nat, e: Entry)
    requires |meta'| == |meta| && forall k :: o <= k < o + slotSize && k < |meta| ==> meta'[k] == meta[k]
    requires Holds(meta, o, slotSize, e)
    ensures Holds(meta', o, slotSize, e)
  {
    hide Signed32, Word;
  }

  lemma LengthsFrame(meta: seq<byte>, meta': seq<byte>, o: nat, slotSize: nat)
    requires |meta'| == |meta| && forall k :: o + 4 <= k < o + 12 && k < |meta| ==> meta'[k] == meta[k]
    requires LengthsFit(meta, o, slotSize)
    ensures LengthsFit(meta', o, slotSize)
    ensures o + 4 <= |meta|
  {
    hide Signed32, Word;
  }

  lemma TypeFrame(meta: seq<byte>, meta': seq<byte>, o: nat)
    requires |meta'| == |meta| && o + 4 <= |meta| && forall k :: o <= k < o + 4 ==> meta'[k] == meta[k]
    ensures I32At(meta', o) == I32At(meta, o)
  {}

  // ---- The table ----

  type Table = map<nat, Entry>

  ghost predicate SlotOk(meta: seq<byte>, values: seq<byte>, slotSize: nat, id: nat, table: Table) {
    var o := Base(id, slotSize);
    && LengthsFit(meta, o, slotSize) && 8 * id + 8 <= |values|
    && (id in table <==> I32At(meta, o) != FREE)
    && (id in table ==> Holds(meta, o, slotSize, table[id]) && I64At(values, 8 * id) == table[id].value)
  }

  /** The two buffers stand for the table. */
  ghost predicate Represents(meta: seq<byte>, values: seq<byte>, slotSize: nat, max: nat, table: Table) {
    && METADATA_KEY_OFFSET <= slotSize < TWO_31 && Base(max, slotSize) <= |meta| && 8 * max <= |values|
    && (forall id :: id in table ==> id < max && table[id].typeId != FREE && table[id].typeId != NOT_FREE)
    && forall id: nat :: id < max ==> SlotOk(meta, values, slotSize, id, table)
  }

  lemma SlotFrame(meta: seq<byte>, values: seq<byte>, meta': seq<byte>, values': seq<byte>,
                  slotSize: nat, id: nat, table: Table, table': Table)
    requires SlotOk(meta, values, slotSize, id, table) && |meta'| == |meta| && |values'| == |values|
    requires var o := Base(id, slotSize); forall k :: o <= k < o + slotSize && k < |meta| ==> meta'[k] == meta[k]
    requires forall k :: 8 * id <= k < 8 * id + 8 && k < |values| ==> values'[k] == values[k]
    requires id in table' <==> id in table
    requires id in table ==> table'[id] == table[id]
    ensures SlotOk(meta', values', slotSize, id, table')
  {
    hide Base, Signed32, Word, Holds;
    var o := Base(id, slotSize);
    LengthsFrame(meta, meta', o, slotSize);
    TypeFrame(meta, meta', o);
    if id in table { HoldsFrame(meta, meta', o, slotSize, table[id]); }
    ValueFrame(values, values', 8 * id);
  }

  lemma ValueFrame(values: seq<byte>, values': seq<byte>, o: nat)
    requires |values'| == |values| && o + 8 <= |values| && forall k :: o <= k < o + 8 ==> values'[k] == values[k]
    ensures I64At(values', o) == I64At(values, o)
  {}

  lemma ValueStored(values: seq<byte>, o: nat, v: int)
    requires o + 8 <= |values| && IsI64(v)
    ensures I64At(Splice(values, o, EncI64(v)), o) == v
  {
    hide EncI64, Signed32, Word;
    var bs := EncI64(v);
    var r := Splice(values, o, bs);
    assert r[o] == bs[0] && r[o + 1] == bs[1] && r[o + 2] == bs[2] && r[o + 3] == bs[3];
    assert r[o + 4] == bs[4] && r[o + 5] == bs[5] && r[o + 6] == bs[6] && r[o + 7] == bs[7];
  }

  /** A change inside the slot of one counter leaves every other counter as it is. */
  lemma OthersStand(meta: seq<byte>, values: seq<byte>, meta': seq<byte>, values': seq<byte>,
                    slotSize: nat, max: nat, table: Table, table': Table, id: nat)
    requires Represents(meta, values, slotSize, max, table) && id < max && |meta'| == |meta| && |values'| == |values|
    requires var o := Base(id, slotSize); forall k :: 0 <= k < |meta| && !(o <= k < o + slotSize) ==>
        meta'[k] == meta[k]
    requires forall k :: 0 <= k < |values| && !(8 * id <= k < 8 * id + 8) ==> values'[k] == values[k]
    requires forall j :: j != id ==> (j in table' <==> j in table) && (j in table ==> table'[j] == table[j])
    requires id in table' ==> table'[id].typeId != FREE && table'[id].typeId != NOT_FREE
    requires SlotOk(meta', values', slotSize, id, table')
    ensures Represents(meta', values', slotSize, max, table')
  {
    hide Base, SlotOk;
    forall j: nat | j < max ensures SlotOk(meta', values', slotSize, j, table') {
      if j != id {
        if j < id { BasesApart(j, id, slotSize); } else { BasesApart(id, j, slotSize); }
        SlotFrame(meta, values, meta', values', slotSize, j, table, table');
      }
    }
  }

  lemma AllocateRepresents(meta: seq<byte>, values: seq<byte>, slotSize: nat, max: nat, table: Table, id: nat, e: Entry)
    requires Represents(meta, values, slotSize, max, table) && id < max
    requires IsI32(e.typeId) && e.typeId != FREE && e.typeId != NOT_FREE && e.value == 0
    requires METADATA_KEY_OFFSET + |e.key| + |e.labelBytes| <= slotSize
    ensures Base(id, slotSize) + slotSize <= |meta| && 8 * id + 8 <= |values|
    ensures Represents(Filled(meta, Base(id, slotSize), e), Splice(values, 8 * id, EncI64(0)), slotSize, max,
        table[id := e])
  {
    hide Base, SlotOk, Filled, EncI64, Holds, LengthsFit;
    var o := Base(id, slotSize);
    BaseInside(id, max, slotSize, |meta|);
    FilledHolds(meta, o, slotSize, e);
    ValueStored(values, 8 * id, 0);
    FilledSlot(Filled(meta, o, e), Splice(values, 8 * id, EncI64(0)), slotSize, id, table[id := e]);
    OthersStand(meta, values, Filled(meta, o, e), Splice(values, 8 * id, EncI64(0)), slotSize, max, table,
        table[id := e], id);
  }

  lemma FilledSlot(meta: seq<byte>, values: seq<byte>, slotSize: nat, id: nat, table: Table)
    requires id in table && table[id].typeId != FREE && 8 * id + 8 <= |values|
    requires Holds(meta, Base(id, slotSize), slotSize, table[id]) && LengthsFit(meta, Base(id, slotSize), slotSize)
    requires I64At(values, 8 * id) == table[id].value
    ensures SlotOk(meta, values, slotSize, id, table)
  {
    hide Base;
  }

  function Without(table: Table, id: nat): Table {
    map j | j in table && j != id :: table[j]
  }

  lemma FreeRepresents(meta: seq<byte>, values: seq<byte>, slotSize: nat, max: nat, table: Table, id: nat)
    requires Represents(meta, values, slotSize, max, table) && id < max
    ensures Base(id, slotSize) + slotSize <= |meta| && 8 * id + 8 <= |values|
    ensures Represents(Splice(meta, Base(id, slotSize), EncI32(FREE)), Splice(values, 8 * id, EncI64(0)), slotSize, max,
                       Without(table, id))
  {
    hide Base, EncI64, EncI32, Holds, LengthsFit, Signed32, Word;
    var o := Base(id, slotSize);
    BaseInside(id, max, slotSize, |meta|);
    var meta' := Splice(meta, o, EncI32(FREE));
    assert SlotOk(meta, values, slotSize, id, table);
    LengthsFrame(meta, meta', o, slotSize);
    WordIs(meta', o, FREE);
    OthersStand(meta, values, meta', Splice(values, 8 * id, EncI64(0)), slotSize, max, table, Without(table, id), id);
  }

  // Storing a value changes it in the table, if the counter is there.
  function WithValue(table: Table, id: nat, v: int): Table {
    if id in table then table[id := table[id].(value := v)] else table
  }

  lemma SetRepresents(meta: seq<byte>, values: seq<byte>, slotSize: nat, max: nat, table: Table, id: nat, v: int)
    requires Represents(meta, values, slotSize, max, table) && id < max && IsI64(v)
    ensures 8 * id + 8 <= |values|
    ensures Represents(meta, Splice(values, 8 * id, EncI64(v)), slotSize, max, WithValue(table, id, v))
  {
    hide Base, EncI64, LengthsFit;
    assert SlotOk(meta, values, slotSize, id, table);
    ValueStored(values, 8 * id, v);
    OthersStand(meta, values, meta, Splice(values, 8 * id, EncI64(v)), slotSize, max, table, WithValue(table, id, v),
        id);
  }

  // ---- Listing ----

  /** What `forEach` visits among the first n counters. */
  function Listed(table: Table, n: nat): seq<(nat, int)> {
    if n == 0 then []
    else
      Listed(table, n - 1) + (if n - 1 in table && table[n - 1].typeId > 0 then [(n - 1, table[n - 1].typeId)] else [])
  }

  /** The visits go up in counter id, and each allocated counter with a positive type id is
      visited once, with its type id; nothing else is. */
  lemma {:induction false} ListedExactly(table: Table, n: nat)
    ensures forall i, j :: 0 <= i < j < |Listed(table, n)| ==> Listed(table, n)[i].0 < Listed(table, n)[j].0
    ensures forall id: nat, t: int :: (id, t) in Listed(table, n) <==>
              id < n && id in table && table[id].typeId == t > 0
  {
    if n > 0 {
      ListedExactly(table, n - 1);
      var before := Listed(table, n - 1);
      forall i | 0 <= i < |before| ensures before[i].0 < n - 1 {
        var id, t := before[i].0, before[i].1;
        assert before[i] in before && before[i] == (id, t);
        assert (id, t) in Listed(table, n - 1);
      }
    }
  }

  /** Every allocated counter is visited if and only if no type id is negative: `allocate`
      refuses only 0 and -1, `forEach` skips everything below 1. */
  lemma VisitsAllIffPositive(table: Table, max: nat)
    requires forall id :: id in table ==> id < max && table[id].typeId != FREE
    ensures (forall id :: id in table ==> (id, table[id].typeId) in Listed(table, max))
       <==> (forall id :: id in table ==> table[id].typeId >= 0)
  {
    hide Listed;
    ListedExactly(table, max);
  }

  /** The input that shows it: in an empty table `allocate` gives slot 0 to a counter of type
      -2, and `forEach` then visits nothing. */
  lemma TypeMinusTwoUnseen(meta: seq<byte>, values: seq<byte>, slotSize: nat, max: nat)
    requires Represents(meta, values, slotSize, max, map[]) && max > 0
    ensures |meta| >= 12 && |values| >= 8
    ensures var e := Entry(-2, [], [], 0);
            && Represents(Filled(meta, 0, e), Splice(values, 0, EncI64(0)), slotSize, max, map[0 := e])
            && Listed(map[0 := e], max) == []
  {
    hide SlotOk, Filled, EncI64, Listed, Splice, Represents;
    var none: Table := map[];
    SlotZero(meta, values, slotSize, max, none);
    AllocateRepresents(meta, values, slotSize, max, none, 0, Entry(-2, [], [], 0));
    assert none[0 := Entry(-2, [], [], 0)] == map[0 := Entry(-2, [], [], 0)];
    NoneListed(map[0 := Entry(-2, [], [], 0)], max);
  }

  lemma SlotZero(meta: seq<byte>, values: seq<byte>, slotSize: nat, max: nat, table: Table)
    requires Represents(meta, values, slotSize, max, table) && max > 0
    ensures Base(0, slotSize) == 0 && 12 <= slotSize <= |meta| && |values| >= 8
  {
    hide Base;
    BaseInside(0, max, slotSize, |meta|);
    NoBase(slotSize);
  }

  lemma NoBase(slotSize: nat)
    ensures Base(0, slotSize) == 0
  {}

  lemma {:induction false} NoneListed(table: Table, n: nat)
    requires forall id :: id in table ==> table[id].typeId <= 0
    ensures Listed(table, n) == []
  {
    if n > 0 { NoneListed(table, n - 1); }
  }

  // ---- What the accessors find in a slot, held or free ----

  // The key stored in the slot at o, and the label behind it.
  function KeyAt(meta: seq<byte>, slotSize: nat, o: nat): (key: seq<byte>)
    requires LengthsFit(meta, o, slotSize)
    ensures |key| == I32At(meta, o + 4)
  {
    meta[o + 12..o + 12 + I32At(meta, o + 4)]
  }

  function LabelAt(meta: seq<byte>, slotSize: nat, o: nat): (labelBytes: seq<byte>)
    requires LengthsFit(meta, o, slotSize)
    ensures |labelBytes| == I32At(meta, o + 8)
  {
    var from := o + 12 + I32At(meta, o + 4);
    meta[from..from + I32At(meta, o + 8)]
  }

  // `now` is `was` with its first `room` bytes taken from `bytes`, as far as those go.
  predicate Copied(now: seq<byte>, was: seq<byte>, bytes: seq<byte>, room: int) {
    |now| == |was| && forall k :: 0 <= k < |now| ==> now[k] == if k < room && k < |bytes| then bytes[k] else was[k]
  }
}
