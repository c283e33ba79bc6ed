/** The broadcast transmitter and receiver used one call at a time. */
module BroadcastBuffer {
  import opened Bits
  import opened Bytes
  import opened Records
  import opened RecordLayout

  const HEADER_LENGTH := 64

  datatype CreateResult = Created(buffer: SharedBuffer) | Rejected

  datatype TransmitResult = Transmitted | InsufficientSpace | InvalidArgument

  // The memory the two sides share: the data region, the two counters of its header
  // and, as history, the messages transmitted.
  class SharedBuffer {
    const data: array<byte>
    var head: nat
    var tail: nat
    ghost var sent: seq<Msg>

    constructor (capacity: nat)
      requires IsPowerOfTwo(capacity) && capacity < TWO_31
      ensures fresh(data) && data.Length == capacity && head == tail == 0 && sent == []
    {
      data := new byte[capacity](_ => 0);
      head, tail, sent := 0, 0, [];
    }

    /** The checks both constructors make: the bytes beyond the header must be a positive
        power of two. */
    static method Create(bufferCapacity: int) returns (r: CreateResult)
      requires IsI32(bufferCapacity)
      ensures r.Created? <==> IsPowerOfTwo(bufferCapacity - HEADER_LENGTH)
      ensures r.Created? ==>
                && fresh(r.buffer) && fresh(r.buffer.data) && r.buffer.data.Length == bufferCapacity - HEADER_LENGTH
                && r.buffer.head == r.buffer.tail == 0 && r.buffer.sent == []
    {
      var capacity := bufferCapacity - HEADER_LENGTH;
      if capacity <= 0 || !IsPowerOfTwo(capacity) {
        return Rejected;
      }
      var buffer := new SharedBuffer(capacity);
      return Created(buffer);
    }
  }

  // The counters bound a region that holds `unread` from the receiver's cursor on.
  ghost predicate Linked(mem: seq<byte>, head: nat, tail: nat, cursor: nat, unread: seq<Msg>) {
    var capacity := |mem|;
    && IsPowerOfTwo(capacity) && capacity < TWO_31 && (capacity >= 4 ==> capacity % 4 == 0)
    && tail % 4 == 0 && cursor % 4 == 0
    && head <= cursor <= tail <= head + capacity
    && Holds(mem, cursor, tail, unread)
  }

  lemma LinkedBounds(mem: seq<byte>, head: nat, tail: nat, cursor: nat, unread: seq<Msg>)
    requires Linked(mem, head, tail, cursor, unread)
    ensures IsPowerOfTwo(|mem|) && 0 < |mem| < TWO_31 && tail % 4 == 0 && cursor % 4 == 0
    ensures head <= cursor <= tail <= head + |mem| && (|mem| >= 4 ==> |mem| % 4 == 0)
  {}

  // With everything read, whether or not the head follows.
  lemma LinkedDone(mem: seq<byte>, head: nat, tail: nat, cursor: nat, unread: seq<Msg>)
    requires Linked(mem, head, tail, cursor, unread)
    ensures Linked(mem, head, tail, tail, []) && Linked(mem, tail, tail, tail, [])
    ensures head <= tail && Holds(mem, cursor, tail, unread)
  {
    hide IsPowerOfTwo;
  }

  lemma LinkedExtends(mem: seq<byte>, head: nat, tail: nat, cursor: nat, unread: seq<Msg>, m: Msg)
    requires Linked(mem, head, tail, cursor, unread) && ValidMsg(m) && |mem| > 0
    requires Claimed(|mem|, tail, m) <= |mem| - (tail - head)
    ensures |mem| % 4 == 0 && tail % 4 == 0 && |mem| < TWO_31 && Required(m) <= |mem|
    ensures Linked(Stored(mem, tail, m), head, tail + Claimed(|mem|, tail, m), cursor, unread + [m])
  {
    hide Ix, IsPowerOfTwo, Holds, Stored;
    StoredExtends(mem, cursor, tail, unread, m);
  }

  // A receiver that was lapped goes on behind the bytes it lost.
  function ResumeAt(cursor: nat, tail: nat, capacity: nat): (n: nat)
    ensures tail <= cursor + capacity ==> n == cursor
    ensures tail <= n + capacity && n >= cursor
  {
    if tail - cursor > capacity then tail - capacity else cursor
  }

  class BroadcastReceiver {
    const buffer: SharedBuffer
    var cursor: nat
    ghost var received: nat

    // Everything from the cursor on is what was sent and not received.
    ghost predicate Valid()
      reads this, buffer, buffer.data
    {
      && received <= |buffer.sent|
      && Linked(buffer.data[..], buffer.head, buffer.tail, cursor, buffer.sent[received..])
    }

    constructor (buffer: SharedBuffer)
      requires IsPowerOfTwo(buffer.data.Length) && buffer.data.Length < TWO_31
      requires buffer.head == buffer.tail == 0 && buffer.sent == []
      ensures Valid() && this.buffer == buffer && received == 0
    {
      this.buffer := buffer;
      cursor, received := 0, 0;
      new;
      if buffer.data.Length >= 4 { PowerOfTwoDivisible(buffer.data.Length); }
    }

    /** `receive` hands over every message sent and not yet received, in order, and
        gives the space back only when it handled some. */
    method Receive() returns (delivered: seq<Msg>, messagesReceived: nat)
      requires Valid()
      modifies this, buffer`head
      ensures Valid() && cursor == buffer.tail
      ensures delivered == buffer.sent[old(received)..] && received == |buffer.sent|
      ensures messagesReceived == |delivered|
      ensures buffer.head == if delivered == [] then old(buffer.head) else buffer.tail
    {
      hide Ix, At, WordAt, IsPowerOfTwo, Holds, And, Required, Padding, I32At, Pending, AtPad, RoundUp, Linked;
      LinkedBounds(buffer.data[..], buffer.head, buffer.tail, cursor, buffer.sent[received..]);
      LinkedDone(buffer.data[..], buffer.head, buffer.tail, cursor, buffer.sent[received..]);
      var data, tail, nextTail := buffer.data, buffer.tail, cursor;
      // Valid keeps the transmitter within one lap, so this is the receiver's own cursor.
      nextTail := ResumeAt(nextTail, tail, data.Length);
      var mask := data.Length - 1;
      MaskIsIndex(nextTail, data.Length);
      var index := And(nextTail, mask);
      delivered, messagesReceived := [], 0;
      ghost var rest, padGone := buffer.sent[received..], false;
      PendingStarts(data[..], nextTail, tail, rest);

      while nextTail < tail
        invariant cursor == old(cursor) && received == old(received) && buffer.head == old(buffer.head)
        invariant cursor <= nextTail <= tail && nextTail % 4 == 0
        invariant index == Ix(nextTail, data.Length)
        invariant delivered + rest == buffer.sent[received..] && messagesReceived == |delivered|
        invariant Pending(data[..], nextTail, tail, rest, padGone)
        decreases tail - nextTail
      {
        PendingFirst(data[..], nextTail, tail, rest, padGone);
        var recordLength := GetI32(data, index);
        if recordLength == 0 {
          break;
        }
        if recordLength < 0 {
          PendingSkip(data[..], nextTail, tail, rest, padGone);
          nextTail := nextTail - index + data.Length;
          index := 0;
          padGone := true;
        } else {
          // Published records are neither empty nor longer than the region.
          assert 0 < recordLength <= data.Length;
          var m := Msg(GetI32(data, index + 4), data[index + 8..index + recordLength]);
          PendingNext(data[..], nextTail, tail, rest, padGone);
          delivered := delivered + [m];
          nextTail := nextTail + RoundUp(recordLength + 4, 4);
          MaskIsIndex(nextTail, data.Length);
          index := And(nextTail, mask);
          messagesReceived := messagesReceived + 1;
          rest, padGone := rest[1..], false;
        }
      }
      PendingEnds(data[..], nextTail, rest, padGone);
      assert delivered + [] == delivered;
      assert buffer.sent[|buffer.sent|..] == [];
      cursor, received := nextTail, |buffer.sent|;
      if messagesReceived > 0 {
        buffer.head := nextTail;
      }
    }
  }

  class BroadcastTransmitter {
    const buffer: SharedBuffer

    constructor (buffer: SharedBuffer)
      ensures this.buffer == buffer
    {
      this.buffer := buffer;
    }

    /** `transmit` publishes the message, or fails exactly when the arguments are bad
        or its claim, wrap padding included, exceeds the free space. Without a source
        the body is whatever the region held. */
    method Transmit(typeId: int, src: array?<byte>, length: int, ghost receiver: BroadcastReceiver)
      returns (r: TransmitResult, ghost m: Msg)
      requires receiver.buffer == buffer && receiver.Valid()
      requires IsI32(typeId) && length <= INT_MAX - 16
      requires src != null ==> src != buffer.data && length <= src.Length
      modifies buffer`tail, buffer`sent, buffer.data
      ensures receiver.Valid()
      ensures r.InvalidArgument? <==> typeId == PADDING_MSG_TYPE_ID || length < 0
      ensures !r.InvalidArgument? ==>
              m.typeId == typeId && |m.body| == length && (src != null ==> m.body == src[..length])
      ensures !r.InvalidArgument? ==>
        (r.Transmitted? <==> old(buffer.data.Length > 0 &&
           Claimed(buffer.data.Length, buffer.tail, m) <= buffer.data.Length - (buffer.tail - buffer.head)))
      ensures r.Transmitted? ==> buffer.sent == old(buffer.sent) + [m]
      ensures !r.Transmitted? ==>
        buffer.sent == old(buffer.sent) && buffer.tail == old(buffer.tail) && buffer.data[..] == old(buffer.data[..])
    {
      hide Ix, Linked, And, Stored, IsPowerOfTwo, Holds;
      m := Msg(typeId, []);
      if typeId == PADDING_MSG_TYPE_ID || length < 0 {
        return InvalidArgument, m;
      }
      m := Msg(typeId, if src == null then Zeros(length) else src[..length]);
      var data, tail := buffer.data, buffer.tail;
      LinkedBounds(data[..], buffer.head, tail, receiver.cursor, buffer.sent[receiver.received..]);
      var recordLength := MSG_HEADER_LENGTH + length;
      var required := RoundUp(recordLength + 4, 4);
      MaskIsIndex(tail, data.Length);
      var tailIndex := And(tail, data.Length - 1);
      var toBufferEnd := data.Length - tailIndex;
      var available := data.Length - (tail - buffer.head);
      var wraps := toBufferEnd < recordLength + 4;
      var claim := if wraps then toBufferEnd + required else required;
      if claim > available {
        return InsufficientSpace, m;
      }
      ghost var before := data[..];
      m := PutMessage(tail, tailIndex, wraps, typeId, src, length);
      LinkedExtends(before, buffer.head, tail, receiver.cursor, buffer.sent[receiver.received..], m);
      assert (buffer.sent + [m])[receiver.received..] == buffer.sent[receiver.received..] + [m];
      buffer.tail := tail + claim;
      buffer.sent := buffer.sent + [m];
      return Transmitted, m;
    }

    // The stores of a transmission: the padding record where it wraps, then the record.
    method PutMessage(tail: nat, tailIndex: nat, wraps: bool, typeId: int, src: array?<byte>, length: nat)
      returns (ghost m: Msg)
      requires var capacity := buffer.data.Length;
        && 0 < capacity < TWO_31 && capacity % 4 == 0 && tail % 4 == 0 && tailIndex == Ix(tail, capacity)
        && wraps == (capacity - tailIndex < 12 + length)
        && RoundUp(12 + length, 4) <= (if wraps then tailIndex else capacity)
      requires IsI32(typeId) && typeId != PADDING_MSG_TYPE_ID && length <= INT_MAX - 16
      requires src != null ==> src != buffer.data && length <= src.Length
      modifies buffer.data
      ensures m.typeId == typeId && |m.body| == length && (src != null ==> m.body == src[..length])
      ensures ValidMsg(m) && Required(m) <= buffer.data.Length
      ensures buffer.data[..] == Stored(old(buffer.data[..]), tail, m)
    {
      hide Ix, Recorded, Splice, EncI32;
      var data := buffer.data;
      var index := if wraps then 0 else tailIndex;
      Placement(data.Length, tail, Msg(typeId, Zeros(length)));
      m := Msg(typeId, if src == null then data[index + 8..index + 8 + length] else src[..length]);
      if wraps {
        ghost var body := data[index + 8..index + 8 + length];
        PutI32(data, tailIndex, -(data.Length - tailIndex));
        PaddingSparesRecord(old(data[..]), tailIndex, -(data.Length - tailIndex), index + 8, length);
      }
      PutRecord(index, MSG_HEADER_LENGTH + length, typeId, src, length, m);
    }

    static lemma PaddingSparesRecord(mem: seq<byte>, i: nat, v: int, o: nat, n: nat)
      requires IsI32(v) && i + 4 <= |mem| && o + n <= i
      ensures Splice(mem, i, EncI32(v))[o..o + n] == mem[o..o + n]
    {
      hide EncI32;
    }

    // `put_record`
    method PutRecord(index: nat, recordLength: nat, typeId: int, src: array?<byte>, length: nat, ghost m: Msg)
      requires src != null ==> src != buffer.data && length <= src.Length
      requires ValidMsg(m) && recordLength == RecordLength(m) && m.typeId == typeId && |m.body| == length
      requires index + recordLength <= buffer.data.Length
      requires m.body == if src == null then buffer.data[index + 8..index + 8 + length] else src[..length]
      modifies buffer.data
      ensures buffer.data[..] == Recorded(old(buffer.data[..]), index, m)
    {
      var data := buffer.data;
      if length > 0 && src != null {
        PutBytes(data, index + 8, src[..length]);
      }
      assert data[..] == Splice(old(data[..]), index + 8, m.body);
      PutI32(data, index + 4, typeId);
      PutI32(data, index, recordLength);
    }
  }
}
