/** The many-to-one ring buffer used by one thread at a time: a queue of messages. */
module RingBuffer {
  import opened Bits
  import opened Bytes
  import opened Records
  import opened RecordLayout

  datatype WriteResult = Written | InsufficientSpace | InvalidArgument

  datatype CreateResult = Created(ring: ManyToOneRingBuffer) | Rejected

  const HEADER_LENGTH := 128

  class ManyToOneRingBuffer {
    // The data region; the two position words of the header are fields here.
    const data: array<byte>
    var head: nat
    var tail: nat
    ghost var contents: seq<Msg>

    ghost predicate Valid()
      reads this, data
    {
      && IsPowerOfTwo(data.Length) && data.Length < TWO_31
      && head <= tail <= head + data.Length
      && (data.Length >= 4 ==> data.Length % 4 == 0) && tail % 4 == 0 && head % 4 == 0
      && Holds(data[..], head, tail, contents)
      && forall i :: 0 <= i < |contents| ==> RecordLength(contents[i]) <= MaxMsgLength()
    }

    function MaxMsgLength(): nat {
      data.Length / 8
    }

    constructor (capacity: nat)
      requires IsPowerOfTwo(capacity) && capacity < TWO_31
      ensures Valid() && fresh(data) && data.Length == capacity
      ensures contents == [] && head == tail == 0
    {
      data := new byte[capacity](_ => 0);
      head, tail, contents := 0, 0, [];
      if capacity >= 4 { PowerOfTwoDivisible(capacity); }
    }

    /** The constructor's checks: the bytes beyond the header must be a positive
        power of two. */
    static method Create(bufferCapacity: int) returns (r: CreateResult)
      requires IsI32(bufferCapacity)
      ensures r.Created? <==> IsPowerOfTwo(bufferCapacity - HEADER_LENGTH)
      ensures r.Created? ==> r.ring.Valid() && fresh(r.ring) && fresh(r.ring.data) && r.ring.contents == []
    {
      var capacity := bufferCapacity - HEADER_LENGTH;
      if capacity <= 0 || !IsPowerOfTwo(capacity) {
        return Rejected;
      }
      var ring := new ManyToOneRingBuffer(capacity);
      r := Created(ring);
    }
  
    // The body a call writes: the source bytes, or zeros when there is no source.
    static function Body(src: array?<byte>, length: nat): (body: seq<byte>)
      requires src != null ==> length <= src.Length
      reads if src == null then {} else {src}
      ensures |body| == length
    {
      if src == null then Zeros(length) else src[..length]
    }

    // Whether a record fits its size limit and the free space, wrap padding included.
    predicate Fits(m: Msg)
      requires data.Length > 0
      reads this
    {
      RecordLength(m) <= MaxMsgLength() && Claimed(data.Length, tail, m) <= data.Length - (tail - head)
    }

    /** `write` appends the message, or fails exactly when the arguments are bad, the
        record exceeds an eighth of the capacity, or its claim exceeds free space. */
    method Write(typeId: int, src: array?<byte>, length: int) returns (r: WriteResult)
      requires Valid() && IsI32(typeId) && length <= INT_MAX - 8
      requires src != null ==> src != data && length <= src.Length
      modifies this`tail, this`contents, data
      ensures Valid()
      ensures r.InvalidArgument? <==> typeId == PADDING_MSG_TYPE_ID || length < 0
      ensures !r.InvalidArgument? ==> (r.Written? <==> old(Fits(Msg(typeId, Body(src, length)))))
      ensures r.Written? ==> contents == old(contents) + [old(Msg(typeId, Body(src, length)))]
      ensures !r.Written? ==> contents == old(contents) && tail == old(tail) && data[..] == old(data[..])
    {
      hide Ix, At, EncI32, Splice, Recorded, IsPowerOfTwo, Holds, And;
      if typeId == PADDING_MSG_TYPE_ID || length < 0 {
        return InvalidArgument;
      }
      var recordLength := MSG_HEADER_LENGTH + length;
      if recordLength > MaxMsgLength() {
        return InsufficientSpace;
      }
      ghost var m := Msg(typeId, Body(src, length));
      var required := RoundUp(recordLength + 4, 4);
      var mask := data.Length - 1;
      MaskIsIndex(tail, data.Length);
      var tailIndex := And(tail, mask);
      var toBufferEnd := data.Length - tailIndex;
      var available := data.Length - (tail - head);
      ghost var before := data[..];
      Placement(data.Length, tail, m);

      if toBufferEnd < recordLength + 4 {
        var claim := toBufferEnd + required;
        if claim > available {
          return InsufficientSpace;
        }
        PutI32(data, tailIndex, -toBufferEnd);
        PutRecord(0, recordLength, typeId, src, length, m);
        tail := tail + claim;
      } else {
        if required > available {
          return InsufficientSpace;
        }
        PutRecord(tailIndex, recordLength, typeId, src, length, m);
        tail := tail + required;
      }
      StoredExtends(before, head, old(tail), contents, m);
      contents := contents + [m];
      return Written;
    }

    // `put_msg_header_and_body`
    method PutRecord(index: nat, recordLength: nat, typeId: int, src: array?<byte>, length: nat, ghost m: Msg)
      requires src != null ==> src != data && length <= src.Length
      requires m == Msg(typeId, Body(src, length)) && ValidMsg(m) && recordLength == RecordLength(m)
      requires index + recordLength <= data.Length
      modifies data
      ensures data[..] == Recorded(old(data[..]), index, m)
    {
      hide EncI32, Splice;
      PutBytes(data, index + 8, Zeros(recordLength - 8));
      if length > 0 && src != null {
        PutBytes(data, index + 8, src[..length]);
      }
      Overwritten(old(data[..]), index + 8, m.body);
      assert data[..] == Splice(old(data[..]), index + 8, m.body);
      PutI32(data, index + 4, typeId);
      PutI32(data, index, recordLength);
    }

    static lemma Overwritten(mem: seq<byte>, o: nat, bs: seq<byte>)
      requires o + |bs| <= |mem|
      ensures Splice(Splice(mem, o, Zeros(|bs|)), o, bs) == Splice(mem, o, bs)
      ensures bs == [] ==> Splice(mem, o, bs) == mem
    {}
  
    method ClearWord(i: nat)
      requires i + 4 <= data.Length
      modifies data
      ensures data[..] == Zeroed(old(data[..]), i)
    {
      PutI32(data, i, 0);
    }

    /** `read` hands every pending message to the handler, in order, and empties the
        buffer. The handler's calls are returned as a sequence. */
    method Read() returns (delivered: seq<Msg>, messagesRead: nat)
      requires Valid()
      modifies this`head, this`contents, data
      ensures Valid()
      ensures delivered == old(contents) && contents == [] && messagesRead == |delivered|
      ensures head == tail
    {
      hide Ix, At, WordAt, Zeroed, IsPowerOfTwo, Holds, And, Required, Padding, I32At, Pending, AtPad, RoundUp;
      var nextHead, currentTail := head, tail;
      var mask := data.Length - 1;
      MaskIsIndex(nextHead, data.Length);
      var headIndex := And(nextHead, mask);
      delivered, messagesRead := [], 0;
      ghost var rest, padGone := contents, false;
      PendingStarts(data[..], nextHead, currentTail, rest);

      while nextHead < currentTail
        invariant head <= nextHead <= currentTail == tail <= head + data.Length && nextHead % 4 == 0
        invariant headIndex == Ix(nextHead, data.Length)
        invariant contents == old(contents) && delivered + rest == contents && messagesRead == |delivered|
        invariant Pending(data[..], nextHead, currentTail, rest, padGone)
        invariant forall i :: 0 <= i < |rest| ==> RecordLength(rest[i]) <= MaxMsgLength()
        decreases currentTail - nextHead
      {
        PendingFirst(data[..], nextHead, currentTail, rest, padGone);
        var recordLength := GetI32(data, headIndex);
        if recordLength == 0 {
          break;
        }
        if recordLength < 0 {
          ClearPadding(data[..], head, nextHead, currentTail, rest, padGone);
          ClearWord(headIndex);
          nextHead := nextHead - headIndex + data.Length;
          headIndex := 0;
          padGone := true;
        } else {
          // Published records are neither empty nor over the size limit.
          assert 0 < recordLength <= MaxMsgLength();
          var m := Msg(GetI32(data, headIndex + 4), data[headIndex + 8..headIndex + recordLength]);
          ClearRecord(data[..], head, nextHead, currentTail, rest, padGone);
          delivered := delivered + [m];
          ClearWord(headIndex);
          nextHead := nextHead + RoundUp(recordLength + 4, 4);
          MaskIsIndex(nextHead, data.Length);
          headIndex := And(nextHead, mask);
          messagesRead := messagesRead + 1;
          rest, padGone := rest[1..], false;
        }
      }
      PendingEnds(data[..], nextHead, rest, padGone);
      assert delivered + [] == delivered;
      if nextHead != head {
        head := nextHead;
      }
      contents := [];
    }
  }
}
