/** Client and driver ends of the command ring: `DriverProxy` and `ClientCommandAdapter`. */
module CommandChannel {
  import opened Bits
  import opened Bytes
  import opened Records
  import opened Commands
  import opened RingBuffer

  const SCRATCH_BUFFER_SIZE := 2048

  // Everything but Sent is an exception in the source, save that `terminate_driver` returns
  // false for a full ring.
  datatype Outcome = Sent(correlationId: int) | TooLong | RingFull | InvalidArgument

  /** The `compute_length` of each message. */
  function LengthOf(c: Command): (n: nat)
    requires Commands.Fits(c)
    ensures forall flags :: IsI64(flags) ==> n == 16 + |Fields(c, flags)|
  {
    match c
    case AddPublication(ch, _, _) => 24 + |ch|
    case RemovePublication(_, _) => 32
    case AddSubscription(ch, _) => 32 + |ch|
    case RemoveSubscription(_) => 24
    case ChangeDestination(_, _, ch) => 28 + |ch|
    case RemoveDestinationById(_, _) => 32
    case AddCounter(_, k, l) => 28 + |k| + |l|
    case RemoveCounter(_) => 24
    case AddStaticCounter(_, k, l, _) => 36 + RoundUp(|k|, 4) + |l|
    case RejectImage(_, _, rs) => 36 + |rs|
    case TerminateDriver(t) => 20 + |t|
    case NextAvailableSessionId(_) => 20
    case ClientClose => 16
    case Keepalive => 16
  }

  class DriverProxy {
    const ring: ManyToOneRingBuffer
    const clientId: int
    const scratch: array<byte>
    var correlationCounter: int

    ghost predicate Valid()
      reads this, scratch, ring, ring.data
    {
      && ring.Valid() && scratch != ring.data && scratch.Length == SCRATCH_BUFFER_SIZE
      && IsI64(clientId) && IsI64(correlationCounter)
    }

    constructor (ring: ManyToOneRingBuffer, clientId: int)
      requires ring.Valid() && IsI64(clientId)
      ensures Valid() && this.ring == ring && this.clientId == clientId && correlationCounter == 1 && fresh(scratch)
    {
      this.ring, this.clientId, correlationCounter := ring, clientId, 1;
      scratch := new byte[SCRATCH_BUFFER_SIZE](_ => 0);
    }

    /** Each command method takes a correlation id where the command has one, checks the length,
        fills the scratch buffer and writes it to the ring. A command sent adds exactly the
        handler call it stands for to what the driver will see; any other outcome adds nothing. */
    method Submit(c: Command) returns (r: Outcome)
      requires Valid() && Commands.Fits(c) && correlationCounter < TWO_63 - 1
      modifies this`correlationCounter, scratch, ring`tail, ring`contents, ring.data
      ensures Valid()
      ensures correlationCounter == old(correlationCounter) + (if Uncorrelated(c) then 0 else 1)
      ensures r.TooLong? <==> LengthOf(c) > SCRATCH_BUFFER_SIZE
      ensures !r.InvalidArgument?
      ensures r.Sent? ==> r.correlationId == (if Uncorrelated(c) then NULL_VALUE else old(correlationCounter))
      ensures r.Sent? ==>
          Dispatched(ring.contents) == old(Dispatched(ring.contents)) + [EventFor(c, clientId, r.correlationId)]
      ensures !r.Sent? ==> ring.contents == old(ring.contents) && ring.tail == old(ring.tail)
      ensures r.RingFull? <==> !r.TooLong? && RecordRefused(LengthOf(c), old(ring.head), old(ring.tail))
    {
      hide Encode, Fields, Dispatch, EventFor, LengthOf;
      var correlationId := NULL_VALUE;
      if !Uncorrelated(c) {
        correlationId := correlationCounter;
        correlationCounter := correlationCounter + 1;
      }
      var length := LengthOf(c);
      if length > SCRATCH_BUFFER_SIZE {
        return TooLong;
      }
      ghost var flags := I64At(scratch[..], 24);
      WriteScratch(c, correlationId);
      ghost var before := ring.contents;
      var written := ring.Write(TypeOf(c), scratch, length);
      if !written.Written? {
        return RingFull;
      }
      RoundTrip(c, clientId, correlationId, flags);
      OneMore(before, Msg(TypeOf(c), Encode(c, clientId, correlationId, flags)));
      return Sent(correlationId);
    }

    // The bytes an (address, offset, length) argument names; none for a null address.
    static function Argument(buffer: array?<byte>, offset: int, length: int): (bytes: seq<byte>)
      requires buffer != null && offset >= 0 && length >= 0 ==> offset + length <= buffer.Length
      reads if buffer == null then {} else {buffer}
      ensures |bytes| == if buffer == null || offset < 0 || length < 0 then 0 else length
    {
      if buffer == null || offset < 0 || length < 0 then [] else buffer[offset..offset + length]
    }

    /** Negative lengths and offsets are refused before an id is taken. */
    method AddCounter(typeId: int, key: array?<byte>, keyOffset: int, keyLength: int,
                      labels: array?<byte>, labelOffset: int, labelLength: int) returns (r: Outcome)
      requires Valid() && IsI32(typeId) && correlationCounter < TWO_63 - 1 && keyLength <= INT_MAX &&
          labelLength <= INT_MAX
      requires key != null && keyOffset >= 0 && keyLength >= 0 ==> keyOffset + keyLength <= key.Length
      requires labels != null && labelOffset >= 0 && labelLength >= 0 ==> labelOffset + labelLength <= labels.Length
      modifies this`correlationCounter, scratch, ring`tail, ring`contents, ring.data
      ensures Valid()
      ensures r.InvalidArgument? <==> keyLength < 0 || labelLength < 0 || keyOffset < 0 || labelOffset < 0
      ensures r.InvalidArgument? ==>
              correlationCounter == old(correlationCounter) && ring.contents == old(ring.contents)
      ensures r.Sent? ==>
                Dispatched(ring.contents) == old(Dispatched(ring.contents))
                  + [OnAddCounter(typeId, old(Argument(key, keyOffset, keyLength)),
                                  old(Argument(labels, labelOffset, labelLength)), old(correlationCounter), clientId)]
    {
      hide Argument, LengthOf, Fields, Dispatch, ManyToOneRingBuffer.Valid;
      if keyLength < 0 || labelLength < 0 || keyOffset < 0 || labelOffset < 0 {
        return Outcome.InvalidArgument;
      }
      r := Submit(Command.AddCounter(typeId, Argument(key, keyOffset, keyLength),
                                     Argument(labels, labelOffset, labelLength)));
    }

    method AddStaticCounter(typeId: int, key: array?<byte>, keyOffset: int, keyLength: int,
                            labels: array?<byte>, labelOffset: int, labelLength: int, registrationId: int)
      returns (r: Outcome)
      requires Valid() && IsI32(typeId) && IsI64(registrationId) && correlationCounter < TWO_63 - 1
      requires keyLength <= INT_MAX && labelLength <= INT_MAX
      requires key != null && keyOffset >= 0 && keyLength >= 0 ==> keyOffset + keyLength <= key.Length
      requires labels != null && labelOffset >= 0 && labelLength >= 0 ==> labelOffset + labelLength <= labels.Length
      modifies this`correlationCounter, scratch, ring`tail, ring`contents, ring.data
      ensures Valid()
      ensures r.InvalidArgument? <==> keyLength < 0 || labelLength < 0 || keyOffset < 0 || labelOffset < 0
      ensures r.InvalidArgument? ==>
              correlationCounter == old(correlationCounter) && ring.contents == old(ring.contents)
      ensures r.Sent? ==>
                Dispatched(ring.contents) == old(Dispatched(ring.contents))
                  + [OnAddStaticCounter(typeId, old(Argument(key, keyOffset, keyLength)),
                                        old(Argument(labels, labelOffset, labelLength)),
                                        registrationId, old(correlationCounter), clientId)]
    {
      hide Argument, LengthOf, Fields, Dispatch, ManyToOneRingBuffer.Valid;
      if keyLength < 0 || labelLength < 0 || keyOffset < 0 || labelOffset < 0 {
        return Outcome.InvalidArgument;
      }
      r := Submit(Command.AddStaticCounter(typeId, Argument(key, keyOffset, keyLength),
                                           Argument(labels, labelOffset, labelLength), registrationId));
    }

    method TerminateDriver(token: array?<byte>, tokenOffset: int, tokenLength: int) returns (r: Outcome)
      requires Valid() && correlationCounter < TWO_63 - 1 && tokenLength <= INT_MAX
      requires token != null && tokenOffset >= 0 && tokenLength >= 0 ==> tokenOffset + tokenLength <= token.Length
      modifies this`correlationCounter, scratch, ring`tail, ring`contents, ring.data
      ensures Valid() && correlationCounter == old(correlationCounter)
      ensures r.InvalidArgument? <==> tokenLength < 0 || tokenOffset < 0
      ensures r.Sent? ==>
                Dispatched(ring.contents) == old(Dispatched(ring.contents))
                  + [OnTerminateDriver(old(Argument(token, tokenOffset, tokenLength)))]
    {
      if tokenLength < 0 || tokenOffset < 0 {
        return Outcome.InvalidArgument;
      }
      r := Submit(Command.TerminateDriver(Argument(token, tokenOffset, tokenLength)));
    }

    // The ring takes no record of this body length at these positions.
    ghost predicate RecordRefused(length: nat, head: nat, tail: nat) {
      var m := Msg(1, Zeros(length));
      ring.data.Length == 0 || RecordLength(m) > ring.data.Length / 8
      || RecordLayout.Claimed(ring.data.Length, tail, m) > ring.data.Length - (tail - head)
    }

    // ---- Filling the scratch buffer from the front ----

    method SetI64(o: nat, v: int)
      requires o + 8 <= scratch.Length && IsI64(v)
      modifies scratch
      ensures scratch[..o + 8] == old(scratch[..o]) + EncI64(v) && scratch[o + 8..] == old(scratch[o + 8..])
    {
      PutI64(scratch, o, v);
    }

    method SetI32(o: nat, v: int)
      requires o + 4 <= scratch.Length && IsI32(v)
      modifies scratch
      ensures scratch[..o + 4] == old(scratch[..o]) + EncI32(v) && scratch[o + 4..] == old(scratch[o + 4..])
    {
      PutI32(scratch, o, v);
    }

    // A length word and its bytes; nothing is copied for an empty field.
    method SetVar(o: nat, bytes: seq<byte>)
      requires o + 4 + |bytes| <= scratch.Length && |bytes| < TWO_31
      modifies scratch
      ensures scratch[..o + 4 + |bytes|] == old(scratch[..o]) + Var(bytes)
      ensures scratch[o + 4 + |bytes|..] == old(scratch[o + 4 + |bytes|..])
    {
      hide EncI32;
      SetI32(o, |bytes|);
      if |bytes| > 0 {
        PutBytes(scratch, o + 4, bytes);
      }
      assert scratch[..o + 4 + |bytes|] == scratch[..o + 4] + bytes;
    }

    // The padding behind the key is zeroed, so that no stale bytes go out with it.
    method SetPaddedVar(o: nat, bytes: seq<byte>)
      requires o + 4 + RoundUp(|bytes|, 4) <= scratch.Length && |bytes| < TWO_31
      modifies scratch
      ensures scratch[..o + 4 + RoundUp(|bytes|, 4)] == old(scratch[..o]) + PaddedVar(bytes)
      ensures scratch[o + 4 + RoundUp(|bytes|, 4)..] == old(scratch[o + 4 + RoundUp(|bytes|, 4)..])
    {
      hide EncI32;
      var alignedEnd := RoundUp(|bytes|, 4);
      SetVar(o, bytes);
      if alignedEnd > |bytes| {
        PutBytes(scratch, o + 4 + |bytes|, Zeros(alignedEnd - |bytes|));
      }
      assert scratch[..o + 4 + alignedEnd] == scratch[..o + 4 + |bytes|] + Zeros(alignedEnd - |bytes|);
    }

    // `set_revoke` reads the flags word first, so other bits of it stay as they were.
    method SetRevoke(revoke: bool)
      requires scratch.Length == SCRATCH_BUFFER_SIZE
      modifies scratch
      ensures scratch[..32] == old(scratch[..24]) + EncI64(WithRevoke(old(I64At(scratch[..], 24)), revoke))
    {
      var flags := GetI64(scratch, 24);
      SetI64(24, WithRevoke(flags, revoke));
    }

    method WriteScratch(c: Command, correlationId: int)
      requires Valid() && Commands.Fits(c) && IsI64(correlationId) && LengthOf(c) <= SCRATCH_BUFFER_SIZE
      modifies scratch
      ensures scratch[..LengthOf(c)] == Encode(c, clientId, correlationId, old(I64At(scratch[..], 24)))
    {
      hide EncI64, EncI32, I64At, Var, PaddedVar, RoundUp, WithRevoke, ManyToOneRingBuffer.Valid, Fields, LengthOf;
      ghost var s := scratch[..];
      SetI64(0, clientId);
      SetI64(8, correlationId);
      assert scratch[..16] == Ids(clientId, correlationId);
      FlagsKept(s, scratch[..]);
      match c {
        case AddPublication(_, _, _) => WriteChannel(c);
        case AddSubscription(_, _) => WriteChannel(c);
        case ChangeDestination(_, _, _) => WriteChannel(c);
        case AddCounter(_, _, _) => WriteCounter(c);
        case AddStaticCounter(_, _, _, _) => WriteStaticCounter(c);
        case RejectImage(_, _, _) => WriteReject(c);
        case TerminateDriver(token) => WriteToken(c);
        case _ => WriteFixed(c);
      }
    }

    method WriteChannel(c: Command)
      requires (c.AddPublication? || c.AddSubscription? || c.ChangeDestination?) && Commands.Fits(c)
      requires LengthOf(c) <= SCRATCH_BUFFER_SIZE == scratch.Length
      modifies scratch
      ensures scratch[..LengthOf(c)] == old(scratch[..16]) + Fields(c, old(I64At(scratch[..], 24)))
    {
      hide EncI64, EncI32, I64At, Var;
      ghost var ids := scratch[..16];
      match c {
        case AddPublication(channel, streamId, _) =>
          SetI32(16, streamId);
          SetVar(20, channel);
          Appended(ids, EncI32(streamId), Var(channel));
        case AddSubscription(channel, streamId) =>
          SetI64(16, NULL_VALUE);
          SetI32(24, streamId);
          SetVar(28, channel);
          Appended(ids + EncI64(NULL_VALUE), EncI32(streamId), Var(channel));
          Appended(ids, EncI64(NULL_VALUE), EncI32(streamId) + Var(channel));
        case ChangeDestination(_, registrationId, channel) =>
          SetI64(16, registrationId);
          SetVar(24, channel);
          Appended(ids, EncI64(registrationId), Var(channel));
      }
    }

    method WriteCounter(c: Command)
      requires c.AddCounter? && Commands.Fits(c) && LengthOf(c) <= SCRATCH_BUFFER_SIZE == scratch.Length
      modifies scratch
      ensures scratch[..LengthOf(c)] == old(scratch[..16]) + Fields(c, old(I64At(scratch[..], 24)))
    {
      hide EncI64, EncI32, I64At, Var;
      ghost var ids := scratch[..16];
      SetI32(16, c.typeId);
      SetVar(20, c.key);
      SetVar(24 + |c.key|, c.labelBytes);
      Appended(ids + EncI32(c.typeId), Var(c.key), Var(c.labelBytes));
      Appended(ids, EncI32(c.typeId), Var(c.key) + Var(c.labelBytes));
    }

    method WriteStaticCounter(c: Command)
      requires c.AddStaticCounter? && Commands.Fits(c) && LengthOf(c) <= SCRATCH_BUFFER_SIZE == scratch.Length
      modifies scratch
      ensures scratch[..LengthOf(c)] == old(scratch[..16]) + Fields(c, old(I64At(scratch[..], 24)))
    {
      hide EncI64, EncI32, I64At, Var, PaddedVar, RoundUp;
      ghost var ids := scratch[..16];
      SetI64(16, c.registrationId);
      SetI32(24, c.typeId);
      SetPaddedVar(28, c.key);
      SetVar(32 + RoundUp(|c.key|, 4), c.labelBytes);
      Appended(ids + EncI64(c.registrationId) + EncI32(c.typeId), PaddedVar(c.key), Var(c.labelBytes));
      Appended(ids + EncI64(c.registrationId), EncI32(c.typeId), PaddedVar(c.key) + Var(c.labelBytes));
      Appended(ids, EncI64(c.registrationId), EncI32(c.typeId) + (PaddedVar(c.key) + Var(c.labelBytes)));
    }

    method WriteReject(c: Command)
      requires c.RejectImage? && Commands.Fits(c) && LengthOf(c) <= SCRATCH_BUFFER_SIZE == scratch.Length
      modifies scratch
      ensures scratch[..LengthOf(c)] == old(scratch[..16]) + Fields(c, old(I64At(scratch[..], 24)))
    {
      hide EncI64, EncI32, I64At, Var;
      ghost var ids := scratch[..16];
      SetI64(16, c.imageCorrelationId);
      SetI64(24, c.position);
      SetVar(32, c.reason);
      Appended(ids + EncI64(c.imageCorrelationId), EncI64(c.position), Var(c.reason));
      Appended(ids, EncI64(c.imageCorrelationId), EncI64(c.position) + Var(c.reason));
    }

    method WriteToken(c: Command)
      requires c.TerminateDriver? && Commands.Fits(c) && LengthOf(c) <= SCRATCH_BUFFER_SIZE == scratch.Length
      modifies scratch
      ensures scratch[..LengthOf(c)] == old(scratch[..16]) + Fields(c, old(I64At(scratch[..], 24)))
    {
      hide I64At, Var;
      SetVar(16, c.token);
    }

    method WriteFixed(c: Command)
      requires c.RemovePublication? || c.RemoveSubscription? || c.RemoveDestinationById? || c.RemoveCounter?
            || c.NextAvailableSessionId? || c.ClientClose? || c.Keepalive?
      requires Commands.Fits(c) && scratch.Length == SCRATCH_BUFFER_SIZE
      modifies scratch
      ensures scratch[..LengthOf(c)] == old(scratch[..16]) + Fields(c, old(I64At(scratch[..], 24)))
    {
      hide EncI64, EncI32, I64At, WithRevoke;
      ghost var s, ids := scratch[..], scratch[..16];
      match c {
        case RemovePublication(registrationId, revoke) =>
          SetI64(16, registrationId);
          FlagsKept(s, scratch[..]);
          SetRevoke(revoke);
          Appended(ids, EncI64(registrationId), EncI64(WithRevoke(I64At(s, 24), revoke)));
        case RemoveSubscription(registrationId) => SetI64(16, registrationId);
        case RemoveDestinationById(resourceId, destinationId) =>
          SetI64(16, resourceId);
          SetI64(24, destinationId);
          Appended(ids, EncI64(resourceId), EncI64(destinationId));
        case RemoveCounter(registrationId) => SetI64(16, registrationId);
        case NextAvailableSessionId(streamId) => SetI32(16, streamId);
        case ClientClose => assert ids == ids + [];
        case Keepalive => assert ids == ids + [];
      }
    }
  }

  lemma Appended(a: seq<byte>, b: seq<byte>, c: seq<byte>)
    ensures (a + b) + c == a + (b + c)
  {}

  // Stores in front of the flags word leave it.
  lemma FlagsKept(s: seq<byte>, s': seq<byte>)
    requires |s| == |s'| >= 32 && s'[24..] == s[24..]
    ensures I64At(s', 24) == I64At(s, 24)
  {
    assert forall k :: 24 <= k < 32 ==> s'[k] == s'[24..][k - 24];
    assert forall k :: 24 <= k < 32 ==> s[k] == s[24..][k - 24];
  }

  lemma OneMore(before: seq<Msg>, m: Msg)
    ensures Dispatched(before + [m]) == Dispatched(before) + [Dispatch(m.typeId, m.body)]
  {
    hide Dispatch;
  }

  class ClientCommandAdapter {
    const ring: ManyToOneRingBuffer

    constructor (ring: ManyToOneRingBuffer)
      ensures this.ring == ring
    {
      this.ring := ring;
    }

    /** Drains the ring: one handler call or error for each message, in order. */
    method Receive() returns (events: seq<Event>, messagesRead: nat)
      requires ring.Valid()
      modifies ring`head, ring`contents, ring.data
      ensures ring.Valid() && ring.contents == [] && messagesRead == |events|
      ensures events == old(Dispatched(ring.contents))
    {
      hide Dispatch;
      ghost var waiting := ring.contents;
      var delivered, n := ring.Read();
      events, messagesRead := [], n;
      for i := 0 to |delivered|
        invariant |events| == i && forall k :: 0 <= k < i ==>
            events[k] == Dispatch(delivered[k].typeId, delivered[k].body)
      {
        events := events + [Dispatch(delivered[i].typeId, delivered[i].body)];
      }
      assert events == Dispatched(waiting);
    }
  }
}
