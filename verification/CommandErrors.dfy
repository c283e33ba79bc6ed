/** Which bytes are no message of any command, and the error each of them comes to. */
module CommandErrors {
  import opened Bits
  import opened Bytes
  import opened Commands

  predicate KnownType(typeId: int) {
    ADD_PUBLICATION <= typeId <= GET_NEXT_AVAILABLE_SESSION_ID
  }

  /** The length of a message of this type whose variable fields are empty. */
  function LeastLength(typeId: int): nat {
    if typeId == CLIENT_KEEPALIVE || typeId == CLIENT_CLOSE then 16
    else if typeId == TERMINATE_DRIVER || typeId == GET_NEXT_AVAILABLE_SESSION_ID then 20
    else if typeId == ADD_DESTINATION || typeId == REMOVE_DESTINATION then 28
    else if typeId == ADD_RCV_DESTINATION || typeId == REMOVE_RCV_DESTINATION then 28
    else if typeId == ADD_SUBSCRIPTION || typeId == REMOVE_DESTINATION_BY_ID then 32
    else if typeId == ADD_STATIC_COUNTER || typeId == REJECT_IMAGE then 36
    else 24
  }

  // ---- Taking bytes apart ----

  lemma TakeLong(d: seq<byte>, o: nat)
    requires o + 8 <= |d|
    ensures d[o..] == EncI64(I64At(d, o)) + d[o + 8..]
  {
    hide EncI64, I64At;
    ReencodeI64(d, o);
    assert d[o..] == d[o..o + 8] + d[o + 8..];
  }

  lemma TakeShort(d: seq<byte>, o: nat)
    requires o + 4 <= |d|
    ensures d[o..] == EncI32(I32At(d, o)) + d[o + 4..]
  {
    hide EncI32, I32At;
    ReencodeU32(d, o);
    assert d[o..] == d[o..o + 4] + d[o + 4..];
  }

  lemma TakeVariable(d: seq<byte>, o: nat)
    requires o + 4 <= |d| && 0 <= I32At(d, o) <= |d| - o - 4
    ensures var n := I32At(d, o); d[o..] == Var(d[o + 4..o + 4 + n]) + d[o + 4 + n..]
  {
    hide EncI32, I32At;
    var n := I32At(d, o);
    TakeShort(d, o);
    assert d[o + 4..] == d[o + 4..o + 4 + n] + d[o + 4 + n..];
    assert EncI32(n) + (d[o + 4..o + 4 + n] + d[o + 4 + n..]) == Var(d[o + 4..o + 4 + n]) + d[o + 4 + n..];
  }

  lemma TakeIds(d: seq<byte>)
    requires |d| >= 16
    ensures d == Ids(I64At(d, 0), I64At(d, 8)) + d[16..]
  {
    hide EncI64, I64At;
    TakeLong(d, 0);
    TakeLong(d, 8);
    assert d[0..] == d;
    assert EncI64(I64At(d, 0)) + (EncI64(I64At(d, 8)) + d[16..]) == Ids(I64At(d, 0), I64At(d, 8)) + d[16..];
  }

  const PLAIN := Slack(0, [], 0)

  // With its two ids in front, a body followed by anything is a message.
  lemma BodyIsMessage(d: seq<byte>, c: Command, k: Slack, extra: seq<byte>)
    requires |d| >= 16 && Fits(c) && SlackFits(c, k) && d[16..] == Body(c, k) + extra
    ensures IsMessage(TypeOf(c), d, c, I64At(d, 0), I64At(d, 8))
  {
    hide Body, Ids, I64At, Fits, SlackFits;
    TakeIds(d);
    assert LaidOut(d, c, I64At(d, 0), I64At(d, 8), k, extra);
  }

  // ---- Every message handled is one of a command ----

  lemma PublicationRead(d: seq<byte>, exclusive: bool) returns (c: Command)
    requires !DispatchPublication(d, exclusive).OnError?
    ensures |d| >= 16 && IsMessage(TypeOf(c), d, c, I64At(d, 0), I64At(d, 8))
    ensures c.AddPublication? && c.exclusive == exclusive
  {
    hide EncI32, I32At, Var, IsMessage;
    var n, st := I32At(d, 20), I32At(d, 16);
    c := AddPublication(d[24..24 + n], st, exclusive);
    TakeShort(d, 16);
    TakeVariable(d, 20);
    assert EncI32(st) + (Var(d[24..24 + n]) + d[24 + n..]) == (EncI32(st) + Var(d[24..24 + n])) + d[24 + n..];
    BodyIsMessage(d, c, PLAIN, d[24 + n..]);
  }

  lemma RemovePublicationRead(d: seq<byte>) returns (c: Command)
    requires !DispatchRemovePublication(d).OnError?
    ensures |d| >= 16 && IsMessage(TypeOf(c), d, c, I64At(d, 0), I64At(d, 8)) && c.RemovePublication?
  {
    hide EncI64, I64At, Ids;
    var r := I64At(d, 16);
    TakeLong(d, 16);
    if |d| < 32 {
      c := RemovePublication(r, false);
      TakeIds(d);
      assert LaidOutBefore(d, c, I64At(d, 0), I64At(d, 8), d[24..]);
    } else {
      var flags := I64At(d, 24);
      c := RemovePublication(r, flags % 2 == 1);
      TakeLong(d, 24);
      FlagsKept(flags);
      assert EncI64(r) + (EncI64(flags) + d[32..]) == (EncI64(r) + EncI64(flags)) + d[32..];
      BodyIsMessage(d, c, Slack(0, [], flags), d[32..]);
    }
  }

  lemma FlagsKept(flags: int)
    requires IsI64(flags)
    ensures WithRevoke(flags, flags % 2 == 1) == flags
  {}

  lemma SubscriptionRead(d: seq<byte>) returns (c: Command)
    requires !DispatchSubscription(d).OnError?
    ensures |d| >= 16 && IsMessage(TypeOf(c), d, c, I64At(d, 0), I64At(d, 8)) && c.AddSubscription?
  {
    hide EncI64, EncI32, I64At, I32At, Var, IsMessage;
    var n, st, reserved := I32At(d, 28), I32At(d, 24), I64At(d, 16);
    c := AddSubscription(d[32..32 + n], st);
    TakeLong(d, 16);
    TakeShort(d, 24);
    TakeVariable(d, 28);
    var ch, extra := Var(d[32..32 + n]), d[32 + n..];
    assert EncI64(reserved) + (EncI32(st) + (ch + extra)) == (EncI64(reserved) + (EncI32(st) + ch)) + extra;
    BodyIsMessage(d, c, Slack(reserved, [], 0), extra);
  }

  lemma DestinationRead(d: seq<byte>, change: Destination) returns (c: Command)
    requires !DispatchDestination(d, change).OnError?
    ensures |d| >= 16 && IsMessage(TypeOf(c), d, c, I64At(d, 0), I64At(d, 8))
    ensures c.ChangeDestination? && c.change == change
  {
    hide EncI64, I64At, I32At, Var, IsMessage;
    var n, r := I32At(d, 24), I64At(d, 16);
    c := ChangeDestination(change, r, d[28..28 + n]);
    TakeLong(d, 16);
    TakeVariable(d, 24);
    assert EncI64(r) + (Var(d[28..28 + n]) + d[28 + n..]) == (EncI64(r) + Var(d[28..28 + n])) + d[28 + n..];
    BodyIsMessage(d, c, PLAIN, d[28 + n..]);
  }

  lemma CounterRead(d: seq<byte>) returns (c: Command)
    requires !DispatchCounter(d).OnError?
    ensures |d| >= 16 && IsMessage(TypeOf(c), d, c, I64At(d, 0), I64At(d, 8)) && c.AddCounter?
  {
    hide EncI32, I64At, I32At, Var, IsMessage;
    var ty, n := I32At(d, 16), I32At(d, 20);
    var l := I32At(d, 24 + n);
    var key, labelBytes, extra := d[24..24 + n], d[28 + n..28 + n + l], d[28 + n + l..];
    c := AddCounter(ty, key, labelBytes);
    TakeShort(d, 16);
    TakeVariable(d, 20);
    TakeVariable(d, 24 + n);
    assert EncI32(ty) + (Var(key) + (Var(labelBytes) + extra)) == (EncI32(ty) + (Var(key) + Var(labelBytes))) + extra;
    BodyIsMessage(d, c, PLAIN, extra);
  }

  lemma StaticCounterRead(d: seq<byte>) returns (c: Command)
    requires !DispatchStaticCounter(d).OnError?
    ensures |d| >= 16 && IsMessage(TypeOf(c), d, c, I64At(d, 0), I64At(d, 8)) && c.AddStaticCounter?
  {
    hide EncI64, EncI32, I64At, I32At, Var, IsMessage, RoundUp, Body;
    var r, ty, n := I64At(d, 16), I32At(d, 24), I32At(d, 28);
    var at := 32 + RoundUp(n, 4);
    var l := I32At(d, at);
    c := AddStaticCounter(ty, d[32..32 + n], d[at + 4..at + 4 + l], r);
    var k := Slack(0, d[32 + n..at], 0);
    StaticCounterBody(d, c, k, n, at, l);
    BodyIsMessage(d, c, k, d[at + 4 + l..]);
  }

  lemma StaticCounterBody(d: seq<byte>, c: Command, k: Slack, n: nat, at: nat, l: nat)
    requires 36 <= |d| && n == I32At(d, 28) && at == 32 + RoundUp(n, 4) && at + 4 + l <= |d| && l == I32At(d, at)
    requires c == AddStaticCounter(I32At(d, 24), d[32..32 + n], d[at + 4..at + 4 + l], I64At(d, 16))
    requires k == Slack(0, d[32 + n..at], 0)
    ensures Fits(c) && SlackFits(c, k) && d[16..] == Body(c, k) + d[at + 4 + l..]
  {
    hide EncI64, EncI32, I64At, I32At, Var, RoundUp;
    TakeLong(d, 16);
    TakeShort(d, 24);
    TakeShort(d, 28);
    TakeVariable(d, at);
    assert d[32..] == (d[32..32 + n] + d[32 + n..at]) + d[at..];
    Regroup(EncI64(c.registrationId), EncI32(c.typeId), EncI32(n), d[32..32 + n] + d[32 + n..at],
            Var(c.labelBytes), d[at + 4 + l..]);
  }

  lemma Regroup(a: seq<byte>, b: seq<byte>, c: seq<byte>, d: seq<byte>, e: seq<byte>, f: seq<byte>)
    ensures a + (b + (c + (d + (e + f)))) == (a + (b + ((c + d) + e))) + f
  {}

  lemma RejectRead(d: seq<byte>) returns (c: Command)
    requires !DispatchReject(d).OnError?
    ensures |d| >= 16 && IsMessage(TypeOf(c), d, c, I64At(d, 0), I64At(d, 8)) && c.RejectImage?
  {
    hide EncI64, I64At, I32At, Var, IsMessage;
    var i, p, n := I64At(d, 16), I64At(d, 24), I32At(d, 32);
    c := RejectImage(i, p, d[36..36 + n]);
    TakeLong(d, 16);
    TakeLong(d, 24);
    TakeVariable(d, 32);
    var reason, extra := Var(d[36..36 + n]), d[36 + n..];
    assert EncI64(i) + (EncI64(p) + (reason + extra)) == (EncI64(i) + (EncI64(p) + reason)) + extra;
    BodyIsMessage(d, c, PLAIN, extra);
  }

  lemma TerminateRead(d: seq<byte>) returns (c: Command)
    requires !DispatchTerminate(d).OnError?
    ensures |d| >= 16 && IsMessage(TypeOf(c), d, c, I64At(d, 0), I64At(d, 8)) && c.TerminateDriver?
  {
    hide I64At, I32At, Var, IsMessage;
    var n := I32At(d, 16);
    c := TerminateDriver(d[20..20 + n]);
    TakeVariable(d, 16);
    BodyIsMessage(d, c, PLAIN, d[20 + n..]);
  }

  // The commands of fixed length.
  lemma FixedRead(typeId: int, d: seq<byte>) returns (c: Command)
    requires typeId in {REMOVE_SUBSCRIPTION, REMOVE_COUNTER, REMOVE_DESTINATION_BY_ID, GET_NEXT_AVAILABLE_SESSION_ID,
                        CLIENT_CLOSE, CLIENT_KEEPALIVE}
    requires |d| >= LeastLength(typeId)
    ensures |d| >= 16 && typeId == TypeOf(c) && IsMessage(typeId, d, c, I64At(d, 0), I64At(d, 8))
  {
    hide EncI64, EncI32, I64At, I32At, IsMessage;
    if typeId == CLIENT_CLOSE || typeId == CLIENT_KEEPALIVE {
      c := if typeId == CLIENT_CLOSE then ClientClose else Keepalive;
      assert d[16..] == [] + d[16..];
      BodyIsMessage(d, c, PLAIN, d[16..]);
    } else if typeId == GET_NEXT_AVAILABLE_SESSION_ID {
      c := NextAvailableSessionId(I32At(d, 16));
      TakeShort(d, 16);
      BodyIsMessage(d, c, PLAIN, d[20..]);
    } else if typeId == REMOVE_DESTINATION_BY_ID {
      c := RemoveDestinationById(I64At(d, 16), I64At(d, 24));
      TakeLong(d, 16);
      TakeLong(d, 24);
      assert EncI64(I64At(d, 16)) + (EncI64(I64At(d, 24)) + d[32..])
          == (EncI64(I64At(d, 16)) + EncI64(I64At(d, 24))) + d[32..];
      BodyIsMessage(d, c, PLAIN, d[32..]);
    } else {
      c := if typeId == REMOVE_COUNTER then RemoveCounter(I64At(d, 16)) else RemoveSubscription(I64At(d, 16));
      TakeLong(d, 16);
      BodyIsMessage(d, c, PLAIN, d[24..]);
    }
  }

  lemma HandledIsMessage(typeId: int, d: seq<byte>) returns (c: Command)
    requires !Dispatch(typeId, d).OnError?
    ensures |d| >= 16 && IsMessage(typeId, d, c, I64At(d, 0), I64At(d, 8))
  {
    hide IsMessage, I64At, I32At, DispatchPublication, DispatchRemovePublication, DispatchSubscription,
         DispatchDestination, DispatchCounter, DispatchStaticCounter, DispatchReject, DispatchTerminate;
    if typeId == ADD_PUBLICATION || typeId == ADD_EXCLUSIVE_PUBLICATION {
      c := PublicationRead(d, typeId == ADD_EXCLUSIVE_PUBLICATION);
    } else if typeId == REMOVE_PUBLICATION {
      c := RemovePublicationRead(d);
    } else if typeId == ADD_SUBSCRIPTION {
      c := SubscriptionRead(d);
    } else if typeId == ADD_DESTINATION {
      c := DestinationRead(d, AddSend);
    } else if typeId == REMOVE_DESTINATION {
      c := DestinationRead(d, RemoveSend);
    } else if typeId == ADD_RCV_DESTINATION {
      c := DestinationRead(d, AddReceive);
    } else if typeId == REMOVE_RCV_DESTINATION {
      c := DestinationRead(d, RemoveReceive);
    } else if typeId == ADD_COUNTER {
      c := CounterRead(d);
    } else if typeId == ADD_STATIC_COUNTER {
      c := StaticCounterRead(d);
    } else if typeId == REJECT_IMAGE {
      c := RejectRead(d);
    } else if typeId == TERMINATE_DRIVER {
      c := TerminateRead(d);
    } else {
      c := FixedRead(typeId, d);
    }
  }

  /** For every type id and every byte string: an error is reported if and only if the bytes are
      no message of any command under that type. */
  lemma ErrorIffNoMessage(typeId: int, d: seq<byte>)
    ensures Dispatch(typeId, d).OnError?
       <==> !exists c, clientId, correlationId :: IsMessage(typeId, d, c, clientId, correlationId)
  {
    hide Dispatch, IsMessage, I64At;
    if c, clientId, correlationId :| IsMessage(typeId, d, c, clientId, correlationId) {
      MessageComesToItsHandler(typeId, d, c, clientId, correlationId);
      HandlersAreNoErrors(c, clientId, correlationId);
    }
    if !Dispatch(typeId, d).OnError? {
      var c := HandledIsMessage(typeId, d);
    }
  }

  lemma HandlersAreNoErrors(c: Command, clientId: int, correlationId: int)
    ensures !EventFor(c, clientId, correlationId).OnError?
  {}

  /** Which error: an unknown type has its own code; bytes too short for the type, and a bad token
      of a termination, are reported without a correlation id; any other bad length with the
      message's own. */
  lemma ErrorExactly(typeId: int, d: seq<byte>)
    ensures var e := Dispatch(typeId, d);
            if !KnownType(typeId) then e == OnError(0, ERROR_CODE_UNKNOWN_COMMAND)
            else if |d| < LeastLength(typeId) then e == OnError(0, ERROR_CODE_MALFORMED_COMMAND)
            else e.OnError? ==>
              e == OnError(if typeId == TERMINATE_DRIVER then 0 else I64At(d, 8), ERROR_CODE_MALFORMED_COMMAND)
  {
    hide I64At, I32At, RoundUp;
  }

  /** The types known are exactly those of the commands, and no message is shorter than the least
      length of its type. */
  lemma KnownIffCommand(typeId: int)
    ensures KnownType(typeId) <==> exists c :: Fits(c) && TypeOf(c) == typeId
    ensures forall c, d, clientId, correlationId ::
              IsMessage(typeId, d, c, clientId, correlationId) ==> |d| >= LeastLength(typeId)
  {
    hide Dispatch, IsMessage;
    if KnownType(typeId) { var c := EmptyCommand(typeId); }
    forall c, d, clientId, correlationId | IsMessage(typeId, d, c, clientId, correlationId)
      ensures |d| >= LeastLength(typeId)
    {
      MessageComesToItsHandler(typeId, d, c, clientId, correlationId);
      HandlersAreNoErrors(c, clientId, correlationId);
      ErrorExactly(typeId, d);
      TypesKnown(c, typeId, d, clientId, correlationId);
    }
  }

  lemma TypesKnown(c: Command, typeId: int, d: seq<byte>, clientId: int, correlationId: int)
    requires IsMessage(typeId, d, c, clientId, correlationId)
    ensures KnownType(typeId)
  {}

  lemma EmptyCommand(typeId: int) returns (c: Command)
    requires KnownType(typeId)
    ensures Fits(c) && TypeOf(c) == typeId
  {
    c := if typeId == ADD_PUBLICATION then AddPublication([], 0, false)
         else if typeId == ADD_EXCLUSIVE_PUBLICATION then AddPublication([], 0, true)
         else if typeId == REMOVE_PUBLICATION then RemovePublication(0, false)
         else if typeId == ADD_SUBSCRIPTION then AddSubscription([], 0)
         else if typeId == REMOVE_SUBSCRIPTION then RemoveSubscription(0)
         else if typeId == CLIENT_KEEPALIVE then Keepalive
         else if typeId == ADD_DESTINATION then ChangeDestination(AddSend, 0, [])
         else if typeId == REMOVE_DESTINATION then ChangeDestination(RemoveSend, 0, [])
         else if typeId == ADD_COUNTER then AddCounter(0, [], [])
         else if typeId == REMOVE_COUNTER then RemoveCounter(0)
         else if typeId == CLIENT_CLOSE then ClientClose
         else if typeId == ADD_RCV_DESTINATION then ChangeDestination(AddReceive, 0, [])
         else if typeId == REMOVE_RCV_DESTINATION then ChangeDestination(RemoveReceive, 0, [])
         else if typeId == TERMINATE_DRIVER then TerminateDriver([])
         else if typeId == ADD_STATIC_COUNTER then AddStaticCounter(0, [], [], 0)
         else if typeId == REJECT_IMAGE then RejectImage(0, 0, [])
         else if typeId == REMOVE_DESTINATION_BY_ID then RemoveDestinationById(0, 0)
         else NextAvailableSessionId(0);
  }
}
