/** The client commands: what is written for each, and what the driver makes of it. */
module Commands {
  import opened Bits
  import opened Bytes
  import opened Records

  const ADD_PUBLICATION := 0x01
  const REMOVE_PUBLICATION := 0x02
  const ADD_EXCLUSIVE_PUBLICATION := 0x03
  const ADD_SUBSCRIPTION := 0x04
  const REMOVE_SUBSCRIPTION := 0x05
  const CLIENT_KEEPALIVE := 0x06
  const ADD_DESTINATION := 0x07
  const REMOVE_DESTINATION := 0x08
  const ADD_COUNTER := 0x09
  const REMOVE_COUNTER := 0x0A
  const CLIENT_CLOSE := 0x0B
  const ADD_RCV_DESTINATION := 0x0C
  const REMOVE_RCV_DESTINATION := 0x0D
  const TERMINATE_DRIVER := 0x0E
  const ADD_STATIC_COUNTER := 0x0F
  const REJECT_IMAGE := 0x10
  const REMOVE_DESTINATION_BY_ID := 0x11
  const GET_NEXT_AVAILABLE_SESSION_ID := 0x12

  const NULL_VALUE := -1
  const ERROR_CODE_UNKNOWN_COMMAND := 3
  const ERROR_CODE_MALFORMED_COMMAND := 4

  // The four destination commands differ in their type id and handler alone.
  datatype Destination = AddSend | RemoveSend | AddReceive | RemoveReceive

  // What a client asks for. Strings are their bytes before the terminating NUL.
  datatype Command =
    | AddPublication(channel: seq<byte>, streamId: int, exclusive: bool)
    | RemovePublication(registrationId: int, revoke: bool)
    | AddSubscription(channel: seq<byte>, streamId: int)
    | RemoveSubscription(registrationId: int)
    | ChangeDestination(change: Destination, registrationId: int, channel: seq<byte>)
    | RemoveDestinationById(resourceId: int, destinationId: int)
    | AddCounter(typeId: int, key: seq<byte>, labelBytes: seq<byte>)
    | RemoveCounter(registrationId: int)
    | AddStaticCounter(typeId: int, key: seq<byte>, labelBytes: seq<byte>, registrationId: int)
    | RejectImage(imageCorrelationId: int, position: int, reason: seq<byte>)
    | TerminateDriver(token: seq<byte>)
    | NextAvailableSessionId(streamId: int)
    | ClientClose
    | Keepalive

  // The handler call a command comes to, or the error reported for it.
  datatype Event =
    | OnAddPublication(channel: seq<byte>, streamId: int, correlationId: int, clientId: int, isExclusive: bool)
    | OnRemovePublication(registrationId: int, correlationId: int, revoke: bool)
    | OnAddSubscription(channel: seq<byte>, streamId: int, correlationId: int, clientId: int)
    | OnRemoveSubscription(registrationId: int, correlationId: int)
    | OnDestination(change: Destination, registrationId: int, channel: seq<byte>, correlationId: int)
    | OnRemoveDestinationById(resourceId: int, destinationId: int, correlationId: int)
    | OnAddCounter(typeId: int, key: seq<byte>, labelBytes: seq<byte>, correlationId: int, clientId: int)
    | OnRemoveCounter(registrationId: int, correlationId: int)
    | OnAddStaticCounter(typeId: int, key: seq<byte>, labelBytes: seq<byte>, registrationId: int, correlationId: int,
        clientId: int)
    | OnRejectImage(correlationId: int, imageCorrelationId: int, position: int, reason: seq<byte>)
    | OnTerminateDriver(token: seq<byte>)
    | OnNextAvailableSessionId(correlationId: int, streamId: int)
    | OnClientClose(clientId: int)
    | OnClientKeepalive(clientId: int)
    | OnError(correlationId: int, code: int)

  predicate Fits(c: Command) {
    match c
    case AddPublication(ch, st, _) => |ch| < TWO_31 && IsI32(st)
    case RemovePublication(r, _) => IsI64(r)
    case AddSubscription(ch, st) => |ch| < TWO_31 && IsI32(st)
    case RemoveSubscription(r) => IsI64(r)
    case ChangeDestination(_, r, ch) => IsI64(r) && |ch| < TWO_31
    case RemoveDestinationById(r, d) => IsI64(r) && IsI64(d)
    case AddCounter(ty, k, l) => IsI32(ty) && |k| < TWO_31 && |l| < TWO_31
    case RemoveCounter(r) => IsI64(r)
    case AddStaticCounter(ty, k, l, r) => IsI32(ty) && |k| < TWO_31 && |l| < TWO_31 && IsI64(r)
    case RejectImage(i, p, rs) => IsI64(i) && IsI64(p) && |rs| < TWO_31
    case TerminateDriver(t) => |t| < TWO_31
    case NextAvailableSessionId(st) => IsI32(st)
    case _ => true
  }

  function TypeOf(c: Command): (t: int)
    ensures 0 < t < 0x13
  {
    match c
    case AddPublication(_, _, exclusive) => if exclusive then ADD_EXCLUSIVE_PUBLICATION else ADD_PUBLICATION
    case RemovePublication(_, _) => REMOVE_PUBLICATION
    case AddSubscription(_, _) => ADD_SUBSCRIPTION
    case RemoveSubscription(_) => REMOVE_SUBSCRIPTION
    case ChangeDestination(change, _, _) => DestinationType(change)
    case RemoveDestinationById(_, _) => REMOVE_DESTINATION_BY_ID
    case AddCounter(_, _, _) => ADD_COUNTER
    case RemoveCounter(_) => REMOVE_COUNTER
    case AddStaticCounter(_, _, _, _) => ADD_STATIC_COUNTER
    case RejectImage(_, _, _) => REJECT_IMAGE
    case TerminateDriver(_) => TERMINATE_DRIVER
    case NextAvailableSessionId(_) => GET_NEXT_AVAILABLE_SESSION_ID
    case ClientClose => CLIENT_CLOSE
    case Keepalive => CLIENT_KEEPALIVE
  }

  function DestinationType(change: Destination): int {
    match change
    case AddSend => ADD_DESTINATION
    case RemoveSend => REMOVE_DESTINATION
    case AddReceive => ADD_RCV_DESTINATION
    case RemoveReceive => REMOVE_RCV_DESTINATION
  }

  // Commands that carry no correlation id of their own.
  predicate Uncorrelated(c: Command) {
    c.ClientClose? || c.Keepalive? || c.TerminateDriver?
  }

  // ---- Layouts ----

  function Ids(clientId: int, correlationId: int): (bs: seq<byte>)
    requires IsI64(clientId) && IsI64(correlationId)
    ensures |bs| == 16
  {
    EncI64(clientId) + EncI64(correlationId)
  }

  // A variable-length field: its length word and its bytes.
  function Var(bytes: seq<byte>): (bs: seq<byte>)
    requires |bytes| < TWO_31
    ensures |bs| == 4 + |bytes|
  {
    EncI32(|bytes|) + bytes
  }

  // The key of a static counter is padded with zeros to a multiple of four bytes.
  function PaddedVar(bytes: seq<byte>): (bs: seq<byte>)
    requires |bytes| < TWO_31
    ensures |bs| == 4 + RoundUp(|bytes|, 4)
  {
    EncI32(|bytes|) + (bytes + Zeros(RoundUp(|bytes|, 4) - |bytes|))
  }

  // The flags word with its lowest bit set or cleared and the others kept.
  function WithRevoke(flags: int, revoke: bool): (f: int)
    requires IsI64(flags)
    ensures IsI64(f) && (f % 2 == 1 <==> revoke) && f / 2 == flags / 2
  {
    flags - flags % 2 + (if revoke then 1 else 0)
  }

  /** What follows the two ids; `flags` is what stood in the place of the flags word before. */
  function Fields(c: Command, flags: int): seq<byte>
    requires Fits(c) && IsI64(flags)
  {
    match c
    case AddPublication(ch, st, _) => EncI32(st) + Var(ch)
    case RemovePublication(r, revoke) => EncI64(r) + EncI64(WithRevoke(flags, revoke))
    case AddSubscription(ch, st) => EncI64(NULL_VALUE) + (EncI32(st) + Var(ch))
    case RemoveSubscription(r) => EncI64(r)
    case ChangeDestination(_, r, ch) => EncI64(r) + Var(ch)
    case RemoveDestinationById(r, d) => EncI64(r) + EncI64(d)
    case AddCounter(ty, k, l) => EncI32(ty) + (Var(k) + Var(l))
    case RemoveCounter(r) => EncI64(r)
    case AddStaticCounter(ty, k, l, r) => EncI64(r) + (EncI32(ty) + (PaddedVar(k) + Var(l)))
    case RejectImage(i, p, rs) => EncI64(i) + (EncI64(p) + Var(rs))
    case TerminateDriver(t) => Var(t)
    case NextAvailableSessionId(st) => EncI32(st)
    case ClientClose => []
    case Keepalive => []
  }

  function Encode(c: Command, clientId: int, correlationId: int, flags: int): seq<byte>
    requires Fits(c) && IsI64(clientId) && IsI64(correlationId) && IsI64(flags)
  {
    Ids(clientId, correlationId) + Fields(c, flags)
  }

  /** The handler call the driver should make for a command. */
  function EventFor(c: Command, clientId: int, correlationId: int): Event {
    match c
    case AddPublication(ch, st, exclusive) => OnAddPublication(ch, st, correlationId, clientId, exclusive)
    case RemovePublication(r, revoke) => OnRemovePublication(r, correlationId, revoke)
    case AddSubscription(ch, st) => OnAddSubscription(ch, st, correlationId, clientId)
    case RemoveSubscription(r) => OnRemoveSubscription(r, correlationId)
    case ChangeDestination(change, r, ch) => OnDestination(change, r, ch, correlationId)
    case RemoveDestinationById(r, d) => OnRemoveDestinationById(r, d, correlationId)
    case AddCounter(ty, k, l) => OnAddCounter(ty, k, l, correlationId, clientId)
    case RemoveCounter(r) => OnRemoveCounter(r, correlationId)
    case AddStaticCounter(ty, k, l, r) => OnAddStaticCounter(ty, k, l, r, correlationId, clientId)
    case RejectImage(i, p, rs) => OnRejectImage(correlationId, i, p, rs)
    case TerminateDriver(t) => OnTerminateDriver(t)
    case NextAvailableSessionId(st) => OnNextAvailableSessionId(correlationId, st)
    case ClientClose => OnClientClose(clientId)
    case Keepalive => OnClientKeepalive(clientId)
  }

  // ---- Dispatch ----

  const TOO_SHORT := OnError(0, ERROR_CODE_MALFORMED_COMMAND)

  function Malformed(correlationId: int): Event {
    OnError(correlationId, ERROR_CODE_MALFORMED_COMMAND)
  }

  // A length word is good when the bytes it announces lie inside the message.
  predicate InMessage(length: int, d: seq<byte>, o: nat) {
    0 <= length <= |d| - o
  }

  function DispatchPublication(d: seq<byte>, exclusive: bool): Event {
    if |d| < 24 then TOO_SHORT
    else if !InMessage(I32At(d, 20), d, 24) then Malformed(I64At(d, 8))
    else OnAddPublication(d[24..24 + I32At(d, 20)], I32At(d, 16), I64At(d, 8), I64At(d, 0), exclusive)
  }

  // A message without the flags word is an old client's and revokes nothing.
  function DispatchRemovePublication(d: seq<byte>): Event {
    if |d| < 24 then TOO_SHORT
    else OnRemovePublication(I64At(d, 16), I64At(d, 8), |d| >= 32 && I64At(d, 24) % 2 == 1)
  }

  function DispatchSubscription(d: seq<byte>): Event {
    if |d| < 32 then TOO_SHORT
    else if !InMessage(I32At(d, 28), d, 32) then Malformed(I64At(d, 8))
    else OnAddSubscription(d[32..32 + I32At(d, 28)], I32At(d, 24), I64At(d, 8), I64At(d, 0))
  }

  function DispatchDestination(d: seq<byte>, change: Destination): Event {
    if |d| < 28 then TOO_SHORT
    else if !InMessage(I32At(d, 24), d, 28) then Malformed(I64At(d, 8))
    else OnDestination(change, I64At(d, 16), d[28..28 + I32At(d, 24)], I64At(d, 8))
  }

  function DispatchCounter(d: seq<byte>): Event {
    if |d| < 24 then TOO_SHORT
    else
      var keyLength := I32At(d, 20);
      if keyLength < 0 || keyLength > |d| - 24 - 4 then Malformed(I64At(d, 8))
      else
        var labelOffset := 28 + keyLength;
        var labelLength := I32At(d, 24 + keyLength);
        if !InMessage(labelLength, d, labelOffset) then Malformed(I64At(d, 8))
        else OnAddCounter(I32At(d, 16), d[24..24 + keyLength], d[labelOffset..labelOffset + labelLength], I64At(d, 8),
            I64At(d, 0))
  }

  function DispatchStaticCounter(d: seq<byte>): Event {
    if |d| < 36 then TOO_SHORT
    else
      var keyLength := I32At(d, 28);
      if keyLength < 0 || keyLength > |d| - 32 || RoundUp(keyLength, 4) + 4 > |d| - 32 then Malformed(I64At(d, 8))
      else
        var labelOffset := 32 + RoundUp(keyLength, 4) + 4;
        var labelLength := I32At(d, 32 + RoundUp(keyLength, 4));
        if !InMessage(labelLength, d, labelOffset) then Malformed(I64At(d, 8))
        else OnAddStaticCounter(I32At(d, 24), d[32..32 + keyLength], d[labelOffset..labelOffset + labelLength],
                                I64At(d, 16), I64At(d, 8), I64At(d, 0))
  }

  function DispatchReject(d: seq<byte>): Event {
    if |d| < 36 then TOO_SHORT
    else if !InMessage(I32At(d, 32), d, 36) then Malformed(I64At(d, 8))
    else OnRejectImage(I64At(d, 8), I64At(d, 16), I64At(d, 24), d[36..36 + I32At(d, 32)])
  }

  function DispatchTerminate(d: seq<byte>): Event {
    if |d| < 20 then TOO_SHORT
    else if !InMessage(I32At(d, 16), d, 20) then TOO_SHORT
    else OnTerminateDriver(d[20..20 + I32At(d, 16)])
  }

  /** Exactly one handler call or one error for every message. */
  function Dispatch(typeId: int, d: seq<byte>): Event {
    if typeId == ADD_PUBLICATION then DispatchPublication(d, false)
    else if typeId == ADD_EXCLUSIVE_PUBLICATION then DispatchPublication(d, true)
    else if typeId == REMOVE_PUBLICATION then DispatchRemovePublication(d)
    else if typeId == ADD_SUBSCRIPTION then DispatchSubscription(d)
    else if typeId == REMOVE_SUBSCRIPTION then
      if |d| < 24 then TOO_SHORT else OnRemoveSubscription(I64At(d, 16), I64At(d, 8))
    else if typeId == ADD_DESTINATION then DispatchDestination(d, AddSend)
    else if typeId == REMOVE_DESTINATION then DispatchDestination(d, RemoveSend)
    else if typeId == ADD_RCV_DESTINATION then DispatchDestination(d, AddReceive)
    else if typeId == REMOVE_RCV_DESTINATION then DispatchDestination(d, RemoveReceive)
    else if typeId == CLIENT_KEEPALIVE then if |d| < 16 then TOO_SHORT else OnClientKeepalive(I64At(d, 0))
    else if typeId == CLIENT_CLOSE then if |d| < 16 then TOO_SHORT else OnClientClose(I64At(d, 0))
    else if typeId == ADD_COUNTER then DispatchCounter(d)
    else if typeId == REMOVE_COUNTER then if |d| < 24 then TOO_SHORT else OnRemoveCounter(I64At(d, 16), I64At(d, 8))
    else if typeId == TERMINATE_DRIVER then DispatchTerminate(d)
    else if typeId == ADD_STATIC_COUNTER then DispatchStaticCounter(d)
    else if typeId == REJECT_IMAGE then DispatchReject(d)
    else if typeId == REMOVE_DESTINATION_BY_ID then
      if |d| < 32 then TOO_SHORT else OnRemoveDestinationById(I64At(d, 16), I64At(d, 24), I64At(d, 8))
    else if typeId == GET_NEXT_AVAILABLE_SESSION_ID then
      if |d| < 20 then TOO_SHORT else OnNextAvailableSessionId(I64At(d, 8), I32At(d, 16))
    else OnError(0, ERROR_CODE_UNKNOWN_COMMAND)
  }

  // ---- Reading back what was laid out ----

  lemma Long(d: seq<byte>, o: nat, v: int, rest: seq<byte>)
    requires IsI64(v) && o <= |d| && d[o..] == EncI64(v) + rest
    ensures o + 8 <= |d| && I64At(d, o) == v && d[o + 8..] == rest
  {
    hide EncI64, Signed32, Word;
    var bs, tail := EncI64(v), d[o..];
    assert |tail| == 8 + |rest|;
    assert d[o] == tail[0] && d[o + 1] == tail[1] && d[o + 2] == tail[2] && d[o + 3] == tail[3];
    assert d[o + 4] == tail[4] && d[o + 5] == tail[5] && d[o + 6] == tail[6] && d[o + 7] == tail[7];
    assert d[o + 8..] == tail[8..];
    assert tail[8..] == rest;
  }

  lemma Short(d: seq<byte>, o: nat, v: int, rest: seq<byte>)
    requires IsI32(v) && o <= |d| && d[o..] == EncI32(v) + rest
    ensures o + 4 <= |d| && I32At(d, o) == v && d[o + 4..] == rest
  {
    hide EncI32, Signed32, Word;
    var bs, tail := EncI32(v), d[o..];
    assert |tail| == 4 + |rest|;
    assert d[o] == tail[0] && d[o + 1] == tail[1] && d[o + 2] == tail[2] && d[o + 3] == tail[3];
    assert d[o + 4..] == tail[4..];
    assert tail[4..] == rest;
  }

  // A length word and its bytes, with anything behind them.
  lemma Variable(d: seq<byte>, o: nat, bytes: seq<byte>, rest: seq<byte>)
    requires |bytes| < TWO_31 && o <= |d| && d[o..] == Var(bytes) + rest
    ensures o + 4 + |bytes| <= |d| && I32At(d, o) == |bytes| && d[o + 4..o + 4 + |bytes|] == bytes
    ensures d[o + 4 + |bytes|..] == rest
  {
    hide EncI32, I32At;
    assert Var(bytes) + rest == EncI32(|bytes|) + (bytes + rest);
    Short(d, o, |bytes|, bytes + rest);
    BytesThere(d, o + 4, bytes, rest);
  }

  lemma BytesThere(d: seq<byte>, o: nat, bytes: seq<byte>, rest: seq<byte>)
    requires o <= |d| && d[o..] == bytes + rest
    ensures o + |bytes| <= |d| && d[o..o + |bytes|] == bytes && d[o + |bytes|..] == rest
  {
    assert |d[o..]| == |bytes| + |rest|;
    assert d[o..o + |bytes|] == d[o..][..|bytes|];
    assert d[o + |bytes|..] == d[o..][|bytes|..];
  }

  lemma IdsThere(d: seq<byte>, clientId: int, correlationId: int, rest: seq<byte>)
    requires IsI64(clientId) && IsI64(correlationId) && d == Ids(clientId, correlationId) + rest
    ensures |d| >= 16 && I64At(d, 0) == clientId && I64At(d, 8) == correlationId && d[16..] == rest
  {
    hide EncI64, I64At;
    assert d[0..] == EncI64(clientId) + (EncI64(correlationId) + rest);
    Long(d, 0, clientId, EncI64(correlationId) + rest);
    Long(d, 8, correlationId, rest);
  }

  // ---- What is a message of a command ----

  // What a message may hold besides its command: the reserved field of a subscription, the
  // bytes behind the key of a static counter, and the flags bits that mean nothing.
  datatype Slack = Slack(reserved: int, padding: seq<byte>, flags: int)

  predicate SlackFits(c: Command, k: Slack)
    requires Fits(c)
  {
    && IsI64(k.reserved) && IsI64(k.flags)
    && (c.AddStaticCounter? ==> |k.padding| == RoundUp(|c.key|, 4) - |c.key|)
  }

  // What follows the two ids, whatever the slack.
  function Body(c: Command, k: Slack): seq<byte>
    requires Fits(c) && SlackFits(c, k)
  {
    match c
    case RemovePublication(r, revoke) => EncI64(r) + EncI64(WithRevoke(k.flags, revoke))
    case AddSubscription(ch, st) => EncI64(k.reserved) + (EncI32(st) + Var(ch))
    case AddStaticCounter(ty, key, l, r) =>
      EncI64(r) + (EncI32(ty) + ((EncI32(|key|) + (key + k.padding)) + Var(l)))
    case _ => Fields(c, 0)
  }

  // The layout of a command, followed by anything.
  ghost predicate LaidOut(d: seq<byte>, c: Command, clientId: int, correlationId: int, k: Slack, extra: seq<byte>) {
    && Fits(c) && SlackFits(c, k) && IsI64(clientId) && IsI64(correlationId)
    && d == Ids(clientId, correlationId) + (Body(c, k) + extra)
  }

  // A removal as older clients send it, without the flags word: it revokes nothing.
  ghost predicate LaidOutBefore(d: seq<byte>, c: Command, clientId: int, correlationId: int, extra: seq<byte>) {
    && c.RemovePublication? && !c.revoke && Fits(c) && IsI64(clientId) && IsI64(correlationId)
    && |extra| < 8 && d == Ids(clientId, correlationId) + (EncI64(c.registrationId) + extra)
  }

  /** The bytes d under this type are a message of command c. */
  ghost predicate IsMessage(typeId: int, d: seq<byte>, c: Command, clientId: int, correlationId: int) {
    && typeId == TypeOf(c)
    && ((exists k: Slack, extra: seq<byte> :: LaidOut(d, c, clientId, correlationId, k, extra))
        || exists extra: seq<byte> :: LaidOutBefore(d, c, clientId, correlationId, extra))
  }

  /** Dispatching a message of a command is the one call to the matching handler with exactly
      its values, whatever its slack and whatever follows it; the older form included. */
  lemma MessageComesToItsHandler(typeId: int, d: seq<byte>, c: Command, clientId: int, correlationId: int)
    requires IsMessage(typeId, d, c, clientId, correlationId)
    ensures Dispatch(typeId, d) == EventFor(c, clientId, correlationId)
  {
    hide Dispatch, EventFor, LaidOut, LaidOutBefore;
    if k: Slack, extra: seq<byte> :| LaidOut(d, c, clientId, correlationId, k, extra) {
      LaidOutTrip(d, c, clientId, correlationId, k, extra);
    } else {
      var extra :| LaidOutBefore(d, c, clientId, correlationId, extra);
      OlderTrip(d, c, clientId, correlationId, extra);
    }
  }

  lemma OlderTrip(d: seq<byte>, c: Command, clientId: int, correlationId: int, extra: seq<byte>)
    requires LaidOutBefore(d, c, clientId, correlationId, extra)
    ensures Dispatch(TypeOf(c), d) == OnRemovePublication(c.registrationId, correlationId, false)
    ensures EventFor(c, clientId, correlationId) == OnRemovePublication(c.registrationId, correlationId, false)
  {
    hide EncI64, I64At, Ids;
    IdsThere(d, clientId, correlationId, EncI64(c.registrationId) + extra);
    Long(d, 16, c.registrationId, extra);
  }

  lemma LaidOutTrip(d: seq<byte>, c: Command, clientId: int, correlationId: int, k: Slack, extra: seq<byte>)
    requires LaidOut(d, c, clientId, correlationId, k, extra)
    ensures Dispatch(TypeOf(c), d) == EventFor(c, clientId, correlationId)
  {
    hide EncI64, EncI32, I64At, I32At, Var, PaddedVar, Ids, RoundUp, WithRevoke,
         DispatchPublication, DispatchRemovePublication, DispatchSubscription, DispatchDestination, DispatchCounter,
         DispatchStaticCounter, DispatchReject, DispatchTerminate;
    IdsThere(d, clientId, correlationId, Body(c, k) + extra);
    match c
    case AddPublication(ch, st, exclusive) => PublicationTrip(d, ch, st, exclusive, extra);
    case RemovePublication(r, revoke) => RemovePublicationTrip(d, r, revoke, k.flags, extra);
    case AddSubscription(ch, st) => SubscriptionTrip(d, k.reserved, ch, st, extra);
    case RemoveSubscription(r) => Long(d, 16, r, extra);
    case ChangeDestination(change, r, ch) => DestinationTrip(d, change, r, ch, extra);
    case RemoveDestinationById(r, e) => TwoLongs(d, r, e, extra);
    case AddCounter(ty, key, l) => CounterTrip(d, ty, key, l, extra);
    case RemoveCounter(r) => Long(d, 16, r, extra);
    case AddStaticCounter(ty, key, l, r) => StaticCounterTrip(d, ty, key, k.padding, l, r, extra);
    case RejectImage(i, p, rs) => RejectTrip(d, i, p, rs, extra);
    case TerminateDriver(t) => TerminateTrip(d, t, extra);
    case NextAvailableSessionId(st) => Short(d, 16, st, extra);
    case ClientClose =>
    case Keepalive =>
  }

  /** Whatever a command carries, dispatching what was written for it is the one call to the
      matching handler with exactly the same values. */
  lemma RoundTrip(c: Command, clientId: int, correlationId: int, flags: int)
    requires Fits(c) && IsI64(clientId) && IsI64(correlationId) && IsI64(flags)
    ensures Dispatch(TypeOf(c), Encode(c, clientId, correlationId, flags)) == EventFor(c, clientId, correlationId)
  {
    hide Dispatch, EventFor, Ids;
    var k := EncodedIsLaidOut(c, clientId, correlationId, flags, []);
    var d := Encode(c, clientId, correlationId, flags);
    assert d == d + [];
    LaidOutTrip(d, c, clientId, correlationId, k, []);
  }

  /** The same with any bytes behind it. */
  lemma TrailingBytesIgnored(c: Command, clientId: int, correlationId: int, flags: int, extra: seq<byte>)
    requires Fits(c) && IsI64(clientId) && IsI64(correlationId) && IsI64(flags)
    ensures Dispatch(TypeOf(c), Encode(c, clientId, correlationId, flags) + extra)
         == EventFor(c, clientId, correlationId)
  {
    hide Dispatch, EventFor, Ids;
    var k := EncodedIsLaidOut(c, clientId, correlationId, flags, extra);
    LaidOutTrip(Encode(c, clientId, correlationId, flags) + extra, c, clientId, correlationId, k, extra);
  }

  lemma EncodedIsLaidOut(c: Command, clientId: int, correlationId: int, flags: int, extra: seq<byte>) returns (k: Slack)
    requires Fits(c) && IsI64(clientId) && IsI64(correlationId) && IsI64(flags)
    ensures LaidOut(Encode(c, clientId, correlationId, flags) + extra, c, clientId, correlationId, k, extra)
  {
    hide EncI64, EncI32, Var, Ids, WithRevoke, RoundUp;
    k := Slack(NULL_VALUE, if c.AddStaticCounter? then Zeros(RoundUp(|c.key|, 4) - |c.key|) else [], flags);
    assert Fields(c, flags) == Body(c, k);
    assert Encode(c, clientId, correlationId, flags) + extra == Ids(clientId, correlationId) + (Body(c, k) + extra);
  }

  lemma TwoLongs(d: seq<byte>, r: int, e: int, extra: seq<byte>)
    requires |d| >= 16 && IsI64(r) && IsI64(e) && d[16..] == (EncI64(r) + EncI64(e)) + extra
    ensures |d| >= 32 && I64At(d, 16) == r && I64At(d, 24) == e
  {
    hide EncI64, I64At;
    assert d[16..] == EncI64(r) + (EncI64(e) + extra);
    Long(d, 16, r, EncI64(e) + extra);
    Long(d, 24, e, extra);
  }

  lemma PublicationTrip(d: seq<byte>, ch: seq<byte>, st: int, exclusive: bool, extra: seq<byte>)
    requires |d| >= 16 && |ch| < TWO_31 && IsI32(st) && d[16..] == (EncI32(st) + Var(ch)) + extra
    ensures DispatchPublication(d, exclusive) == OnAddPublication(ch, st, I64At(d, 8), I64At(d, 0), exclusive)
  {
    hide EncI32, I32At, I64At, Var;
    assert d[16..] == EncI32(st) + (Var(ch) + extra);
    Short(d, 16, st, Var(ch) + extra);
    Variable(d, 20, ch, extra);
  }

  lemma RemovePublicationTrip(d: seq<byte>, r: int, revoke: bool, flags: int, extra: seq<byte>)
    requires |d| >= 16 && IsI64(r) && IsI64(flags)
    requires d[16..] == (EncI64(r) + EncI64(WithRevoke(flags, revoke))) + extra
    ensures DispatchRemovePublication(d) == OnRemovePublication(r, I64At(d, 8), revoke)
  {
    hide EncI64, I64At, WithRevoke;
    TwoLongs(d, r, WithRevoke(flags, revoke), extra);
  }

  lemma SubscriptionTrip(d: seq<byte>, reserved: int, ch: seq<byte>, st: int, extra: seq<byte>)
    requires |d| >= 16 && |ch| < TWO_31 && IsI32(st) && IsI64(reserved)
    requires d[16..] == (EncI64(reserved) + (EncI32(st) + Var(ch))) + extra
    ensures DispatchSubscription(d) == OnAddSubscription(ch, st, I64At(d, 8), I64At(d, 0))
  {
    hide EncI32, EncI64, I32At, I64At, Var;
    assert d[16..] == EncI64(reserved) + (EncI32(st) + (Var(ch) + extra));
    Long(d, 16, reserved, EncI32(st) + (Var(ch) + extra));
    Short(d, 24, st, Var(ch) + extra);
    Variable(d, 28, ch, extra);
  }

  lemma DestinationTrip(d: seq<byte>, change: Destination, r: int, ch: seq<byte>, extra: seq<byte>)
    requires |d| >= 16 && IsI64(r) && |ch| < TWO_31 && d[16..] == (EncI64(r) + Var(ch)) + extra
    ensures DispatchDestination(d, change) == OnDestination(change, r, ch, I64At(d, 8))
  {
    hide EncI64, I32At, I64At, Var;
    assert d[16..] == EncI64(r) + (Var(ch) + extra);
    Long(d, 16, r, Var(ch) + extra);
    Variable(d, 24, ch, extra);
  }

  lemma CounterTrip(d: seq<byte>, ty: int, key: seq<byte>, l: seq<byte>, extra: seq<byte>)
    requires |d| >= 16 && IsI32(ty) && |key| < TWO_31 && |l| < TWO_31
    requires d[16..] == (EncI32(ty) + (Var(key) + Var(l))) + extra
    ensures DispatchCounter(d) == OnAddCounter(ty, key, l, I64At(d, 8), I64At(d, 0))
  {
    hide EncI32, I32At, I64At, Var;
    assert d[16..] == EncI32(ty) + (Var(key) + (Var(l) + extra));
    Short(d, 16, ty, Var(key) + (Var(l) + extra));
    Variable(d, 20, key, Var(l) + extra);
    Variable(d, 24 + |key|, l, extra);
  }

  lemma StaticCounterTrip(d: seq<byte>, ty: int, key: seq<byte>, padding: seq<byte>, l: seq<byte>, r: int,
                          extra: seq<byte>)
    requires |d| >= 16 && IsI32(ty) && |key| < TWO_31 && |l| < TWO_31 && IsI64(r)
    requires |padding| == RoundUp(|key|, 4) - |key|
    requires d[16..] == (EncI64(r) + (EncI32(ty) + ((EncI32(|key|) + (key + padding)) + Var(l)))) + extra
    ensures DispatchStaticCounter(d) == OnAddStaticCounter(ty, key, l, r, I64At(d, 8), I64At(d, 0))
  {
    hide EncI32, EncI64, I32At, I64At, Var, RoundUp;
    var rest := Var(l) + extra;
    assert d[16..] == EncI64(r) + (EncI32(ty) + (EncI32(|key|) + (key + (padding + rest))));
    Long(d, 16, r, EncI32(ty) + (EncI32(|key|) + (key + (padding + rest))));
    Short(d, 24, ty, EncI32(|key|) + (key + (padding + rest)));
    Short(d, 28, |key|, key + (padding + rest));
    BytesThere(d, 32, key, padding + rest);
    BytesThere(d, 32 + |key|, padding, rest);
    Variable(d, 32 + RoundUp(|key|, 4), l, extra);
  }

  lemma RejectTrip(d: seq<byte>, i: int, p: int, rs: seq<byte>, extra: seq<byte>)
    requires |d| >= 16 && IsI64(i) && IsI64(p) && |rs| < TWO_31
    requires d[16..] == (EncI64(i) + (EncI64(p) + Var(rs))) + extra
    ensures DispatchReject(d) == OnRejectImage(I64At(d, 8), i, p, rs)
  {
    hide EncI64, I32At, I64At, Var;
    assert d[16..] == EncI64(i) + (EncI64(p) + (Var(rs) + extra));
    Long(d, 16, i, EncI64(p) + (Var(rs) + extra));
    Long(d, 24, p, Var(rs) + extra);
    Variable(d, 32, rs, extra);
  }

  lemma TerminateTrip(d: seq<byte>, t: seq<byte>, extra: seq<byte>)
    requires |d| >= 16 && |t| < TWO_31 && d[16..] == Var(t) + extra
    ensures DispatchTerminate(d) == OnTerminateDriver(t)
  {
    hide I32At, Var;
    Variable(d, 16, t, extra);
  }

  /** What the driver will be called for the messages waiting in a ring. */
  ghost function Dispatched(messages: seq<Msg>): (events: seq<Event>)
    ensures |events| == |messages|
  {
    seq(|messages|, i requires 0 <= i < |messages| => Dispatch(messages[i].typeId, messages[i].body))
  }
}
