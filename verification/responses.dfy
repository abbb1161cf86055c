/**
 * What the handlers of ptp_tasks.c answer, as functions of the request, of its
 * bytes, of the database and of the world.
 */
module Responses {
  import opened Bytes
  import opened PtpMessage
  import opened PtpWire
  import opened PtpSecurity
  import opened PtpAuthentication
  import opened PtpOverrun
  import opened Environment
  import opened Wrappers
  import opened Leftovers
  import DbCache
  import PtpRoundTrip

  const PORT_EVENT: nat := 0
  const PORT_GENERAL: nat := 1
  const ENOMEM: int := -12
  const SDO_ID: u16 := 0xffd
  const DOMAIN: u8 := 128
  const FLAG_UNICAST: u16 := 4
  const DEFAULT_PORT := PortId(TWO64 - 1, 0xffff)
  const ACTION_GET: u32 := 0
  const ACTION_RESPONSE: u32 := 2
  const ERROR_NOT_SUPPORTED: u32 := 6
  const ERROR_UNPOPULATED: u32 := 7
  const ERROR_IMPLEMENTATION_SPECIFIC: u32 := 0xc000
  const ERROR_GENERAL: u32 := 0xfffe
  const TIME_SOURCE_INTERNAL_OSCILLATOR: u32 := 0xa0
  const MAINTAIN_REQUEST: u32 := 1
  const CLOCK_QUALITY := ClockQuality(13, 0x25, 0)
  const CLOCK_PRIORITY: u16 := 0

  // ---- Parts

  /** A C string of ASCII characters. */
  function Display(s: string): (r: DisplayData)
    requires |s| <= ERROR_DISPLAY_DATA_SIZE && forall i :: 0 <= i < |s| ==> 0 < s[i] as int < 0x80
    ensures |r| == |s| && forall i :: 0 <= i < |s| ==> r[i] == s[i] as int
  {
    seq(|s|, i requires 0 <= i < |s| => s[i] as int)
  }

  function ManagementErrorId(ret: int): (id: u32)
    ensures ERROR_IMPLEMENTATION_SPECIFIC <= id <= ERROR_IMPLEMENTATION_SPECIFIC + 0x1fff
  {
    var error := if ret < 0 then -ret else ret;
    ERROR_IMPLEMENTATION_SPECIFIC + if error > 0x1fff then 1 else error
  }

  /** The payload of a fresh message of some type: all zeros. */
  function ZeroPayload(payload: Payload): Payload {
    match payload
    case Event(kind, _, _) => Event(kind, 0, NO_PORT)
    case Announce(_, _, _, _, _, _, _) => Announce(0, 0, 0, ClockQuality(0, 0, 0), 0, 0, 0)
    case Signaling(_) => Signaling(NO_PORT)
    case Management(_, _, _, _) => Management(NO_PORT, 0, 0, 0)
    case UnknownPayload(t) => payload
  }

  function FreshMessage(payload: Payload, portId: PortId, sequenceId: u16): Message {
    Message(sequenceId, false, SDO_ID, DOMAIN, portId, FLAG_UNICAST, 0, 0, 0x7f, payload, [])
  }

  function WithTlv(m: Message, body: TlvBody): Message {
    m.(tlvs := m.tlvs + [Tlv(false, body)])
  }

  /** The signed offset in seconds, truncated toward zero and to 32 bits. */
  function OffsetSeconds(offset: u64): i32 {
    var signed := if offset < TWO64 / 2 then offset else offset - TWO64;
    var seconds := if signed < 0 then -(-signed / 1_000_000_000) else signed / 1_000_000_000;
    ToSigned32(seconds % TWO32)
  }

  // ---- Messages

  function SyncMessage(portId: PortId, sequenceId: u16, now: u64): Message {
    FreshMessage(Event(Sync, now, NO_PORT), portId, sequenceId)
  }

  function AnnounceMessage(portId: PortId, sequenceId: u16, time: u64, offset: u64): Message {
    WithTlv(FreshMessage(Announce(time, 0, CLOCK_PRIORITY, CLOCK_QUALITY, portId.clockId, 0,
                                  TIME_SOURCE_INTERNAL_OSCILLATOR),
                         portId, sequenceId),
            TimeOffset(0, OffsetSeconds(offset), 0, 0, []))
  }

  /** The answer echoes the arrival time, the requester and its sequence number. */
  function DelayAnswer(request: Message, arrival: u64): Message
    requires request.payload.Event?
  {
    FreshMessage(Event(DelayResponse, arrival, request.portId), request.payload.portId, request.sequenceId)
  }

  function ErrorMessage(requester: PortId, sequenceId: u16, errorId: u32, id: u32, text: DisplayData): Message {
    WithTlv(FreshMessage(Management(requester, 0, 0, 0), DEFAULT_PORT, sequenceId), ErrorStatus(errorId, id, text))
  }

  function GeneralError(requester: PortId, sequenceId: u16): Message {
    ErrorMessage(requester, sequenceId, ERROR_GENERAL, 0, Display("General error"))
  }

  function DeniedMessage(request: Message, code: int): Message {
    ErrorMessage(request.portId, request.sequenceId, ManagementErrorId(code), 0, Display("Access denied"))
  }

  /** The grant names no message type: the handler leaves that field zero. */
  const GRANT: TlvBody := GrantUnicast(0, 0, 0, MAINTAIN_REQUEST)

  /** The signaling response with `n` grants. */
  function GrantMessage(request: Message, n: nat): Message
    requires request.payload.Signaling?
  {
    FreshMessage(Signaling(request.portId), request.payload.target, request.sequenceId)
      .(tlvs := seq(n, _ => Tlv(false, GRANT)))
  }

  function UnicastRequests(tlvs: seq<Tlv>): (n: nat)
    ensures n <= |tlvs|
  {
    if tlvs == [] then 0
    else UnicastRequests(tlvs[..|tlvs| - 1]) + if tlvs[|tlvs| - 1].body.RequestUnicast? then 1 else 0
  }

  // ---- Lookups

  function PortTime(now: u64, row: DbCache.Row): u64 {
    (now + row.offset) % TWO64
  }

  /** `ptp_get_port_time`: the clock plus the port's offset, 0 for an unknown port. */
  function ReadTime(world: World, env: Env, port: PortId): (r: (u64, Env))
    requires Usable(env)
    ensures Usable(r.1)
  {
    var (entry, found) := Fetch(world, env, port);
    if entry.Missing? then (0, found)
    else
      var (now, after) := Clock(world, found);
      (PortTime(now, entry.row), after)
  }

  /** `ptp_security_check_auth` for TLV `i` of a request that was received in `data`. */
  function Authorize(
    hmac: Hmac, world: World, env: Env, data: seq<u8>, request: Message, i: nat, port: PortId): (r: (int, Message, Env))
    requires Usable(env) && AllCheckable(data, request) && i < |request.tlvs|
    ensures Remarked(request, r.1) && Usable(r.2)
  {
    if request.tlvs[i].authenticated then (0, request, env)
    else
      var (entry, after) := Fetch(world, env, port);
      var (marked, code) := Authenticate(hmac, data, request, Call(i, entry, world(env.step).memory));
      (code, marked, after)
  }

  // ---- Management

  function DescriptionBody(row: DbCache.Row): TlvBody {
    var length := if |row.description| < USER_DESCRIPTION_SIZE then |row.description| else USER_DESCRIPTION_SIZE;
    ManagementTlv(UserDescriptionData(length, Described(row.description[..length])))
  }

  function Unsupported(id: u32): TlvBody {
    ErrorStatus(ERROR_NOT_SUPPORTED, id, Display("Unsupported action"))
  }

  function UnknownId(id: u32): TlvBody {
    ErrorStatus(ERROR_NOT_SUPPORTED, id, Display("Management ID not supported"))
  }

  function NoSuchPort(): TlvBody {
    ErrorStatus(ERROR_UNPOPULATED, ID_USER_DESCRIPTION, Display("No such port"))
  }

  function Denied(code: int): TlvBody {
    ErrorStatus(ManagementErrorId(code), 0, Display("Access denied"))
  }

  predicate IsQuestion(request: Message, i: nat) {
    request.payload.Management? && i < |request.tlvs| && request.tlvs[i].body.ManagementTlv?
  }

  /** The kinds of TLV that answer a management TLV. */
  predicate IsAnswer(body: TlvBody) {
    body.ErrorStatus? || (body.ManagementTlv? && !body.data.UnknownData?)
  }

  /** The answer to management TLV `i`, the request with its marks, and what is left of the world. */
  function AnswerTlv(
    hmac: Hmac, world: World, env: Env, data: seq<u8>, request: Message, i: nat): (r: (TlvBody, Message, Env))
    requires Usable(env) && AllCheckable(data, request) && IsQuestion(request, i)
    ensures Remarked(request, r.1) && Usable(r.2) && IsAnswer(r.0)
  {
    var target, action := request.payload.target, request.payload.action;
    match request.tlvs[i].body.data
    case UserDescriptionData(_, _) =>
      if action != ACTION_GET then (Unsupported(ID_USER_DESCRIPTION), request, env)
      else
        var (entry, found) := Fetch(world, env, target);
        if entry.Missing? then (NoSuchPort(), request, found)
        else
          var (code, marked, after) := Authorize(hmac, world, found, data, request, i, target);
          (if code != 0 then Denied(code) else DescriptionBody(entry.row), marked, after)
    case TimeData(_) =>
      if action != ACTION_GET then (Unsupported(ID_TIME), request, env)
      else
        var (time, after) := ReadTime(world, env, target);
        (ManagementTlv(TimeData(time)), request, after)
    case UnknownData(id) => (UnknownId(id), request, env)
  }

  /** The answers to the management TLVs among the first `n` TLVs. */
  function AnswerTlvs(
    hmac: Hmac, world: World, env: Env, data: seq<u8>, request: Message, n: nat): (r: (seq<Tlv>, Message, Env))
    requires Usable(env) && AllCheckable(data, request) && request.payload.Management? && n <= |request.tlvs|
    ensures Remarked(request, r.1) && Usable(r.2) && |r.0| <= n
    ensures forall k :: 0 <= k < |r.0| ==> r.0[k] == Tlv(false, r.0[k].body) && IsAnswer(r.0[k].body)
  {
    if n == 0 then ([], request, env)
    else
      var (answers, marked, before) := AnswerTlvs(hmac, world, env, data, request, n - 1);
      if !IsQuestion(marked, n - 1) then (answers, marked, before)
      else
        var (body, after, left) := AnswerTlv(hmac, world, before, data, marked, n - 1);
        (answers + [Tlv(false, body)], after, left)
  }

  predicate HasAnswer(answers: seq<Tlv>) {
    exists k :: 0 <= k < |answers| && answers[k].body.ManagementTlv?
  }

  /** The response is an error until some TLV has been answered. */
  function ManagementReply(request: Message, answers: seq<Tlv>): Message
    requires request.payload.Management?
  {
    FreshMessage(Management(request.portId, 0, 0, if HasAnswer(answers) then ACTION_RESPONSE else 0),
                 request.payload.target, request.sequenceId).(tlvs := answers)
  }

  function AuthBody(policy: u32): TlvBody {
    Authentication(policy, 0, 0, 0, HMAC_128_SIZE)
  }

  /** `ptp_security_add_auth_tlv`: no TLV for an unknown port, a plain password or a full message. */
  function Sign(world: World, env: Env, m: Message): (r: (Message, Env))
    requires Usable(env)
    ensures Usable(r.1)
  {
    var (entry, after) := Fetch(world, env, m.portId);
    if entry.Missing? || entry.row.policy == POLICY_PLAIN || |m.tlvs| >= MAX_TLV_COUNT then (m, after)
    else (WithTlv(m, AuthBody(entry.row.policy)), after)
  }

  predicate KnownPolicy(row: DbCache.Row) {
    row.policy == POLICY_NONE || row.policy == POLICY_PLAIN || row.policy == POLICY_HMAC_128
  }

  /** The lookups that complete the authentication TLVs among `tlvs`, until one of them fails. */
  function Lookups(world: World, env: Env, port: PortId, tlvs: seq<Tlv>): (r: (seq<Entry>, Env))
    requires Usable(env)
    ensures |r.0| == |tlvs| && Usable(r.1)
    decreases |tlvs|
  {
    if tlvs == [] then ([], env)
    else if !tlvs[0].body.Authentication? then
      var (rest, after) := Lookups(world, env, port, tlvs[1..]);
      ([Missing(0)] + rest, after)
    else
      var (entry, found) := Fetch(world, env, port);
      if entry.Missing? || !KnownPolicy(entry.row) then ([entry] + seq(|tlvs| - 1, _ => Missing(0)), found)
      else
        var (rest, after) := Lookups(world, found, port, tlvs[1..]);
        ([entry] + rest, after)
  }

  /** What finalizing `m` leaves of the world. */
  function AfterFinal(world: World, env: Env, m: Message): (after: Env)
    requires Usable(env)
    ensures Usable(after)
  {
    if MessageCells(m, BUFFER_SIZE).Err? then env
    else Lookups(world, env, m.portId, PtpRoundTrip.Delivered(m).tlvs).1
  }

  // ---- Signaling

  /** What became of one REQUEST_UNICAST TLV. */
  datatype Served = Served(code: int, granted: bool, message: Option<Message>, request: Message, env: Env)

  predicate AsksUnicast(request: Message, i: nat) {
    request.payload.Signaling? && i < |request.tlvs| && request.tlvs[i].body.RequestUnicast?
  }

  /** The message that a grant promises: a Sync (0x0) or an Announce (0xb). */
  function ServeGranted(
    world: World, env: Env, request: Message, kind: u32, room: nat): (r: (int, Option<Message>, Env))
    requires Usable(env) && request.payload.Signaling?
    ensures Usable(r.2) && (r.0 == 0 <==> r.1.Some?) && (r.1.Some? ==> room > 0)
  {
    var target, id := request.payload.target, request.sequenceId;
    if kind == 0x0 then
      if room == 0 then (ENOMEM, None, env)
      else
        var (now, after) := Clock(world, env);
        (0, Some(SyncMessage(target, id, now)), after)
    else
      var (entry, found) := Fetch(world, env, target);
      if entry.Missing? then (entry.code, None, found)
      else if room == 0 then (ENOMEM, None, found)
      else
        var (time, after) := ReadTime(world, found, target);
        (0, Some(AnnounceMessage(target, id, time, entry.row.offset)), after)
  }

  /** After authorization with result `code`: a denial, or a grant and the message that was asked for. */
  function ServeChecked(
    world: World, env: Env, request: Message, code: int, kind: u32, room: nat): (r: (int, bool, Option<Message>, Env))
    requires Usable(env) && request.payload.Signaling?
    ensures Usable(r.3) && (r.0 == 0 <==> r.2.Some?) && (r.2.Some? ==> room > 0)
  {
    if code != 0 then
      if room == 0 then (ENOMEM, false, None, env) else (0, false, Some(DeniedMessage(request, code)), env)
    else if kind != 0x0 && kind != 0xb then (EINVAL, false, None, env)
    else
      var (ret, message, after) := ServeGranted(world, env, request, kind, room);
      (ret, true, message, after)
  }

  /** One REQUEST_UNICAST TLV, with `room` buffers left. */
  function ServeUnicast(
    hmac: Hmac, world: World, env: Env, data: seq<u8>, request: Message, i: nat, room: nat): (s: Served)
    requires Usable(env) && AllCheckable(data, request) && AsksUnicast(request, i)
    ensures Remarked(request, s.request) && Usable(s.env)
    ensures s.code == 0 <==> s.message.Some?
    ensures s.message.Some? ==> room > 0
  {
    var (code, marked, checked) := Authorize(hmac, world, env, data, request, i, request.payload.target);
    var (ret, granted, message, after) :=
      ServeChecked(world, checked, request, code, request.tlvs[i].body.messageType, room);
    Served(ret, granted, message, marked, after)
  }

  function Messages(message: Option<Message>): seq<Message> {
    if message.Some? then [message.value] else []
  }

  datatype Serving = Serving(code: int, grants: nat, messages: seq<Message>, request: Message, env: Env)

  /** The REQUEST_UNICAST TLVs among the first `n` TLVs, until one fails. */
  function ServeTlvs(
    hmac: Hmac, world: World, env: Env, data: seq<u8>, request: Message, n: nat, room: nat): (s: Serving)
    requires Usable(env) && AllCheckable(data, request) && request.payload.Signaling? && n <= |request.tlvs|
    ensures Remarked(request, s.request) && Usable(s.env) && |s.messages| <= room && s.grants <= n
    ensures s.code == 0 ==> |s.messages| == UnicastRequests(request.tlvs[..n])
  {
    if n == 0 then Serving(0, 0, [], request, env)
    else
      var before := ServeTlvs(hmac, world, env, data, request, n - 1, room);
      assert request.tlvs[..n][..n - 1] == request.tlvs[..n - 1];
      if before.code != 0 || !AsksUnicast(before.request, n - 1) then before
      else
        var s := ServeUnicast(hmac, world, before.env, data, before.request, n - 1, room - |before.messages|);
        Serving(s.code, before.grants + (if s.granted then 1 else 0),
                before.messages + Messages(s.message), s.request, s.env)
  }

  // ---- Requests

  /** A response in the queue: finalized with a message, or never finalized. */
  datatype Response = Final(message: Message) | Draft

  datatype Outcome = Outcome(code: int, responses: seq<Response>, env: Env)

  function Finals(messages: seq<Message>): (responses: seq<Response>)
    ensures |responses| == |messages|
  {
    seq(|messages|, i requires 0 <= i < |messages| => Final(messages[i]))
  }

  function HandleSignaling(hmac: Hmac, world: World, env: Env, data: seq<u8>, request: Message, room: nat): (o: Outcome)
    requires Usable(env) && AllCheckable(data, request) && request.payload.Signaling?
    ensures Usable(o.env) && |o.responses| <= room
  {
    if room == 0 then Outcome(ENOMEM, [], env)
    else
      var s := ServeTlvs(hmac, world, env, data, request, |request.tlvs|, room - 1);
      Outcome(s.code, [if s.code != 0 then Draft else Final(GrantMessage(request, s.grants))] + Finals(s.messages),
              s.env)
  }

  function HandleManagement(
    hmac: Hmac, world: World, env: Env, data: seq<u8>, request: Message, room: nat): (o: Outcome)
    requires Usable(env) && AllCheckable(data, request) && request.payload.Management?
    ensures Usable(o.env) && |o.responses| <= room
  {
    if room == 0 then Outcome(ENOMEM, [], env)
    else
      var (answers, marked, answered) := AnswerTlvs(hmac, world, env, data, request, |request.tlvs|);
      var (m, signed) := Sign(world, answered, ManagementReply(request, answers));
      Outcome(0, [Final(m)], AfterFinal(world, signed, m))
  }

  /** The switch on the message type, with `room` buffers for responses. */
  function Handle(
    hmac: Hmac, world: World, env: Env, data: seq<u8>, portType: nat, arrival: u64, request: Message,
    room: nat): (o: Outcome)
    requires Usable(env) && AllCheckable(data, request)
    ensures Usable(o.env) && |o.responses| <= room
  {
    match request.payload
    case Event(kind, _, _) =>
      if kind == Sync || kind == DelayResponse then Outcome(0, [], env)
      else if kind != DelayRequest || portType != PORT_EVENT then Outcome(EINVAL, [], env)
      else if room == 0 then Outcome(ENOMEM, [], env)
      else Outcome(0, [Final(DelayAnswer(request, arrival))], env)
    case Announce(_, _, _, _, _, _, _) => Outcome(0, [], env)
    case Signaling(_) =>
      if portType != PORT_EVENT then Outcome(EINVAL, [], env)
      else HandleSignaling(hmac, world, env, data, request, room)
    case Management(_, _, _, _) =>
      if portType != PORT_GENERAL then Outcome(EINVAL, [], env)
      else HandleManagement(hmac, world, env, data, request, room)
    case UnknownPayload(_) => Outcome(EINVAL, [], env)
  }

  /**
   * Everything that is queued for a received message; a failure of any kind is
   * reported with a general error to whom the decoded struct names, `left`.
   */
  function Respond(
    hmac: Hmac, world: World, env: Env, data: seq<u8>, portType: nat, arrival: u64, decoded: Result<Message>,
    left: Leftover, room: nat): (o: Outcome)
    requires Usable(env) && (decoded.Ok? ==> AllCheckable(data, decoded.value))
    ensures Usable(o.env) && |o.responses| <= room
  {
    var handled :=
      if decoded.Err? then Outcome(ErrorCode(decoded.error), [], env)
      else Handle(hmac, world, env, data, portType, arrival, decoded.value, room);
    if handled.code == 0 then handled
    else if |handled.responses| == room then handled.(code := ENOMEM)
    else handled.(code := 0, responses := handled.responses + [Final(GeneralError(left.requester, left.sequenceId))])
  }
}
