/** What becomes of messages that the service does not answer, or fails to. */
module ServiceErrors {
  import opened Bytes
  import opened Wrappers
  import opened PtpMessage
  import opened PtpWire
  import opened PtpFormat
  import opened PtpSecurity
  import opened PtpAuthentication
  import opened PtpOverrun
  import opened Environment
  import opened Responses
  import opened ReplyProperties
  import opened ResponseBuffers
  import opened Leftovers
  import opened ServiceProperties
  import opened ServiceReplies
  import opened ServiceUnicast
  import PtpRoundTrip
  import DbCache

  /** "General error" for the requester, from nobody in particular. */
  predicate IsGeneralError(m: Message, requester: PortId, sequenceId: u16) {
    && HasServiceHeader(m) && m.portId == PortId(0xffff_ffff_ffff_ffff, 0xffff) && m.sequenceId == sequenceId
    && m.payload == Management(requester, 0, 0, 0) && |m.tlvs| == 2 && m.tlvs[1].body.Pad?
    && m.tlvs[0] == Tlv(false, ErrorStatus(0xfffe, 0, Display("General error")))
  }

  lemma ErrorDelivered(requester: PortId, sequenceId: u16)
    ensures MessageCells(GeneralError(requester, sequenceId), BUFFER_SIZE).Ok?
    ensures IsGeneralError(PtpRoundTrip.Delivered(GeneralError(requester, sequenceId)), requester, sequenceId)
  {
    hide MessageCells, Display;
    ErrorEncodes(requester, sequenceId, ERROR_GENERAL, 0, Display("General error"));
  }

  /** Whom a general error names: the header's port and sequence number, or what older messages have left of them. */
  predicate IsNamed(received: seq<u8>, left: Leftover, requester: PortId, sequenceId: u16) {
    if |received| < 34 then requester == left.requester && sequenceId == left.sequenceId
    else IsPort(received, 20, requester) && sequenceId == Number(received, 30, 2)
  }

  lemma HeaderIsNamed(received: seq<u8>, left: Leftover)
    ensures var after := AfterDecoding(left, received);
            IsNamed(received, left, after.requester, after.sequenceId)
  {
    hide DecodePayload, IsPort, GetPortId, Number;
    if |received| >= 34 {
      PortIs(received, 20);
      Number2(received, 30);
    }
  }

  /** Messages that arrive at the wrong port, and those that nobody should send to the service. */
  predicate Unexpected(m: Message, portType: nat) {
    match m.payload
    case Event(kind, _, _) => kind != Sync && kind != DelayResponse && (kind != DelayRequest || portType != 0)
    case Announce(_, _, _, _, _, _, _) => false
    case Signaling(_) => portType != 0
    case Management(_, _, _, _) => portType != 1
    case UnknownPayload(_) => true
  }

  lemma UnexpectedLeadsTo(
    hmac: Hmac, world: World, env: Env, data: seq<u8>, portType: nat, arrival: u64, decoded: Result<Message>,
    left: Leftover, room: nat)
    requires Usable(env) && (decoded.Ok? ==> AllCheckable(data, decoded.value)) && room > 0
    requires decoded.Err? || Unexpected(decoded.value, portType)
    ensures Respond(hmac, world, env, data, portType, arrival, decoded, left, room).responses
         == [Final(GeneralError(left.requester, left.sequenceId))]
  {
    hide GeneralError, AllCheckable, HandleSignaling, HandleManagement;
  }

  /** What cannot be decoded or is not expected leads to a general error, and to nothing else. */
  lemma UnexpectedIsReported(
    hmac: Hmac, latest: map<PortId, DbCache.Row>, world: World, env: Env, left: Leftover, portType: nat,
    received: seq<u8>, room: nat, before: seq<nat>, queue: seq<nat>, infos: map<nat, Info>, meant: map<nat, Message>)
    returns (m: Message)
    requires Usable(env) && |received| <= BUFFER_SIZE && portType <= PORT_GENERAL && room > 0
    requires var decoded := DecodedAt(world, env, left, portType, received);
             decoded.Err? || Unexpected(decoded.value, portType)
    requires Queued(hmac, latest, before, queue, infos, meant,
                    Reception(hmac, world, env, left, portType, Some(received), room).responses)
    ensures |queue| == |before| + 1 && queue[|before|] in infos && Tells(infos[queue[|before|]], m)
    ensures exists requester: PortId :: IsNamed(received, left, requester, m.sequenceId)
                                        && IsGeneralError(m, requester, m.sequenceId)
  {
    hide DecodedAt, Queued, Reception, Respond, ReceiveBuffer, AllCheckable, AfterDecoding, Tells, MessageCells,
      GeneralError, IsGeneralError, IsNamed, Usable, Unexpected, PtpRoundTrip.Delivered;
    var after := AfterDecoding(left, received);
    ReceptionIs(hmac, world, env, left, portType, received, room);
    UnexpectedLeadsTo(hmac, world, env.(step := env.step + 1), ReceiveBuffer(received, world(env.step).memory),
                      portType, world(env.step).now, DecodedAt(world, env, left, portType, received), after, room);
    ErrorDelivered(after.requester, after.sequenceId);
    HeaderIsNamed(received, left);
    var responses := Reception(hmac, world, env, left, portType, Some(received), room).responses;
    ResponseIsTold(hmac, latest, before, queue, infos, meant, responses, 0);
    QueuedLength(hmac, latest, before, queue, infos, meant, responses);
    m := PtpRoundTrip.Delivered(GeneralError(after.requester, after.sequenceId));
    ErrorNames(m, after.requester, after.sequenceId);
  }

  lemma ErrorNames(m: Message, requester: PortId, sequenceId: u16)
    requires IsGeneralError(m, requester, sequenceId)
    ensures m.sequenceId == sequenceId
  {}

  /** Syncs, delay responses and announcements are ignored. */
  lemma IgnoredIsSilent(
    hmac: Hmac, world: World, env: Env, left: Leftover, portType: nat, received: seq<u8>, room: nat)
    requires Usable(env) && |received| <= BUFFER_SIZE && portType <= PORT_GENERAL
    requires DecodedAt(world, env, left, portType, received).Ok?
    requires match DecodedAt(world, env, left, portType, received).value.payload
             case Event(kind, _, _) => kind == Sync || kind == DelayResponse
             case payload => payload.Announce?
    ensures Reception(hmac, world, env, left, portType, Some(received), room).responses == []
  {
    hide DecodedAt, Reception, ReceiveBuffer, AllCheckable, AfterDecoding, HandleSignaling, HandleManagement,
      GeneralError;
    ReceptionIs(hmac, world, env, left, portType, received, room);
  }

  /**
   * A signaling request that fails: its response is left unfinalized in front of the
   * messages that have been served before, and a general error follows if there is
   * a buffer left for it.
   */
  lemma SignalingFailureIsReported(
    hmac: Hmac, world: World, env: Env, left: Leftover, received: seq<u8>, room: nat, before: seq<nat>,
    queue: seq<nat>, infos: map<nat, Info>, meant: map<nat, Message>)
    returns (m: Message)
    requires DbCache.Coherent(env.db) && Usable(env) && |received| <= BUFFER_SIZE && room > 0
    requires DecodedAt(world, env, left, PORT_EVENT, received).Ok?
    requires DecodedAt(world, env, left, PORT_EVENT, received).value.payload.Signaling?
    requires ServesAt(hmac, world, env, left, received,
                      |DecodedAt(world, env, left, PORT_EVENT, received).value.tlvs|, room).code != 0
    requires Queued(hmac, env.db.latest, before, queue, infos, meant,
                    Reception(hmac, world, env, left, PORT_EVENT, Some(received), room).responses)
    ensures var messages := ServesAt(hmac, world, env, left, received,
                                     |DecodedAt(world, env, left, PORT_EVENT, received).value.tlvs|, room).messages;
            var o := Reception(hmac, world, env, left, PORT_EVENT, Some(received), room);
            && |o.responses| == |queue| - |before| >= 1 + |messages| && o.responses[0] == Draft
            && o.responses[1..1 + |messages|] == Finals(messages)
            && (1 + |messages| == room ==> |queue| == |before| + room)
            && (1 + |messages| < room ==>
                  && |queue| == |before| + |messages| + 2 && queue[|queue| - 1] in infos
                  && Tells(infos[queue[|queue| - 1]], m)
                  && exists requester: PortId ::
                       IsNamed(received, left, requester, m.sequenceId) && IsGeneralError(m, requester, m.sequenceId))
  {
    hide DecodedAt, Queued, Reception, Respond, ReceiveBuffer, AllCheckable, AfterDecoding, Tells, MessageCells,
      GeneralError, IsGeneralError, IsNamed, Usable, PtpRoundTrip.Delivered, ServeTlvs, Finals, DbCache.Coherent;
    var arrived, data := env.(step := env.step + 1), ReceiveBuffer(received, world(env.step).memory);
    var request := DecodedAt(world, env, left, PORT_EVENT, received).value;
    var after := AfterDecoding(left, received);
    SameDbIsCoherent(env, arrived);
    ReceptionIs(hmac, world, env, left, PORT_EVENT, received, room);
    SignalingFails(hmac, world, arrived, data, world(env.step).now, request, after, room);
    ErrorDelivered(after.requester, after.sequenceId);
    HeaderIsNamed(received, left);
    var messages := ServeTlvs(hmac, world, arrived, data, request, |request.tlvs|, room - 1).messages;
    var responses := Reception(hmac, world, env, left, PORT_EVENT, Some(received), room).responses;
    QueuedLength(hmac, env.db.latest, before, queue, infos, meant, responses);
    if 1 + |messages| < room {
      ResponseIsTold(hmac, env.db.latest, before, queue, infos, meant, responses, 1 + |messages|);
    }
    m := PtpRoundTrip.Delivered(GeneralError(after.requester, after.sequenceId));
    ErrorNames(m, after.requester, after.sequenceId);
  }

  lemma SignalingFails(
    hmac: Hmac, world: World, env: Env, data: seq<u8>, arrival: u64, request: Message, left: Leftover, room: nat)
    requires Usable(env) && AllCheckable(data, request) && request.payload.Signaling? && room > 0
    requires ServeTlvs(hmac, world, env, data, request, |request.tlvs|, room - 1).code != 0
    ensures var messages := ServeTlvs(hmac, world, env, data, request, |request.tlvs|, room - 1).messages;
            Respond(hmac, world, env, data, PORT_EVENT, arrival, Ok(request), left, room).responses
            == [Draft] + Finals(messages)
               + if 1 + |messages| < room then [Final(GeneralError(left.requester, left.sequenceId))] else []
  {
    hide ServeTlvs, GrantMessage, GeneralError, AllCheckable, Finals;
  }
}
