/**
 * What a client gets back: which queued responses leave in an event, and what
 * the answers to delay requests, to questions for the time and for a description
 * decode to. All of it is about what `Server.Poll` promises.
 */
module ServiceProperties {
  import opened Bytes
  import opened Wrappers
  import opened PtpMessage
  import opened PtpWire
  import opened PtpSecurity
  import opened PtpAuthentication
  import opened PtpOverrun
  import opened Environment
  import opened Responses
  import opened ReplyProperties
  import opened ResponseBuffers
  import opened Leftovers
  import PtpAcceptance
  import PtpCoverage
  import PtpSigned
  import PtpRoundTrip
  import DbCache

  // ---- Sending

  /** Response `i` of the queue is finalized, and handed to the socket without an error. */
  predicate Leaves(world: World, step: nat, infos: map<nat, Info>, item: nat, i: nat) {
    item in infos && Length(infos[item]) > 0 && world(step + 2 * i + 1).sends
  }

  lemma DrainFirst(world: World, step: nat, infos: map<nat, Info>, queue: seq<nat>)
    requires Drain(world, step, infos, queue).0 > 0
    ensures queue != [] && queue[0] in infos
    ensures var (n, end, out) := Drain(world, step, infos, queue);
            if Leaves(world, step, infos, queue[0], 0) then
              var (m, end', rest) := Drain(world, step + 2, infos, queue[1..]);
              n == m + 1 && out == [WireBytes(infos[queue[0]], world(step + 1).memory)] + rest
            else
              && n == 1
              && out == if Length(infos[queue[0]]) > 0 then [WireBytes(infos[queue[0]], world(step + 1).memory)] else []
  {
    hide Length, WireBytes;
  }

  lemma LeavesLater(world: World, step: nat, infos: map<nat, Info>, item: nat, i: nat)
    requires i > 0
    ensures Leaves(world, step + 2, infos, item, i - 1) == Leaves(world, step, infos, item, i)
  {
    hide Length;
    assert step + 2 + 2 * (i - 1) + 1 == step + 2 * i + 1;
  }

  lemma {:induction false} DrainAt(world: World, step: nat, infos: map<nat, Info>, queue: seq<nat>, i: nat)
    requires i < Drain(world, step, infos, queue).0
    ensures var (n, _, out) := Drain(world, step, infos, queue);
            && n - 1 <= |out| <= n && queue[i] in infos
            && (i < n - 1 ==> Leaves(world, step, infos, queue[i], i))
            && (i == n - 1 && n < |queue| && queue[n] in infos ==> !Leaves(world, step, infos, queue[i], i))
            && (i < |out| <==> Length(infos[queue[i]]) > 0)
            && (i < |out| ==> out[i] == WireBytes(infos[queue[i]], world(step + 2 * i + 1).memory))
    decreases |queue|
  {
    hide Length, WireBytes, Drain;
    DrainFirst(world, step, infos, queue);
    if Leaves(world, step, infos, queue[0], 0) {
      var m := Drain(world, step + 2, infos, queue[1..]).0;
      if m > 0 { DrainAt(world, step + 2, infos, queue[1..], if i > 0 then i - 1 else 0); }
      if m == 0 { NoneDrained(world, step + 2, infos, queue[1..]); }
      if i > 0 { LeavesLater(world, step, infos, queue[i], i); }
    }
  }

  lemma NoneDrained(world: World, step: nat, infos: map<nat, Info>, queue: seq<nat>)
    requires Drain(world, step, infos, queue).0 == 0
    ensures (queue == [] || queue[0] !in infos) && Drain(world, step, infos, queue).2 == []
  {
    hide Length, WireBytes;
  }

  /**
   * Sending stops behind the first response that is not finalized or that the
   * socket refuses, and only there; until then one datagram leaves for each
   * response, in order.
   */
  lemma DrainStops(world: World, step: nat, infos: map<nat, Info>, queue: seq<nat>)
    requires forall i :: 0 <= i < |queue| ==> queue[i] in infos
    ensures var (n, _, out) := Drain(world, step, infos, queue);
            && (forall i :: 0 <= i < n - 1 ==> Leaves(world, step, infos, queue[i], i))
            && (n < |queue| ==> n > 0 && !Leaves(world, step, infos, queue[n - 1], n - 1))
            && |out| == (if n > 0 && Length(infos[queue[n - 1]]) <= 0 then n - 1 else n)
            && forall i :: 0 <= i < |out| ==>
                 Length(infos[queue[i]]) > 0 && out[i] == WireBytes(infos[queue[i]], world(step + 2 * i + 1).memory)
  {
    hide Length, WireBytes, Leaves;
    var (n, _, out) := Drain(world, step, infos, queue);
    if queue == [] { return; }
    DrainTakesOne(world, step, infos, queue);
    hide Drain;
    DrainAt(world, step, infos, queue, n - 1);
    forall i | 0 <= i < n
      ensures i < n - 1 ==> Leaves(world, step, infos, queue[i], i)
      ensures i < |out| <==> Length(infos[queue[i]]) > 0
      ensures i < |out| ==> out[i] == WireBytes(infos[queue[i]], world(step + 2 * i + 1).memory)
    {
      DrainAt(world, step, infos, queue, i);
    }
  }

  lemma DrainTakesOne(world: World, step: nat, infos: map<nat, Info>, queue: seq<nat>)
    requires queue != [] && queue[0] in infos
    ensures Drain(world, step, infos, queue).0 > 0
  {}

  // ---- What a client decodes

  /** Whoever receives the response decodes `m`. */
  ghost predicate Tells(info: Info, m: Message) {
    && 0 < Length(info) <= BUFFER_SIZE
    && forall memory: Memory :: DecodeMessage(WireBytes(info, memory)) == Ok(m)
  }

  lemma CarriesTells(info: Info, m: Message)
    requires Carries(info, m)
    ensures Tells(info, PtpRoundTrip.Delivered(m))
  {
    hide DecodeMessage, PtpRoundTrip.Delivered, GetLe16;
    forall memory: Memory
      ensures WireBytes(info, memory) == info.block[..Length(info)]
    {
    }
  }

  /** The only response of an event, behind whatever has been queued before; with an empty queue it leaves at once. */
  lemma ReplyIsSent(
    hmac: Hmac, latest: map<PortId, DbCache.Row>, world: World, step: nat, before: seq<nat>, queue: seq<nat>,
    infos: map<nat, Info>, meant: map<nat, Message>, m: Message)
    requires Queued(hmac, latest, before, queue, infos, meant, [Final(m)]) && MessageCells(m, BUFFER_SIZE).Ok?
    ensures |queue| == |before| + 1 && queue[|before|] in infos
    ensures Tells(infos[queue[|before|]], PtpRoundTrip.Delivered(m))
    ensures before == [] ==>
              var (n, _, out) := Drain(world, step, infos, queue);
              n == 1 && out == [WireBytes(infos[queue[0]], world(step + 1).memory)]
  {
    hide Carries, Authentic, MessageCells, PtpRoundTrip.Delivered, Tells, Length, WireBytes;
    var responses := [Final(m)];
    assert Holds(hmac, latest, infos, meant, queue[|before| + 0], responses[0]);
    CarriesTells(infos[queue[|before|]], m);
    TellsSomething(infos[queue[|before|]], PtpRoundTrip.Delivered(m));
    if before == [] {
      assert queue[1..] == [];
    }
  }

  lemma TellsSomething(info: Info, m: Message)
    requires Tells(info, m)
    ensures Length(info) > 0
  {}

  /** The request as the handlers get it. */
  function Accepted(received: seq<u8>, left: Leftover): (request: Message)
    requires |received| <= BUFFER_SIZE && DecodeMessage(received).Ok?
  {
    var m := DecodeMessage(received).value;
    m.(payload := WithPort(m.payload, left.payload))
  }

  /** What a receiver accepts, the service accepts, with the port that is left if an event has none. */
  lemma DecodedAlike(
    hmac: Hmac, world: World, env: Env, left: Leftover, portType: nat, received: seq<u8>, room: nat)
    requires Usable(env) && portType <= PORT_GENERAL && |received| <= BUFFER_SIZE && DecodeMessage(received).Ok?
    ensures var data, request := ReceiveBuffer(received, world(env.step).memory), Accepted(received, left);
            var (now, after) := Clock(world, env);
            && Usable(after) && AllCheckable(data, request)
            && Reception(hmac, world, env, left, portType, Some(received), room)
               == Respond(hmac, world, after, data, portType, now, Ok(request), AfterDecoding(left, received), room)
  {
    hide DecodeMessage, PtpSigned.DecodeMessage, Respond, AfterDecoding, Checkable, ReceiveBuffer;
    PtpSigned.CopiesAgree(received);
    var request := Over(left, portType, received, world(env.step).memory).(timestamp := world(env.step).now);
    assert Datagram(request) == received;
    assert Decoding(request, world(env.step + 1).wild) == Ok(Accepted(received, left));
  }

  /** The header that the service gives to everything it sends. */
  predicate HasServiceHeader(m: Message) {
    && m.sdoId == 0xffd && m.domain == 128 && m.flags == 4 && m.correction == 0 && m.control == 0
    && m.logInterval == 0x7f && !m.authenticated
  }

  /**
   * A delay request on the event port is answered with the clock reading at its
   * arrival, and with the port that an older message has left in its struct.
   */
  lemma DelayRequestIsAnswered(
    hmac: Hmac, latest: map<PortId, DbCache.Row>, world: World, env: Env, left: Leftover, received: seq<u8>, room: nat,
    before: seq<nat>, step: nat, queue: seq<nat>, infos: map<nat, Info>, meant: map<nat, Message>)
    requires Usable(env) && |received| <= BUFFER_SIZE && DecodeMessage(received).Ok? && room > 0
    requires var request := DecodeMessage(received).value;
             request.payload.Event? && request.payload.kind == DelayRequest
    requires Queued(hmac, latest, before, queue, infos, meant,
                    Reception(hmac, world, env, left, PORT_EVENT, Some(received), room).responses)
    ensures |queue| == |before| + 1 && queue[|before|] in infos
    ensures var request := Accepted(received, left);
            && request.payload.Event?
            && var m := PtpRoundTrip.Delivered(DelayAnswer(request, world(env.step).now));
            && Tells(infos[queue[|before|]], m)
            && m.payload == Event(DelayResponse, world(env.step).now, request.portId)
            && m.sequenceId == request.sequenceId && m.portId == EventPort(left.payload) && HasServiceHeader(m)
    ensures before == [] ==>
              var (n, _, out) := Drain(world, step, infos, queue);
              n == 1 && out == [WireBytes(infos[queue[0]], world(step + 1).memory)]
  {
    hide DecodeMessage, AllCheckable, Queued, MessageCells, Tells, Drain, WireBytes, Length, Reception, AfterDecoding,
      EventPort, PtpRoundTrip.Delivered;
    DecodedAlike(hmac, world, env, left, PORT_EVENT, received, room);
    var request, now := Accepted(received, left), world(env.step).now;
    var answer := DelayAnswer(request, now);
    EventEncodes(answer);
    DelayAnswerArrives(request, now);
    ReplyIsSent(hmac, latest, world, step, before, queue, infos, meant, answer);
  }

  lemma DelayAnswerArrives(request: Message, arrival: u64)
    requires request.payload.Event?
    ensures var m := PtpRoundTrip.Delivered(DelayAnswer(request, arrival));
            && m.payload == Event(DelayResponse, arrival, request.portId)
            && m.sequenceId == request.sequenceId && m.portId == request.payload.portId && HasServiceHeader(m)
  {}

  lemma TimeReplyFits(m: Message, time: u64)
    requires m.payload.Management? && AnswersOnly(m, ManagementTlv(TimeData(time)))
    ensures MessageCells(m, BUFFER_SIZE).Ok?
  {
    hide MessageCells, TimestampCells, PortIdCells;
    var body := ManagementTlv(TimeData(time));
    if |m.tlvs| == 1 {
      OneTlvEncodes(m, body);
    } else {
      TwoTlvsEncode(m, body, m.tlvs[1].body);
    }
  }

  lemma TimeReplyArrives(request: Message, m: Message, time: u64)
    requires request.payload.Management? && AnswersOnly(m, ManagementTlv(TimeData(time)))
    requires m.payload == Management(request.portId, 0, 0, ACTION_RESPONSE)
    requires m.portId == request.payload.target && m.sequenceId == request.sequenceId
    ensures TellsTime(request, PtpRoundTrip.Delivered(m), time)
  {}

  /** The answer to a GET of the TIME, as a client decodes it. */
  predicate TellsTime(request: Message, m: Message, time: u64) {
    && request.payload.Management?
    && m.payload == Management(request.portId, 0, 0, ACTION_RESPONSE) && m.sequenceId == request.sequenceId
    && m.portId == request.payload.target
    && m.tlvs != [] && m.tlvs[0] == Tlv(false, ManagementTlv(TimeData(time)))
  }

  predicate AsksTime(request: Message, i: nat) {
    OnlyQuestion(request, i) && request.tlvs[i].body.data.TimeData? && request.payload.action == ACTION_GET
  }

  lemma AsksTimeIs(request: Message, i: nat)
    requires AsksTime(request, i)
    ensures OnlyQuestion(request, i) && i < |request.tlvs| && request.tlvs[i].body.ManagementTlv?
    ensures request.tlvs[i].body.data.TimeData? && request.payload.Management? && request.payload.action == ACTION_GET
  {}

  lemma TimeReply(
    hmac: Hmac, world: World, env: Env, left: Leftover, received: seq<u8>, room: nat, i: nat)
    returns (reply: Message)
    requires Usable(env) && |received| <= BUFFER_SIZE && DecodeMessage(received).Ok? && room > 0
    requires AsksTime(DecodeMessage(received).value, i)
    ensures Reception(hmac, world, env, left, PORT_GENERAL, Some(received), room).responses == [Final(reply)]
    ensures MessageCells(reply, BUFFER_SIZE).Ok? && Usable(env.(step := env.step + 1))
    ensures var request := DecodeMessage(received).value;
            TellsTime(request, PtpRoundTrip.Delivered(reply),
                      ReadTime(world, env.(step := env.step + 1), request.payload.target).0)
  {
    var arrived, data := env.(step := env.step + 1), ReceiveBuffer(received, world(env.step).memory);
    assert Usable(arrived);
    hide *;
    var request := DecodeMessage(received).value;
    AsksTimeIs(request, i);
    ReceptionOfManagement(hmac, world, env, left, received, room);
    TimeIsAnswered(hmac, world, arrived, data, request, i, room);
    var time := ReadTime(world, arrived, request.payload.target).0;
    var responses := HandleManagement(hmac, world, arrived, data, request, room).responses;
    reply := responses[0].message;
    assert responses == [Final(reply)];
    TimeReplyFits(reply, time);
    TimeReplyArrives(request, reply, time);
  }

  /**
   * A GET of the TIME on the general port is answered with the reading of the
   * clock two steps after the arrival plus the offset with which the port was
   * registered last, and with 0 if the lookup in between finds no such port. With
   * the offset `start - created` the time is the start plus what has elapsed since
   * the creation.
   */
  lemma TimeRequestIsAnswered(
    hmac: Hmac, world: World, env: Env, left: Leftover, received: seq<u8>, room: nat, before: seq<nat>, step: nat,
    queue: seq<nat>, infos: map<nat, Info>, meant: map<nat, Message>, i: nat, start: u64, created: u64)
    returns (m: Message)
    requires DbCache.Coherent(env.db) && |received| <= BUFFER_SIZE && DecodeMessage(received).Ok? && room > 0
    requires AsksTime(DecodeMessage(received).value, i)
    requires Queued(hmac, env.db.latest, before, queue, infos, meant,
                    Reception(hmac, world, env, left, PORT_GENERAL, Some(received), room).responses)
    ensures |queue| == |before| + 1 && queue[|before|] in infos && Tells(infos[queue[|before|]], m)
    ensures var request, arrived := DecodeMessage(received).value, env.(step := env.step + 1);
            var target := request.payload.target;
            && (IsStored(world, arrived, target) ==> Fetch(world, arrived, target).0.Found?)
            && if Fetch(world, arrived, target).0.Missing? then TellsTime(request, m, 0)
               else
                 && target in env.db.latest
                 && var row, now := env.db.latest[target], world(env.step + 2).now;
                 && TellsTime(request, m, PortTime(now, row))
                 && (row.offset == (start - created) % TWO64 ==>
                     PortTime(now, row) == (start + (now - created)) % TWO64)
    ensures before == [] ==>
              var (n, _, out) := Drain(world, step, infos, queue);
              n == 1 && out == [WireBytes(infos[queue[0]], world(step + 1).memory)]
  {
    hide DecodeMessage, AsksTime, Queued, Reception, Tells, TellsTime, Drain, MessageCells, Fetch, DbCache.Coherent,
      IsStored, ReadTime, PtpRoundTrip.Delivered, WireBytes, PortTime;
    var request := DecodeMessage(received).value;
    var arrived := env.(step := env.step + 1);
    SameDbIsCoherent(env, arrived);
    var reply := TimeReply(hmac, world, env, left, received, room, i);
    ReplyIsSent(hmac, env.db.latest, world, step, before, queue, infos, meant, reply);
    m := PtpRoundTrip.Delivered(reply);
    AsksTimeIs(request, i);
    var target := request.payload.target;
    if IsStored(world, arrived, target) { StoredIsFound(world, arrived, target); }
    TimeIsClockPlusOffset(world, arrived, target);
    if Fetch(world, arrived, target).0.Found? {
      TimeSinceCreation(world(env.step + 2).now, env.db.latest[target], start, created);
    }
  }

  lemma SameDbIsCoherent(a: Env, b: Env)
    requires DbCache.Coherent(a.db) && b.db == a.db
    ensures DbCache.Coherent(b.db) && Usable(a) && Usable(b)
  {}

  lemma ReceptionOfManagement(
    hmac: Hmac, world: World, env: Env, left: Leftover, received: seq<u8>, room: nat)
    requires Usable(env) && |received| <= BUFFER_SIZE && DecodeMessage(received).Ok? && room > 0
    requires DecodeMessage(received).value.payload.Management?
    ensures var request, data := DecodeMessage(received).value, ReceiveBuffer(received, world(env.step).memory);
            && AllCheckable(data, request) && Usable(env.(step := env.step + 1))
            && Reception(hmac, world, env, left, PORT_GENERAL, Some(received), room)
               == HandleManagement(hmac, world, env.(step := env.step + 1), data, request, room)
  {
    hide AllCheckable, AnswerTlvs, Sign, AfterFinal, ManagementReply, DecodeMessage, Reception, AfterDecoding;
    DecodedAlike(hmac, world, env, left, PORT_GENERAL, received, room);
  }

  // ---- Descriptions

  lemma {:induction false} WireTlvOf(tlvs: seq<Tlv>, at: nat, i: nat) returns (at': nat)
    requires i < |tlvs|
    ensures PtpRoundTrip.WireTlvs(tlvs, at)[i] == Tlv(false, PtpRoundTrip.WireBody(tlvs[i].body, at'))
    decreases |tlvs|
  {
    hide PtpRoundTrip.WireBody, PtpRoundTrip.TlvSize;
    at' := at;
    if i > 0 { at' := WireTlvOf(tlvs[1..], at + PtpRoundTrip.TlvSize(tlvs[0].body), i - 1); }
  }

  lemma WireDescription(body: TlvBody, at: nat)
    ensures IsDescription(PtpRoundTrip.WireBody(body, at)) ==> IsDescription(body)
  {}

  lemma DescriptionTravels(body: TlvBody, description: seq<u8>, at: nat)
    requires Describes(body, description)
    ensures PtpRoundTrip.WireBody(body, at) == body
  {
    assert Described(body.data.data[..body.data.length]) == body.data.data;
  }

  /** A description that a client decodes is one that the service put into its message. */
  lemma DeliveredDescription(m: Message, i: nat) returns (at: nat)
    requires i < |PtpRoundTrip.Delivered(m).tlvs| && IsDescription(PtpRoundTrip.Delivered(m).tlvs[i].body)
    ensures i < |m.tlvs| && IsDescription(m.tlvs[i].body)
    ensures PtpRoundTrip.Delivered(m).tlvs[i].body == PtpRoundTrip.WireBody(m.tlvs[i].body, at)
  {
    hide PtpRoundTrip.WireBody, PtpRoundTrip.TlvSize;
    if i < |m.tlvs| {
      at := WireTlvOf(m.tlvs, HEADER_SIZE + PtpRoundTrip.PayloadSize(m.payload), i);
      WireDescription(m.tlvs[i].body, at);
    }
  }

  /** The authentication TLV behind TLV `i` covers it, unless a long pad has sent the decoder back. */
  predicate CoveredBehind(received: seq<u8>, request: Message, i: nat)
    requires |received| <= BUFFER_SIZE && i < |request.tlvs|
  {
    || PtpCoverage.GoesBack(received)
    || (PtpCoverage.IsAccepted(received)
        && PtpCoverage.Covers(received, i, NextAuthentication(request.tlvs, i + 1)))
  }

  /** The TLVs of a request are those that the decoder has found, if it has not gone back. */
  lemma DecodingCovers(request: Request, wild: Result<seq<Tlv>>, i: nat)
    requires Buffered(request) && Decoding(request, wild).Ok?
    requires var m := Decoding(request, wild).value;
             i < |m.tlvs| && NextAuthentication(m.tlvs, i + 1) < |m.tlvs|
    ensures CoveredBehind(Datagram(request), Decoding(request, wild).value, i)
  {
    hide PtpSigned.DecodeMessage, PtpCoverage.GoesBack, PtpCoverage.Covers, PtpCoverage.NoLongPad, Received;
    var d, m := Datagram(request), Decoding(request, wild).value;
    PtpCoverage.GoesBackIff(d);
    if !PtpCoverage.GoesBack(d) {
      PtpCoverage.CoveredUnlessLongPad(d, i, NextAuthentication(m.tlvs, i + 1));
    }
  }

  /** Everything that a client is told about ports. */
  ghost predicate TellsClientWhatItMay(
    hmac: Hmac, world: World, latest: map<PortId, DbCache.Row>, data: seq<u8>, received: seq<u8>, request: Message,
    m: Message, from: nat, to: nat)
    requires AllCheckable(data, request) && |received| <= BUFFER_SIZE
  {
    forall k :: 0 <= k < |m.tlvs| && IsDescription(m.tlvs[k].body) ==>
      && request.payload.Management?
      && exists i: nat ::
           && EntitledBy(hmac, world, latest, data, request, m.tlvs[k].body, i, from, to)
           && CoveredBehind(received, request, i)
  }

  lemma DeliveredTellsNoMore(
    hmac: Hmac, world: World, latest: map<PortId, DbCache.Row>, request: Request, wild: Result<seq<Tlv>>, m: Message,
    from: nat, to: nat)
    requires Buffered(request) && Decoding(request, wild).Ok?
    requires AllCheckable(request.data, Decoding(request, wild).value)
    requires TellsWhatItMay(hmac, world, latest, request.data, Decoding(request, wild).value, Final(m), from, to)
    ensures TellsClientWhatItMay(hmac, world, latest, request.data, Datagram(request), Decoding(request, wild).value,
                                 PtpRoundTrip.Delivered(m), from, to)
  {
    hide PtpRoundTrip.Delivered, PtpRoundTrip.WireBody, AllCheckable, DescriptionBody, AcceptedBehind, Decoding,
      CoveredBehind, Buffered;
    var d, message := PtpRoundTrip.Delivered(m), Decoding(request, wild).value;
    forall k | 0 <= k < |d.tlvs| && IsDescription(d.tlvs[k].body)
      ensures message.payload.Management?
      ensures exists i: nat ::
                && EntitledBy(hmac, world, latest, request.data, message, d.tlvs[k].body, i, from, to)
                && CoveredBehind(Datagram(request), message, i)
    {
      var at := DeliveredDescription(m, k);
      assert Entitled(hmac, world, latest, request.data, message, m.tlvs[k].body, from, to);
      DescriptionTravels(m.tlvs[k].body, latest[message.payload.target].description, at);
      var i: nat :| EntitledBy(hmac, world, latest, request.data, message, m.tlvs[k].body, i, from, to);
      AcceptedIsCovered(hmac, world, latest[message.payload.target], request, wild, i, from, to);
    }
  }

  lemma AcceptedIsCovered(
    hmac: Hmac, world: World, row: DbCache.Row, request: Request, wild: Result<seq<Tlv>>, i: nat, from: nat, to: nat)
    requires Buffered(request) && Decoding(request, wild).Ok?
    requires AllCheckable(request.data, Decoding(request, wild).value) && i < |Decoding(request, wild).value.tlvs|
    requires AcceptedBehind(hmac, world, row, request.data, Decoding(request, wild).value, i, from, to)
    ensures CoveredBehind(Datagram(request), Decoding(request, wild).value, i)
  {
    hide Decoding, PtpAcceptance.Passes, CoveredBehind, Checkable;
    DecodingCovers(request, wild, i);
  }

  /** Response `k` of an event that has been queued behind `before`. */
  lemma ResponseIsTold(
    hmac: Hmac, latest: map<PortId, DbCache.Row>, before: seq<nat>, queue: seq<nat>, infos: map<nat, Info>,
    meant: map<nat, Message>, responses: seq<Response>, k: nat)
    requires Queued(hmac, latest, before, queue, infos, meant, responses)
    requires k < |responses| && responses[k].Final? && MessageCells(responses[k].message, BUFFER_SIZE).Ok?
    ensures |before| + k < |queue| && queue[|before| + k] in infos
    ensures Tells(infos[queue[|before| + k]], PtpRoundTrip.Delivered(responses[k].message))
  {
    hide Carries, Authentic, MessageCells, PtpRoundTrip.Delivered, Tells;
    assert Holds(hmac, latest, infos, meant, queue[|before| + k], responses[k]);
    CarriesTells(infos[queue[|before| + k]], responses[k].message);
  }

  /** A request right after its arrival. */
  function Arrived(world: World, env: Env, left: Leftover, portType: nat, received: seq<u8>): (request: Request)
    requires |received| <= BUFFER_SIZE && portType <= PORT_GENERAL
    ensures Buffered(request) && Datagram(request) == received
    ensures request.data == ReceiveBuffer(received, world(env.step).memory)
  {
    Over(left, portType, received, world(env.step).memory).(timestamp := world(env.step).now)
  }

  /** What the handlers make of it. */
  function DecodedAt(world: World, env: Env, left: Leftover, portType: nat, received: seq<u8>): (r: Result<Message>)
    requires |received| <= BUFFER_SIZE && portType <= PORT_GENERAL
    ensures r.Ok? ==> AllCheckable(ReceiveBuffer(received, world(env.step).memory), r.value)
    ensures r.Ok? ==>
              |r.value.tlvs| <= MAX_TLV_COUNT && forall i :: 0 <= i < |r.value.tlvs| ==> !r.value.tlvs[i].authenticated
  {
    Decoding(Arrived(world, env, left, portType, received), world(env.step + 1).wild)
  }

  lemma ReceptionIs(
    hmac: Hmac, world: World, env: Env, left: Leftover, portType: nat, received: seq<u8>, room: nat)
    requires Usable(env) && |received| <= BUFFER_SIZE && portType <= PORT_GENERAL
    ensures var data := ReceiveBuffer(received, world(env.step).memory);
            && Usable(env.(step := env.step + 1))
            && Reception(hmac, world, env, left, portType, Some(received), room)
               == Respond(hmac, world, env.(step := env.step + 1), data, portType, world(env.step).now,
                          DecodedAt(world, env, left, portType, received), AfterDecoding(left, received), room)
  {
    hide Decoding, Respond, AfterDecoding, AllCheckable;
  }

  /**
   * Nobody is told the description of a port unless the request is a GET for it
   * and, behind a TLV that asks for the description, has an authentication TLV
   * that the port's row accepts while the request is handled; and then it is the
   * description that was registered last. That authentication TLV covers the bytes
   * of the one that asks, unless the decoder has gone back. This holds for every
   * response to every request, on the wire.
   */
  lemma ToldDescriptionsAreAuthorized(
    hmac: Hmac, world: World, env: Env, left: Leftover, portType: nat, received: seq<u8>, room: nat,
    before: seq<nat>, queue: seq<nat>, infos: map<nat, Info>, meant: map<nat, Message>, k: nat)
    returns (m: Message)
    requires DbCache.Coherent(env.db) && |received| <= BUFFER_SIZE && portType <= PORT_GENERAL
    requires var o := Reception(hmac, world, env, left, portType, Some(received), room);
             && Queued(hmac, env.db.latest, before, queue, infos, meant, o.responses)
             && k < |o.responses| && o.responses[k].Final? && MessageCells(o.responses[k].message, BUFFER_SIZE).Ok?
    ensures |before| + k < |queue| && queue[|before| + k] in infos && Tells(infos[queue[|before| + k]], m)
    ensures match DecodedAt(world, env, left, portType, received)
            case Err(_) => forall i :: 0 <= i < |m.tlvs| ==> !IsDescription(m.tlvs[i].body)
            case Ok(request) =>
              TellsClientWhatItMay(hmac, world, env.db.latest, ReceiveBuffer(received, world(env.step).memory),
                                   received, request, m, env.step + 1,
                                   Reception(hmac, world, env, left, portType, Some(received), room).env.step)
  {
    hide *;
    var arrived := env.(step := env.step + 1);
    SameDbIsCoherent(env, arrived);
    var o := Reception(hmac, world, env, left, portType, Some(received), room);
    m := PtpRoundTrip.Delivered(o.responses[k].message);
    ResponseIsTold(hmac, env.db.latest, before, queue, infos, meant, o.responses, k);
    ReceptionIs(hmac, world, env, left, portType, received, room);
    var data, decoded := ReceiveBuffer(received, world(env.step).memory),
                         DecodedAt(world, env, left, portType, received);
    if decoded.Ok? {
      DescriptionsAreAuthorized(hmac, world, arrived, data, portType, world(env.step).now, decoded.value,
                                AfterDecoding(left, received), room);
      RequestTellsNoMore(hmac, world, env, left, portType, received, o.responses[k].message, env.step + 1, o.env.step);
    } else {
      GarbageTellsNothing(hmac, world, arrived, data, portType, world(env.step).now, decoded.error,
                          AfterDecoding(left, received), room);
    }
  }

  lemma RequestTellsNoMore(
    hmac: Hmac, world: World, env: Env, left: Leftover, portType: nat, received: seq<u8>, m: Message, from: nat,
    to: nat)
    requires |received| <= BUFFER_SIZE && portType <= PORT_GENERAL
    requires DecodedAt(world, env, left, portType, received).Ok?
    requires TellsWhatItMay(hmac, world, env.db.latest, ReceiveBuffer(received, world(env.step).memory),
                            DecodedAt(world, env, left, portType, received).value, Final(m), from, to)
    ensures TellsClientWhatItMay(hmac, world, env.db.latest, ReceiveBuffer(received, world(env.step).memory), received,
                                 DecodedAt(world, env, left, portType, received).value, PtpRoundTrip.Delivered(m),
                                 from, to)
  {
    hide Arrived, Decoding, TellsWhatItMay, TellsClientWhatItMay;
    DeliveredTellsNoMore(hmac, world, env.db.latest, Arrived(world, env, left, portType, received),
                         world(env.step + 1).wild, m, from, to);
  }

  lemma GarbageTellsNothing(
    hmac: Hmac, world: World, env: Env, data: seq<u8>, portType: nat, arrival: u64, error: Error, left: Leftover,
    room: nat)
    requires Usable(env)
    ensures var responses := Respond(hmac, world, env, data, portType, arrival, Err(error), left, room).responses;
            forall k :: 0 <= k < |responses| ==>
              && responses[k].Final?
              && forall i :: 0 <= i < |PtpRoundTrip.Delivered(responses[k].message).tlvs| ==>
                   !IsDescription(PtpRoundTrip.Delivered(responses[k].message).tlvs[i].body)
  {
    hide Handle, GeneralError, PtpRoundTrip.Delivered;
    ErrorTellsNothing(left);
  }

  lemma ErrorTellsNothing(left: Leftover)
    ensures var m := GeneralError(left.requester, left.sequenceId);
            forall i :: 0 <= i < |PtpRoundTrip.Delivered(m).tlvs| ==>
              !IsDescription(PtpRoundTrip.Delivered(m).tlvs[i].body)
  {
    hide Display;
    var m := GeneralError(left.requester, left.sequenceId);
    forall i | 0 <= i < |PtpRoundTrip.Delivered(m).tlvs|
      ensures !IsDescription(PtpRoundTrip.Delivered(m).tlvs[i].body)
    {
      if IsDescription(PtpRoundTrip.Delivered(m).tlvs[i].body) { var _ := DeliveredDescription(m, i); }
    }
  }

  // ---- Grants

  lemma SignalingLeadsTo(
    hmac: Hmac, world: World, env: Env, data: seq<u8>, arrival: u64, request: Message, left: Leftover, room: nat)
    requires Usable(env) && AllCheckable(data, request) && request.payload.Signaling? && room > 0
    ensures var s := ServeTlvs(hmac, world, env, data, request, |request.tlvs|, room - 1);
            var o := Respond(hmac, world, env, data, PORT_EVENT, arrival, Ok(request), left, room);
            && o.env == s.env && o.responses != []
            && (forall k :: 0 <= k < |s.messages| ==>
                  k + 1 < |o.responses| && o.responses[k + 1] == Final(s.messages[k]))
            && o.responses[0] == if s.code != 0 then Draft else Final(GrantMessage(request, s.grants))
  {
    hide ServeTlvs, GrantMessage, GeneralError, AllCheckable;
  }

  /**
   * Unless it fails, a signaling request is answered with at most one grant for
   * each TLV behind which the target's row accepts an authentication TLV while the
   * request is handled, and each of these authentication TLVs covers the bytes of
   * the TLV that asks, unless the decoder has gone back.
   */
  lemma ToldGrantsAreAuthorized(
    hmac: Hmac, world: World, env: Env, left: Leftover, received: seq<u8>, room: nat, before: seq<nat>,
    queue: seq<nat>, infos: map<nat, Info>, meant: map<nat, Message>)
    returns (n: nat)
    requires DbCache.Coherent(env.db) && |received| <= BUFFER_SIZE && room > 0
    requires DecodedAt(world, env, left, PORT_EVENT, received).Ok?
    requires DecodedAt(world, env, left, PORT_EVENT, received).value.payload.Signaling?
    requires Queued(hmac, env.db.latest, before, queue, infos, meant,
                    Reception(hmac, world, env, left, PORT_EVENT, Some(received), room).responses)
    ensures var request := DecodedAt(world, env, left, PORT_EVENT, received).value;
            var data, o := ReceiveBuffer(received, world(env.step).memory),
                           Reception(hmac, world, env, left, PORT_EVENT, Some(received), room);
            && n <= Entitlements(hmac, world, env.db.latest, data, request, |request.tlvs|, env.step + 1, o.env.step)
            && (forall i: nat :: i < |request.tlvs| &&
                  AcceptedFor(hmac, world, env.db.latest, request.payload.target, data, request, i, env.step + 1,
                              o.env.step)
                  ==> CoveredBehind(received, request, i))
            && o.responses != []
            && (o.responses[0] == Draft ||
                (&& o.responses[0] == Final(GrantMessage(request, n)) && |before| < |queue| && queue[|before|] in infos
                 && Tells(infos[queue[|before|]], PtpRoundTrip.Delivered(GrantMessage(request, n)))))
  {
    hide DbCache.Coherent, Queued, Reception, DecodedAt, ReceiveBuffer, Entitlements, AcceptedFor, CoveredBehind,
      GrantMessage, Tells, PtpRoundTrip.Delivered, ServeTlvs, MessageCells, SoundlyServed, Respond, AfterDecoding,
      AllCheckable;
    var arrived, data := env.(step := env.step + 1), ReceiveBuffer(received, world(env.step).memory);
    var request := DecodedAt(world, env, left, PORT_EVENT, received).value;
    SameDbIsCoherent(env, arrived);
    ReceptionIs(hmac, world, env, left, PORT_EVENT, received, room);
    SignalingLeadsTo(hmac, world, arrived, data, world(env.step).now, request, AfterDecoding(left, received), room);
    GrantsAreAuthorized(hmac, world, arrived, data, request, |request.tlvs|, room - 1);
    var s := ServeTlvs(hmac, world, arrived, data, request, |request.tlvs|, room - 1);
    GrantsServed(hmac, world, env.db.latest, data, request, s, env.step + 1);
    n := s.grants;
    forall i: nat | i < |request.tlvs| &&
      AcceptedFor(hmac, world, env.db.latest, request.payload.target, data, request, i, env.step + 1, s.env.step)
      ensures CoveredBehind(received, request, i)
    {
      AcceptedIsCoveredAt(hmac, world, env, left, received, i, s.env.step);
    }
    if s.code == 0 {
      GrantsEncode(request, n);
      ResponseIsTold(hmac, env.db.latest, before, queue, infos, meant,
                     Reception(hmac, world, env, left, PORT_EVENT, Some(received), room).responses, 0);
    }
  }

  lemma GrantsServed(
    hmac: Hmac, world: World, latest: map<PortId, DbCache.Row>, data: seq<u8>, request: Message, s: Serving, from: nat)
    requires AllCheckable(data, request) && request.payload.Signaling? && s.grants <= |request.tlvs|
    requires SoundlyServed(hmac, world, latest, data, request, |request.tlvs|, s, from)
    ensures s.grants <= Entitlements(hmac, world, latest, data, request, |request.tlvs|, from, s.env.step)
  {
    hide Entitlements, Justified, AllCheckable;
  }

  lemma AcceptedIsCoveredAt(
    hmac: Hmac, world: World, env: Env, left: Leftover, received: seq<u8>, i: nat, to: nat)
    requires |received| <= BUFFER_SIZE && DecodedAt(world, env, left, PORT_EVENT, received).Ok?
    requires var request := DecodedAt(world, env, left, PORT_EVENT, received).value;
             && request.payload.Signaling? && i < |request.tlvs|
             && AcceptedFor(hmac, world, env.db.latest, request.payload.target,
                            ReceiveBuffer(received, world(env.step).memory), request, i, env.step + 1, to)
    ensures CoveredBehind(received, DecodedAt(world, env, left, PORT_EVENT, received).value, i)
  {
    hide Arrived, Decoding, AcceptedBehind, CoveredBehind;
    var request := DecodedAt(world, env, left, PORT_EVENT, received).value;
    AcceptedIsCovered(hmac, world, env.db.latest[request.payload.target],
                      Arrived(world, env, left, PORT_EVENT, received), world(env.step + 1).wild, i, env.step + 1, to);
  }
}
