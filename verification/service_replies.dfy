/**
 * What a client decodes of the reply to a management request, field by field: the
 * header, the answers, and behind them the signature and the pad.
 */
module ServiceReplies {
  import opened Bytes
  import opened Wrappers
  import opened PtpMessage
  import opened PtpWire
  import opened PtpSecurity
  import opened PtpAuthentication
  import opened PtpAcceptance
  import opened PtpOverrun
  import opened Environment
  import opened Responses
  import opened ReplyProperties
  import opened ResponseBuffers
  import opened Leftovers
  import opened ServiceProperties
  import PtpRoundTrip
  import DbCache

  // ---- What a client decodes of a message

  /** A management message to `requester` about the port `target`. */
  predicate IsManagementReply(m: Message, requester: PortId, target: PortId, sequenceId: u16, action: u32) {
    && HasServiceHeader(m) && m.portId == target && m.sequenceId == sequenceId
    && m.payload == Management(requester, 0, 0, action)
  }

  /** TLV `i` of a message is decoded as the encoder has written it, and the pad comes last. */
  lemma {:induction false} DeliveredTlv(m: Message, i: nat) returns (at: nat)
    requires i < |m.tlvs|
    ensures |PtpRoundTrip.Delivered(m).tlvs| == |m.tlvs| + if |m.tlvs| < 20 then 1 else 0
    ensures PtpRoundTrip.Delivered(m).tlvs[i] == Tlv(false, PtpRoundTrip.WireBody(m.tlvs[i].body, at))
  {
    hide PtpRoundTrip.WireBody, PtpRoundTrip.WireTlvs;
    at := WireTlvOf(m.tlvs, HEADER_SIZE + PtpRoundTrip.PayloadSize(m.payload), i);
  }

  lemma DeliveredPad(m: Message)
    ensures var d := PtpRoundTrip.Delivered(m);
            && |d.tlvs| == |m.tlvs| + (if |m.tlvs| < 20 then 1 else 0)
            && (|m.tlvs| < 20 ==> d.tlvs[|m.tlvs|].body.Pad?)
  {
    hide PtpRoundTrip.WireTlvs, PtpRoundTrip.FinalPad;
  }

  lemma WireKinds(body: TlvBody, at: nat)
    ensures var wire := PtpRoundTrip.WireBody(body, at);
            && (wire.Authentication? <==> body.Authentication?)
            && (body.Authentication? && body.policy < 0x100 ==>
                  wire == body.(icv := at + 10))
            && (body.ErrorStatus? && body.errorId < 0x1_0000 && body.id < 0x1_0000 ==> wire == body)
  {}

  // ---- Signatures

  /** A message is signed exactly if its port is found, its policy is not the plain one and a slot is left. */
  lemma SignedIff(world: World, env: Env, m: Message)
    requires Usable(env)
    ensures var entry := Fetch(world, env, m.portId).0;
            Sign(world, env, m).0
            == if entry.Found? && entry.row.policy != 1 && |m.tlvs| < 20
               then m.(tlvs := m.tlvs + [Tlv(false, Authentication(entry.row.policy, 0, 0, 0, 16))])
               else m
  {
    hide Fetch;
  }

  /** The reply to a management request, from its answers and the row found for its target behind them. */
  lemma ReplyIsSignedIff(hmac: Hmac, world: World, env: Env, data: seq<u8>, request: Message, room: nat)
    requires Usable(env) && AllCheckable(data, request) && request.payload.Management? && room > 0
    ensures var (answers, marked, answered) := AnswerTlvs(hmac, world, env, data, request, |request.tlvs|);
            var entry := Fetch(world, answered, request.payload.target).0;
            var o := HandleManagement(hmac, world, env, data, request, room);
            && |o.responses| == 1 && o.responses[0].Final?
            && o.responses[0].message.tlvs
               == (if entry.Found? && entry.row.policy != 1 && |answers| < 20
                   then answers + [Tlv(false, Authentication(entry.row.policy, 0, 0, 0, 16))]
                   else answers)
            && IsManagementReply(o.responses[0].message, request.portId, request.payload.target, request.sequenceId,
                                 if exists k :: 0 <= k < |answers| && answers[k].body.ManagementTlv? then 2 else 0)
            && forall k :: 0 <= k < |answers| ==> !answers[k].body.Authentication?
  {
    hide AnswerTlvs, Fetch, AfterFinal, AllCheckable, Sign;
    var (answers, marked, answered) := AnswerTlvs(hmac, world, env, data, request, |request.tlvs|);
    SignedIff(world, answered, ManagementReply(request, answers));
  }

  /** Whoever receives the response accepts TLV `i` with `row`, whatever lies on its stack. */
  ghost predicate ClientAccepts(hmac: Hmac, row: DbCache.Row, info: Info, m: Message, i: nat) {
    && 0 < Length(info) <= BUFFER_SIZE && i < |m.tlvs| && m.tlvs[i].body.Authentication?
    && m.tlvs[i].body.icv + m.tlvs[i].body.icvLength <= Length(info)
    && forall memory: Memory, scratch: Memory ::
         Passes(hmac, row, WireBytes(info, memory), m.tlvs[i].body, scratch)
  }

  lemma DigestStands(hmac: Hmac, row: DbCache.Row, block: seq<u8>, d: seq<u8>, body: TlvBody, scratch: Memory)
    requires body.Authentication? && body.icvLength == 16 && body.icv + 16 <= |d| <= |block| && d == block[..|d|]
    requires CheckHmac128(hmac, row, block, body, scratch)
    ensures SpellsDigest(d, body.icv, 16, hmac(row.secret, d[..body.icv]), scratch)
  {
    var at, digest := body.icv, hmac(row.secret, block[..body.icv]);
    assert d[..at] == block[..at];
    var found, wanted := block[at..at + 16], (digest + scratch)[..16];
    forall k: nat | k < 16
      ensures d[at + k] == DigestByte(digest, scratch, k)
    {
      assert d[at + k] == found[k] && found[k] == wanted[k];
    }
  }

  lemma AuthenticIsAccepted(hmac: Hmac, row: DbCache.Row, info: Info, m: Message, i: nat)
    requires Authentic(hmac, row, info) && Tells(info, m) && row.policy == 2
    requires DecodeMessage(info.block[..Length(info)]) == Ok(m) && i < |m.tlvs|
    requires m.tlvs[i].body.Authentication? && m.tlvs[i].body.policy == 2 && m.tlvs[i].body.icvLength == 16
    ensures ClientAccepts(hmac, row, info, m, i)
  {
    hide DecodeMessage, Tells, CheckHmac128, GetLe16, SpellsDigest;
    var d, body := info.block[..Length(info)], m.tlvs[i].body;
    IcvsInMessage(d);
    forall memory: Memory, scratch: Memory
      ensures Passes(hmac, row, WireBytes(info, memory), body, scratch)
    {
      assert WireBytes(info, memory) == d;
      assert AllPass(hmac, row, info.block, m.tlvs, scratch);
      DigestStands(hmac, row, info.block, d, body, scratch);
    }
  }

  /** A finalized response that is signed with an HMAC: the client accepts its signature. */
  lemma RealizedIsAccepted(
    hmac: Hmac, latest: map<PortId, DbCache.Row>, info: Info, m: Message, n: nat)
    requires Realizes(hmac, latest, info, Final(m)) && MessageCells(m, BUFFER_SIZE).Ok? && n < |m.tlvs|
    requires m.tlvs[n].body == Authentication(2, 0, 0, 0, 16) && m.portId in latest && latest[m.portId].policy == 2
    ensures Tells(info, PtpRoundTrip.Delivered(m))
    ensures ClientAccepts(hmac, latest[m.portId], info, PtpRoundTrip.Delivered(m), n)
  {
    hide MessageCells, DecodeMessage, PtpRoundTrip.Delivered, PtpRoundTrip.WireBody, Authentic, Tells, ClientAccepts,
      GetLe16;
    assert SignedWithHmac(m);
    CarriesTells(info, m);
    var at := DeliveredTlv(m, n);
    WireKinds(m.tlvs[n].body, at);
    AuthenticIsAccepted(hmac, latest[m.portId], info, PtpRoundTrip.Delivered(m), n);
  }

  // ---- The reply to any management request

  /** A cached port stays cached while the TLVs of a request to it are answered. */
  lemma AnswerKeepsHit(hmac: Hmac, world: World, env: Env, data: seq<u8>, request: Message, i: nat)
    requires DbCache.Coherent(env.db) && AllCheckable(data, request) && IsQuestion(request, i)
    requires DbCache.ValidPort(request.payload.target) && DbCache.Hit(env.db, request.payload.target)
    ensures Usable(env)
    ensures var (_, marked, after) := AnswerTlv(hmac, world, env, data, request, i);
            && AllCheckable(data, marked) && DbCache.Coherent(after.db) && after.db.latest == env.db.latest
            && DbCache.Hit(after.db, request.payload.target)
  {
    hide Fetch, DbCache.Coherent, DbCache.Hit, DbCache.ValidPort, Authenticate, Checkable, DescriptionBody, Display;
    CoherentIsUsable(env);
    var target := request.payload.target;
    HitStays(world, env, target);
    HitStays(world, Fetch(world, env, target).1, target);
  }

  lemma {:induction false} AnswersKeepHit(hmac: Hmac, world: World, env: Env, data: seq<u8>, request: Message, n: nat)
    requires DbCache.Coherent(env.db) && AllCheckable(data, request) && request.payload.Management?
    requires DbCache.ValidPort(request.payload.target) && DbCache.Hit(env.db, request.payload.target)
    requires n <= |request.tlvs|
    ensures Usable(env)
    ensures var (_, marked, after) := AnswerTlvs(hmac, world, env, data, request, n);
            && AllCheckable(data, marked) && marked.payload == request.payload
            && DbCache.Coherent(after.db) && after.db.latest == env.db.latest
            && DbCache.Hit(after.db, request.payload.target)
    decreases n
  {
    hide DbCache.Coherent, DbCache.Hit, DbCache.ValidPort, AnswerTlv, Checkable, Fetch;
    CoherentIsUsable(env);
    if n == 0 { return; }
    AnswersKeepHit(hmac, world, env, data, request, n - 1);
    var (_, marked, before) := AnswerTlvs(hmac, world, env, data, request, n - 1);
    if IsQuestion(marked, n - 1) { AnswerKeepsHit(hmac, world, before, data, marked, n - 1); }
  }

  /** Whether the target is found when its reply is signed, and the reply is signed with an HMAC. */
  predicate SignsWithHmac(hmac: Hmac, world: World, env: Env, data: seq<u8>, request: Message)
    requires Usable(env) && AllCheckable(data, request) && request.payload.Management?
  {
    var (answers, _, answered) := AnswerTlvs(hmac, world, env, data, request, |request.tlvs|);
    var entry := Fetch(world, answered, request.payload.target).0;
    entry.Found? && entry.row.policy == 2 && |answers| < 20
  }

  /** A cached port with policy HMAC signs all its replies with fewer than 20 answers. */
  lemma CachedPortSigns(hmac: Hmac, world: World, env: Env, data: seq<u8>, request: Message)
    requires DbCache.Coherent(env.db) && AllCheckable(data, request) && request.payload.Management?
    requires var target := request.payload.target;
             && DbCache.ValidPort(target) && DbCache.Hit(env.db, target)
             && target in env.db.latest && env.db.latest[target].policy == 2
    requires |request.tlvs| < 20
    ensures Usable(env) && SignsWithHmac(hmac, world, env, data, request)
  {
    hide DbCache.Coherent, DbCache.Hit, DbCache.ValidPort, AnswerTlvs, Checkable, Fetch;
    CoherentIsUsable(env);
    AnswersKeepHit(hmac, world, env, data, request, |request.tlvs|);
    HitStays(world, AnswerTlvs(hmac, world, env, data, request, |request.tlvs|).2, request.payload.target);
  }

  /**
   * The reply of a port with policy HMAC that is found when it is signed: behind
   * the answers, of which none is an authentication TLV, a client decodes exactly
   * one, in front of the pad, and it accepts it with the port's row.
   */
  lemma SignedReplyIsAccepted(
    hmac: Hmac, world: World, env: Env, left: Leftover, received: seq<u8>, room: nat, before: seq<nat>,
    queue: seq<nat>, infos: map<nat, Info>, meant: map<nat, Message>)
    returns (m: Message, n: nat)
    requires DbCache.Coherent(env.db) && |received| <= BUFFER_SIZE && room > 0
    requires DecodedAt(world, env, left, PORT_GENERAL, received).Ok?
    requires var request := DecodedAt(world, env, left, PORT_GENERAL, received).value;
             && request.payload.Management? && Usable(env.(step := env.step + 1))
             && SignsWithHmac(hmac, world, env.(step := env.step + 1),
                              ReceiveBuffer(received, world(env.step).memory), request)
    requires var o := Reception(hmac, world, env, left, PORT_GENERAL, Some(received), room);
             && Queued(hmac, env.db.latest, before, queue, infos, meant, o.responses)
             && (o.responses != [] && o.responses[0].Final? ==>
                   MessageCells(o.responses[0].message, BUFFER_SIZE).Ok?)
    ensures |before| < |queue| && queue[|before|] in infos && Tells(infos[queue[|before|]], m)
    ensures var request := DecodedAt(world, env, left, PORT_GENERAL, received).value;
            && request.payload.target in env.db.latest && env.db.latest[request.payload.target].policy == 2
            && ClientAccepts(hmac, env.db.latest[request.payload.target], infos[queue[|before|]], m, n)
            && m.portId == request.payload.target && m.sequenceId == request.sequenceId
    ensures n < |m.tlvs| == (if n == 19 then 20 else n + 2) && m.tlvs[n].body.policy == 2
    ensures forall k :: 0 <= k < n ==> !m.tlvs[k].body.Authentication?
    ensures n < 19 ==> m.tlvs[n + 1].body.Pad?
  {
    hide DbCache.Coherent, Queued, Reception, DecodedAt, ReceiveBuffer, AnswerTlvs, Fetch, MessageCells, Tells,
      ClientAccepts, PtpRoundTrip.Delivered, AllCheckable, Realizes, HandleManagement, AfterDecoding, Usable;
    var arrived, data := env.(step := env.step + 1), ReceiveBuffer(received, world(env.step).memory);
    var request := DecodedAt(world, env, left, PORT_GENERAL, received).value;
    SameDbIsCoherent(env, arrived);
    ManagementIsHandled(hmac, world, env, left, received, room);
    var (answers, marked, answered) := AnswerTlvs(hmac, world, arrived, data, request, |request.tlvs|);
    AnswersKeepDb(hmac, world, arrived, data, request);
    FetchFindsLatest(world, answered, request.payload.target);
    ReplyIsSignedIff(hmac, world, arrived, data, request, room);
    var responses := HandleManagement(hmac, world, arrived, data, request, room).responses;
    n := |answers|;
    m := PtpRoundTrip.Delivered(responses[0].message);
    FirstIsRealized(hmac, env.db.latest, before, queue, infos, meant, responses);
    RealizedIsAccepted(hmac, env.db.latest, infos[queue[|before|]], responses[0].message, n);
    DeliveredPad(responses[0].message);
    DeliveredHeader(responses[0].message);
    forall k: nat | k < n + 1
      ensures m.tlvs[k].body.Authentication? <==> k == n
      ensures k == n ==> m.tlvs[k].body.policy == 2
    {
      var at := DeliveredTlv(responses[0].message, k);
      WireKinds(responses[0].message.tlvs[k].body, at);
    }
  }

  lemma FirstIsRealized(
    hmac: Hmac, latest: map<PortId, DbCache.Row>, before: seq<nat>, queue: seq<nat>, infos: map<nat, Info>,
    meant: map<nat, Message>, responses: seq<Response>)
    requires Queued(hmac, latest, before, queue, infos, meant, responses) && responses != []
    ensures |before| < |queue| && queue[|before|] in infos
    ensures Realizes(hmac, latest, infos[queue[|before|]], responses[0])
  {
    hide Realizes;
    assert Holds(hmac, latest, infos, meant, queue[|before| + 0], responses[0]);
  }

  lemma DeliveredHeader(m: Message)
    ensures var d := PtpRoundTrip.Delivered(m);
            && d.portId == m.portId && d.sequenceId == m.sequenceId
            && (HasServiceHeader(m) ==> HasServiceHeader(d))
            && (m.payload.Management? && m.payload.action < 0x100 ==> d.payload == m.payload)
  {}

  lemma AnswersKeepDb(hmac: Hmac, world: World, env: Env, data: seq<u8>, request: Message)
    requires DbCache.Coherent(env.db) && AllCheckable(data, request) && request.payload.Management?
    ensures Usable(env)
    ensures var after := AnswerTlvs(hmac, world, env, data, request, |request.tlvs|).2;
            DbCache.Coherent(after.db) && after.db.latest == env.db.latest
  {
    hide AnswerTlvs, DbCache.Coherent, Checkable;
    CoherentIsUsable(env);
    TimesAreTrue(hmac, world, env, data, request, |request.tlvs|);
  }

  /** A management request on the general port gets the management reply and nothing else. */
  lemma ManagementIsHandled(
    hmac: Hmac, world: World, env: Env, left: Leftover, received: seq<u8>, room: nat)
    requires Usable(env) && |received| <= BUFFER_SIZE && room > 0
    requires DecodedAt(world, env, left, PORT_GENERAL, received).Ok?
    requires DecodedAt(world, env, left, PORT_GENERAL, received).value.payload.Management?
    ensures var request, data := DecodedAt(world, env, left, PORT_GENERAL, received).value,
                                 ReceiveBuffer(received, world(env.step).memory);
            && Usable(env.(step := env.step + 1))
            && Reception(hmac, world, env, left, PORT_GENERAL, Some(received), room)
               == HandleManagement(hmac, world, env.(step := env.step + 1), data, request, room)
  {
    hide DecodedAt, AllCheckable, AnswerTlvs, Sign, AfterFinal, ManagementReply, Reception, AfterDecoding;
    ServiceProperties.ReceptionIs(hmac, world, env, left, PORT_GENERAL, received, room);
  }

  // ---- The reply to a single question

  /** An answer as it is, on the wire too. */
  ghost predicate Travels(body: TlvBody) {
    && BodyCells(body).Ok? && |BodyCells(body).value| <= 140
    && forall at: nat :: PtpRoundTrip.WireBody(body, at) == body
  }

  lemma DescriptionBodyTravels(row: DbCache.Row)
    ensures Travels(DescriptionBody(row))
  {
    DescriptionDescribes(row);
    forall at: nat
      ensures PtpRoundTrip.WireBody(DescriptionBody(row), at) == DescriptionBody(row)
    {
      DescriptionTravels(DescriptionBody(row), row.description, at);
    }
    hide PtpRoundTrip.WireBody;
  }

  lemma OthersTravel(body: TlvBody)
    requires (body.ErrorStatus? && body.errorId < 0x1_0000 && body.id < 0x1_0000) ||
             (body.ManagementTlv? && body.data.TimeData?)
    ensures Travels(body)
  {
    hide TimestampCells;
  }

  lemma AnswerTravels(hmac: Hmac, world: World, env: Env, data: seq<u8>, request: Message, i: nat)
    requires Usable(env) && AllCheckable(data, request) && IsQuestion(request, i)
    requires request.tlvs[i].body.data.UnknownData? ==> request.tlvs[i].body.data.id < 0x1_0000
    ensures Travels(AnswerTlv(hmac, world, env, data, request, i).0)
  {
    hide Fetch, Authenticate, Checkable, Display, Travels, DescriptionBody, ManagementErrorId;
    var target := request.payload.target;
    var (entry, found) := Fetch(world, env, target);
    var code := Authorize(hmac, world, found, data, request, i, target).0;
    if entry.Found? { DescriptionBodyTravels(entry.row); }
    OthersTravel(NoSuchPort());
    OthersTravel(Denied(code));
    OthersTravel(Unsupported(ID_USER_DESCRIPTION));
    OthersTravel(Unsupported(ID_TIME));
    OthersTravel(ManagementTlv(TimeData(ReadTime(world, env, target).0)));
    if request.tlvs[i].body.data.UnknownData? { OthersTravel(UnknownId(request.tlvs[i].body.data.id)); }
  }

  /** The reply with one answer, of which TLV `i` asks for nothing else. */
  lemma LoneReply(hmac: Hmac, world: World, env: Env, data: seq<u8>, request: Message, i: nat, room: nat)
    returns (m: Message)
    requires Usable(env) && AllCheckable(data, request) && OnlyQuestion(request, i) && room > 0
    requires request.tlvs[i].body.data.UnknownData? ==> request.tlvs[i].body.data.id < 0x1_0000
    ensures HandleManagement(hmac, world, env, data, request, room).responses == [Final(m)]
    ensures var (body, _, after) := AnswerTlv(hmac, world, env, data, request, i);
            var entry := Fetch(world, after, request.payload.target).0;
            && Travels(body) && MessageCells(m, BUFFER_SIZE).Ok?
            && IsManagementReply(m, request.portId, request.payload.target, request.sequenceId,
                                 if body.ManagementTlv? then 2 else 0)
            && m.tlvs == (if entry.Found? && entry.row.policy != 1
                          then [Tlv(false, body), Tlv(false, Authentication(entry.row.policy, 0, 0, 0, 16))]
                          else [Tlv(false, body)])
  {
    hide AnswerTlvs, AnswerTlv, Fetch, AllCheckable, MessageCells, HandleManagement, Travels;
    OnlyAnswer(hmac, world, env, data, request, i, |request.tlvs|);
    AnswerTravels(hmac, world, env, data, request, i);
    ReplyIsSignedIff(hmac, world, env, data, request, room);
    var (answers, _, answered) := AnswerTlvs(hmac, world, env, data, request, |request.tlvs|);
    var (body, _, after) := AnswerTlv(hmac, world, env, data, request, i);
    var o := HandleManagement(hmac, world, env, data, request, room);
    m := o.responses[0].message;
    assert o.responses == [Final(m)];
    assert answers == [Tlv(false, body)] && answers[0].body == body;
    LoneReplyFits(m, body);
  }

  lemma LoneReplyFits(m: Message, body: TlvBody)
    requires Travels(body) && m.payload.Management? && 1 <= |m.tlvs| <= 2 && m.tlvs[0] == Tlv(false, body)
    requires |m.tlvs| == 2 ==>
               && m.tlvs[1] == Tlv(false, m.tlvs[1].body) && m.tlvs[1].body.Authentication?
               && m.tlvs[1].body.icvLength == 16
    ensures MessageCells(m, BUFFER_SIZE).Ok?
  {
    hide MessageCells, PortIdCells, PtpRoundTrip.WireBody;
    if |m.tlvs| == 1 {
      assert m.tlvs == [Tlv(false, body)];
      OneTlvEncodes(m, body);
    } else {
      assert m.tlvs == [Tlv(false, body), Tlv(false, m.tlvs[1].body)];
      TwoTlvsEncode(m, body, m.tlvs[1].body);
    }
  }

  /** A client's view of such a reply; `entry` is what the target's lookup finds when it is signed. */
  ghost predicate RepliesAlone(
    hmac: Hmac, info: Info, request: Message, body: TlvBody, entry: Entry, m: Message)
  {
    && request.payload.Management? && Tells(info, m)
    && IsManagementReply(m, request.portId, request.payload.target, request.sequenceId,
                         if body.ManagementTlv? then 2 else 0)
    && m.tlvs != [] && m.tlvs[0] == Tlv(false, body)
    && if entry.Found? && entry.row.policy != 1 then
         && |m.tlvs| == 3 && m.tlvs[1].body.Authentication? && m.tlvs[2].body.Pad?
         && m.tlvs[1].body.policy == entry.row.policy % 0x100
         && (entry.row.policy == 2 ==> ClientAccepts(hmac, entry.row, info, m, 1))
       else |m.tlvs| == 2 && m.tlvs[1].body.Pad?
  }

  lemma LoneReplyIsTold(
    hmac: Hmac, latest: map<PortId, DbCache.Row>, info: Info, request: Message, body: TlvBody, entry: Entry, m: Message)
    requires Realizes(hmac, latest, info, Final(m)) && MessageCells(m, BUFFER_SIZE).Ok? && Travels(body)
    requires request.payload.Management? &&
             IsManagementReply(m, request.portId, request.payload.target, request.sequenceId,
                               if body.ManagementTlv? then 2 else 0)
    requires entry.Found? ==> m.portId in latest && entry.row == latest[m.portId]
    requires m.tlvs == if entry.Found? && entry.row.policy != 1
                       then [Tlv(false, body), Tlv(false, Authentication(entry.row.policy, 0, 0, 0, 16))]
                       else [Tlv(false, body)]
    ensures RepliesAlone(hmac, info, request, body, entry, PtpRoundTrip.Delivered(m))
  {
    hide MessageCells, PtpRoundTrip.Delivered, PtpRoundTrip.WireBody, Tells, ClientAccepts, Realizes, GetLe16;
    RealizedIsTold(hmac, latest, info, m);
    DeliveredHeader(m);
    DeliveredPad(m);
    var at := DeliveredTlv(m, 0);
    if |m.tlvs| == 2 {
      var next := DeliveredTlv(m, 1);
      SignatureTravels(entry.row.policy, next);
      if entry.row.policy == 2 { RealizedIsAccepted(hmac, latest, info, m, 1); }
    }
  }

  lemma SignatureTravels(policy: u32, at: nat)
    ensures var wire := PtpRoundTrip.WireBody(Authentication(policy, 0, 0, 0, 16), at);
            wire.Authentication? && wire.policy == policy % 0x100
  {}

  lemma RealizedIsTold(hmac: Hmac, latest: map<PortId, DbCache.Row>, info: Info, m: Message)
    requires Realizes(hmac, latest, info, Final(m)) && MessageCells(m, BUFFER_SIZE).Ok?
    ensures Tells(info, PtpRoundTrip.Delivered(m))
  {
    hide MessageCells, PtpRoundTrip.Delivered, Carries, Tells;
    CarriesTells(info, m);
  }

  /** A management request with a single question: the reply that a client decodes. */
  lemma LoneReplyArrives(
    hmac: Hmac, world: World, env: Env, left: Leftover, received: seq<u8>, room: nat, before: seq<nat>,
    queue: seq<nat>, infos: map<nat, Info>, meant: map<nat, Message>, i: nat)
    returns (m: Message)
    requires DbCache.Coherent(env.db) && |received| <= BUFFER_SIZE && room > 0
    requires DecodedAt(world, env, left, PORT_GENERAL, received).Ok?
    requires OnlyQuestion(DecodedAt(world, env, left, PORT_GENERAL, received).value, i)
    requires var data := DecodedAt(world, env, left, PORT_GENERAL, received).value.tlvs[i].body.data;
             data.UnknownData? ==> data.id < 0x1_0000
    requires Queued(hmac, env.db.latest, before, queue, infos, meant,
                    Reception(hmac, world, env, left, PORT_GENERAL, Some(received), room).responses)
    ensures |queue| == |before| + 1 && queue[|before|] in infos && Usable(env.(step := env.step + 1))
    ensures var request := DecodedAt(world, env, left, PORT_GENERAL, received).value;
            var (body, _, after) := AnswerTlv(hmac, world, env.(step := env.step + 1),
                                              ReceiveBuffer(received, world(env.step).memory), request, i);
            && DbCache.Coherent(after.db) && after.db.latest == env.db.latest
            && RepliesAlone(hmac, infos[queue[|before|]], request, body,
                            Fetch(world, after, request.payload.target).0, m)
  {
    hide DbCache.Coherent, Queued, Reception, DecodedAt, ReceiveBuffer, AnswerTlv, Fetch, MessageCells, Travels,
      RepliesAlone, PtpRoundTrip.Delivered, AllCheckable, Realizes, HandleManagement, Usable, IsManagementReply;
    var arrived, data := env.(step := env.step + 1), ReceiveBuffer(received, world(env.step).memory);
    var request := DecodedAt(world, env, left, PORT_GENERAL, received).value;
    SameDbIsCoherent(env, arrived);
    ManagementIsHandled(hmac, world, env, left, received, room);
    var reply := LoneReply(hmac, world, arrived, data, request, i, room);
    AnswerIsTimely(hmac, world, arrived, data, request, i);
    var (body, _, after) := AnswerTlv(hmac, world, arrived, data, request, i);
    FetchFindsLatest(world, after, request.payload.target);
    FirstIsRealized(hmac, env.db.latest, before, queue, infos, meant, [Final(reply)]);
    QueuedLength(hmac, env.db.latest, before, queue, infos, meant, [Final(reply)]);
    ReplyNames(reply, request, body);
    LoneReplyIsTold(hmac, env.db.latest, infos[queue[|before|]], request, body,
                    Fetch(world, after, request.payload.target).0, reply);
    m := PtpRoundTrip.Delivered(reply);
  }

  lemma ReplyNames(m: Message, request: Message, body: TlvBody)
    requires request.payload.Management?
    requires IsManagementReply(m, request.portId, request.payload.target, request.sequenceId,
                               if body.ManagementTlv? then 2 else 0)
    ensures m.portId == request.payload.target
  {}

  lemma QueuedLength(
    hmac: Hmac, latest: map<PortId, DbCache.Row>, before: seq<nat>, queue: seq<nat>, infos: map<nat, Info>,
    meant: map<nat, Message>, responses: seq<Response>)
    requires Queued(hmac, latest, before, queue, infos, meant, responses)
    ensures |queue| == |before| + |responses|
  {}

  // ---- Descriptions

  /** The only management TLV of a GET asks for the description. */
  predicate AsksDescription(request: Message, i: nat) {
    OnlyQuestion(request, i) && request.tlvs[i].body.data.UserDescriptionData? && request.payload.action == 0
  }

  /** The first authentication TLV behind TLV `i` passes with `row`. */
  ghost predicate PassesBehind(
    hmac: Hmac, row: DbCache.Row, data: seq<u8>, request: Message, i: nat, scratch: seq<u8>)
    requires AllCheckable(data, request)
  {
    exists j: nat :: IsNext(request.tlvs, i, j) && Passes(hmac, row, data, request.tlvs[j].body, scratch)
  }

  /** Why nothing passes: 61 without an authentication TLV, 1 for a wrong ICV, 22 for a wrong policy. */
  ghost predicate IsReason(row: DbCache.Row, request: Message, i: nat, reason: nat) {
    match reason
    case 61 => forall j :: i < j < |request.tlvs| ==> !request.tlvs[j].body.Authentication?
    case 1 => (row.policy == 1 || row.policy == 2)
              && exists j: nat :: IsNext(request.tlvs, i, j) && request.tlvs[j].body.policy == row.policy
    case 22 => exists j: nat ::
                 && IsNext(request.tlvs, i, j)
                 && (row.policy > 2 || request.tlvs[j].body.policy != row.policy)
    case _ => false
  }

  /** "Access denied" */
  predicate IsDenial(body: TlvBody, reason: nat) {
    body.ErrorStatus? && body.errorId == 0xc000 + reason && body.id == 0 && body.display == Display("Access denied")
  }

  lemma AuthorizationIs(
    hmac: Hmac, world: World, env: Env, data: seq<u8>, request: Message, i: nat, port: PortId)
    requires DbCache.Coherent(env.db) && AllCheckable(data, request)
    requires i < |request.tlvs| && !request.tlvs[i].authenticated
    requires Fetch(world, env, port).0.Found?
    ensures Usable(env) && port in env.db.latest
    ensures var row, scratch := env.db.latest[port], world(env.step).memory;
            var code := Authorize(hmac, world, env, data, request, i, port).0;
            && (code == 0 <==> PassesBehind(hmac, row, data, request, i, scratch))
            && (code != 0 ==> code < 0 && IsReason(row, request, i, -code))
  {
    hide DbCache.Coherent, Fetch, Authenticate, PassesBehind, IsReason, Checkable;
    CoherentIsUsable(env);
    FetchFindsLatest(world, env, port);
    CodeIs(hmac, data, request, Call(i, Fetch(world, env, port).0, world(env.step).memory));
  }

  lemma CodeIs(hmac: Hmac, data: seq<u8>, request: Message, call: Call)
    requires ValidCall(request, call) && AllCheckable(data, request) && call.entry.Found?
    requires !request.tlvs[call.index].authenticated
    ensures var code := Authenticate(hmac, data, request, call).1;
            && (code == 0 <==> PassesBehind(hmac, call.entry.row, data, request, call.index, call.scratch))
            && (code != 0 ==> code < 0 && IsReason(call.entry.row, request, call.index, -code))
  {
    hide Authenticate, Passes, Checkable;
    AuthenticatesIff(hmac, data, request, call);
    var i, code := call.index, Authenticate(hmac, data, request, call).1;
    if j: nat :| IsNext(request.tlvs, i, j) {
      OnlyNext(request.tlvs, i, j);
      PassingNamesPolicy(hmac, call.entry.row, data, request.tlvs[j].body, call.scratch);
    }
  }

  lemma PassingNamesPolicy(hmac: Hmac, row: DbCache.Row, data: seq<u8>, body: TlvBody, scratch: seq<u8>)
    requires body.Authentication? && Checkable(data, body)
    ensures row.policy > 2 ==> !Passes(hmac, row, data, body, scratch)
    ensures row.policy == 0 ==> Passes(hmac, row, data, body, scratch)
  {}

  lemma OnlyNext(tlvs: seq<Tlv>, i: nat, j: nat)
    requires IsNext(tlvs, i, j)
    ensures forall k: nat :: IsNext(tlvs, i, k) ==> k == j
  {}

  lemma DescriptionAnswer(hmac: Hmac, world: World, env: Env, data: seq<u8>, request: Message, i: nat)
    requires DbCache.Coherent(env.db) && AllCheckable(data, request) && AsksDescription(request, i)
    requires !request.tlvs[i].authenticated
    ensures Usable(env)
    ensures var (body, _, after) := AnswerTlv(hmac, world, env, data, request, i);
            var target := request.payload.target;
            if Fetch(world, env, target).0.Missing? then body == ErrorStatus(7, 2, Display("No such port"))
            else
              && target in env.db.latest && Fetch(world, after, target).0 == Found(env.db.latest[target])
              && var row, scratch := env.db.latest[target], world(env.step + 1).memory;
              if PassesBehind(hmac, row, data, request, i, scratch) then Describes(body, row.description)
              else exists reason: nat :: IsDenial(body, reason) && IsReason(row, request, i, reason)
  {
    hide DbCache.Coherent, Fetch, Authenticate, PassesBehind, Checkable, Describes, DescriptionBody, IsReason, Display,
      DbCache.ValidPort, DbCache.Hit;
    CoherentIsUsable(env);
    var target := request.payload.target;
    var (entry, found) := Fetch(world, env, target);
    FetchFindsLatest(world, env, target);
    if entry.Found? {
      FetchFindsAgain(world, env, target);
      DescriptionDescribes(entry.row);
      AuthorizationIs(hmac, world, found, data, request, i, target);
      var (code, _, after) := Authorize(hmac, world, found, data, request, i, target);
      HitStays(world, found, target);
      HitStays(world, after, target);
      if code != 0 {
        ReasonIsBounded(env.db.latest[target], request, i, -code);
        assert IsDenial(Denied(code), -code);
      }
    }
  }

  lemma ReasonIsBounded(row: DbCache.Row, request: Message, i: nat, reason: nat)
    requires IsReason(row, request, i, reason)
    ensures reason <= 61
  {}

  /** `m` is what a GET of the description should be answered with, and `info` holds it. */
  ghost predicate AnswersDescription(
    hmac: Hmac, world: World, env: Env, data: seq<u8>, request: Message, i: nat, info: Info, m: Message)
    requires Usable(env) && AllCheckable(data, request) && AsksDescription(request, i)
  {
    var target := request.payload.target;
    m.tlvs != [] &&
    var body := m.tlvs[0].body;
    && IsManagementReply(m, request.portId, target, request.sequenceId, if body.ManagementTlv? then 2 else 0)
    && if Fetch(world, env, target).0.Missing? then body == ErrorStatus(7, 2, Display("No such port"))
       else
         && target in env.db.latest
         && var row, scratch := env.db.latest[target], world(env.step + 1).memory;
         && (if PassesBehind(hmac, row, data, request, i, scratch) then Describes(body, row.description)
             else exists reason: nat :: IsDenial(body, reason) && IsReason(row, request, i, reason))
         && |m.tlvs| == (if row.policy != 1 then 3 else 2) && m.tlvs[|m.tlvs| - 1].body.Pad?
         && (row.policy != 1 ==> m.tlvs[1].body.Authentication? && m.tlvs[1].body.policy == row.policy % 0x100)
         && (row.policy == 2 ==> ClientAccepts(hmac, row, info, m, 1))
  }

  lemma LoneDescription(
    hmac: Hmac, world: World, env: Env, data: seq<u8>, request: Message, i: nat, info: Info, m: Message)
    requires DbCache.Coherent(env.db) && AllCheckable(data, request) && AsksDescription(request, i)
    requires !request.tlvs[i].authenticated && Usable(env)
    requires var (body, _, after) := AnswerTlv(hmac, world, env, data, request, i);
             RepliesAlone(hmac, info, request, body, Fetch(world, after, request.payload.target).0, m)
    ensures AnswersDescription(hmac, world, env, data, request, i, info, m)
  {
    hide DbCache.Coherent, AnswerTlv, Fetch, PassesBehind, Describes, IsDenial, IsReason, Tells, ClientAccepts,
      AllCheckable, Usable, IsManagementReply, Display;
    DescriptionAnswer(hmac, world, env, data, request, i);
  }

  /**
   * A GET of the user description, on the wire. With a port that is found and a
   * TLV behind the question that passes, the client decodes the description that was
   * registered last; otherwise it is told why not. The reply of a port that is found
   * is signed unless its policy is the plain one, and the client accepts it.
   */
  lemma DescriptionRequestIsAnswered(
    hmac: Hmac, world: World, env: Env, left: Leftover, received: seq<u8>, room: nat, before: seq<nat>,
    queue: seq<nat>, infos: map<nat, Info>, meant: map<nat, Message>, i: nat)
    returns (m: Message)
    requires DbCache.Coherent(env.db) && |received| <= BUFFER_SIZE && room > 0
    requires DecodedAt(world, env, left, PORT_GENERAL, received).Ok?
    requires AsksDescription(DecodedAt(world, env, left, PORT_GENERAL, received).value, i)
    requires Queued(hmac, env.db.latest, before, queue, infos, meant,
                    Reception(hmac, world, env, left, PORT_GENERAL, Some(received), room).responses)
    ensures |queue| == |before| + 1 && queue[|before|] in infos && Tells(infos[queue[|before|]], m)
    ensures Usable(env.(step := env.step + 1))
    ensures AnswersDescription(hmac, world, env.(step := env.step + 1),
                               ReceiveBuffer(received, world(env.step).memory),
                               DecodedAt(world, env, left, PORT_GENERAL, received).value, i,
                               infos[queue[|before|]], m)
  {
    hide DbCache.Coherent, Queued, Reception, DecodedAt, ReceiveBuffer, AnswerTlv, Fetch, AnswersDescription, Tells,
      AllCheckable, Usable, IsManagementReply, ClientAccepts;
    var arrived, data := env.(step := env.step + 1), ReceiveBuffer(received, world(env.step).memory);
    var request := DecodedAt(world, env, left, PORT_GENERAL, received).value;
    SameDbIsCoherent(env, arrived);
    m := LoneReplyArrives(hmac, world, env, left, received, room, before, queue, infos, meant, i);
    LoneDescription(hmac, world, arrived, data, request, i, infos[queue[|before|]], m);
  }

  // ---- Times, and questions that are refused

  /** `m` is what a GET of the time should be answered with, and `info` holds it. */
  ghost predicate AnswersTime(hmac: Hmac, world: World, env: Env, request: Message, info: Info, m: Message)
    requires Usable(env) && request.payload.Management?
  {
    var target := request.payload.target;
    && IsManagementReply(m, request.portId, target, request.sequenceId, 2) && m.tlvs != []
    && if Fetch(world, env, target).0.Missing? then m.tlvs[0] == Tlv(false, ManagementTlv(TimeData(0)))
       else
         && target in env.db.latest
         && var row, now := env.db.latest[target], world(env.step + 1).now;
         && m.tlvs[0] == Tlv(false, ManagementTlv(TimeData((now + row.offset) % 0x1_0000_0000_0000_0000)))
         && |m.tlvs| == (if row.policy != 1 then 3 else 2) && m.tlvs[|m.tlvs| - 1].body.Pad?
         && (row.policy != 1 ==> m.tlvs[1].body.Authentication? && m.tlvs[1].body.policy == row.policy % 0x100)
         && (row.policy == 2 ==> ClientAccepts(hmac, row, info, m, 1))
  }

  lemma LoneTime(
    hmac: Hmac, world: World, env: Env, data: seq<u8>, request: Message, i: nat, info: Info, m: Message)
    requires DbCache.Coherent(env.db) && AllCheckable(data, request) && AsksTime(request, i) && Usable(env)
    requires var (body, _, after) := AnswerTlv(hmac, world, env, data, request, i);
             RepliesAlone(hmac, info, request, body, Fetch(world, after, request.payload.target).0, m)
    ensures AnswersTime(hmac, world, env, request, info, m)
  {
    hide DbCache.Coherent, Fetch, Tells, ClientAccepts, Checkable, IsManagementReply, DbCache.ValidPort, DbCache.Hit,
      Authenticate;
    var target := request.payload.target;
    FetchFindsLatest(world, env, target);
    TimeIsClockPlusOffset(world, env, target);
    if Fetch(world, env, target).0.Found? {
      FetchFindsAgain(world, env, target);
      SameDbIsFetched(world, Fetch(world, env, target).1, target);
    }
  }

  /** A cached port is found at any step. */
  lemma SameDbIsFetched(world: World, env: Env, port: PortId)
    requires DbCache.Coherent(env.db) && DbCache.ValidPort(port) && DbCache.Hit(env.db, port)
    ensures Usable(env) && port in env.db.latest
    ensures Fetch(world, env.(step := env.step + 1), port).0 == Found(env.db.latest[port])
  {
    hide Fetch, DbCache.ValidPort, DbCache.Hit, DbCache.Coherent;
    CoherentIsUsable(env);
    HitStays(world, env.(step := env.step + 1), port);
  }

  /** A GET of the time, with the signature of its reply. */
  lemma TimeReplyIsSigned(
    hmac: Hmac, world: World, env: Env, left: Leftover, received: seq<u8>, room: nat, before: seq<nat>,
    queue: seq<nat>, infos: map<nat, Info>, meant: map<nat, Message>, i: nat)
    returns (m: Message)
    requires DbCache.Coherent(env.db) && |received| <= BUFFER_SIZE && room > 0
    requires DecodedAt(world, env, left, PORT_GENERAL, received).Ok?
    requires AsksTime(DecodedAt(world, env, left, PORT_GENERAL, received).value, i)
    requires Queued(hmac, env.db.latest, before, queue, infos, meant,
                    Reception(hmac, world, env, left, PORT_GENERAL, Some(received), room).responses)
    ensures |queue| == |before| + 1 && queue[|before|] in infos && Tells(infos[queue[|before|]], m)
    ensures Usable(env.(step := env.step + 1))
    ensures AnswersTime(hmac, world, env.(step := env.step + 1),
                        DecodedAt(world, env, left, PORT_GENERAL, received).value, infos[queue[|before|]], m)
  {
    hide DbCache.Coherent, Queued, Reception, DecodedAt, ReceiveBuffer, AnswerTlv, Fetch, AnswersTime, Tells,
      AllCheckable, Usable, IsManagementReply, ClientAccepts;
    var arrived, data := env.(step := env.step + 1), ReceiveBuffer(received, world(env.step).memory);
    var request := DecodedAt(world, env, left, PORT_GENERAL, received).value;
    SameDbIsCoherent(env, arrived);
    m := LoneReplyArrives(hmac, world, env, left, received, room, before, queue, infos, meant, i);
    LoneTime(hmac, world, arrived, data, request, i, infos[queue[|before|]], m);
  }

  /** The only management TLV asks with another action than GET. */
  predicate AsksOtherwise(request: Message, i: nat) {
    && OnlyQuestion(request, i) && request.payload.action != 0
    && (request.tlvs[i].body.data.UnknownData? ==> request.tlvs[i].body.data.id < 0x1_0000)
  }

  predicate RefusesQuestion(request: Message, i: nat, m: Message)
    requires AsksOtherwise(request, i)
  {
    && IsManagementReply(m, request.portId, request.payload.target, request.sequenceId, 0) && m.tlvs != []
    && m.tlvs[0].body == match request.tlvs[i].body.data
       case UserDescriptionData(_, _) => ErrorStatus(6, 2, Display("Unsupported action"))
       case TimeData(_) => ErrorStatus(6, 0x200f, Display("Unsupported action"))
       case UnknownData(id) => ErrorStatus(6, id, Display("Management ID not supported"))
  }

  lemma LoneRefusal(
    hmac: Hmac, world: World, env: Env, data: seq<u8>, request: Message, i: nat, info: Info, entry: Entry, m: Message)
    requires Usable(env) && AllCheckable(data, request) && AsksOtherwise(request, i)
    requires RepliesAlone(hmac, info, request, AnswerTlv(hmac, world, env, data, request, i).0, entry, m)
    ensures RefusesQuestion(request, i, m)
  {
    hide Fetch, Tells, Checkable, IsManagementReply, ClientAccepts, Display;
  }

  /** A single question with any other action than GET is refused. */
  lemma OtherActionIsRefused(
    hmac: Hmac, world: World, env: Env, left: Leftover, received: seq<u8>, room: nat, before: seq<nat>,
    queue: seq<nat>, infos: map<nat, Info>, meant: map<nat, Message>, i: nat)
    returns (m: Message)
    requires DbCache.Coherent(env.db) && |received| <= BUFFER_SIZE && room > 0
    requires DecodedAt(world, env, left, PORT_GENERAL, received).Ok?
    requires AsksOtherwise(DecodedAt(world, env, left, PORT_GENERAL, received).value, i)
    requires Queued(hmac, env.db.latest, before, queue, infos, meant,
                    Reception(hmac, world, env, left, PORT_GENERAL, Some(received), room).responses)
    ensures |queue| == |before| + 1 && queue[|before|] in infos && Tells(infos[queue[|before|]], m)
    ensures RefusesQuestion(DecodedAt(world, env, left, PORT_GENERAL, received).value, i, m)
  {
    hide DbCache.Coherent, Queued, Reception, DecodedAt, ReceiveBuffer, AnswerTlv, Fetch, RefusesQuestion, Tells,
      AllCheckable, Usable, IsManagementReply, ClientAccepts;
    var arrived, data := env.(step := env.step + 1), ReceiveBuffer(received, world(env.step).memory);
    var request := DecodedAt(world, env, left, PORT_GENERAL, received).value;
    SameDbIsCoherent(env, arrived);
    m := LoneReplyArrives(hmac, world, env, left, received, room, before, queue, infos, meant, i);
    LoneRefusal(hmac, world, arrived, data, request, i, infos[queue[|before|]],
                Fetch(world, AnswerTlv(hmac, world, arrived, data, request, i).2, request.payload.target).0, m);
  }
}
