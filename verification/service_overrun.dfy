/**
 * A request of 202 bytes for which 2432 leave the socket: ten questions for a
 * description, four for the time, and an authentication TLV, whose answers fill a
 * buffer so exactly that the type of the next TLV lands in the length behind it.
 */
module ServiceOverrun {
  import opened Bytes
  import opened Wrappers
  import opened PtpMessage
  import opened PtpWire
  import opened PtpSecurity
  import opened PtpAuthentication
  import opened PtpOverrun
  import opened Environment
  import opened Responses
  import opened ReplyProperties
  import opened ResponseBuffers
  import opened Leftovers
  import opened ServiceProperties
  import opened Service
  import PtpRoundTrip
  import DbCache

  /** A management GET for the port (1, 1) without TLVs. */
  function Front(): (d: seq<u8>)
    ensures |d| == 48
  {
    [0x0d] + seq(33, _ => 0) + [0, 0, 0, 0, 0, 0, 0, 1, 0, 1, 0, 0, 0, 0]
  }

  const QUESTION: seq<u8> := [0, 1, 0, 4, 0, 2, 0, 0]
  const TIME_QUESTION: seq<u8> := [0, 1, 0, 12, 0x20, 0x0f, 0, 0, 0, 0, 0, 0, 0, 0, 0, 0]
  const AUTHENTICATION: seq<u8> := [0x80, 0x09, 0, 6, 0, 0, 0, 0, 0, 0]

  function RequestByte(k: nat): u8
    requires k < 202
  {
    if k < 48 then Front()[k]
    else if k < 128 then QUESTION[(k - 48) % 8]
    else if k < 144 then TIME_QUESTION[k - 128]
    else if k < 160 then TIME_QUESTION[k - 144]
    else if k < 176 then TIME_QUESTION[k - 160]
    else if k < 192 then TIME_QUESTION[k - 176]
    else AUTHENTICATION[k - 192]
  }

  function OverrunRequest(): (d: seq<u8>)
    ensures |d| == 202 && forall k: nat :: k < 202 ==> d[k] == RequestByte(k)
  {
    seq(202, k requires 0 <= k < 202 => RequestByte(k))
  }

  function TlvAt(i: nat): nat {
    if i <= 10 then 48 + 8 * i else if i <= 14 then 128 + 16 * (i - 10) else 202
  }

  function AskedBody(i: nat): TlvBody {
    if i < 10 then ManagementTlv(UserDescriptionData(0, Described([])))
    else if i < 14 then ManagementTlv(TimeData(0))
    else Authentication(0, 0, 0, 202, 0)
  }

  lemma QuestionBytes(i: nat)
    requires i < 10
    ensures OverrunRequest()[TlvAt(i)..TlvAt(i) + 8] == QUESTION
  {}

  lemma TimeBytes(i: nat)
    requires 10 <= i < 14
    ensures OverrunRequest()[TlvAt(i)..TlvAt(i) + 16] == TIME_QUESTION
  {
    forall j: nat | j < 16
      ensures OverrunRequest()[TlvAt(i) + j] == TIME_QUESTION[j]
    {
      assert RequestByte(TlvAt(i) + j) == TIME_QUESTION[j];
    }
    hide OverrunRequest;
  }

  lemma QuestionDecodes(d: seq<u8>, at: nat)
    requires at + 8 <= |d| < 0x8000 && d[at..at + 8] == QUESTION
    ensures DecodeTlv(d, at) == Ok((AskedBody(0), at + 8))
  {
    var s := d[at..at + 8];
    assert d[at] == s[0] && d[at + 1] == s[1] && d[at + 2] == s[2] && d[at + 3] == s[3];
    assert d[at + 4] == s[4] && d[at + 5] == s[5] && d[at + 6] == s[6];
  }

  lemma TimeQuestionDecodes(d: seq<u8>, at: nat)
    requires at + 16 <= |d| < 0x8000 && d[at..at + 16] == TIME_QUESTION
    ensures DecodeTlv(d, at) == Ok((AskedBody(10), at + 16))
  {
    var s := d[at..at + 16];
    forall j: nat | j < 16
      ensures d[at + j] == s[j]
    {
    }
    assert GetBe16(d, at) == GetBe16(s, 0) && GetBe16(d, at + 2) == GetBe16(s, 2)
      && GetBe16(d, at + 4) == GetBe16(s, 4);
    assert GetBe16(d, at + 6) == GetBe16(s, 6) && GetBe32(d, at + 8) == GetBe32(s, 8);
    assert GetBe32(d, at + 12) == GetBe32(s, 12);
  }

  lemma AuthenticationDecodes(d: seq<u8>)
    requires |d| == 202 && d[192..202] == AUTHENTICATION
    ensures DecodeTlv(d, 192) == Ok((AskedBody(14), 202))
  {
    assert d[192] == d[192..202][0] && d[193] == d[192..202][1];
  }

  lemma AskedStep(i: nat)
    requires i < 15
    ensures TlvAt(i) < TlvAt(i + 1) <= 202
    ensures DecodeTlv(OverrunRequest(), TlvAt(i)) == Ok((AskedBody(i), TlvAt(i + 1)))
  {
    hide OverrunRequest, DecodeTlv, Described;
    if i < 10 {
      QuestionBytes(i);
      QuestionDecodes(OverrunRequest(), TlvAt(i));
    } else if i < 14 {
      TimeBytes(i);
      TimeQuestionDecodes(OverrunRequest(), TlvAt(i));
    } else {
      LastBytes();
      AuthenticationDecodes(OverrunRequest());
    }
  }

  lemma LastBytes()
    ensures OverrunRequest()[192..202] == AUTHENTICATION
  {}

  /** The TLVs from the `i`th on. */
  function AskedTlvs(i: nat): (tlvs: seq<Tlv>)
    requires i <= 15
    ensures |tlvs| == 15 - i && forall k: nat :: k < |tlvs| ==> tlvs[k] == Tlv(false, AskedBody(i + k))
    decreases 15 - i
  {
    if i == 15 then [] else [Tlv(false, AskedBody(i))] + AskedTlvs(i + 1)
  }

  lemma {:induction false} AskedTlvsDecode(i: nat, room: nat)
    requires i <= 15 && room >= 15 - i
    ensures TlvAt(i) <= 202 && DecodeTlvs(OverrunRequest(), TlvAt(i), room) == Ok(AskedTlvs(i))
    decreases 15 - i
  {
    hide OverrunRequest, DecodeTlv, AskedBody;
    if i < 15 {
      AskedStep(i);
      AskedTlvsDecode(i + 1, room - 1);
    }
  }

  lemma FrontDecodes()
    ensures var d := OverrunRequest();
            d[0] % 0x10 == 0xd && DecodePayload(0xd, d, HEADER_SIZE) == Ok((Management(PortId(1, 1), 0, 0, 0), 48))
  {
    var d := OverrunRequest();
    forall k: nat | k < 48
      ensures d[k] == Front()[k]
    {
    }
    hide OverrunRequest;
    assert GetBe64(d, 34) == 1 && GetBe16(d, 42) == 1;
  }

  lemma OverrunRequestDecodes()
    ensures DecodeMessage(OverrunRequest()).Ok?
    ensures var m := DecodeMessage(OverrunRequest()).value;
            m.payload == Management(PortId(1, 1), 0, 0, 0) && m.tlvs == AskedTlvs(0) && AsksForOverrun(m)
  {
    hide OverrunRequest, DecodeTlvs, DecodePayload, AsksForOverrun, AskedTlvs;
    FrontDecodes();
    AskedTlvsDecode(0, MAX_TLV_COUNT);
    AskedIsOverrun(DecodeMessage(OverrunRequest()).value);
  }

  lemma AskedIsOverrun(m: Message)
    requires m.payload == Management(PortId(1, 1), 0, 0, 0) && m.tlvs == AskedTlvs(0)
    ensures AsksForOverrun(m)
  {
    hide AskedTlvs, Described;
    assert forall k: nat :: k < 15 ==> m.tlvs[k] == Tlv(false, AskedBody(0 + k));
  }

  /**
   * From an empty queue, for a cached port (1, 1) with policy NONE and a description
   * of 128 bytes or more: one datagram leaves, and it has 2432 bytes.
   */
  lemma OverrunIsSent(
    hmac: Hmac, world: World, env: Env, left: Leftover, room: nat, step: nat, queue: seq<nat>, infos: map<nat, Info>,
    meant: map<nat, Message>)
    requires IsOpen(env.db, PortId(1, 1)) && |env.db.latest[PortId(1, 1)].description| >= USER_DESCRIPTION_SIZE
    requires Usable(env) && room > 0
    requires Queued(hmac, env.db.latest, [], queue, infos, meant,
                    Reception(hmac, world, env, left, PORT_GENERAL, Some(OverrunRequest()), room).responses)
    ensures var (n, _, out) := Drain(world, step, infos, queue);
            n == |queue| == 1 && |out| == 1 && |out[0]| == 2432 && !IsDatagram(out[0])
  {
    hide OverrunRequest, DecodeMessage, AsksForOverrun, IsOpen, Queued, Reception, HandleManagement, Drain,
      AllCheckable, MessageCells, FailedLength;
    OverrunRequestDecodes();
    var arrived, request := env.(step := env.step + 1), DecodeMessage(OverrunRequest()).value;
    ReceptionOfManagement(hmac, world, env, left, OverrunRequest(), room);
    OverrunExample(hmac, world, arrived, ReceiveBuffer(OverrunRequest(), world(env.step).memory), request, room);
    var o := Reception(hmac, world, env, left, PORT_GENERAL, Some(OverrunRequest()), room);
    FailureIsSent(hmac, env.db.latest, world, step, queue, infos, meant, o.responses);
  }

  /** A single response that does not fit leaves at once, as long as the failure says. */
  lemma FailureIsSent(
    hmac: Hmac, latest: map<PortId, DbCache.Row>, world: World, step: nat, queue: seq<nat>, infos: map<nat, Info>,
    meant: map<nat, Message>, responses: seq<Response>)
    requires Queued(hmac, latest, [], queue, infos, meant, responses) && |responses| == 1 && responses[0].Final?
    requires MessageCells(responses[0].message, BUFFER_SIZE).Err? && FailedLength(responses[0].message) > BUFFER_SIZE
    ensures |queue| == 1 && queue[0] in infos
    ensures var (n, _, out) := Drain(world, step, infos, queue);
            n == 1 && |out| == 1 && |out[0]| == FailedLength(responses[0].message) && !IsDatagram(out[0])
  {
    hide MessageCells, FailedLength, Carries, Authentic, Length;
    assert Holds(hmac, latest, infos, meant, queue[0], responses[0]);
    assert queue[1..] == [];
  }

  // ---- A run

  const PORT := PortId(1, 1)

  /** No row, and nothing cached. */
  function EmptyDb(): (db: DbCache.Db)
    ensures DbCache.Coherent(db) && PORT !in db.store
  {
    var slot := DbCache.Slot(false, NO_PORT, DbCache.Row(0, 0, false, [], []));
    DbCache.Db(seq(DbCache.CACHE_SIZE, _ => slot), map[], map[])
  }

  predicate IsLong(row: DbCache.Row) {
    row.policy == POLICY_NONE && USER_DESCRIPTION_SIZE <= |row.description| <= DbCache.DESCRIPTION_SIZE
  }

  lemma RegisteredIsStored(world: World, row: DbCache.Row)
    requires IsLong(row) && world(0).fault == DbCache.NoFault
    ensures var db := DbCache.Insert(DbCache.Delete(EmptyDb(), world(0).gone), PORT, row, world(0).fault).0;
            DbCache.Coherent(db) && PORT in db.store && PORT in db.latest && db.latest[PORT] == row
  {
    DeleteKeepsCoherent(EmptyDb(), world(0).gone);
    DbCache.InsertKeepsCoherent(DbCache.Delete(EmptyDb(), world(0).gone), PORT, row, world(0).fault);
  }

  lemma InspectedIsOpen(world: World, env: Env, row: DbCache.Row)
    requires DbCache.Coherent(env.db) && PORT in env.db.store && PORT in env.db.latest && env.db.latest[PORT] == row
    requires IsLong(row) && world(env.step).fault == DbCache.NoFault && PORT !in world(env.step).gone
    ensures var after := Fetch(world, env, PORT).1;
            Usable(env) && Usable(after) && IsOpen(after.db, PORT) && after.db.latest == env.db.latest
  {
    assert DbCache.ValidPort(PORT);
    hide Fetch, DbCache.Hash, DbCache.ValidPort, DbCache.Hit, DbCache.Coherent;
    CoherentIsUsable(env);
    FetchFindsIff(world, env, PORT);
    FetchFindsAgain(world, env, PORT);
    FetchFindsLatest(world, env, PORT);
  }

  /** A service with such a port, before anything arrives. */
  method Prepare(hmac: Hmac, world: World, heap: nat -> Leftover, infoSize: nat, row: DbCache.Row)
    returns (service: Server)
    requires IsLong(row) && world(0).fault == world(1).fault == DbCache.NoFault && PORT !in world(1).gone
    ensures service.Idle() && service.Remembers() && fresh(service) && fresh(service.udpPool) && fresh(service.ptpPool)
    ensures fresh(service.rx) && fresh(service.tx) && fresh(service.rx.buffer) && fresh(service.tx.buffer)
    ensures service.ptpPool.outstanding == [] && service.sent == [] && service.hmac == hmac && service.world == world
    ensures Usable(service.env) && IsOpen(service.env.db, PORT) && service.env.db.latest[PORT] == row
  {
    hide Server.Idle, Server.Remembers, DbCache.Coherent, DbCache.Insert, IsOpen, Fetch, EmptyDb, IsLong, Usable,
      DbCache.Delete;
    RegisteredIsStored(world, row);
    service := new Server(hmac, world, heap, EmptyDb(), infoSize);
    service.Register(PORT, row);
    InspectedIsOpen(world, service.env, row);
    OpenIsStored(Fetch(world, service.env, PORT).1.db, PORT);
    var entry := service.Inspect(PORT);
  }

  lemma OpenIsStored(db: DbCache.Db, port: PortId)
    ensures IsOpen(db, port) ==> port in db.latest
  {}

  /**
   * A whole run: the port is registered and inspected, and then the request
   * arrives. What has been sent is one datagram of 2432 bytes.
   */
  method Overrun(hmac: Hmac, world: World, heap: nat -> Leftover, infoSize: nat, row: DbCache.Row)
    returns (service: Server)
    requires IsLong(row) && world(0).fault == world(1).fault == DbCache.NoFault && PORT !in world(1).gone
    ensures |service.sent| == 1 && |service.sent[0]| == 2432 && !IsDatagram(service.sent[0])
  {
    hide Server.Idle, Server.Remembers, DbCache.Coherent, IsOpen, Reception, NextLeftover, Drain, OverrunRequest, Kept,
      Queued, IsDatagram, Wired, Server.Heap;
    service := Prepare(hmac, world, heap, infoSize, row);
    ghost var left, env := NextLeftover(service.Heap(), service.arrivals), service.env;
    OpenIsStored(env.db, PORT);
    ghost var outbox := service.Poll(PORT_GENERAL, Some(OverrunRequest()));
    OverrunIsSent(hmac, world, env, left, 7, outbox.step, outbox.queue, outbox.responses, outbox.meant);
  }
}
