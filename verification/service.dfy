/**
 * The life of message buffers: a UDP event takes a request from the UDP pool,
 * passes it through the receive ring to the handlers, which allocate responses
 * from the PTP pool, queue them at once and finalize them later or never; then
 * queued responses are sent and returned in order.
 *
 * Received bytes are inputs of each event; the clock, database faults, the
 * cleanup, stale memory and socket results come from a `World` that is fixed
 * beforehand. Every method is proved to do exactly what `Responses` says. An item
 * out of order would end the program (`util_mempool_put`), so `exits` is shown
 * to be false at each return.
 */
module Service {
  import opened Bytes
  import opened Wrappers
  import opened PtpMessage
  import opened PtpWire
  import opened PtpSecurity
  import opened PtpAuthentication
  import opened PtpOverrun
  import opened Environment
  import opened Responses
  import opened Leftovers
  import opened ReplyProperties
  import opened ResponseBuffers
  import PtpEncoding
  import PtpSigned
  import PtpRoundTrip
  import MemPool
  import Ring
  import DbCache

  const RING_SIZE: nat := 8
  const POOL_SIZE: nat := 8

  /** A socket event, or over HTTP a registration, an inspection, or a page of the newest ports. */
  datatype Happening =
    | Arrives(portType: nat, received: Option<seq<u8>>)
    | Registers(port: PortId, row: DbCache.Row)
    | Inspects(port: PortId)
    | Browses(order: seq<PortId>, length: nat)

  predicate PossibleHappening(happening: Happening) {
    happening.Arrives? ==>
      happening.portType <= PORT_GENERAL && (happening.received.Some? ==> |happening.received.value| <= BUFFER_SIZE)
  }

  /** The receive attempts of a run. */
  function Arrivals(happenings: seq<Happening>): seq<Option<seq<u8>>> {
    if happenings == [] then []
    else
      var last := |happenings| - 1;
      Arrivals(happenings[..last]) + if happenings[last].Arrives? then [happenings[last].received] else []
  }

  /** What the sends of an event start from. */
  datatype Outbox = Outbox(
    step: nat, queue: seq<nat>, responses: map<nat, Info>, meant: map<nat, Message>, sent: seq<seq<u8>>,
    wire: seq<Message>)

  class Server {
    const udpPool: MemPool.Mempool
    const ptpPool: MemPool.Mempool
    const rx: Ring.ItemRing
    const tx: Ring.ItemRing
    const hmac: Hmac
    const world: World
    /** What `malloc` has left in the requests, by item of the UDP pool. */
    const heap: nat -> Leftover
    /** The database, its cache, and how much of the world is used up. */
    var env: Env
    /** Requests by item of the UDP pool, responses by item of the PTP pool. */
    var requests: map<nat, Request>
    var infos: map<nat, Info>
    /** The message with which each response was finalized last. */
    ghost var meant: map<nat, Message>
    /** Everything handed to the socket, and the message meant by it. */
    ghost var sent: seq<seq<u8>>
    ghost var wire: seq<Message>
    /** Every receive attempt since start-up. */
    ghost var arrivals: seq<Option<seq<u8>>>

    /** The transmit ring holds exactly the outstanding responses, in allocation order. */
    ghost predicate Valid()
      reads `infos, `meant, `sent, `wire, udpPool, ptpPool, rx, rx.buffer, tx, tx.buffer
    {
      Linked(ptpPool.outstanding)
    }

    /** The transmit ring holds `queue`. */
    ghost predicate Linked(queue: seq<nat>)
      reads `infos, `meant, `sent, `wire, udpPool, ptpPool, rx, rx.buffer, tx, tx.buffer
    {
      && udpPool != ptpPool && rx != tx && rx.buffer != tx.buffer
      && udpPool.Valid() && ptpPool.Valid() && rx.Valid() && tx.Valid()
      && udpPool.count == ptpPool.count == POOL_SIZE && rx.length == tx.length == RING_SIZE
      && tx.Contents() == queue
      && (forall item :: item in ptpPool.outstanding ==> item in infos)
      && (forall item :: item in infos ==> WellFormed(infos[item], meant, item))
      && |sent| == |wire|
      && forall k :: 0 <= k < |sent| ==> Ready(wire[k]) && SentAs(sent[k], wire[k])
    }

    static ghost predicate WellFormed(info: Info, meant: map<nat, Message>, item: nat) {
      && info.portType <= PORT_GENERAL
      && (Length(info) == 0 || (item in meant && Ready(meant[item]) && Shaped(info, meant[item])))
    }

    ghost predicate Sound()
      reads `env
    {
      DbCache.Coherent(env.db)
    }

    lemma CoherentEnv()
      requires Sound()
      ensures DbCache.Coherent(env.db)
    {}

    lemma UsableEnv()
      requires Sound()
      ensures Usable(env)
    {}

    /** Between events no request is anywhere. */
    ghost predicate Idle()
      reads `infos, `meant, `sent, `wire, `env, udpPool, ptpPool, rx, rx.buffer, tx, tx.buffer
    {
      Valid() && Sound() && rx.Contents() == [] && udpPool.outstanding == []
    }

    /** What is left in a request, by item. */
    function LeftAt(requests: map<nat, Request>, item: nat): Leftover {
      if item in requests then LeftoverOf(requests[item]) else heap(item)
    }

    /** The same for a request that has never been used, by its place in the pool. */
    ghost function Heap(): Leftovers.Heap {
      (slot: nat) => heap(udpPool.ItemAt(slot))
    }

    ghost predicate Holding(requests: map<nat, Request>, arrivals: seq<Option<seq<u8>>>) {
      forall slot: nat :: slot < POOL_SIZE ==>
        LeftAt(requests, udpPool.ItemAt(slot)) == LeftIn(Heap(), arrivals, slot)
    }

    /** Between events each request holds what the arrivals have left in it. */
    ghost predicate Remembers()
      reads `requests, `arrivals, udpPool
    {
      udpPool.Valid() && udpPool.Slot() == |arrivals| % POOL_SIZE && Holding(requests, arrivals)
    }

    /** How many responses can still be allocated. */
    ghost function Room(): nat
      reads ptpPool
    {
      if |ptpPool.outstanding| < POOL_SIZE then POOL_SIZE - 1 - |ptpPool.outstanding| else 0
    }

    /** Since `before` the responses `added` have been queued. */
    ghost predicate Added(before: seq<nat>, added: seq<Response>)
      reads ptpPool, `infos, `meant, `env
    {
      Queued(hmac, env.db.latest, before, ptpPool.outstanding, infos, meant, added)
    }

    /** Responses queued before are still queued, and as they were, except for `but`. */
    twostate predicate Keeps(but: set<nat>)
      reads `infos, `meant, ptpPool
    {
      Kept(old(ptpPool.outstanding), old(infos), old(meant), ptpPool.outstanding, infos, meant, but)
    }

    constructor (hmac: Hmac, world: World, heap: nat -> Leftover, db: DbCache.Db, infoSize: nat)
      requires DbCache.Coherent(db)
      ensures Idle() && Remembers() && arrivals == []
      ensures ptpPool.outstanding == [] && sent == [] && env == Env(db, 0)
      ensures this.hmac == hmac && this.world == world && this.heap == heap
      ensures fresh(udpPool) && fresh(ptpPool) && fresh(rx) && fresh(tx) && fresh(rx.buffer) && fresh(tx.buffer)
    {
      this.hmac, this.world, this.heap := hmac, world, heap;
      udpPool := new MemPool.Mempool(infoSize, POOL_SIZE);
      ptpPool := new MemPool.Mempool(infoSize, POOL_SIZE);
      rx := new Ring.ItemRing(RING_SIZE);
      tx := new Ring.ItemRing(RING_SIZE);
      env := Env(db, 0);
      requests, infos := map[], map[];
      meant, sent, wire, arrivals := map[], [], [], [];
    }

    // ---- The world

    method FetchEntry(port: PortId) returns (entry: Entry)
      requires Sound()
      modifies `env
      ensures Sound() && (entry, env) == Fetch(world, old(env), port) && env.db.latest == old(env.db.latest)
    {
      FetchFindsLatest(world, env, port);
      var moment := world(env.step);
      var (db, code) := DbCache.Lookup(DbCache.Delete(env.db, moment.gone), port, moment.fault);
      env := Env(db, env.step + 1);
      entry := if code == 0 then Found(db.cache[DbCache.Hash(port)].row) else Missing(code);
    }

    method ReadClock() returns (now: u64)
      modifies `env
      ensures (now, env) == Clock(world, old(env))
    {
      now := world(env.step).now;
      env := env.(step := env.step + 1);
    }

    // ---- ptp_helper.h

    /** Allocates a response and queues it at once; fails only if the pool is exhausted. */
    method GetAndInitResponse(portType: nat, payload: Payload, portId: PortId, sequenceId: u16)
      returns (response: Option<nat>)
      requires Valid() && portType <= PORT_GENERAL
      modifies ptpPool, tx, tx.buffer, `infos
      ensures Valid()
      ensures response.None? <==> old(Room()) == 0
      ensures response.None? ==> ptpPool.outstanding == old(ptpPool.outstanding) && infos == old(infos)
      ensures response.Some? ==>
                && response.value !in old(ptpPool.outstanding)
                && ptpPool.outstanding == old(ptpPool.outstanding) + [response.value] && Room() == old(Room()) - 1
                && response.value in infos && infos == old(infos)[response.value := infos[response.value]]
                && Length(infos[response.value]) == 0 && infos[response.value].portType == portType
                && infos[response.value].message == FreshMessage(ZeroPayload(payload), portId, sequenceId)
    {
      hide MemPool.Mempool.Valid, Ring.ItemRing.Valid, Ring.ItemRing.Contents, Shaped, Ready, SentAs;
      response := ptpPool.Get();
      if response.None? { return; }
      var item := response.value;
      var block := if item in infos then infos[item].block else ZEROS;
      LengthField(block, 0);
      var message := FreshMessage(ZeroPayload(payload), portId, sequenceId);
      infos := infos[item := Info(portType, 0, WithLength(block, 0), message)];
      // a failure here would return the newest item, out of order; the equal sizes exclude it
      var ok := tx.Put(item);
      assert ok;
    }

    /** A store into a response. */
    method Store(item: nat, info: Info)
      requires Valid() && item in infos && WellFormed(info, meant, item)
      modifies `infos
      ensures Valid() && infos == old(infos)[item := info]
    {
      infos := infos[item := info];
    }

    /** A response becomes the encoding of `m`, or what is left of the attempt. */
    method StoreFinal(item: nat, info: Info, ghost m: Message)
      requires Valid() && item in infos && Ready(m) && Shaped(info, m) && info.portType <= PORT_GENERAL
      requires Length(infos[item]) == 0
      modifies `infos, `meant
      ensures Valid() && infos == old(infos)[item := info] && meant == old(meant)[item := m]
    {
      hide MemPool.Mempool.Valid, Ring.ItemRing.Valid, Ring.ItemRing.Contents, Shaped, Ready, SentAs;
      infos := infos[item := info];
      meant := meant[item := m];
    }

    lemma ResponseIsWellFormed(item: nat)
      requires Valid() && item in infos
      ensures WellFormed(infos[item], meant, item)
    {}

    static lemma SameLengthIsWellFormed(info: Info, meant: map<nat, Message>, item: nat, message: Message)
      requires WellFormed(info, meant, item)
      ensures WellFormed(info.(message := message), meant, item)
    {}

    method SetPayload(item: nat, payload: Payload)
      requires Valid() && item in infos
      modifies `infos
      ensures Valid()
              && infos
                 == old(infos)[item := old(infos)[item].(message := old(infos)[item].message.(payload := payload))]
    {
      hide Valid, WellFormed;
      ResponseIsWellFormed(item);
      SameLengthIsWellFormed(infos[item], meant, item, infos[item].message.(payload := payload));
      Store(item, infos[item].(message := infos[item].message.(payload := payload)));
    }

    /** A response to request `r` with its payload; everything else stays as it is. */
    method InitReply(r: nat, portType: nat, payload: Payload) returns (response: Option<nat>)
      requires Valid() && portType <= PORT_GENERAL && r in requests && HasTarget(requests[r].message.payload)
      modifies ptpPool, tx, tx.buffer, `infos
      ensures Valid() && (response.None? <==> old(Room()) == 0)
      ensures response.None? ==> ptpPool.outstanding == old(ptpPool.outstanding) && infos == old(infos)
      ensures response.Some? ==>
                && response.value !in old(ptpPool.outstanding)
                && ptpPool.outstanding == old(ptpPool.outstanding) + [response.value]
                && response.value in infos && SameBut(old(infos), infos, response.value)
                && Length(infos[response.value]) == 0
                && infos[response.value].message
                   == FreshMessage(payload, requests[r].message.payload.target, requests[r].message.sequenceId)
    {
      hide Valid, GetLe16;
      var message := requests[r].message;
      response := GetAndInitResponse(portType, payload, message.payload.target, message.sequenceId);
      if response.Some? { SetPayload(response.value, payload); }
    }

    static predicate HasTarget(payload: Payload) {
      payload.Signaling? || payload.Management?
    }

    /** Appends a TLV unless all slots are taken. */
    method AddTlv(item: nat, body: TlvBody) returns (ret: int)
      requires Valid() && item in infos
      modifies `infos
      ensures Valid()
      ensures ret == if |old(infos)[item].message.tlvs| >= MAX_TLV_COUNT then EMSGSIZE else 0
      ensures ret == 0 ==>
              infos == old(infos)[item := old(infos)[item].(message := WithTlv(old(infos)[item].message, body))]
      ensures ret != 0 ==> infos == old(infos)
    {
      hide Valid, WellFormed;
      if |infos[item].message.tlvs| >= MAX_TLV_COUNT { return EMSGSIZE; }
      ResponseIsWellFormed(item);
      SameLengthIsWellFormed(infos[item], meant, item, WithTlv(infos[item].message, body));
      Store(item, infos[item].(message := WithTlv(infos[item].message, body)));
      ret := 0;
    }

    /** After the first `i` of `tlvs`, from `start` on: what has been looked up, and that no lookup has failed. */
    ghost predicate LookedUp(start: Env, port: PortId, tlvs: seq<Tlv>, i: nat, entries: seq<Entry>)
      requires Usable(start) && i <= |tlvs|
      reads `env
    {
      Usable(env) &&
      var (rest, after) := Lookups(world, env, port, tlvs[i..]);
      Lookups(world, start, port, tlvs) == (entries + rest, after)
    }

    lemma NothingLookedUp(port: PortId, tlvs: seq<Tlv>)
      requires Usable(env)
      ensures LookedUp(env, port, tlvs, 0, [])
    {
      var rest := Lookups(world, env, port, tlvs).0;
      assert tlvs[0..] == tlvs && [] + rest == rest;
    }

    lemma AllLookedUp(start: Env, port: PortId, tlvs: seq<Tlv>, entries: seq<Entry>)
      requires Usable(start) && LookedUp(start, port, tlvs, |tlvs|, entries)
      ensures (entries, env) == Lookups(world, start, port, tlvs)
    {
      assert tlvs[|tlvs|..] == [] && entries + [] == entries;
    }

    static lemma LookupsFrom(world: World, env: Env, port: PortId, tlvs: seq<Tlv>, i: nat)
      requires Usable(env) && i < |tlvs|
      ensures var found := Fetch(world, env, port);
              Lookups(world, env, port, tlvs[i..])
              == if tlvs[i].body.Authentication? && (found.0.Missing? || !KnownPolicy(found.0.row))
                 then ([found.0] + seq(|tlvs| - i - 1, _ => Missing(0)), found.1)
                 else
                   var (entry, next) := if tlvs[i].body.Authentication? then found else (Missing(0), env);
                   var (rest, after) := Lookups(world, next, port, tlvs[i + 1..]);
                   ([entry] + rest, after)
    {
      hide Fetch, KnownPolicy;
      assert tlvs[i..][0] == tlvs[i] && tlvs[i..][1..] == tlvs[i + 1..];
    }

    /** What looking up one more TLV leads to, `found` being the outcome if it is an authentication TLV. */
    static lemma NextLookup(
      world: World, start: Env, env: Env, port: PortId, tlvs: seq<Tlv>, i: nat, entries: seq<Entry>,
      found: (Entry, Env))
      requires Usable(start) && Usable(env) && i < |tlvs| && found == Fetch(world, env, port)
      requires var (rest, after) := Lookups(world, env, port, tlvs[i..]);
               Lookups(world, start, port, tlvs) == (entries + rest, after)
      ensures Usable(found.1)
      ensures if tlvs[i].body.Authentication? && (found.0.Missing? || !KnownPolicy(found.0.row))
              then Lookups(world, start, port, tlvs)
                   == (entries + ([found.0] + seq(|tlvs| - i - 1, _ => Missing(0))), found.1)
              else
                var (entry, next) := if tlvs[i].body.Authentication? then found else (Missing(0), env);
                var (rest, after) := Lookups(world, next, port, tlvs[i + 1..]);
                Lookups(world, start, port, tlvs) == (entries + [entry] + rest, after)
    {
      hide *;
      LookupsFrom(world, env, port, tlvs, i);
      var (entry, next) := if tlvs[i].body.Authentication? then found else (Missing(0), env);
      var rest := Lookups(world, next, port, tlvs[i + 1..]).0;
      assert entries + [entry] + rest == entries + ([entry] + rest);
    }

    /** The lookup for TLV `i`; `done` if it has failed, which ends the lookups. */
    method FetchNext(port: PortId, tlvs: seq<Tlv>, i: nat, entries: seq<Entry>, ghost start: Env)
      returns (more: seq<Entry>, done: bool)
      requires Sound() && i < |tlvs| && Usable(start) && LookedUp(start, port, tlvs, i, entries)
      modifies `env
      ensures Sound() && env.db.latest == old(env.db.latest)
      ensures if done then (more, env) == Lookups(world, start, port, tlvs)
              else LookedUp(start, port, tlvs, i + 1, more)
    {
      hide Lookups, Fetch, KnownPolicy, DbCache.Coherent;
      NextLookup(world, start, env, port, tlvs, i, entries, Fetch(world, env, port));
      if !tlvs[i].body.Authentication? { return entries + [Missing(0)], false; }
      var entry := FetchEntry(port);
      if entry.Missing? || !KnownPolicy(entry.row) {
        return entries + ([entry] + seq(|tlvs| - i - 1, _ => Missing(0))), true;
      }
      more, done := entries + [entry], false;
    }

    /** The lookups for the authentication TLVs of a decoded response, until one of them fails. */
    method FetchEntries(port: PortId, tlvs: seq<Tlv>) returns (entries: seq<Entry>)
      requires Sound()
      modifies `env
      ensures Sound() && env.db.latest == old(env.db.latest) && Usable(old(env))
      ensures (entries, env) == Lookups(world, old(env), port, tlvs)
      ensures forall i :: 0 <= i < |entries| && entries[i].Found? ==>
                port in env.db.latest && entries[i].row == env.db.latest[port]
    {
      hide Lookups, DbCache.Coherent, LookedUp;
      UsableEnv();
      LookupsAreLatest(world, env, port, tlvs);
      NothingLookedUp(port, tlvs);
      entries := [];
      for i := 0 to |tlvs|
        invariant Sound() && env.db.latest == old(env.db.latest)
        invariant LookedUp(old(env), port, tlvs, i, entries)
      {
        var done;
        entries, done := FetchNext(port, tlvs, i, entries, old(env));
        if done { return; }
      }
      AllLookedUp(old(env), port, tlvs, entries);
    }

    /**
     * Encodes the message and completes its authentication TLVs. A failed encoding
     * may spill into the length field behind the buffer.
     */
    method FinalizeMessage(item: nat) returns (ret: int, ghost entries: seq<Entry>)
      requires Valid() && Sound() && item in infos && Length(infos[item]) == 0
      requires Finalizable(env.db.latest, infos[item].message)
      modifies `infos, `meant, `env
      ensures Valid() && Sound() && env.db.latest == old(env.db.latest)
      ensures var m := old(infos)[item].message;
              && item in infos && infos == old(infos)[item := infos[item]] && meant == old(meant)[item := m]
              && Finished(hmac, entries, infos[item], m)
              && (ret == 0 ==> MessageCells(m, BUFFER_SIZE).Ok?)
              && (MessageCells(m, BUFFER_SIZE).Ok? && NoAuthentication(m.tlvs) ==> ret == 0)
              && env == AfterFinal(world, old(env), m)
              && (MessageCells(m, BUFFER_SIZE).Ok? ==>
                    entries == Lookups(world, old(env), m.portId, PtpRoundTrip.Delivered(m).tlvs).0)
    {
      hide Valid, MessageCells, Finished, Shaped, MessageSpill, PayloadFits, PtpRoundTrip.Delivered, DecodeMessage,
        PtpSigned.DecodeMessage, Sealed, Lookups, WithLength, DbCache.Coherent, NoAuthentication, HmacLengths;
      ghost var before := infos[item];
      var info := infos[item];
      var m := info.message;
      ResponseIsWellFormed(item);
      entries := [];
      SpillStaysInBlock(m);
      var memory := new u8[BLOCK_SIZE](i requires 0 <= i < BLOCK_SIZE => info.block[i]);
      assert memory[..] == info.block;
      var encoded := PtpEncoding.EncodeMessage(memory, m, BUFFER_SIZE);
      if encoded.Err? {
        FailedIsFinished(hmac, entries, before, info.(block := memory[..]), m);
        StoreFinal(item, info.(block := memory[..]), m);
        return ErrorCode(encoded.error), entries;
      }
      info := info.(block := WithLength(memory[..], encoded.value));
      LengthField(memory[..], encoded.value);
      EncodedDecodes(m, before.block);
      var decoded := PtpSigned.DecodeMessage(info.block[..encoded.value]).value.value;
      var used := FetchEntries(m.portId, decoded.tlvs);
      LatestIsNotPlain(used, env.db.latest, m);
      CompletedIsFinished(hmac, used, before.block, info, m);
      var (sealed, code) := Sealed(hmac, used, info.block, decoded.tlvs);
      SameBlock(hmac, used, info.(block := sealed), info.(block := sealed, message := decoded), m);
      StoreFinal(item, info.(block := sealed, message := decoded), m);
      ret, entries := code, used;
    }

    static lemma FailedIsFinished(hmac: Hmac, entries: seq<Entry>, before: Info, info: Info, m: Message)
      requires Ready(m) && MessageCells(m, BUFFER_SIZE).Err? && Length(before) == 0
      requires |MessageSpill(m, BUFFER_SIZE)| <= GAP_SIZE
      requires PtpEncoding.Failed(before.block, info.block, 0, BUFFER_SIZE, MessageSpill(m, BUFFER_SIZE))
      ensures Finished(hmac, entries, info, m) && Shaped(info, m)
    {
      hide MessageCells, MessageSpill, SpilledLength;
      SpillIsLength(before.block, info.block, MessageSpill(m, BUFFER_SIZE));
    }

    /** The service's own decoder finds in an encoded response what a receiver finds. */
    static lemma EncodedDecodes(m: Message, before: Block)
      requires |m.tlvs| <= MAX_TLV_COUNT && MessageCells(m, BUFFER_SIZE).Ok?
      ensures var cells := MessageCells(m, BUFFER_SIZE).value;
              PtpSigned.DecodeMessage(EncodedBlock(before, cells)[..|cells|]) == Some(Ok(PtpRoundTrip.Delivered(m)))
    {
      hide MessageCells, DecodeMessage, PtpSigned.DecodeMessage, EncodedBlock, PtpRoundTrip.Delivered;
      var cells := MessageCells(m, BUFFER_SIZE).value;
      var d := EncodedBlock(before, cells)[..|cells|];
      EncodedFits(m, before);
      PtpRoundTrip.MessageRoundTrip(m, BUFFER_SIZE, d);
      PtpSigned.CopiesAgree(d);
    }

    static lemma LatestIsNotPlain(entries: seq<Entry>, latest: map<PortId, DbCache.Row>, m: Message)
      requires Finalizable(latest, m) && |entries| == |PtpRoundTrip.Delivered(m).tlvs|
      requires forall i :: 0 <= i < |entries| && entries[i].Found? ==>
                 m.portId in latest && entries[i].row == latest[m.portId]
      ensures NonePlain(entries, PtpRoundTrip.Delivered(m).tlvs)
    {
      hide PtpRoundTrip.Delivered, HmacLengths, PayloadFits, NoAuthentication;
      if NoAuthentication(m.tlvs) { DeliveredAddsNoAuthentication(m); NoneToLookUp(PtpRoundTrip.Delivered(m).tlvs); }
    }

    static lemma NoneToLookUp(tlvs: seq<Tlv>)
      requires NoAuthentication(tlvs)
      ensures forall i :: 0 <= i < |tlvs| ==> !tlvs[i].body.Authentication?
    {}

    /** Finalizes the newest response, which has no authentication TLV and fits its buffer. */
    method Finish(item: nat, ghost before: seq<nat>) returns (ret: int)
      requires Valid() && Sound() && item in infos && Length(infos[item]) == 0
      requires ptpPool.outstanding == before + [item]
      requires Finalizable(env.db.latest, infos[item].message)
      requires MessageCells(infos[item].message, BUFFER_SIZE).Ok? && NoAuthentication(infos[item].message.tlvs)
      modifies `infos, `meant, `env
      ensures Valid() && Sound() && ret == 0 && env == old(env)
      ensures item in infos && infos == old(infos)[item := infos[item]]
      ensures meant == old(meant)[item := old(infos)[item].message]
      ensures Added(before, [Final(old(infos)[item].message)])
    {
      hide Valid, MessageCells, Carries, Authentic, NoAuthentication, HmacLengths, DbCache.Coherent, PayloadFits,
        Lookups, PtpRoundTrip.Delivered;
      ghost var m := infos[item].message;
      NoLookups(world, env, m);
      ghost var entries;
      ret, entries := FinalizeMessage(item);
      UnsignedRealizes(hmac, env.db.latest, entries, infos[item], m);
    }

    static lemma NoLookups(world: World, env: Env, m: Message)
      requires DbCache.Coherent(env.db) && NoAuthentication(m.tlvs)
      ensures AfterFinal(world, env, m) == env
    {
      hide NoAuthentication, MessageCells, PtpRoundTrip.Delivered, Lookups;
      DeliveredAddsNoAuthentication(m);
      LookupsAreLatest(world, env, m.portId, PtpRoundTrip.Delivered(m).tlvs);
    }

    static lemma UnsignedRealizes(
      hmac: Hmac, latest: map<PortId, DbCache.Row>, entries: seq<Entry>, info: Info, m: Message)
      requires NoAuthentication(m.tlvs) && Finished(hmac, entries, info, m)
      ensures Realizes(hmac, latest, info, Final(m))
    {
      hide MessageCells, Carries, Authentic, PtpRoundTrip.Delivered, AllFind;
    }

    // ---- ptp_security.c

    lemma AddedGrows(before: seq<nat>, responses: seq<Response>)
      requires Added(before, responses)
      ensures before <= ptpPool.outstanding && |ptpPool.outstanding| == |before| + |responses|
    {}

    lemma NothingAdded()
      ensures Added(ptpPool.outstanding, [])
    {}

    /** `ptp_security_check_auth` for TLV `i` of request `r`, whose marks it updates. */
    method CheckAuth(r: nat, i: nat, port: PortId) returns (ret: int)
      requires Sound() && r in requests && AllCheckable(requests[r].data, requests[r].message)
      requires i < |requests[r].message.tlvs|
      modifies `requests, `env
      ensures Sound() && env.db.latest == old(env.db.latest)
      ensures var request := old(requests)[r];
              var (code, marked, after) := Authorize(hmac, world, old(env), request.data, request.message, i, port);
              ret == code && env == after && requests == old(requests)[r := request.(message := marked)]
    {
      hide DbCache.Coherent, AllCheckable, Fetch, Authenticate;
      var request := requests[r];
      if request.message.tlvs[i].authenticated {
        assert requests == requests[r := request.(message := request.message)];
        return 0;
      }
      var memory := world(env.step).memory;
      var entry := FetchEntry(port);
      var (marked, code) := Authenticate(hmac, request.data, request.message, Call(i, entry, memory));
      requests := requests[r := request.(message := marked)];
      ret := code;
    }

    /** `ptp_security_add_auth_tlv` */
    method AddAuthTlv(response: nat) returns (ret: int)
      requires Valid() && Sound() && response in infos
      modifies `infos, `env
      ensures Valid() && Sound() && env.db.latest == old(env.db.latest)
      ensures var (m, after) := Sign(world, old(env), old(infos)[response].message);
              env == after && infos == old(infos)[response := old(infos)[response].(message := m)]
    {
      hide Valid, DbCache.Coherent, Fetch;
      assert infos == infos[response := infos[response].(message := infos[response].message)];
      var entry := FetchEntry(infos[response].message.portId);
      if entry.Missing? { return entry.code; }
      if entry.row.policy == POLICY_PLAIN { return 0; }
      ret := AddTlv(response, AuthBody(entry.row.policy));
    }

    // ---- ptp_tasks.c

    method SendSync(r: nat, portId: PortId) returns (ret: int)
      requires Valid() && Sound() && r in requests
      modifies ptpPool, tx, tx.buffer, `infos, `meant, `env
      ensures Valid() && Sound() && Keeps({}) && env.db.latest == old(env.db.latest)
      ensures var (now, after) := Clock(world, old(env));
              var m := SyncMessage(portId, requests[r].message.sequenceId, now);
              if old(Room()) == 0 then ret == ENOMEM && env == old(env) && Added(old(ptpPool.outstanding), [])
              else ret == 0 && env == after && Added(old(ptpPool.outstanding), [Final(m)]) && Room() == old(Room()) - 1
    {
      hide Valid, MessageCells, NoAuthentication, Realizes, DbCache.Coherent, Finalizable;
      var response := GetAndInitResponse(PORT_EVENT, Event(Sync, 0, NO_PORT), portId, requests[r].message.sequenceId);
      if response.None? { return ENOMEM; }
      var now := ReadClock();
      SetPayload(response.value, Event(Sync, now, NO_PORT));
      EventIsFinal(env.db.latest, infos[response.value].message);
      ret := Finish(response.value, old(ptpPool.outstanding));
    }

    static lemma EventIsFinal(latest: map<PortId, DbCache.Row>, m: Message)
      requires m.payload.Event? && m.tlvs == []
      ensures Finalizable(latest, m) && MessageCells(m, BUFFER_SIZE).Ok? && NoAuthentication(m.tlvs)
    {
      hide MessageCells, TimestampCells, PortIdCells;
      EventEncodes(m);
    }

    static lemma OneTlvIsFinal(latest: map<PortId, DbCache.Row>, m: Message)
      requires MessageCells(m, BUFFER_SIZE).Ok? && |m.tlvs| == 1
      requires m.tlvs[0].body.TimeOffset? || m.tlvs[0].body.ErrorStatus?
      ensures Finalizable(latest, m) && NoAuthentication(m.tlvs)
    {
      hide TlvsCells, PayloadCells, HeaderCells, PadLength, TlvCells;
    }

    /** Fails without a trace if the port is unknown or the pool exhausted. */
    method SendAnnounce(r: nat, portId: PortId) returns (ret: int)
      requires Valid() && Sound() && r in requests
      modifies ptpPool, tx, tx.buffer, `infos, `meant, `env
      ensures Valid() && Sound() && Keeps({}) && env.db.latest == old(env.db.latest)
      ensures var (entry, found) := Fetch(world, old(env), portId);
              if entry.Missing? then ret == entry.code && env == found && Added(old(ptpPool.outstanding), [])
              else if old(Room()) == 0 then ret == ENOMEM && env == found && Added(old(ptpPool.outstanding), [])
              else
                var (time, after) := ReadTime(world, found, portId);
                var m := AnnounceMessage(portId, requests[r].message.sequenceId, time, entry.row.offset);
                ret == 0 && env == after && Added(old(ptpPool.outstanding), [Final(m)]) && Room() == old(Room()) - 1
    {
      hide Valid, MessageCells, NoAuthentication, Realizes, DbCache.Coherent, Finalizable, Fetch, OffsetSeconds;
      var entry := FetchEntry(portId);
      if entry.Missing? { return entry.code; }
      var id := requests[r].message.sequenceId;
      var zero := Announce(0, 0, 0, ClockQuality(0, 0, 0), 0, 0, 0);
      var response := GetAndInitResponse(PORT_EVENT, zero, portId, id);
      if response.None? { return ENOMEM; }
      ret := FillAnnounce(response.value, old(ptpPool.outstanding), portId, id, entry.row.offset);
    }

    /** Fills in and finalizes a fresh announce message. */
    method FillAnnounce(item: nat, ghost before: seq<nat>, portId: PortId, id: u16, offset: u64) returns (ret: int)
      requires Valid() && Sound() && item in infos && Length(infos[item]) == 0
      requires ptpPool.outstanding == before + [item]
      requires infos[item].message == FreshMessage(Announce(0, 0, 0, ClockQuality(0, 0, 0), 0, 0, 0), portId, id)
      modifies `infos, `meant, `env
      ensures Valid() && Sound() && ret == 0 && env.db.latest == old(env.db.latest) && Usable(old(env))
      ensures SameBut(old(infos), infos, item) && SameBut(old(meant), meant, item)
      ensures var (time, after) := ReadTime(world, old(env), portId);
              env == after && Added(before, [Final(AnnounceMessage(portId, id, time, offset))])
    {
      hide Valid, MessageCells, NoAuthentication, Realizes, DbCache.Coherent, Finalizable, ReadTime, OffsetSeconds,
        Queued;
      UsableEnv();
      var time := GetPortTime(portId);
      SetPayload(item, Announce(time, 0, CLOCK_PRIORITY, CLOCK_QUALITY, portId.clockId, 0,
                                TIME_SOURCE_INTERNAL_OSCILLATOR));
      ret := AddTlv(item, TimeOffset(0, OffsetSeconds(offset), 0, 0, []));
      assert infos[item].message == AnnounceMessage(portId, id, time, offset);
      AnnounceEncodes(portId, id, time, offset);
      OneTlvIsFinal(env.db.latest, infos[item].message);
      ret := Finish(item, before);
    }

    /** `ptp_get_port_time` */
    method GetPortTime(port: PortId) returns (time: u64)
      requires Sound()
      modifies `env
      ensures Sound() && env.db.latest == old(env.db.latest)
      ensures (time, env) == ReadTime(world, old(env), port)
    {
      hide DbCache.Coherent, Fetch;
      var entry := FetchEntry(port);
      if entry.Missing? { return 0; }
      var now := ReadClock();
      time := (now + entry.row.offset) % TWO64;
    }

    method AddManagementErrorMessage(r: nat, errorId: u32, id: u32, text: DisplayData) returns (ret: int)
      requires Valid() && Sound() && r in requests && requests[r].portType <= PORT_GENERAL
      modifies ptpPool, tx, tx.buffer, `infos, `meant, `env
      ensures Valid() && Sound() && Keeps({}) && env == old(env)
      ensures if old(Room()) == 0 then ret == ENOMEM && Added(old(ptpPool.outstanding), [])
              else && ret == 0 && Room() == old(Room()) - 1
                   && var request := requests[r].message;
                   Added(old(ptpPool.outstanding),
                         [Final(ErrorMessage(request.portId, request.sequenceId, errorId, id, text))])
    {
      hide Valid, MessageCells, NoAuthentication, Realizes, DbCache.Coherent, Finalizable;
      var request := requests[r].message;
      var response :=
        GetAndInitResponse(requests[r].portType, Management(NO_PORT, 0, 0, 0), DEFAULT_PORT, request.sequenceId);
      if response.None? { return ENOMEM; }
      SetPayload(response.value, Management(request.portId, 0, 0, 0));
      ret := AddTlv(response.value, ErrorStatus(errorId, id, text));
      assert infos[response.value].message == ErrorMessage(request.portId, request.sequenceId, errorId, id, text);
      ErrorEncodes(request.portId, request.sequenceId, errorId, id, text);
      OneTlvIsFinal(env.db.latest, infos[response.value].message);
      ret := Finish(response.value, old(ptpPool.outstanding));
    }

    method HandleDelayRequest(r: nat) returns (ret: int)
      requires Valid() && Sound() && r in requests && requests[r].message.payload.Event?
      modifies ptpPool, tx, tx.buffer, `infos, `meant, `env
      ensures Valid() && Sound() && Keeps({}) && env == old(env)
      ensures if requests[r].portType != PORT_EVENT then ret == EINVAL && Added(old(ptpPool.outstanding), [])
              else if old(Room()) == 0 then ret == ENOMEM && Added(old(ptpPool.outstanding), [])
              else && ret == 0
                   && Added(old(ptpPool.outstanding), [Final(DelayAnswer(requests[r].message, requests[r].timestamp))])
    {
      hide Valid, MessageCells, NoAuthentication, Realizes, DbCache.Coherent, Finalizable;
      var request := requests[r].message;
      if requests[r].portType != PORT_EVENT { return EINVAL; }
      var response :=
        GetAndInitResponse(PORT_EVENT, Event(DelayResponse, 0, NO_PORT), request.payload.portId, request.sequenceId);
      if response.None? { return ENOMEM; }
      SetPayload(response.value, Event(DelayResponse, requests[r].timestamp, request.portId));
      EventIsFinal(env.db.latest, infos[response.value].message);
      ret := Finish(response.value, old(ptpPool.outstanding));
    }

    // ---- Management

    /** A response with one more TLV, and RESPONSE as its action if that is an answer. */
    static function WithAnswer(m: Message, requester: PortId, body: TlvBody): Message {
      WithTlv(if body.ManagementTlv? then m.(payload := Management(requester, 0, 0, ACTION_RESPONSE)) else m, body)
    }

    method HandleUserDescriptionGet(r: nat, response: nat, i: nat) returns (ret: int)
      requires Valid() && Sound() && response in infos && |infos[response].message.tlvs| < MAX_TLV_COUNT
      requires r in requests && AllCheckable(requests[r].data, requests[r].message)
      requires IsQuestion(requests[r].message, i)
      requires requests[r].message.tlvs[i].body.data.UserDescriptionData?
      requires requests[r].message.payload.action == ACTION_GET
      modifies `infos, `requests, `env
      ensures Valid() && Sound() && env.db.latest == old(env.db.latest) && ret == 0
      ensures var request, before := old(requests)[r], old(infos)[response];
              var (body, marked, after) := AnswerTlv(hmac, world, old(env), request.data, request.message, i);
              && env == after && requests == old(requests)[r := request.(message := marked)]
              && infos
                 == old(infos)[response := before.(message := WithAnswer(before.message, request.message.portId, body))]
    {
      hide Valid, DbCache.Coherent, Fetch, Authorize, AllCheckable, Display;
      var target := requests[r].message.payload.target;
      assert requests == requests[r := requests[r].(message := requests[r].message)];
      var entry := FetchEntry(target);
      if entry.Missing? {
        ret := AddTlv(response, NoSuchPort());
        return;
      }
      ret := CheckAuth(r, i, target);
      if ret != 0 {
        ret := AddTlv(response, Denied(ret));
        return;
      }
      SetPayload(response, Management(requests[r].message.portId, 0, 0, ACTION_RESPONSE));
      ret := AddTlv(response, DescriptionBody(entry.row));
    }

    method HandleTimeGet(r: nat, response: nat, i: nat) returns (ret: int)
      requires Valid() && Sound() && response in infos && |infos[response].message.tlvs| < MAX_TLV_COUNT
      requires r in requests && AllCheckable(requests[r].data, requests[r].message)
      requires IsQuestion(requests[r].message, i)
      requires requests[r].message.tlvs[i].body.data.TimeData? && requests[r].message.payload.action == ACTION_GET
      modifies `infos, `env
      ensures Valid() && Sound() && env.db.latest == old(env.db.latest) && ret == 0
      ensures var request, before := requests[r], old(infos)[response];
              var (body, marked, after) := AnswerTlv(hmac, world, old(env), request.data, request.message, i);
              && env == after && marked == request.message
              && infos
                 == old(infos)[response := before.(message := WithAnswer(before.message, request.message.portId, body))]
    {
      hide Valid, DbCache.Coherent, ReadTime, AllCheckable;
      SetPayload(response, Management(requests[r].message.portId, 0, 0, ACTION_RESPONSE));
      var time := GetPortTime(requests[r].message.payload.target);
      ret := AddTlv(response, ManagementTlv(TimeData(time)));
    }

    method HandleTlvManagement(r: nat, response: nat, i: nat) returns (ret: int)
      requires Valid() && Sound() && response in infos && |infos[response].message.tlvs| < MAX_TLV_COUNT
      requires r in requests && AllCheckable(requests[r].data, requests[r].message)
      requires IsQuestion(requests[r].message, i)
      modifies `infos, `requests, `env
      ensures Valid() && Sound() && env.db.latest == old(env.db.latest) && ret == 0
      ensures var request, before := old(requests)[r], old(infos)[response];
              var (body, marked, after) := AnswerTlv(hmac, world, old(env), request.data, request.message, i);
              && env == after && requests == old(requests)[r := request.(message := marked)]
              && infos
                 == old(infos)[response := before.(message := WithAnswer(before.message, request.message.portId, body))]
    {
      hide Valid, DbCache.Coherent, Fetch, Authorize, ReadTime, AllCheckable, Display;
      assert requests == requests[r := requests[r].(message := requests[r].message)];
      var isGet := requests[r].message.payload.action == ACTION_GET;
      match requests[r].message.tlvs[i].body.data
      case UserDescriptionData(_, _) =>
        if isGet {
          ret := HandleUserDescriptionGet(r, response, i);
        } else {
          ret := AddTlv(response, Unsupported(ID_USER_DESCRIPTION));
        }
      case TimeData(_) =>
        if isGet {
          ret := HandleTimeGet(r, response, i);
        } else {
          ret := AddTlv(response, Unsupported(ID_TIME));
        }
      case UnknownData(id) =>
        ret := AddTlv(response, UnknownId(id));
    }

    static lemma OneMoreAnswer(request: Message, answers: seq<Tlv>, body: TlvBody)
      requires request.payload.Management?
      ensures ManagementReply(request, answers + [Tlv(false, body)])
           == WithAnswer(ManagementReply(request, answers), request.portId, body)
    {
      var more := answers + [Tlv(false, body)];
      if HasAnswer(answers) {
        var k :| 0 <= k < |answers| && answers[k].body.ManagementTlv?;
        assert more[k].body.ManagementTlv?;
      }
      if body.ManagementTlv? { assert more[|answers|].body.ManagementTlv?; }
      assert HasAnswer(more) <==> HasAnswer(answers) || body.ManagementTlv?;
    }

    static lemma MarkedIsCheckable(data: seq<u8>, before: Message, after: Message)
      requires Remarked(before, after) && AllCheckable(data, before)
      ensures AllCheckable(data, after) && after.payload == before.payload
      ensures |after.tlvs| == |before.tlvs| && forall i :: 0 <= i < |before.tlvs| ==>
              after.tlvs[i].body == before.tlvs[i].body
    {}

    /** After the first `i` TLVs of `request`, from `start` on: what is marked, answered and used up. */
    ghost predicate AnsweredUpTo(r: nat, response: nat, request: Request, base: Info, start: Env, i: nat)
      requires Usable(start) && AllCheckable(request.data, request.message)
      requires request.message.payload.Management? && i <= |request.message.tlvs|
      reads `infos, `requests, `env
    {
      var (answers, marked, after) := AnswerTlvs(hmac, world, start, request.data, request.message, i);
      && env == after && r in requests && requests[r] == request.(message := marked)
      && response in infos && infos[response] == base.(message := ManagementReply(request.message, answers))
    }

    /** One TLV of the loop. */
    method HandleTlv(r: nat, response: nat, i: nat, ghost request: Request, ghost base: Info, ghost start: Env)
      returns (ret: int)
      requires Valid() && Sound() && Usable(start) && AllCheckable(request.data, request.message)
      requires request.message.payload.Management? && i < |request.message.tlvs| <= MAX_TLV_COUNT
      requires AnsweredUpTo(r, response, request, base, start, i)
      modifies `infos, `requests, `env
      ensures Valid() && Sound() && env.db.latest == old(env.db.latest) && ret == 0
      ensures AnsweredUpTo(r, response, request, base, start, i + 1)
      ensures OnlyAt(old(infos), infos, response) && OnlyAt(old(requests), requests, r)
    {
      hide Valid, DbCache.Coherent, AnswerTlv, AllCheckable, ManagementReply;
      ghost var (answers, marked, before) := AnswerTlvs(hmac, world, start, request.data, request.message, i);
      MarkedIsCheckable(request.data, request.message, marked);
      ReplyTlvs(request.message, answers);
      ret := 0;
      if requests[r].message.tlvs[i].body.ManagementTlv? {
        OneMoreAnswer(request.message, answers, AnswerTlv(hmac, world, before, request.data, marked, i).0);
        ret := HandleTlvManagement(r, response, i);
      }
    }

    lemma NothingAnswered(r: nat, response: nat)
      requires Usable(env) && r in requests && response in infos
      requires AllCheckable(requests[r].data, requests[r].message) && requests[r].message.payload.Management?
      requires infos[response].message == ManagementReply(requests[r].message, [])
      ensures AnsweredUpTo(r, response, requests[r], infos[response], env, 0)
    {
      hide ManagementReply, AllCheckable, AnswerTlv;
    }

    /** Answers the request's management TLVs in order. */
    method HandleManagementTlvs(r: nat, response: nat) returns (ret: int)
      requires Valid() && Sound() && response in infos && r in requests
      requires AllCheckable(requests[r].data, requests[r].message)
      requires requests[r].message.payload.Management? && |requests[r].message.tlvs| <= MAX_TLV_COUNT
      requires infos[response].message == ManagementReply(requests[r].message, [])
      modifies `infos, `requests, `env
      ensures Valid() && Sound() && env.db.latest == old(env.db.latest) && ret == 0
      ensures Usable(old(env))
      ensures AnsweredUpTo(r, response, old(requests)[r], old(infos)[response], old(env),
                           |old(requests)[r].message.tlvs|)
      ensures OnlyAt(old(infos), infos, response) && OnlyAt(old(requests), requests, r)
    {
      hide Valid, DbCache.Coherent, AnsweredUpTo, AllCheckable, ManagementReply, OnlyAt;
      UsableEnv();
      NothingAnswered(r, response);
      OnlyAtNothing(infos, response);
      OnlyAtNothing(requests, r);
      ghost var request, base, start := requests[r], infos[response], env;
      var count := |requests[r].message.tlvs|;
      ret := 0;
      var i := 0;
      while i < count && ret == 0
        invariant 0 <= i <= count && ret == 0 && count == |request.message.tlvs|
        invariant Valid() && Sound() && env.db.latest == start.db.latest
        invariant AnsweredUpTo(r, response, request, base, start, i)
        invariant OnlyAt(old(infos), infos, response) && OnlyAt(old(requests), requests, r)
        decreases count - i
      {
        ghost var infosBefore, requestsBefore := infos, requests;
        ret := HandleTlv(r, response, i, request, base, start);
        OnlyAtAgain(old(infos), infosBefore, infos, response);
        OnlyAtAgain(old(requests), requestsBefore, requests, r);
        i := i + 1;
      }
    }

    static lemma ReplyTlvs(request: Message, answers: seq<Tlv>)
      requires request.payload.Management?
      ensures ManagementReply(request, answers).tlvs == answers
    {}

    static lemma ReplyIs(hmac: Hmac, world: World, env: Env, request: Request, room: nat)
      requires Usable(env) && AllCheckable(request.data, request.message) && request.message.payload.Management?
      requires room > 0
      ensures var (answers, marked, answered) :=
                AnswerTlvs(hmac, world, env, request.data, request.message, |request.message.tlvs|);
              var (m, signed) := Sign(world, answered, ManagementReply(request.message, answers));
              Responses.HandleManagement(hmac, world, env, request.data, request.message, room)
              == Outcome(0, [Final(m)], AfterFinal(world, signed, m))
    {
      hide AllCheckable, AnswerTlvs, ManagementReply, Sign, AfterFinal;
    }

    /** Answers and signs. */
    method AnswerAndSign(r: nat, item: nat) returns (ghost answered: Env, ghost reply: Message)
      requires Valid() && Sound() && r in requests && Received(requests[r]) && requests[r].message.payload.Management?
      requires item in infos && infos[item].message == ManagementReply(requests[r].message, [])
      modifies `infos, `requests, `env
      ensures Valid() && Sound() && env.db.latest == old(env.db.latest)
      ensures OnlyAt(old(requests), requests, r) && SameRequest(old(requests)[r], requests[r])
      ensures OnlyAt(old(infos), infos, item) && item in infos && Length(infos[item]) == Length(old(infos)[item])
      ensures Usable(old(env)) && DbCache.Coherent(answered.db) && answered.db.latest == env.db.latest
      ensures var request := old(requests)[r];
              var (answers, marked, after) :=
                AnswerTlvs(hmac, world, old(env), request.data, request.message, |request.message.tlvs|);
              answered == after && reply == ManagementReply(request.message, answers)
      ensures (infos[item].message, env) == Sign(world, answered, reply)
    {
      hide Valid, DbCache.Coherent, AllCheckable, AnswerTlvs, ManagementReply, Sign, Remarked, OnlyAt, GetLe16;
      UsableEnv();
      ghost var before := infos;
      var ret := HandleManagementTlvs(r, item);
      answered, reply := env, infos[item].message;
      ghost var infos1 := infos;
      if ret == 0 {
        ret := AddAuthTlv(item);
      }
      StoredOnlyAt(infos1, item, infos[item]);
      OnlyAtAgain(before, infos1, infos, item);
    }

    /** Answers, signs and finalizes, even after a failed TLV. */
    method AnswerManagement(r: nat, item: nat, ghost before: seq<nat>, ghost room: nat) returns (ret: int)
      requires Valid() && Sound() && r in requests && Received(requests[r]) && requests[r].message.payload.Management?
      requires item in infos && Length(infos[item]) == 0 && ptpPool.outstanding == before + [item] && room > 0
      requires infos[item].message == ManagementReply(requests[r].message, [])
      modifies `infos, `meant, `requests, `env
      ensures Valid() && Sound() && env.db.latest == old(env.db.latest) && ret == 0
      ensures OnlyAt(old(requests), requests, r) && SameRequest(old(requests)[r], requests[r])
      ensures SameBut(old(infos), infos, item) && SameBut(old(meant), meant, item)
      ensures Usable(old(env)) &&
              var request := old(requests)[r];
              var o := Responses.HandleManagement(hmac, world, old(env), request.data, request.message, room);
              env == o.env && Added(before, o.responses)
    {
      hide *;
      CoherentEnv();
      UsableEnv();
      ReceivedIsCheckable(requests[r]);
      ReplyIsFinal(hmac, world, env, requests[r]);
      ReplyIs(hmac, world, env, requests[r], room);
      ghost var answered, reply;
      ghost var infos0 := infos;
      answered, reply := AnswerAndSign(r, item);
      ghost var infos1 := infos;
      FinalizeReply(item, before, answered, reply);
      OnlyAtAgain(infos0, infos1, infos, item);
      OnlyAtIsSameBut(infos0, infos, item);
      OnlyAtIsSameBut(old(meant), meant, item);
      ret := 0;
    }

    /** Finalizes a reply that has just been signed. */
    method FinalizeReply(item: nat, ghost before: seq<nat>, ghost answered: Env, ghost reply: Message)
      requires Valid() && Sound() && item in infos && Length(infos[item]) == 0 && ptpPool.outstanding == before + [item]
      requires DbCache.Coherent(answered.db) && answered.db.latest == env.db.latest && NoAuthentication(reply.tlvs)
      requires (infos[item].message, env) == Sign(world, answered, reply)
      requires Finalizable(env.db.latest, infos[item].message)
      modifies `infos, `meant, `env
      ensures Valid() && Sound() && env.db.latest == old(env.db.latest)
      ensures OnlyAt(old(infos), infos, item) && OnlyAt(old(meant), meant, item)
      ensures env == AfterFinal(world, old(env), old(infos)[item].message)
      ensures Added(before, [Final(old(infos)[item].message)])
    {
      hide Valid, MessageCells, NoAuthentication, Realizes, Finished, DbCache.Coherent, Finalizable, Sign, AfterFinal,
        Lookups, Length;
      ghost var m := infos[item].message;
      ghost var ret, entries;
      ret, entries := FinalizeMessage(item);
      SignedRealizes(hmac, world, answered, reply, entries, infos[item]);
    }

    method HandleManagement(r: nat) returns (ret: int)
      requires Valid() && Sound() && r in requests && Received(requests[r]) && requests[r].message.payload.Management?
      modifies ptpPool, tx, tx.buffer, `infos, `meant, `requests, `env
      ensures Valid() && Sound() && Keeps({}) && env.db.latest == old(env.db.latest)
      ensures OnlyAt(old(requests), requests, r) && SameRequest(old(requests)[r], requests[r])
      ensures Usable(old(env))
      ensures var request := old(requests)[r];
              if request.portType != PORT_GENERAL
              then ret == EINVAL && env == old(env) && Added(old(ptpPool.outstanding), [])
              else
                var o := Responses.HandleManagement(hmac, world, old(env), request.data, request.message, old(Room()));
                ret == o.code && env == o.env && Added(old(ptpPool.outstanding), o.responses)
    {
      hide Valid, DbCache.Coherent, Received, AllCheckable, AnswerTlvs, ManagementReply, Sign, AfterFinal, Length,
        Queued, OnlyAt, Kept, SameBut, SameRequest, FreshMessage;
      UsableEnv();
      OnlyAtNothing(requests, r);
      NothingAdded();
      KeptNothing(ptpPool.outstanding, infos, meant, {});
      SameIsSameRequest(requests[r]);
      ret := EINVAL;
      if requests[r].portType == PORT_GENERAL {
        ret := ReplyToManagement(r);
      }
    }

    method ReplyToManagement(r: nat) returns (ret: int)
      requires Valid() && Sound() && r in requests && Received(requests[r]) && requests[r].message.payload.Management?
      modifies ptpPool, tx, tx.buffer, `infos, `meant, `requests, `env
      ensures Valid() && Sound() && Keeps({}) && env.db.latest == old(env.db.latest)
      ensures OnlyAt(old(requests), requests, r) && SameRequest(old(requests)[r], requests[r])
      ensures Usable(old(env))
      ensures var request := old(requests)[r];
              var o := Responses.HandleManagement(hmac, world, old(env), request.data, request.message, old(Room()));
              ret == o.code && env == o.env && Added(old(ptpPool.outstanding), o.responses)
    {
      hide Valid, DbCache.Coherent, Received, AllCheckable, AnswerTlvs, ManagementReply, Sign, AfterFinal, Length,
        Queued, OnlyAt, Kept, SameBut, SameRequest, FreshMessage;
      UsableEnv();
      var request := requests[r].message;
      EmptyReply(request);
      OnlyAtNothing(requests, r);
      NothingAdded();
      KeptNothing(ptpPool.outstanding, infos, meant, {});
      SameIsSameRequest(requests[r]);
      var response := InitReply(r, PORT_GENERAL, Management(request.portId, 0, 0, 0));
      if response.None? { return ENOMEM; }
      var item := response.value;
      ghost var infos' := infos;
      ret := AnswerManagement(r, item, old(ptpPool.outstanding), old(Room()));
      SameButAgain(old(infos), infos', infos, item);
      KeptFresh(old(ptpPool.outstanding), item, old(infos), old(meant), infos, meant);
    }

    static lemma SameIsSameRequest(request: Request)
      ensures SameRequest(request, request)
    {}

    static lemma ReplyIsFinal(hmac: Hmac, world: World, env: Env, request: Request)
      requires DbCache.Coherent(env.db) && Received(request) && request.message.payload.Management?
      ensures var (answers, marked, answered) :=
                AnswerTlvs(hmac, world, env, request.data, request.message, |request.message.tlvs|);
              var reply := ManagementReply(request.message, answers);
              && NoAuthentication(reply.tlvs) && Finalizable(env.db.latest, Sign(world, answered, reply).0)
    {
      hide DbCache.Coherent, AllCheckable, AnswerTlvs, Sign, Finalizable, IsReply, HasAnswer, IsAnswer,
        NoAuthentication;
      CoherentIsUsable(env);
      var answers := AnswerTlvs(hmac, world, env, request.data, request.message, |request.message.tlvs|).0;
      AnswersAreUnsigned(answers);
      RepliesAreFinalizable(hmac, world, env, request.data, request.message);
    }

    static lemma AnswersAreUnsigned(answers: seq<Tlv>)
      requires forall k :: 0 <= k < |answers| ==> IsAnswer(answers[k].body)
      ensures NoAuthentication(answers)
    {}

    static lemma EmptyReply(request: Message)
      requires request.payload.Management?
      ensures FreshMessage(Management(request.portId, 0, 0, 0), request.payload.target, request.sequenceId)
           == ManagementReply(request, [])
    {}

    /** The HMAC of a response is valid for the row registered last, because that row is still cached. */
    static lemma SignedRealizes(
      hmac: Hmac, world: World, answered: Env, reply: Message, entries: seq<Entry>, info: Info)
      requires DbCache.Coherent(answered.db) && NoAuthentication(reply.tlvs)
      requires var (m, signed) := Sign(world, answered, reply);
               && Finished(hmac, entries, info, m)
               && (MessageCells(m, BUFFER_SIZE).Ok? ==>
                     entries == Lookups(world, signed, m.portId, PtpRoundTrip.Delivered(m).tlvs).0)
      ensures Realizes(hmac, answered.db.latest, info, Final(Sign(world, answered, reply).0))
    {
      hide DbCache.Coherent, DbCache.Hit, DbCache.ValidPort, MessageCells, Carries, Authentic, Sign, Lookups, AllFind,
        PtpRoundTrip.Delivered;
      CoherentIsUsable(answered);
      var (m, signed) := Sign(world, answered, reply);
      SignIsKnown(world, answered, reply);
      if SignedWithHmac(m) && MessageCells(m, BUFFER_SIZE).Ok? {
        LookupsFind(world, signed, m.portId, PtpRoundTrip.Delivered(m).tlvs);
      }
    }

    // ---- Signaling

    static function WithGrant(info: Info, granted: bool): Info {
      if granted then info.(message := WithTlv(info.message, GRANT)) else info
    }

    static lemma FinalsOfMessages()
      ensures Finals(Messages(None)) == []
      ensures forall m :: Finals(Messages(Some(m))) == [Final(m)]
    {}

    /** What a grant promises. */
    method SendRequested(r: nat, kind: u32, target: PortId) returns (ret: int)
      requires Valid() && Sound() && r in requests && requests[r].message.payload.Signaling?
      requires target == requests[r].message.payload.target
      modifies ptpPool, tx, tx.buffer, `infos, `meant, `env
      ensures Valid() && Sound() && env.db.latest == old(env.db.latest) && Keeps({})
      ensures Usable(old(env))
      ensures var (code, message, after) := ServeGranted(world, old(env), requests[r].message, kind, old(Room()));
              ret == code && env == after && Added(old(ptpPool.outstanding), Finals(Messages(message)))
    {
      hide Valid, DbCache.Coherent, Fetch, ReadTime, Queued, FreshMessage, SyncMessage, AnnounceMessage, Finals;
      UsableEnv();
      FinalsOfMessages();
      if kind == 0x0 {
        ret := SendSync(r, target);
      } else {
        ret := SendAnnounce(r, target);
      }
    }

    /** The grant stands even if what it promises fails. */
    method GrantUnicast(r: nat, response: nat, kind: u32, target: PortId) returns (ret: int)
      requires Valid() && Sound() && r in requests && requests[r].message.payload.Signaling?
      requires target == requests[r].message.payload.target
      requires response in infos && response in ptpPool.outstanding && |infos[response].message.tlvs| < MAX_TLV_COUNT
      modifies ptpPool, tx, tx.buffer, `infos, `meant, `env
      ensures Valid() && Sound() && env.db.latest == old(env.db.latest) && Keeps({response})
      ensures Usable(old(env))
      ensures var (code, message, after) := ServeGranted(world, old(env), requests[r].message, kind, old(Room()));
              ret == code && env == after && Added(old(ptpPool.outstanding), Finals(Messages(message)))
      ensures response in infos && infos[response] == WithGrant(old(infos)[response], true)
    {
      hide Valid, DbCache.Coherent, ServeGranted, Queued, WithTlv, Finals;
      UsableEnv();
      ret := AddTlv(response, GRANT);
      ret := SendRequested(r, kind, target);
    }

    method Deny(r: nat, code: int) returns (ret: int)
      requires Valid() && Sound() && r in requests && requests[r].portType <= PORT_GENERAL
      modifies ptpPool, tx, tx.buffer, `infos, `meant, `env
      ensures Valid() && Sound() && Keeps({}) && env == old(env)
      ensures if old(Room()) == 0 then ret == ENOMEM && Added(old(ptpPool.outstanding), [])
              else ret == 0 && Added(old(ptpPool.outstanding), [Final(DeniedMessage(requests[r].message, code))])
    {
      hide Valid, DbCache.Coherent, Queued, Display, ErrorMessage, ManagementErrorId, Keeps;
      ret := AddManagementErrorMessage(r, ManagementErrorId(code), 0, Display("Access denied"));
    }

    /** A denial, or a grant and the message that was asked for. */
    method ServeOrDeny(r: nat, response: nat, code: int, kind: u32, target: PortId) returns (ret: int)
      requires Valid() && Sound() && r in requests && requests[r].portType <= PORT_GENERAL
      requires requests[r].message.payload.Signaling? && target == requests[r].message.payload.target
      requires response in infos && response in ptpPool.outstanding && |infos[response].message.tlvs| < MAX_TLV_COUNT
      modifies ptpPool, tx, tx.buffer, `infos, `meant, `env
      ensures Valid() && Sound() && env.db.latest == old(env.db.latest) && Keeps({response})
      ensures Usable(old(env))
      ensures var (ret', granted, message, after) :=
                ServeChecked(world, old(env), requests[r].message, code, kind, old(Room()));
              && ret == ret' && env == after
              && response in infos && infos[response] == WithGrant(old(infos)[response], granted)
              && Added(old(ptpPool.outstanding), Finals(Messages(message)))
    {
      hide Valid, DbCache.Coherent, Queued, DeniedMessage, ServeGranted, WithTlv, Finals;
      UsableEnv();
      FinalsOfMessages();
      if code != 0 {
        ret := Deny(r, code);
        return;
      }
      NothingAdded();
      if kind != 0x0 && kind != 0xb { return EINVAL; }
      ret := GrantUnicast(r, response, kind, target);
    }

    method HandleRequestUnicast(r: nat, response: nat, i: nat) returns (ret: int)
      requires Valid() && Sound() && r in requests && requests[r].portType <= PORT_GENERAL
      requires AllCheckable(requests[r].data, requests[r].message) && AsksUnicast(requests[r].message, i)
      requires response in infos && response in ptpPool.outstanding && |infos[response].message.tlvs| < MAX_TLV_COUNT
      modifies ptpPool, tx, tx.buffer, `infos, `meant, `requests, `env
      ensures Valid() && Sound() && env.db.latest == old(env.db.latest) && Keeps({response})
      ensures Usable(old(env))
      ensures var request := old(requests)[r];
              var s := ServeUnicast(hmac, world, old(env), request.data, request.message, i, old(Room()));
              && ret == s.code && env == s.env && requests == old(requests)[r := request.(message := s.request)]
              && response in infos && infos[response] == WithGrant(old(infos)[response], s.granted)
              && Added(old(ptpPool.outstanding), Finals(Messages(s.message)))
    {
      hide Valid, DbCache.Coherent, Authorize, AllCheckable, Queued, ServeChecked, WithGrant, Remarked, Finals;
      UsableEnv();
      ghost var request := requests[r].message;
      var target := requests[r].message.payload.target;
      var kind := requests[r].message.tlvs[i].body.messageType;
      var code := CheckAuth(r, i, target);
      SameAnswers(request, requests[r].message, code, kind, Room());
      ret := ServeOrDeny(r, response, code, kind, target);
    }

    /** What is answered does not depend on the marks of the request. */
    lemma SameAnswers(before: Message, after: Message, code: int, kind: u32, room: nat)
      requires Remarked(before, after) && before.payload.Signaling? && Usable(env)
      ensures after.payload == before.payload
      ensures ServeChecked(world, env, after, code, kind, room) == ServeChecked(world, env, before, code, kind, room)
    {
      hide Fetch, ReadTime, Display;
    }

    static lemma NoGrants(request: Message)
      requires request.payload.Signaling?
      ensures FreshMessage(Signaling(request.portId), request.payload.target, request.sequenceId)
              == GrantMessage(request, 0)
    {}

    static lemma GrantCount(request: Message, n: nat)
      requires request.payload.Signaling?
      ensures |GrantMessage(request, n).tlvs| == n
    {}

    static lemma OneMoreGrant(request: Message, info: Info, n: nat, granted: bool)
      requires request.payload.Signaling?
      ensures WithGrant(info.(message := GrantMessage(request, n)), granted)
           == info.(message := GrantMessage(request, n + if granted then 1 else 0))
    {}

    static lemma GrantsAreFinal(latest: map<PortId, DbCache.Row>, request: Message, n: nat)
      requires request.payload.Signaling? && n <= MAX_TLV_COUNT
      ensures var m := GrantMessage(request, n);
              Finalizable(latest, m) && MessageCells(m, BUFFER_SIZE).Ok? && NoAuthentication(m.tlvs)
    {
      hide MessageCells, PortIdCells, HeaderCells;
      GrantsEncode(request, n);
    }

    static lemma FinalsTogether(messages: seq<Message>, more: seq<Message>)
      ensures Finals(messages) + Finals(more) == Finals(messages + more)
    {}

    static predicate IsSignaling(request: Request) {
      && request.portType <= PORT_GENERAL && AllCheckable(request.data, request.message)
      && request.message.payload.Signaling? && |request.message.tlvs| <= MAX_TLV_COUNT
    }

    /**
     * After the first `i` TLVs of `request`, from `start` on, of which the last had
     * the result `code`; at first, `queue` ended in the signaling response `item`.
     */
    ghost predicate ServedUpTo(
      r: nat, item: nat, request: Request, base: Info, start: Env, queue: seq<nat>, i: nat, code: int)
      reads `infos, `meant, `requests, `env, ptpPool
    {
      && Usable(start) && IsSignaling(request) && i <= |request.message.tlvs|
      && 0 < |queue| < POOL_SIZE && queue[|queue| - 1] == item && queue <= ptpPool.outstanding &&
      var s := ServeTlvs(hmac, world, start, request.data, request.message, i, POOL_SIZE - 1 - |queue|);
      && s.code == code && env == s.env && env.db.latest == start.db.latest
      && r in requests && requests[r] == request.(message := s.request)
      && item in infos && infos[item] == base.(message := GrantMessage(request.message, s.grants))
      && Added(queue, Finals(s.messages))
    }

    lemma RoomIs()
      requires Valid()
      ensures |ptpPool.outstanding| < POOL_SIZE && Room() == POOL_SIZE - 1 - |ptpPool.outstanding|
    {}

    lemma Distinct(first: nat)
      requires Valid() && first < |ptpPool.outstanding|
      ensures forall j :: first < j < |ptpPool.outstanding| ==> ptpPool.outstanding[j] != ptpPool.outstanding[first]
    {
      forall j | first < j < |ptpPool.outstanding|
        ensures ptpPool.outstanding[j] != ptpPool.outstanding[first]
      {
        MemPool.OutstandingAreItems(ptpPool, first, j);
      }
    }

    /** One REQUEST_UNICAST TLV of the loop. */
    method ServeOne(
      r: nat, item: nat, i: nat, ghost request: Request, ghost base: Info, ghost start: Env, ghost queue: seq<nat>)
      returns (ret: int)
      requires Valid() && Sound() && i < |request.message.tlvs| && request.message.tlvs[i].body.RequestUnicast?
      requires ServedUpTo(r, item, request, base, start, queue, i, 0)
      modifies ptpPool, tx, tx.buffer, `infos, `meant, `requests, `env
      ensures Valid() && Sound() && OnlyAt(old(requests), requests, r)
      ensures Kept(old(ptpPool.outstanding), old(infos), old(meant), ptpPool.outstanding, infos, meant, {item})
      ensures ServedUpTo(r, item, request, base, start, queue, i + 1, ret)
    {
      hide Valid, DbCache.Coherent, ServeUnicast, AllCheckable, GrantMessage, Queued, Finals, WithGrant, OnlyAt,
        Remarked, ServeTlvs, Kept;
      ghost var s := ServeTlvs(hmac, world, start, request.data, request.message, i, POOL_SIZE - 1 - |queue|);
      ServesNext(hmac, world, start, request.data, request.message, i, POOL_SIZE - 1 - |queue|);
      GrantCount(request.message, s.grants);
      RoomIs();
      ghost var room := POOL_SIZE - 1 - |ptpPool.outstanding|;
      ghost var one := ServeUnicast(hmac, world, s.env, request.data, s.request, i, room);
      Distinct(|queue| - 1);
      OneMoreGrant(request.message, base, s.grants, one.granted);
      FinalsTogether(s.messages, Messages(one.message));
      AddedGrows(queue, Finals(s.messages));
      ghost var queue', infos', meant' := ptpPool.outstanding, infos, meant;
      ret := HandleRequestUnicast(r, item, i);
      StoredOnlyAt(old(requests), r, requests[r]);
      QueuedAgain(hmac, env.db.latest, queue, queue', ptpPool.outstanding, infos', infos, meant', meant,
                  Finals(s.messages), Finals(Messages(one.message)), {item});
      AddedGrows(queue, Finals(s.messages + Messages(one.message)));
    }

    /** One TLV of the loop; `item` is the last of `queue`. */
    method ServeTlv(
      r: nat, item: nat, i: nat, ghost request: Request, ghost base: Info, ghost start: Env, ghost queue: seq<nat>)
      returns (ret: int)
      requires Valid() && Sound() && i < |request.message.tlvs|
      requires ServedUpTo(r, item, request, base, start, queue, i, 0)
      modifies ptpPool, tx, tx.buffer, `infos, `meant, `requests, `env
      ensures Valid() && Sound() && OnlyAt(old(requests), requests, r)
      ensures Kept(old(ptpPool.outstanding), old(infos), old(meant), ptpPool.outstanding, infos, meant, {item})
      ensures ServedUpTo(r, item, request, base, start, queue, i + 1, ret)
    {
      hide Valid, DbCache.Coherent, AllCheckable, GrantMessage, Queued, Finals, OnlyAt, Remarked, ServeTlvs, Kept;
      ghost var s := ServeTlvs(hmac, world, start, request.data, request.message, i, POOL_SIZE - 1 - |queue|);
      MarkedIsCheckable(request.data, request.message, s.request);
      if requests[r].message.tlvs[i].body.RequestUnicast? {
        ret := ServeOne(r, item, i, request, base, start, queue);
        return;
      }
      SkipsNext(hmac, world, start, request.data, request.message, i, POOL_SIZE - 1 - |queue|);
      OnlyAtNothing(requests, r);
      KeptNothing(ptpPool.outstanding, infos, meant, {item});
      ret := 0;
    }

    lemma NothingServed(r: nat, item: nat)
      requires Valid() && Usable(env) && r in requests && IsSignaling(requests[r])
      requires ptpPool.outstanding != [] && ptpPool.outstanding[|ptpPool.outstanding| - 1] == item
      requires item in infos && infos[item].message == GrantMessage(requests[r].message, 0)
      ensures ServedUpTo(r, item, requests[r], infos[item], env, ptpPool.outstanding, 0, 0)
    {
      hide Valid, GrantMessage, AllCheckable, ServeUnicast;
      RoomIs();
    }

    lemma AllServed(r: nat, item: nat, request: Request, base: Info, start: Env, queue: seq<nat>, i: nat, code: int)
      requires ServedUpTo(r, item, request, base, start, queue, i, code) && code != 0
      ensures ServedUpTo(r, item, request, base, start, queue, |request.message.tlvs|, code)
    {
      hide GrantMessage, AllCheckable, ServeTlvs, Queued;
      FailedStays(hmac, world, start, request.data, request.message, i, |request.message.tlvs|,
                  POOL_SIZE - 1 - |queue|);
    }

    /** Serves the request's REQUEST_UNICAST TLVs in order until one fails. */
    method HandleUnicastTlvs(r: nat, item: nat) returns (ret: int)
      requires Valid() && Sound() && r in requests && IsSignaling(requests[r])
      requires ptpPool.outstanding != [] && ptpPool.outstanding[|ptpPool.outstanding| - 1] == item
      requires item in infos && infos[item].message == GrantMessage(requests[r].message, 0)
      modifies ptpPool, tx, tx.buffer, `infos, `meant, `requests, `env
      ensures Valid() && Sound() && OnlyAt(old(requests), requests, r)
      ensures Kept(old(ptpPool.outstanding), old(infos), old(meant), ptpPool.outstanding, infos, meant, {item})
      ensures ServedUpTo(r, item, old(requests)[r], old(infos)[item], old(env), old(ptpPool.outstanding),
                         |old(requests)[r].message.tlvs|, ret)
    {
      hide *;
      UsableEnv();
      NothingServed(r, item);
      OnlyAtNothing(requests, r);
      KeptNothing(ptpPool.outstanding, infos, meant, {item});
      ghost var request, base, start, queue := requests[r], infos[item], env, ptpPool.outstanding;
      var count := |requests[r].message.tlvs|;
      ret := 0;
      for i := 0 to count
        invariant Valid() && Sound() && OnlyAt(old(requests), requests, r)
        invariant Kept(queue, old(infos), old(meant), ptpPool.outstanding, infos, meant, {item})
        invariant ServedUpTo(r, item, request, base, start, queue, i, 0) && ret == 0
      {
        assert count == |request.message.tlvs|;
        ghost var before, queue', infos', meant' := requests, ptpPool.outstanding, infos, meant;
        ret := ServeTlv(r, item, i, request, base, start, queue);
        KeptAgain(queue, old(infos), old(meant), queue', infos', meant', ptpPool.outstanding, infos, meant, {item});
        OnlyAtAgain(old(requests), before, requests, r);
        if ret != 0 {
          AllServed(r, item, request, base, start, queue, i + 1, ret);
          return;
        }
      }
    }

    static lemma ServingIs(hmac: Hmac, world: World, env: Env, request: Request, room: nat)
      requires Usable(env) && AllCheckable(request.data, request.message) && request.message.payload.Signaling?
      requires room > 0
      ensures var s := ServeTlvs(hmac, world, env, request.data, request.message, |request.message.tlvs|, room - 1);
              var first := if s.code != 0 then Draft else Final(GrantMessage(request.message, s.grants));
              Responses.HandleSignaling(hmac, world, env, request.data, request.message, room)
              == Outcome(s.code, [first] + Finals(s.messages), s.env)
    {
      hide AllCheckable, ServeTlvs, GrantMessage, Finals;
    }

    method FinalizeSignaling(item: nat, ghost request: Message, ghost n: nat) returns (ret: int)
      requires Valid() && Sound() && request.payload.Signaling? && n <= MAX_TLV_COUNT
      requires item in infos && Length(infos[item]) == 0 && infos[item].message == GrantMessage(request, n)
      modifies `infos, `meant, `env
      ensures Valid() && Sound() && ret == 0 && env == old(env)
      ensures SameBut(old(infos), infos, item) && SameBut(old(meant), meant, item)
      ensures Holds(hmac, env.db.latest, infos, meant, item, Final(GrantMessage(request, n)))
    {
      hide Valid, MessageCells, Carries, Authentic, NoAuthentication, Finalizable, DbCache.Coherent, Lookups,
        GrantMessage, PtpRoundTrip.Delivered, Length, Realizes, Finished;
      GrantsAreFinal(env.db.latest, request, n);
      NoLookups(world, env, infos[item].message);
      ghost var entries;
      ret, entries := FinalizeMessage(item);
      UnsignedRealizes(hmac, env.db.latest, entries, infos[item], GrantMessage(request, n));
    }

    static lemma DraftHolds(
      hmac: Hmac, latest: map<PortId, DbCache.Row>, infos: map<nat, Info>, meant: map<nat, Message>, item: nat)
      requires item in infos && Length(infos[item]) == 0
      ensures Holds(hmac, latest, infos, meant, item, Draft)
    {}

    /** Finalizes the signaling response unless serving the TLVs has failed. */
    method CompleteSignaling(
      r: nat, item: nat, code: int, ghost request: Request, ghost base: Info, ghost start: Env, ghost before: seq<nat>)
      returns (ret: int)
      requires Valid() && Sound() && Length(base) == 0
      requires ServedUpTo(r, item, request, base, start, before + [item], |request.message.tlvs|, code)
      modifies `infos, `meant, `env
      ensures Valid() && Sound() && env == old(env)
      ensures SameBut(old(infos), infos, item) && SameBut(old(meant), meant, item)
      ensures Usable(start) && IsSignaling(request) && |before| + 1 < POOL_SIZE &&
              var o := Responses.HandleSignaling(
                         hmac, world, start, request.data, request.message, POOL_SIZE - 1 - |before|);
              ret == o.code && env == o.env && Added(before, o.responses)
    {
      hide Valid, DbCache.Coherent, ServeTlvs, GrantMessage, AllCheckable, Finals, Finalizable, Realizes, Remarked,
        Holds, Queued;
      ghost var room := POOL_SIZE - 1 - |before|;
      ServingIs(hmac, world, start, request, room);
      ghost var s := ServeTlvs(hmac, world, start, request.data, request.message, |request.message.tlvs|, room - 1);
      ghost var infos', meant' := infos, meant;
      NewestIsLast(before, item);
      Distinct(|before|);
      ret := code;
      if code == 0 {
        ret := FinalizeSignaling(item, request.message, s.grants);
        QueuedBehind(hmac, env.db.latest, before, item, ptpPool.outstanding, infos', infos, meant', meant,
                     Final(GrantMessage(request.message, s.grants)), Finals(s.messages));
      } else {
        DraftHolds(hmac, env.db.latest, infos, meant, item);
        QueuedBehind(hmac, env.db.latest, before, item, ptpPool.outstanding, infos', infos, meant', meant,
                     Draft, Finals(s.messages));
      }
    }

    lemma NewestIsLast(before: seq<nat>, item: nat)
      requires before + [item] <= ptpPool.outstanding
      ensures ptpPool.outstanding[|before|] == item
    {
      assert ptpPool.outstanding[|before|] == (before + [item])[|before|];
    }

    /** Serves all TLVs and then takes care of the signaling response. */
    method AnswerSignaling(r: nat, item: nat, ghost before: seq<nat>, ghost room: nat) returns (ret: int)
      requires Valid() && Sound() && r in requests && IsSignaling(requests[r])
      requires item in infos && Length(infos[item]) == 0 && ptpPool.outstanding == before + [item]
      requires item !in before && room > 0 && room == POOL_SIZE - 1 - |before|
      requires infos[item].message == GrantMessage(requests[r].message, 0)
      modifies ptpPool, tx, tx.buffer, `infos, `meant, `requests, `env
      ensures Valid() && Sound() && OnlyAt(old(requests), requests, r)
      ensures SameRequest(old(requests)[r], requests[r]) && env.db.latest == old(env.db.latest)
      ensures Kept(before, old(infos), old(meant), ptpPool.outstanding, infos, meant, {})
      ensures Usable(old(env))
      ensures var request := old(requests)[r];
              var o := Responses.HandleSignaling(hmac, world, old(env), request.data, request.message, room);
              ret == o.code && env == o.env && Added(before, o.responses)
    {
      hide *;
      UsableEnv();
      ghost var request, base, start := requests[r], infos[item], env;
      var code := HandleUnicastTlvs(r, item);
      ghost var queue', infos', meant' := ptpPool.outstanding, infos, meant;
      MarksOnly(r, item, request, base, start, before + [item], |request.message.tlvs|, code);
      ret := CompleteSignaling(r, item, code, request, base, start, before);
      SameIsSameBut(old(infos), item);
      SameIsSameBut(old(meant), item);
      KeptOutside(before, item, old(infos), old(meant), old(infos), old(meant), queue', infos', meant', infos, meant);
    }

    lemma MarksOnly(r: nat, item: nat, request: Request, base: Info, start: Env, queue: seq<nat>, i: nat, code: int)
      requires ServedUpTo(r, item, request, base, start, queue, i, code)
      ensures SameRequest(request, requests[r]) && env.db.latest == start.db.latest
    {
      hide ServeTlvs, Queued, Checkable;
    }

    /** A failed TLV leaves the signaling response queued but never finalized. */
    method HandleSignaling(r: nat) returns (ret: int)
      requires Valid() && Sound() && r in requests && Received(requests[r]) && requests[r].message.payload.Signaling?
      modifies ptpPool, tx, tx.buffer, `infos, `meant, `requests, `env
      ensures Valid() && Sound() && Keeps({}) && env.db.latest == old(env.db.latest)
      ensures OnlyAt(old(requests), requests, r) && SameRequest(old(requests)[r], requests[r])
      ensures Usable(old(env))
      ensures var request := old(requests)[r];
              if request.portType != PORT_EVENT
              then ret == EINVAL && env == old(env) && Added(old(ptpPool.outstanding), [])
              else
                var o := Responses.HandleSignaling(hmac, world, old(env), request.data, request.message, old(Room()));
                ret == o.code && env == o.env && Added(old(ptpPool.outstanding), o.responses)
    {
      hide Valid, DbCache.Coherent, Received, AllCheckable, ServeTlvs, GrantMessage, Length, Queued, OnlyAt, Kept,
        SameBut, SameRequest;
      UsableEnv();
      OnlyAtNothing(requests, r);
      NothingAdded();
      KeptNothing(ptpPool.outstanding, infos, meant, {});
      SameIsSameRequest(requests[r]);
      ret := EINVAL;
      if requests[r].portType == PORT_EVENT {
        ret := ReplyToSignaling(r);
      }
    }

    static lemma ReceivedIsSignaling(request: Request)
      requires Received(request) && request.message.payload.Signaling?
      ensures IsSignaling(request)
    {}

    method ReplyToSignaling(r: nat) returns (ret: int)
      requires Valid() && Sound() && r in requests && Received(requests[r]) && requests[r].message.payload.Signaling?
      modifies ptpPool, tx, tx.buffer, `infos, `meant, `requests, `env
      ensures Valid() && Sound() && Keeps({}) && env.db.latest == old(env.db.latest)
      ensures OnlyAt(old(requests), requests, r) && SameRequest(old(requests)[r], requests[r])
      ensures Usable(old(env))
      ensures var request := old(requests)[r];
              var o := Responses.HandleSignaling(hmac, world, old(env), request.data, request.message, old(Room()));
              ret == o.code && env == o.env && Added(old(ptpPool.outstanding), o.responses)
    {
      hide Valid, DbCache.Coherent, AllCheckable, ServeTlvs, GrantMessage, Length, Queued, OnlyAt, Kept, SameBut,
        SameRequest, FreshMessage, Received, IsSignaling;
      UsableEnv();
      ReceivedIsSignaling(requests[r]);
      var request := requests[r].message;
      NoGrants(request);
      OnlyAtNothing(requests, r);
      NothingAdded();
      KeptNothing(ptpPool.outstanding, infos, meant, {});
      SameIsSameRequest(requests[r]);
      RoomIs();
      var response := InitReply(r, PORT_EVENT, Signaling(request.portId));
      if response.None? { return ENOMEM; }
      var item := response.value;
      ghost var infos' := infos;
      ret := AnswerSignaling(r, item, old(ptpPool.outstanding), old(Room()));
      KeptBehind(old(ptpPool.outstanding), item, old(infos), infos', old(meant), ptpPool.outstanding, infos, meant);
    }

    // ---- Requests

    /** The switch on the message type. */
    method Dispatch(r: nat) returns (ret: int)
      requires Valid() && Sound() && r in requests && Received(requests[r])
      modifies ptpPool, tx, tx.buffer, `infos, `meant, `requests, `env
      ensures Valid() && Sound() && Keeps({}) && env.db.latest == old(env.db.latest)
      ensures OnlyAt(old(requests), requests, r) && SameRequest(old(requests)[r], requests[r])
      ensures Usable(old(env))
      ensures var request := old(requests)[r];
              var o := Handle(hmac, world, old(env), request.data, request.portType, request.timestamp, request.message,
                              old(Room()));
              ret == o.code && env == o.env && Added(old(ptpPool.outstanding), o.responses)
    {
      hide Valid, DbCache.Coherent, AllCheckable, Queued, OnlyAt, Kept, SameRequest, DelayAnswer,
        Responses.HandleManagement, Responses.HandleSignaling;
      UsableEnv();
      OnlyAtNothing(requests, r);
      NothingAdded();
      KeptNothing(ptpPool.outstanding, infos, meant, {});
      SameIsSameRequest(requests[r]);
      match requests[r].message.payload {
        case Event(kind, _, _) =>
          if kind == Sync || kind == DelayResponse { return 0; }
          if kind != DelayRequest { return EINVAL; }
          ret := HandleDelayRequest(r);
        case Announce(_, _, _, _, _, _, _) => ret := 0;
        case Signaling(_) => ret := HandleSignaling(r);
        case Management(_, _, _, _) => ret := HandleManagement(r);
        case UnknownPayload(_) => ret := EINVAL;
      }
    }

    /** Decodes a request into its message, over what older messages have left. */
    method DecodeRequest(r: nat) returns (decoded: Result<Message>)
      requires Valid() && r in requests && Buffered(requests[r])
      modifies `requests
      ensures Valid() && decoded == Decoding(old(requests)[r], world(env.step).wild)
      ensures requests == old(requests)[r := Decoded(old(requests)[r], decoded)]
      ensures LeftoverOf(requests[r]) == AfterDecoding(LeftoverOf(old(requests)[r]), Datagram(old(requests)[r]))
      ensures decoded.Ok? ==> Received(requests[r]) && requests[r].message == decoded.value
    {
      hide Valid, Decoding, Stored, AllCheckable;
      decoded := Decoding(requests[r], world(env.step).wild);
      DecodedLeaves(requests[r], world(env.step).wild);
      requests := requests[r := Decoded(requests[r], decoded)];
    }

    /** A failure of any kind is reported with a general error. */
    method Report(r: nat, code: int, ghost left: Leftover, ghost before: seq<nat>, ghost handled: seq<Response>)
      returns (ret: int)
      requires Valid() && Sound() && r in requests && requests[r].portType <= PORT_GENERAL
      requires LeftoverOf(requests[r]) == left && Added(before, handled)
      modifies ptpPool, tx, tx.buffer, `infos, `meant, `env
      ensures Valid() && Sound() && Keeps({}) && env == old(env)
      ensures if code == 0 then ret == 0 && Added(before, handled)
              else if old(Room()) == 0 then ret == ENOMEM && Added(before, handled)
              else ret == 0 && Added(before, handled + [Final(GeneralError(left.requester, left.sequenceId))])
    {
      hide Valid, DbCache.Coherent, Queued, Kept, ErrorMessage;
      KeptNothing(ptpPool.outstanding, infos, meant, {});
      if code == 0 { return 0; }
      ghost var queue', infos', meant' := ptpPool.outstanding, infos, meant;
      assert handled + [] == handled;
      ret := AddManagementErrorMessage(r, ERROR_GENERAL, 0, Display("General error"));
      QueuedAgain(hmac, env.db.latest, before, queue', ptpPool.outstanding, infos', infos, meant', meant,
                  handled, if ret == 0 then [Final(GeneralError(left.requester, left.sequenceId))] else [], {});
    }

    /** What a decoded request leads to before a failure is reported. */
    static function Handled(hmac: Hmac, world: World, env: Env, request: Request, decoded: Result<Message>, room: nat):
      (o: Outcome)
      requires Usable(env) && (decoded.Ok? ==> AllCheckable(request.data, decoded.value))
      ensures Usable(o.env) && |o.responses| <= room
    {
      if decoded.Err? then Outcome(ErrorCode(decoded.error), [], env)
      else Handle(hmac, world, env, request.data, request.portType, request.timestamp, decoded.value, room)
    }

    /** Passes a decoded request on. */
    method Process(r: nat, decoded: Result<Message>) returns (ret: int)
      requires Valid() && Sound() && r in requests
      requires decoded.Ok? ==> Received(requests[r]) && requests[r].message == decoded.value
      modifies ptpPool, tx, tx.buffer, `infos, `meant, `requests, `env
      ensures Valid() && Sound() && Keeps({}) && env.db.latest == old(env.db.latest)
      ensures OnlyAt(old(requests), requests, r) && SameRequest(old(requests)[r], requests[r]) && Usable(old(env))
      ensures decoded.Ok? ==> AllCheckable(old(requests)[r].data, decoded.value)
      ensures var o := Handled(hmac, world, old(env), old(requests)[r], decoded, old(Room()));
              ret == o.code && env == o.env && Added(old(ptpPool.outstanding), o.responses)
    {
      hide Valid, DbCache.Coherent, AllCheckable, Queued, Kept, SameRequest, Handle, OnlyAt;
      UsableEnv();
      NothingAdded();
      OnlyAtNothing(requests, r);
      KeptNothing(ptpPool.outstanding, infos, meant, {});
      SameIsSameRequest(requests[r]);
      if decoded.Err? { return ErrorCode(decoded.error); }
      ret := Dispatch(r);
    }

    static lemma RespondIs(
      hmac: Hmac, world: World, env: Env, request: Request, decoded: Result<Message>, left: Leftover, room: nat)
      requires Usable(env) && (decoded.Ok? ==> AllCheckable(request.data, decoded.value))
      ensures var o := Handled(hmac, world, env, request, decoded, room);
              Respond(hmac, world, env, request.data, request.portType, request.timestamp, decoded, left, room)
              == if o.code == 0 then o
                 else if |o.responses| == room then o.(code := ENOMEM)
                 else
                   o.(code := 0, responses := o.responses + [Final(GeneralError(left.requester, left.sequenceId))])
    {
      hide Handle, GeneralError, AllCheckable;
    }

    static lemma SameLeftover(a: Request, b: Request)
      requires SameRequest(a, b)
      ensures LeftoverOf(a) == LeftoverOf(b) && a.portType == b.portType
    {}

    /** Passes a decoded request on and reports a failure. */
    method ProcessAndReport(r: nat, decoded: Result<Message>) returns (ret: int)
      requires Valid() && Sound() && r in requests && requests[r].portType <= PORT_GENERAL
      requires decoded.Ok? ==> Received(requests[r]) && requests[r].message == decoded.value
      modifies ptpPool, tx, tx.buffer, `infos, `meant, `requests, `env
      ensures Valid() && Sound() && Keeps({}) && env.db.latest == old(env.db.latest) && Usable(old(env))
      ensures OnlyAt(old(requests), requests, r) && LeftoverOf(requests[r]) == LeftoverOf(old(requests)[r])
      ensures decoded.Ok? ==> AllCheckable(old(requests)[r].data, decoded.value)
      ensures var request := old(requests)[r];
              var o := Respond(hmac, world, old(env), request.data, request.portType, request.timestamp, decoded,
                               LeftoverOf(request), old(Room()));
              ret == o.code && env == o.env && Added(old(ptpPool.outstanding), o.responses)
    {
      hide Valid, DbCache.Coherent, AllCheckable, Queued, Kept, Handled, GeneralError, Received, Respond, SameRequest,
        LeftoverOf;
      UsableEnv();
      if decoded.Ok? { ReceivedIsCheckable(requests[r]); }
      ghost var request, before, room := requests[r], ptpPool.outstanding, Room();
      RoomIs();
      ghost var handled := Handled(hmac, world, env, request, decoded, room);
      RespondIs(hmac, world, env, request, decoded, LeftoverOf(request), room);
      ret := Process(r, decoded);
      RoomIs();
      SameLeftover(request, requests[r]);
      AddedGrows(before, handled.responses);
      ghost var queue', infos', meant' := ptpPool.outstanding, infos, meant;
      ret := Report(r, ret, LeftoverOf(request), before, handled.responses);
      KeptAgain(before, old(infos), old(meant), queue', infos', meant', ptpPool.outstanding, infos, meant, {});
    }

    static lemma ReceivedIsCheckable(request: Request)
      requires Received(request)
      ensures AllCheckable(request.data, request.message)
    {}

    static lemma AnswerIs(hmac: Hmac, world: World, env: Env, request: Request, room: nat)
      requires Usable(env) && Buffered(request)
      ensures var decoded := Decoding(request, world(env.step).wild);
              var after := Decoded(request, decoded);
              && after.data == request.data && after.portType == request.portType <= PORT_GENERAL
              && (decoded.Ok? ==> AllCheckable(request.data, decoded.value))
              && LeftoverOf(after) == AfterDecoding(LeftoverOf(request), Datagram(request))
              && AnswerTo(hmac, world, env, request, room)
                 == Respond(hmac, world, env, after.data, after.portType, after.timestamp, decoded, LeftoverOf(after),
                            room)
    {
      hide Decoding, Stored, AllCheckable, Respond;
      DecodedLeaves(request, world(env.step).wild);
    }

    /** Decodes and answers a request. */
    method Answer(r: nat) returns (ret: int)
      requires Valid() && Sound() && r in requests && Buffered(requests[r])
      modifies ptpPool, tx, tx.buffer, `infos, `meant, `requests, `env
      ensures Valid() && Sound() && Keeps({}) && env.db.latest == old(env.db.latest) && Usable(old(env))
      ensures DecodesAt(old(requests), requests, r)
      ensures var o := AnswerTo(hmac, world, old(env), old(requests)[r], old(Room()));
              ret == o.code && env == o.env && Added(old(ptpPool.outstanding), o.responses)
    {
      hide Valid, Sound, DbCache.Coherent, AnswerTo, Queued, Kept, DecodesAt, OnlyAt, Decoding, Decoded, Received,
        Buffered, LeftoverOf, Datagram, AfterDecoding, Respond, AllCheckable, Usable;
      UsableEnv();
      AnswerIs(hmac, world, env, requests[r], Room());
      var decoded := DecodeRequest(r);
      StoredOnlyAt(old(requests), r, requests[r]);
      ghost var before := requests;
      ret := ProcessAndReport(r, decoded);
      OnlyAtAgain(old(requests), before, requests, r);
      DecodesAtIs(old(requests), requests, r);
    }

    /** The two maps differ in that request `r` has been decoded and perhaps marked. */
    static ghost predicate DecodesAt(before: map<nat, Request>, after: map<nat, Request>, r: nat) {
      && OnlyAt(before, after, r) && r in before && Buffered(before[r])
      && LeftoverOf(after[r]) == AfterDecoding(LeftoverOf(before[r]), Datagram(before[r]))
    }

    static lemma DecodesAtIs(before: map<nat, Request>, after: map<nat, Request>, r: nat)
      requires OnlyAt(before, after, r) && r in before && Buffered(before[r])
      requires r in after && LeftoverOf(after[r]) == AfterDecoding(LeftoverOf(before[r]), Datagram(before[r]))
      ensures DecodesAt(before, after, r)
    {}

    /** The only outstanding request, with its receive buffer. */
    ghost predicate OnlyRequest(item: nat)
      reads `requests, udpPool
    {
      Outstanding(item) && item in requests && Buffered(requests[item])
    }

    ghost predicate Outstanding(item: nat)
      reads udpPool
    {
      udpPool.outstanding == [item] && item >= 1 && item - 1 in udpPool.descriptors
    }

    /** Takes the request off the ring. */
    method GetRequest(ghost item: nat) returns (got: Option<nat>)
      requires Valid() && rx.Contents() == [item]
      modifies rx
      ensures Valid() && rx.Contents() == [] && got == Some(item)
    {
      hide MemPool.Mempool.Valid, Ring.ItemRing.Valid, Ring.ItemRing.Contents, WellFormed, Ready, SentAs;
      got := rx.Get();
      Single(item, got.value, rx.Contents());
    }

    /** Gives the receive buffer back. */
    method DropRequest(item: nat)
      requires Valid() && rx.Contents() == [] && Outstanding(item)
      modifies udpPool
      ensures Valid() && rx.Contents() == [] && udpPool.outstanding == [] && udpPool.Slot() == old(udpPool.Slot())
    {
      hide MemPool.Mempool.Valid, Ring.ItemRing.Valid, Ring.ItemRing.Contents, WellFormed, Ready, SentAs;
      var exits := udpPool.Put(item);
      assert !exits;
    }

    static lemma Single(a: nat, b: nat, rest: seq<nat>)
      requires [a] == [b] + rest
      ensures a == b && rest == []
    {
      assert |[b] + rest| == 1 && ([b] + rest)[0] == b;
    }

    /** Takes the request from the ring and gives its buffer back, whatever the answer was. */
    method HandleMessage(ghost item: nat) returns (ret: int)
      requires Valid() && Sound() && OnlyRequest(item) && rx.Contents() == [item]
      modifies udpPool, ptpPool, rx, tx, tx.buffer, `infos, `meant, `requests, `env
      ensures Idle() && Keeps({}) && env.db.latest == old(env.db.latest) && Usable(old(env))
      ensures udpPool.Slot() == old(udpPool.Slot()) && DecodesAt(old(requests), requests, item)
      ensures var o := AnswerTo(hmac, world, old(env), old(requests)[item], old(Room()));
              ret == o.code && env == o.env && Added(old(ptpPool.outstanding), o.responses)
    {
      hide Valid, DbCache.Coherent, Queued, Kept, AnswerTo, Ring.ItemRing.Contents, DecodesAt;
      UsableEnv();
      ValidPool();
      var got := GetRequest(item);
      if got.None? { return ENODATA; }
      ret := Answer(got.value);
      DropRequest(got.value);
    }

    // ---- ptp.c

    /** The clock is read as soon as the request has arrived. */
    method EnqueueMessage(item: nat) returns (ret: int)
      requires Valid() && Sound() && OnlyRequest(item) && rx.Contents() == []
      modifies udpPool, ptpPool, rx, rx.buffer, tx, tx.buffer, `infos, `meant, `requests, `env
      ensures Idle() && Keeps({}) && env.db.latest == old(env.db.latest) && Usable(old(env))
      ensures udpPool.Slot() == old(udpPool.Slot()) && DecodesAt(old(requests), requests, item)
      ensures var request, (now, start) := old(requests)[item], Clock(world, old(env));
              var o := AnswerTo(hmac, world, start, request.(timestamp := now), old(Room()));
              ret == o.code && env == o.env && Added(old(ptpPool.outstanding), o.responses)
    {
      hide Valid, DbCache.Coherent, Queued, Kept, AnswerTo, Ring.ItemRing.Contents, Idle, Outstanding, DecodesAt;
      UsableEnv();
      var now := ReadClock();
      Arrival(item, now);
      ghost var stamped := requests;
      ret := HandleMessage(item);
      DecodesStamped(old(requests), stamped, requests, item, now);
    }

    static lemma DecodesStamped(
      before: map<nat, Request>, stamped: map<nat, Request>, after: map<nat, Request>, item: nat, now: u64)
      requires item in before && stamped == before[item := before[item].(timestamp := now)]
      requires DecodesAt(stamped, after, item)
      ensures DecodesAt(before, after, item)
    {
      hide AfterDecoding;
    }

    /** Stamps the request and queues it; a full ring would leak it. */
    method Arrival(item: nat, now: u64)
      requires Valid() && OnlyRequest(item) && rx.Contents() == []
      modifies rx, rx.buffer, `requests
      ensures Valid() && OnlyRequest(item) && rx.Contents() == [item]
      ensures requests == old(requests)[item := old(requests)[item].(timestamp := now)]
    {
      hide MemPool.Mempool.Valid, Ring.ItemRing.Valid, Ring.ItemRing.Contents, WellFormed, Ready, SentAs;
      requests := requests[item := requests[item].(timestamp := now)];
      var ok := rx.Put(item);
      assert ok;
      assert rx.Contents() == [item];
    }

    method GetResponse() returns (got: Option<nat>)
      requires Idle()
      modifies tx
      ensures got.None? <==> ptpPool.outstanding == []
      ensures got.None? ==> Idle()
      ensures got.Some? ==>
                && got.value == ptpPool.outstanding[0] && got.value in infos
                   && WellFormed(infos[got.value], meant, got.value)
                && Linked(ptpPool.outstanding[1..]) && rx.Contents() == [] && Sound()
    {
      hide MemPool.Mempool.Valid, Ring.ItemRing.Valid, Ring.ItemRing.Contents, WellFormed, Ready, SentAs,
        DbCache.Coherent;
      got := tx.Get();
      if got.Some? { assert got.value == ptpPool.outstanding[0]; }
    }

    method Stamp(item: nat, ghost queue: seq<nat>)
      requires Linked(queue) && Sound() && rx.Contents() == []
      requires item in infos && WellFormed(infos[item], meant, item)
      modifies `infos, `env
      ensures Linked(queue) && Sound() && rx.Contents() == [] && SameResponses(old(infos), infos)
      ensures item in infos && WellFormed(infos[item], meant, item) && env == Clock(world, old(env)).1
    {
      hide MemPool.Mempool.Valid, Ring.ItemRing.Valid, Ring.ItemRing.Contents, WellFormed, Ready, SentAs,
        DbCache.Coherent;
      var now := ReadClock();
      SameBlockIsWellFormed(infos[item], meant, item, now);
      infos := infos[item := infos[item].(timestamp := now)];
    }

    /** Takes the oldest response off the ring and stamps it; its buffer stays allocated. */
    method DequeueMessage() returns (item: Option<nat>)
      requires Idle()
      modifies `infos, `env, tx
      ensures SameResponses(old(infos), infos) && Sound()
      ensures item.None? <==> ptpPool.outstanding == []
      ensures item.None? ==> Idle() && env == old(env)
      ensures item.Some? ==>
                && item.value == ptpPool.outstanding[0] && item.value in infos
                   && WellFormed(infos[item.value], meant, item.value)
                && Linked(ptpPool.outstanding[1..]) && rx.Contents() == [] && env == Clock(world, old(env)).1
    {
      hide Linked, Valid, WellFormed, DbCache.Coherent;
      item := GetResponse();
      if item.Some? { Stamp(item.value, ptpPool.outstanding[1..]); }
    }

    static lemma SameBlockIsWellFormed(info: Info, meant: map<nat, Message>, item: nat, now: u64)
      requires WellFormed(info, meant, item)
      ensures WellFormed(info.(timestamp := now), meant, item)
    {}

    // ---- udp.c

    /** A receive buffer; the pool is never exhausted between events, so receiving never fails with ENOMEM. */
    method TakeRequest() returns (item: nat)
      requires Idle()
      modifies udpPool
      ensures Valid() && Sound() && rx.Contents() == [] && Outstanding(item)
      ensures udpPool.Slot() == (old(udpPool.Slot()) + 1) % POOL_SIZE && item == udpPool.ItemAt(udpPool.Slot())
    {
      hide MemPool.Mempool.Valid, Ring.ItemRing.Valid, Ring.ItemRing.Contents, WellFormed, Ready, SentAs,
        MemPool.Mempool.Slot, MemPool.Wrap, DbCache.Coherent;
      SlotInPool();
      var got := udpPool.Get();
      assert got.Some?;
      item := got.value;
      MemPool.OutstandingIsItem(udpPool, 0);
    }

    lemma SlotInPool()
      requires udpPool.Valid()
      ensures udpPool.count == POOL_SIZE ==>
                MemPool.Wrap(udpPool.Slot() + 1, udpPool.count) == (udpPool.Slot() + 1) % POOL_SIZE
    {}

    /** One more arrival, received into the next request. */
    lemma HoldsOneMore(
      before: map<nat, Request>, after: map<nat, Request>, arrivals: seq<Option<seq<u8>>>, received: Option<seq<u8>>)
      requires udpPool.Valid() && Holding(before, arrivals)
      requires Advances(before, after, udpPool.ItemAt((|arrivals| + 1) % POOL_SIZE), received)
      ensures Holding(after, arrivals + [received])
    {
      hide AfterArrival, LeftoverOf;
      var next := (|arrivals| + 1) % POOL_SIZE;
      assert (arrivals + [received])[..|arrivals|] == arrivals;
      forall slot: nat | slot < POOL_SIZE
        ensures LeftAt(after, udpPool.ItemAt(slot)) == LeftIn(Heap(), arrivals + [received], slot)
      {
        udpPool.ItemsDiffer(slot, next);
        assert LeftAt(before, udpPool.ItemAt(slot)) == LeftIn(Heap(), arrivals, slot);
      }
    }

    lemma RemembersNext()
      requires Remembers()
      ensures udpPool.Valid() && udpPool.Slot() == |arrivals| % POOL_SIZE && Holding(requests, arrivals)
      ensures var slot := (|arrivals| + 1) % POOL_SIZE;
              (udpPool.Slot() + 1) % POOL_SIZE == slot
              && LeftAt(requests, udpPool.ItemAt(slot)) == NextLeftover(Heap(), arrivals)
    {
      hide LeftIn, MemPool.Mempool.Valid, LeftoverOf;
    }

    lemma RemembersOneMore(
      before: map<nat, Request>, earlier: seq<Option<seq<u8>>>, received: Option<seq<u8>>, item: nat)
      requires udpPool.Valid() && Holding(before, earlier) && udpPool.Slot() == (|earlier| + 1) % POOL_SIZE
      requires item == udpPool.ItemAt(udpPool.Slot()) && Advances(before, requests, item, received)
      requires arrivals == earlier + [received]
      ensures Remembers()
    {
      hide Holding, Advances, MemPool.Mempool.Valid, MemPool.Mempool.Slot;
      HoldsOneMore(before, requests, earlier, received);
    }

    lemma ValidPool()
      requires Valid()
      ensures udpPool.Valid() && udpPool != ptpPool && rx != tx && rx.buffer != tx.buffer
    {}

    lemma IdlePool()
      requires Idle()
      ensures udpPool.Valid() && udpPool != ptpPool
    {}

    static lemma NothingReceived(hmac: Hmac, world: World, env: Env, left: Leftover, portType: nat, room: nat)
      requires Usable(env) && portType <= PORT_GENERAL
      ensures Reception(hmac, world, env, left, portType, None, room) == Outcome(-1, [], env)
    {}

    /** Receives over what older messages have left, and answers. */
    method AcceptMessage(item: nat, portType: nat, received: seq<u8>, left: Leftover) returns (ret: int)
      requires Valid() && Sound() && rx.Contents() == [] && Outstanding(item) && left == LeftAt(requests, item)
      requires portType <= PORT_GENERAL && |received| <= BUFFER_SIZE
      modifies udpPool, ptpPool, rx, rx.buffer, tx, tx.buffer, `infos, `meant, `requests, `env
      ensures Idle() && Keeps({}) && env.db.latest == old(env.db.latest) && Usable(old(env))
      ensures udpPool.Slot() == old(udpPool.Slot()) && Advances(old(requests), requests, item, Some(received))
      ensures var o := Reception(hmac, world, old(env), left, portType, Some(received), old(Room()));
              ret == o.code && env == o.env && Added(old(ptpPool.outstanding), o.responses)
    {
      hide Valid, Sound, DbCache.Coherent, Queued, Kept, DecodesAt, Buffered, LeftoverOf, Datagram, Reception, Usable,
        AnswerTo, Over, Outstanding, Advances, LeftAt, Ring.ItemRing.Contents, Idle, MemPool.Mempool.Valid,
        MemPool.Mempool.Slot;
      UsableEnv();
      var request := Over(left, portType, received, world(env.step).memory);
      ReceptionIs(hmac, world, env, left, portType, received, Room());
      ValidPool();
      SetRequest(item, request);
      ghost var stored := requests;
      ret := EnqueueMessage(item);
      DecodesOver(old(requests), stored, requests, item, received);
    }

    /** A failed `recvfrom`. */
    method RejectMessage(item: nat) returns (ret: int)
      requires Valid() && Sound() && rx.Contents() == [] && Outstanding(item)
      modifies udpPool
      ensures Idle() && Keeps({}) && ret == -1 && Added(old(ptpPool.outstanding), [])
      ensures udpPool.Slot() == old(udpPool.Slot())
    {
      hide Valid, DbCache.Coherent, Queued, Kept, Ring.ItemRing.Contents, MemPool.Mempool.Valid,
        MemPool.Mempool.Slot;
      ValidPool();
      NothingAdded();
      KeptNothing(ptpPool.outstanding, infos, meant, {});
      DropRequest(item);
      ret := -1;
    }

    static lemma ReceptionIs(
      hmac: Hmac, world: World, env: Env, left: Leftover, portType: nat, received: seq<u8>, room: nat)
      requires Usable(env) && portType <= PORT_GENERAL && |received| <= BUFFER_SIZE
      ensures var (now, after) := Clock(world, env);
              var request := Over(left, portType, received, world(env.step).memory);
              && Buffered(request) && Datagram(request) == received && LeftoverOf(request) == left && Usable(after)
              && Buffered(request.(timestamp := now))
              && Reception(hmac, world, env, left, portType, Some(received), room)
                 == AnswerTo(hmac, world, after, request.(timestamp := now), room)
    {
      hide AnswerTo;
    }

    /** The two maps differ in what has been received into request `item`. */
    ghost predicate Advances(
      before: map<nat, Request>, after: map<nat, Request>, item: nat, received: Option<seq<u8>>)
    {
      && SameBut(before, after, item) && (forall j :: j in after && j != item ==> j in before)
      && LeftAt(after, item) == AfterArrival(LeftAt(before, item), received)
    }

    lemma NothingAdvances(requests: map<nat, Request>, item: nat)
      ensures Advances(requests, requests, item, None)
    {}

    /** Uses the request `item` for one receive attempt. */
    method ReceiveInto(item: nat, portType: nat, received: Option<seq<u8>>, left: Leftover) returns (ret: int)
      requires Valid() && Sound() && rx.Contents() == [] && Outstanding(item) && left == LeftAt(requests, item)
      requires portType <= PORT_GENERAL && (received.Some? ==> |received.value| <= BUFFER_SIZE)
      modifies udpPool, ptpPool, rx, rx.buffer, tx, tx.buffer, `infos, `meant, `requests, `env
      ensures Idle() && Keeps({}) && env.db.latest == old(env.db.latest) && Usable(old(env))
      ensures udpPool.Slot() == old(udpPool.Slot()) && Advances(old(requests), requests, item, received)
      ensures var o := Reception(hmac, world, old(env), left, portType, received, old(Room()));
              ret == o.code && env == o.env && Added(old(ptpPool.outstanding), o.responses)
    {
      hide *;
      UsableEnv();
      if received.Some? {
        ret := AcceptMessage(item, portType, received.value, left);
      } else {
        NothingReceived(hmac, world, env, left, portType, Room());
        NothingAdvances(requests, item);
        ret := RejectMessage(item);
      }
    }

    /** A datagram of at most 1472 bytes, or a failed `recvfrom`. */
    method ReceiveMessage(portType: nat, received: Option<seq<u8>>) returns (ret: int)
      requires Idle() && Remembers()
      requires portType <= PORT_GENERAL && (received.Some? ==> |received.value| <= BUFFER_SIZE)
      modifies udpPool, ptpPool, rx, rx.buffer, tx, tx.buffer, `infos, `meant, `requests, `arrivals, `env
      ensures Idle() && Keeps({}) && env.db.latest == old(env.db.latest) && Usable(old(env))
      ensures Remembers() && arrivals == old(arrivals) + [received]
      ensures var left := NextLeftover(Heap(), old(arrivals));
              var o := Reception(hmac, world, old(env), left, portType, received, old(Room()));
              ret == o.code && env == o.env && Added(old(ptpPool.outstanding), o.responses)
    {
      hide Idle, Valid, Sound, DbCache.Coherent, Queued, Kept, Reception, Ring.ItemRing.Contents, Remembers,
        NextLeftover, MemPool.Mempool.Valid, MemPool.Mempool.Slot, Holding, Advances, AfterArrival, LeftAt,
        Outstanding, Heap;
      IdlePool();
      RemembersNext();
      ghost var before, earlier := requests, arrivals;
      var item := TakeRequest();
      ret := ReceiveInto(item, portType, received, LeftAt(requests, item));
      arrivals := arrivals + [received];
      IdlePool();
      RemembersOneMore(before, earlier, received, item);
    }

    lemma DecodesOver(
      before: map<nat, Request>, stored: map<nat, Request>, after: map<nat, Request>, item: nat, received: seq<u8>)
      requires item in stored && stored == before[item := stored[item]] && Buffered(stored[item])
      requires Datagram(stored[item]) == received && LeftoverOf(stored[item]) == LeftAt(before, item)
      requires DecodesAt(stored, after, item)
      ensures Advances(before, after, item, Some(received))
    {
      hide AfterDecoding;
    }

    method SetRequest(item: nat, request: Request)
      requires Valid() && rx.Contents() == []
      modifies `requests
      ensures Valid() && rx.Contents() == [] && requests == old(requests)[item := request]
    {
      hide Valid, Ring.ItemRing.Contents;
      requests := requests[item := request];
    }

    /** Hands a finalized response to the socket; the others are dropped. */
    method Transmit(item: nat, ghost queue: seq<nat>) returns (ret: int)
      requires Linked(queue) && item in infos && WellFormed(infos[item], meant, item)
      modifies `sent, `wire, `env
      ensures Linked(queue) && env.db == old(env.db)
      ensures Length(infos[item]) <= 0 ==> ret == EINVAL && sent == old(sent) && wire == old(wire) && env == old(env)
      ensures Length(infos[item]) > 0 ==>
                && item in meant && sent == old(sent) + [WireBytes(infos[item], world(old(env).step).memory)]
                && wire == old(wire) + [meant[item]] && env.step == old(env).step + 1
                && (ret == 0 <==> world(old(env).step).sends)
    {
      hide MemPool.Mempool.Valid, Ring.ItemRing.Valid, Ring.ItemRing.Contents, SentAs, Ready, Shaped, Length,
        WireBytes;
      var info := infos[item];
      if info.portType > PORT_GENERAL { return EINVAL; }
      if Length(info) <= 0 { return EINVAL; }
      var moment := world(env.step);
      ShapedIsSent(info, meant[item], moment.memory);
      sent := sent + [WireBytes(info, moment.memory)];
      wire := wire + [meant[item]];
      env := env.(step := env.step + 1);
      ret := if moment.sends then 0 else -1;
    }

    /** The buffer of the response that has just left the ring. */
    method PutBack(item: nat)
      requires ptpPool.outstanding != [] && item == ptpPool.outstanding[0] && Linked(ptpPool.outstanding[1..])
      modifies ptpPool
      ensures Valid() && ptpPool.outstanding == old(ptpPool.outstanding)[1..]
    {
      hide MemPool.Mempool.Valid, Ring.ItemRing.Valid, Ring.ItemRing.Contents, SentAs, Ready, WellFormed;
      OldestIsItem();
      var exits := ptpPool.Put(item);
      assert !exits;
    }

    lemma OldestIsItem()
      requires ptpPool.Valid() && ptpPool.outstanding != []
      ensures ptpPool.outstanding[0] >= 1 && ptpPool.outstanding[0] - 1 in ptpPool.descriptors
    {
      MemPool.OutstandingIsItem(ptpPool, 0);
    }

    /** Sends the oldest response and returns its buffer, sent or not. */
    method SendMessage() returns (ret: int)
      requires Idle()
      modifies `infos, `sent, `wire, `env, ptpPool, tx
      ensures Idle() && SameResponses(old(infos), infos) && env.db == old(env.db)
      ensures old(ptpPool.outstanding) == [] ==>
                && ret == ENODATA && ptpPool.outstanding == [] && env == old(env) && sent == old(sent)
                   && wire == old(wire)
      ensures old(ptpPool.outstanding) != [] ==>
                var item, step := old(ptpPool.outstanding)[0], old(env).step;
                && item in old(infos) && ptpPool.outstanding == old(ptpPool.outstanding)[1..]
                && if Length(old(infos)[item]) <= 0
                   then ret == EINVAL && env.step == step + 1 && sent == old(sent) && wire == old(wire)
                   else && item in meant && sent == old(sent) + [WireBytes(old(infos)[item], world(step + 1).memory)]
                        && wire == old(wire) + [meant[item]] && env.step == step + 2
                        && (ret == 0 <==> world(step + 1).sends)
    {
      hide MemPool.Mempool.Valid, Ring.ItemRing.Valid, Ring.ItemRing.Contents, SentAs, Ready, WellFormed,
        DbCache.Coherent;
      var got := DequeueMessage();
      if got.None? { return ENODATA; }
      ret := Transmit(got.value, ptpPool.outstanding[1..]);
      PutBack(got.value);
    }

    // ---- Events

    /** `n` responses have left since, with `out` going out; `ret` is the result of the last send. */
    ghost predicate Drained(outbox: Outbox, n: nat, out: seq<seq<u8>>, ret: int)
      reads `env, `infos, `meant, `sent, `wire, ptpPool
    {
      && SameResponses(outbox.responses, infos) && meant == outbox.meant
      && n <= |outbox.queue| && ptpPool.outstanding == outbox.queue[n..]
      && sent == outbox.sent + out && wire == outbox.wire + Wired(outbox.responses, outbox.meant, outbox.queue[..n])
      && Drain(world, outbox.step, outbox.responses, outbox.queue)
         == if ret != 0 then (n, env.step, out)
            else
              var (more, end, rest) := Drain(world, env.step, outbox.responses, outbox.queue[n..]);
              (n + more, end, out + rest)
    }

    lemma OldestIsStored()
      requires Idle() && ptpPool.outstanding != []
      ensures ptpPool.outstanding[0] in infos
    {}

    /** One more send; `n` of the responses have left before. */
    method SendNext(ghost outbox: Outbox, ghost n: nat, ghost out: seq<seq<u8>>)
      returns (ret: int, ghost n': nat, ghost out': seq<seq<u8>>)
      requires Idle() && Drained(outbox, n, out, 0)
      modifies `infos, `sent, `wire, `env, ptpPool, tx
      ensures Idle() && Drained(outbox, n', out', ret) && env.db == old(env.db)
      ensures ret == 0 ==> n < n'
    {
      hide Idle, WireBytes, Length, Drain, WellFormed;
      ghost var queue := outbox.queue;
      if n < |queue| {
        OldestIsStored();
        SameDatagram(outbox.responses[queue[n]], infos[queue[n]], world(env.step + 1).memory);
        DrainNext(world, env.step, outbox.responses, queue, n, out);
      } else {
        DrainNone(world, env.step, outbox.responses);
        assert out + [] == out;
      }
      ghost var before := infos;
      ret := SendMessage();
      SameResponsesAgain(outbox.responses, before, infos);
      n', out' := n, out;
      if n < |queue| {
        n' := n + 1;
        assert queue[..n + 1][..n] == queue[..n] && queue[..n + 1][n] == queue[n];
        if Length(before[queue[n]]) > 0 {
          out' := out + [WireBytes(before[queue[n]], world(old(env).step + 1).memory)];
        }
      }
    }

    lemma NothingDrained(outbox: Outbox)
      requires outbox == Outbox(env.step, ptpPool.outstanding, infos, meant, sent, wire)
      ensures Drained(outbox, 0, [], 0)
    {
      hide Drain;
      var (more, end, rest) := Drain(world, env.step, outbox.responses, outbox.queue);
      assert outbox.queue[0..] == outbox.queue && [] + rest == rest;
    }

    /** Sends until a send does not succeed. */
    method SendMessages()
      requires Idle()
      modifies `infos, `sent, `wire, `env, ptpPool, tx
      ensures Idle() && env.db == old(env.db)
      ensures var (n, end, out) := Drain(world, old(env.step), old(infos), old(ptpPool.outstanding));
              && env.step == end && ptpPool.outstanding == old(ptpPool.outstanding)[n..] && sent == old(sent) + out
              && wire == old(wire) + Wired(old(infos), old(meant), old(ptpPool.outstanding)[..n])
    {
      hide Idle, Sound, Drain, Wired, DbCache.Coherent, SameResponses;
      ghost var outbox := Outbox(env.step, ptpPool.outstanding, infos, meant, sent, wire);
      NothingDrained(outbox);
      ghost var db, n, out := env.db, 0, [];
      var ret := 0;
      while ret == 0
        invariant Idle() && Drained(outbox, n, out, ret) && env.db == db
        decreases if ret == 0 then |outbox.queue| + 1 - n else 0
      {
        ret, n, out := SendNext(outbox, n, out);
      }
    }

    /**
     * One readable event: a receive attempt, then sends until one does not succeed.
     * `outbox` is what the attempt leaves behind.
     */
    method Poll(portType: nat, received: Option<seq<u8>>) returns (ghost outbox: Outbox)
      requires Idle() && Remembers()
      requires portType <= PORT_GENERAL && (received.Some? ==> |received.value| <= BUFFER_SIZE)
      modifies this, udpPool, ptpPool, rx, rx.buffer, tx, tx.buffer
      ensures Idle() && Usable(old(env)) && Remembers() && arrivals == old(arrivals) + [received]
      ensures var left := NextLeftover(Heap(), old(arrivals));
              var o := Reception(hmac, world, old(env), left, portType, received, old(Room()));
              && outbox.step == o.env.step && env.db == o.env.db && outbox.sent == old(sent) && outbox.wire == old(wire)
              && Queued(hmac, old(env).db.latest, old(ptpPool.outstanding), outbox.queue, outbox.responses,
                        outbox.meant, o.responses)
              && Kept(old(ptpPool.outstanding), old(infos), old(meant), outbox.queue, outbox.responses, outbox.meant,
                      {})
      ensures var (n, end, out) := Drain(world, outbox.step, outbox.responses, outbox.queue);
              && env.step == end && ptpPool.outstanding == outbox.queue[n..] && sent == outbox.sent + out
              && wire == outbox.wire + Wired(outbox.responses, outbox.meant, outbox.queue[..n])
    {
      hide Idle, Sound, Queued, Kept, Reception, Drain, NextLeftover, Remembers, Heap, Wired, DbCache.Coherent;
      var ret := ReceiveMessage(portType, received);
      outbox := Outbox(env.step, ptpPool.outstanding, infos, meant, sent, wire);
      IdlePool();
      SendMessages();
    }

    // ---- The other users of the database

    /** A registration over HTTP, after whatever the cleanup has deleted. */
    method Register(port: PortId, row: DbCache.Row)
      requires Idle()
      modifies `env
      ensures Idle() && env.step == old(env).step + 1
      ensures var moment := world(old(env).step);
              && Usable(old(env))
              && env.db == DbCache.Insert(DbCache.Delete(old(env).db, moment.gone), port, row, moment.fault).0
    {
      hide Valid, Ring.ItemRing.Contents, DbCache.Insert;
      var moment := world(env.step);
      DeleteKeepsCoherent(env.db, moment.gone);
      DbCache.InsertKeepsCoherent(DbCache.Delete(env.db, moment.gone), port, row, moment.fault);
      env := Env(DbCache.Insert(DbCache.Delete(env.db, moment.gone), port, row, moment.fault).0, env.step + 1);
    }

    /** The lookup of an inspection over HTTP. */
    method Inspect(port: PortId) returns (entry: Entry)
      requires Idle()
      modifies `env
      ensures Idle() && Usable(old(env)) && (entry, env) == Fetch(world, old(env), port)
    {
      hide Valid, Ring.ItemRing.Contents, DbCache.Coherent, Fetch;
      UsableEnv();
      entry := FetchEntry(port);
    }

    /** A page of ports, if `order` is one that the query may return. */
    method Browse(order: seq<PortId>, length: nat)
      requires Idle()
      modifies `env
      ensures Idle() && env.step == old(env).step
      ensures Usable(old(env))
      ensures env.db == if DbCache.IsPage(old(env).db, order, length) then DbCache.LoadAll(old(env).db, order)
                        else old(env).db
    {
      hide Valid, Ring.ItemRing.Contents;
      if DbCache.IsPage(env.db, order, length) {
        DbCache.LoadAllKeepsCoherent(env.db, order);
        env := env.(db := DbCache.LoadAll(env.db, order));
      }
    }

    /** Whatever happens next. */
    method Happen(happening: Happening)
      requires Idle() && Remembers() && PossibleHappening(happening)
      modifies this, udpPool, ptpPool, rx, rx.buffer, tx, tx.buffer
      ensures Idle() && Remembers()
      ensures arrivals == old(arrivals) + if happening.Arrives? then [happening.received] else []
    {
      hide Idle, Remembers, Reception, NextLeftover, Queued, Kept, Drain, Heap, DbCache.IsPage, DbCache.Insert;
      IdlePool();
      match happening {
        case Arrives(portType, received) =>
          ghost var outbox := Poll(portType, received);
        case Registers(port, row) => Register(port, row);
        case Inspects(port) => var entry := Inspect(port);
        case Browses(order, length) => Browse(order, length);
      }
    }
  }

  /** What is sent is a datagram, unless it comes from a message that got stuck at the very end of its buffer. */
  ghost predicate SentProperly(d: seq<u8>, m: Message) {
    && Ready(m) && SentAs(d, m) && (IsDatagram(d) <==> MessageCells(m, BUFFER_SIZE).Ok?)
    && (MessageCells(m, BUFFER_SIZE).Err? ==> |d| == FailedLength(m) && Stuck(m, BUFFER_SIZE).0 + 2 > BUFFER_SIZE)
  }

  lemma AllSentProperly(service: Server)
    requires service.Idle()
    ensures |service.sent| == |service.wire|
    ensures forall k :: 0 <= k < |service.sent| ==> SentProperly(service.sent[k], service.wire[k])
  {
    hide Ready, SentAs, IsDatagram, Stuck, MessageCells, FailedLength, PayloadFits;
    forall k | 0 <= k < |service.sent|
      ensures SentProperly(service.sent[k], service.wire[k])
    {
      ReadyFits(service.wire[k]);
      OverrunIsNoDatagram(service.sent[k], service.wire[k]);
    }
  }

  lemma ReadyFits(m: Message)
    requires Ready(m)
    ensures PayloadFits(m, BUFFER_SIZE)
  {}

  /**
   * Any run from start-up, with arrivals on both ports, registrations, inspections
   * and page views: the receive ring and the UDP pool end empty, the transmit ring equals
   * the PTP pool's outstanding items, no call ever exits, and what was sent is
   * aligned and as long as its header says if and only if its message fit.
   */
  method Serve(
    hmac: Hmac, world: World, heap: nat -> Leftover, db: DbCache.Db, infoSize: nat, happenings: seq<Happening>)
    returns (service: Server)
    requires DbCache.Coherent(db) && forall i :: 0 <= i < |happenings| ==> PossibleHappening(happenings[i])
    ensures service.Idle() && service.Remembers() && service.arrivals == Arrivals(happenings)
    ensures service.tx.Contents() == service.ptpPool.outstanding
    ensures |service.ptpPool.outstanding| < POOL_SIZE && |service.sent| == |service.wire|
    ensures forall k :: 0 <= k < |service.sent| ==> SentProperly(service.sent[k], service.wire[k])
  {
    hide SentProperly, Server.Idle, Server.Remembers, DbCache.Coherent, PossibleHappening;
    service := new Server(hmac, world, heap, db, infoSize);
    for i := 0 to |happenings|
      invariant service.Idle() && fresh(service) && fresh(service.udpPool) && fresh(service.ptpPool)
      invariant fresh(service.rx) && fresh(service.tx) && fresh(service.rx.buffer) && fresh(service.tx.buffer)
      invariant service.Remembers() && service.arrivals == Arrivals(happenings[..i])
    {
      assert happenings[..i + 1][..i] == happenings[..i];
      service.Happen(happenings[i]);
    }
    assert happenings[..|happenings|] == happenings;
    IdleQueues(service);
    AllSentProperly(service);
  }

  lemma IdleQueues(service: Server)
    requires service.Idle()
    ensures service.tx.Contents() == service.ptpPool.outstanding && |service.ptpPool.outstanding| < POOL_SIZE
  {
    hide Ring.ItemRing.Contents, Ready, SentAs, Server.WellFormed;
  }
}
