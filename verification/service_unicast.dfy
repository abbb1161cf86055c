/**
 * What a client decodes of the messages that a signaling request leads to: a Sync
 * or an Announce for each unicast request that is authorized, and a denial for each
 * that is not.
 */
module ServiceUnicast {
  import opened Bytes
  import opened Wrappers
  import opened PtpMessage
  import opened PtpWire
  import opened PtpSecurity
  import opened PtpAuthentication
  import opened PtpAcceptance
  import opened PtpOverrun
  import opened Environment
  import opened Responses
  import opened ReplyProperties
  import opened ResponseBuffers
  import opened Leftovers
  import opened ServiceProperties
  import opened ServiceReplies
  import PtpRoundTrip
  import DbCache

  // ---- The messages

  /** A Sync for the requester, with a reading of the clock between steps `from` and `to`. */
  ghost predicate IsSyncFor(world: World, request: Message, m: Message, from: nat, to: nat) {
    && request.payload.Signaling? && HasServiceHeader(m)
    && m.portId == request.payload.target && m.sequenceId == request.sequenceId
    && exists step: nat :: from <= step < to && m.payload == Event(Sync, world(step).now, PortId(0, 0))
  }

  /** `seconds` is a 64-bit offset in nanoseconds, as a signed number truncated to seconds and to 32 bits. */
  predicate IsSeconds(offset: u64, seconds: i32) {
    var whole := if offset < 0x8000_0000_0000_0000 then offset / 1_000_000_000
                 else -((0x1_0000_0000_0000_0000 - offset) / 1_000_000_000);
    (whole - seconds) % 0x1_0000_0000 == 0
  }

  /** An Announce for the requester, with the time and the offset of `row` between steps `from` and `to`. */
  ghost predicate IsAnnounceFor(world: World, row: DbCache.Row, request: Message, m: Message, from: nat, to: nat) {
    && request.payload.Signaling? && HasServiceHeader(m)
    && m.portId == request.payload.target && m.sequenceId == request.sequenceId
    && (exists step: nat ::
          && from <= step < to
          && m.payload == Announce((world(step).now + row.offset) % 0x1_0000_0000_0000_0000, 0, 0,
                                   ClockQuality(13, 0x25, 0), request.payload.target.clockId, 0, 0xa0))
    && m.tlvs != [] && m.tlvs[0].body.TimeOffset? && IsSeconds(row.offset, m.tlvs[0].body.currentOffset)
    && m.tlvs[0].body == TimeOffset(0, m.tlvs[0].body.currentOffset, 0, 0, [])
  }

  /** "Access denied", from nobody in particular to the requester. */
  predicate IsDenialFor(request: Message, m: Message, reason: nat) {
    && HasServiceHeader(m) && m.portId == PortId(0xffff_ffff_ffff_ffff, 0xffff)
    && m.sequenceId == request.sequenceId && m.payload == Management(request.portId, 0, 0, 0)
    && m.tlvs != [] && IsDenial(m.tlvs[0].body, reason) && reason in {1, 22, 61}
  }

  lemma SecondsOf(offset: u64)
    ensures IsSeconds(offset, OffsetSeconds(offset))
  {}

  lemma SyncDelivered(world: World, request: Message, step: nat, from: nat, to: nat)
    requires request.payload.Signaling? && from <= step < to
    ensures var m := SyncMessage(request.payload.target, request.sequenceId, world(step).now);
            IsSyncFor(world, request, PtpRoundTrip.Delivered(m), from, to)
  {}

  lemma AnnounceDelivered(world: World, row: DbCache.Row, request: Message, step: nat, from: nat, to: nat)
    requires request.payload.Signaling? && from <= step < to
    ensures var time := (world(step).now + row.offset) % TWO64;
            var m := AnnounceMessage(request.payload.target, request.sequenceId, time, row.offset);
            IsAnnounceFor(world, row, request, PtpRoundTrip.Delivered(m), from, to)
  {
    hide OffsetSeconds, IsSeconds, PtpRoundTrip.Delivered, AnnounceMessage, HasServiceHeader;
    SecondsOf(row.offset);
    AnnounceFields(request.payload.target, request.sequenceId, (world(step).now + row.offset) % TWO64, row.offset);
  }

  lemma AnnounceFields(portId: PortId, sequenceId: u16, time: u64, offset: u64)
    ensures var m := PtpRoundTrip.Delivered(AnnounceMessage(portId, sequenceId, time, offset));
            && HasServiceHeader(m) && m.portId == portId && m.sequenceId == sequenceId
            && m.payload == Announce(time, 0, 0, ClockQuality(13, 0x25, 0), portId.clockId, 0, 0xa0)
            && m.tlvs != [] && m.tlvs[0].body == TimeOffset(0, OffsetSeconds(offset), 0, 0, [])
  {
    hide OffsetSeconds;
  }

  lemma DenialDelivered(request: Message, code: int)
    requires code in {-1, -22, -61}
    ensures IsDenialFor(request, PtpRoundTrip.Delivered(DeniedMessage(request, code)), -code)
  {
    hide Display;
  }

  lemma SyncEncodes(portId: PortId, sequenceId: u16, now: u64)
    ensures MessageCells(SyncMessage(portId, sequenceId, now), BUFFER_SIZE).Ok?
  {
    hide MessageCells;
    EventEncodes(SyncMessage(portId, sequenceId, now));
  }

  lemma DenialEncodes(request: Message, code: int)
    ensures MessageCells(DeniedMessage(request, code), BUFFER_SIZE).Ok?
  {
    hide MessageCells, ManagementErrorId, Display, ErrorMessage;
    ErrorEncodes(request.portId, request.sequenceId, ManagementErrorId(code), 0, Display("Access denied"));
  }

  // ---- One request

  lemma LookupCodes(world: World, env: Env, port: PortId)
    requires Usable(env)
    ensures var entry := Fetch(world, env, port).0;
            entry.Missing? ==> entry.code in {-1, -22, -61}
  {
    hide DbCache.Hash, DbCache.ValidPort;
  }

  lemma AuthorizationCodes(
    hmac: Hmac, world: World, env: Env, data: seq<u8>, request: Message, i: nat, port: PortId)
    requires Usable(env) && AllCheckable(data, request) && i < |request.tlvs|
    ensures Authorize(hmac, world, env, data, request, i, port).0 in {0, -1, -22, -61}
  {
    hide Fetch, CheckIcv, Checkable;
    LookupCodes(world, env, port);
    CheckCodes(hmac, world, env, data, request, i, port);
  }

  lemma CheckCodes(hmac: Hmac, world: World, env: Env, data: seq<u8>, request: Message, i: nat, port: PortId)
    requires Usable(env) && AllCheckable(data, request) && i < |request.tlvs|
    ensures forall row: DbCache.Row, j: nat :: j < |request.tlvs| && request.tlvs[j].body.Authentication? ==>
              AcceptCode(hmac, row, data, request.tlvs[j].body, world(env.step).memory) in {0, -1, -22}
  {
    hide CheckPlain, CheckHmac128;
  }

  /**
   * A unicast request is served unless no buffer is left, or it is authorized and
   * asks for another type than Sync and Announce, or for the Announce of a port
   * that is not found.
   */
  lemma ServedIff(
    hmac: Hmac, world: World, env: Env, data: seq<u8>, request: Message, i: nat, room: nat)
    requires Usable(env) && AllCheckable(data, request) && AsksUnicast(request, i)
    ensures var (code, marked, checked) := Authorize(hmac, world, env, data, request, i, request.payload.target);
            var kind := request.tlvs[i].body.messageType;
            ServeUnicast(hmac, world, env, data, request, i, room).code == 0 <==>
            && room > 0
            && (code != 0 || kind == 0 || (kind == 0xb && Fetch(world, checked, request.payload.target).0.Found?))
  {
    hide Authorize, Fetch, ReadTime, Display, Checkable;
  }

  /** What the message of a served request is, in terms of the check's result. */
  ghost predicate IsServedBy(
    world: World, latest: map<PortId, DbCache.Row>, request: Message, kind: u32, code: int, m: Message, from: nat,
    to: nat)
  {
    && request.payload.Signaling?
    && if code != 0 then IsDenialFor(request, m, if code < 0 then -code else 0)
       else if kind == 0 then IsSyncFor(world, request, m, from, to)
       else
         && kind == 0xb && request.payload.target in latest
         && IsAnnounceFor(world, latest[request.payload.target], request, m, from, to)
  }

  lemma GrantedIsServed(world: World, env: Env, request: Message, kind: u32, room: nat)
    requires DbCache.Coherent(env.db) && request.payload.Signaling? && (kind == 0 || kind == 0xb)
    ensures Usable(env)
    ensures var (code, message, after) := ServeGranted(world, env, request, kind, room);
            && env.step <= after.step
            && (message.Some? ==>
                  MessageCells(message.value, BUFFER_SIZE).Ok? &&
                  IsServedBy(world, env.db.latest, request, kind, 0, PtpRoundTrip.Delivered(message.value), env.step,
                             after.step))
  {
    hide MessageCells, Fetch, DbCache.Coherent, IsSyncFor, IsAnnounceFor, PtpRoundTrip.Delivered, SyncMessage,
      AnnounceMessage, DbCache.ValidPort, DbCache.Hit;
    CoherentIsUsable(env);
    var target := request.payload.target;
    FetchFindsLatest(world, env, target);
    if kind == 0 {
      SyncDelivered(world, request, env.step, env.step, env.step + 1);
      SyncEncodes(target, request.sequenceId, world(env.step).now);
    } else if Fetch(world, env, target).0.Found? {
      FetchFindsAgain(world, env, target);
      var found := Fetch(world, env, target).1;
      TimeIsClockPlusOffset(world, found, target);
      AnnounceDelivered(world, env.db.latest[target], request, found.step + 1, env.step, found.step + 2);
      AnnounceEncodes(target, request.sequenceId, ReadTime(world, found, target).0, env.db.latest[target].offset);
    }
  }

  lemma ServedMessage(
    hmac: Hmac, world: World, env: Env, data: seq<u8>, request: Message, i: nat, room: nat)
    requires DbCache.Coherent(env.db) && AllCheckable(data, request) && AsksUnicast(request, i)
    ensures Usable(env)
    ensures var code := Authorize(hmac, world, env, data, request, i, request.payload.target).0;
            var s := ServeUnicast(hmac, world, env, data, request, i, room);
            && env.step <= s.env.step
            && (s.message.Some? ==>
                  MessageCells(s.message.value, BUFFER_SIZE).Ok? &&
                  IsServedBy(world, env.db.latest, request, request.tlvs[i].body.messageType, code,
                             PtpRoundTrip.Delivered(s.message.value), env.step, s.env.step))
  {
    hide Authorize, Fetch, DbCache.Coherent, Checkable, PtpRoundTrip.Delivered, IsDenialFor, IsSyncFor, IsAnnounceFor,
      ServeGranted, DeniedMessage, MessageCells;
    CoherentIsUsable(env);
    var target, kind := request.payload.target, request.tlvs[i].body.messageType;
    AuthorizationCodes(hmac, world, env, data, request, i, target);
    AuthorizationKeepsDb(hmac, world, env, data, request, i, target);
    var (code, marked, checked) := Authorize(hmac, world, env, data, request, i, target);
    if code != 0 {
      DenialDelivered(request, code);
      DenialEncodes(request, code);
    } else if kind == 0 || kind == 0xb {
      GrantedIsServed(world, checked, request, kind, room);
      EarlierServed(world, env.db.latest, request, kind, code, checked.step, env.step);
    }
  }

  lemma AuthorizationKeepsDb(
    hmac: Hmac, world: World, env: Env, data: seq<u8>, request: Message, i: nat, port: PortId)
    requires DbCache.Coherent(env.db) && AllCheckable(data, request) && i < |request.tlvs|
    ensures Usable(env)
    ensures var after := Authorize(hmac, world, env, data, request, i, port).2;
            DbCache.Coherent(after.db) && after.db.latest == env.db.latest && env.step <= after.step
  {
    hide Fetch, DbCache.Coherent, Authenticate, Checkable;
    CoherentIsUsable(env);
    FetchFindsLatest(world, env, port);
  }

  lemma EarlierServed(
    world: World, latest: map<PortId, DbCache.Row>, request: Message, kind: u32, code: int, middle: nat, from: nat)
    requires from <= middle
    ensures forall m: Message, to: nat ::
              IsServedBy(world, latest, request, kind, code, m, middle, to) ==>
                IsServedBy(world, latest, request, kind, code, m, from, to)
  {
    hide IsDenialFor, IsSeconds, HasServiceHeader;
  }

  // ---- All requests of a message

  predicate Cached(env: Env, port: PortId)
    requires Usable(env)
  {
    DbCache.ValidPort(port) && DbCache.Hit(env.db, port)
  }

  /**
   * Why TLV `i` is granted or denied between steps `from` and `to`: the next
   * authentication TLV is accepted in the meantime, or, if the target is cached,
   * it does not pass at some step and the code says why.
   */
  ghost predicate Verdict(
    hmac: Hmac, world: World, latest: map<PortId, DbCache.Row>, cached: bool, data: seq<u8>, request: Message, i: nat,
    code: int, from: nat, to: nat)
    requires AllCheckable(data, request) && request.payload.Signaling? && i < |request.tlvs|
  {
    var target := request.payload.target;
    if code == 0 then AcceptedFor(hmac, world, latest, target, data, request, i, from, to)
    else
      code < 0 &&
      (cached ==>
         && target in latest && IsReason(latest[target], request, i, -code)
         && exists step: nat ::
              from <= step < to && !PassesBehind(hmac, latest[target], data, request, i, world(step).memory))
  }

  lemma SameVerdict(
    row: DbCache.Row, hmac: Hmac, data: seq<u8>, before: Message, after: Message, i: nat, scratch: seq<u8>)
    requires Remarked(before, after) && AllCheckable(data, before)
    ensures AllCheckable(data, after)
    ensures PassesBehind(hmac, row, data, after, i, scratch) == PassesBehind(hmac, row, data, before, i, scratch)
    ensures forall reason: nat :: IsReason(row, after, i, reason) == IsReason(row, before, i, reason)
  {
    hide Passes, Checkable;
    forall j: nat
      ensures IsNext(after.tlvs, i, j) == IsNext(before.tlvs, i, j)
    {
    }
  }

  lemma CodeHasVerdict(
    hmac: Hmac, world: World, env: Env, data: seq<u8>, original: Message, request: Message, i: nat, cached: bool,
    from: nat)
    requires DbCache.Coherent(env.db) && AllCheckable(data, original) && Remarked(original, request)
    requires AllCheckable(data, request) && AsksUnicast(request, i) && from <= env.step
    requires Justified(hmac, world, env.db.latest, request.payload.target, data, request, i, from, env.step)
    requires Usable(env) && (cached ==> Cached(env, request.payload.target))
    ensures var (code, _, after) := Authorize(hmac, world, env, data, request, i, request.payload.target);
            && Verdict(hmac, world, env.db.latest, cached, data, original, i, code, from, after.step)
            && (cached ==> Cached(after, request.payload.target))
  {
    hide Fetch, DbCache.Coherent, Checkable, Justified, AcceptedFor, Authenticate, PassesBehind, IsReason,
      DbCache.ValidPort, DbCache.Hit;
    var target, latest := request.payload.target, env.db.latest;
    AuthorizedIsAccepted(hmac, world, env, data, request, i, target, from);
    AuthorizationCodes(hmac, world, env, data, request, i, target);
    var (code, _, after) := Authorize(hmac, world, env, data, request, i, target);
    AcceptedOf(hmac, world, latest, target, data, original, request, i, from, after.step);
    if cached { HitStays(world, env, target); }
    if code != 0 && cached {
      AuthorizationIs(hmac, world, env, data, request, i, target);
      SameVerdict(latest[target], hmac, data, original, request, i, world(env.step).memory);
    }
  }

  /** A client is told what became of TLV `i`. */
  ghost predicate IsTold(
    hmac: Hmac, world: World, latest: map<PortId, DbCache.Row>, cached: bool, data: seq<u8>, request: Message, i: nat,
    m: Message, from: nat, to: nat)
    requires AllCheckable(data, request) && AsksUnicast(request, i)
  {
    exists code: int ::
      && Verdict(hmac, world, latest, cached, data, request, i, code, from, to)
      && IsServedBy(world, latest, request, request.tlvs[i].body.messageType, code, m, from, to)
  }

  lemma SameService(
    world: World, latest: map<PortId, DbCache.Row>, before: Message, after: Message, kind: u32, code: int)
    requires Remarked(before, after)
    ensures forall m: Message, from: nat, to: nat ::
              IsServedBy(world, latest, after, kind, code, m, from, to)
              == IsServedBy(world, latest, before, kind, code, m, from, to)
  {
    hide HasServiceHeader, IsSeconds;
  }

  lemma VerdictLater(
    hmac: Hmac, world: World, latest: map<PortId, DbCache.Row>, cached: bool, data: seq<u8>, request: Message, i: nat,
    code: int, from: nat, middle: nat, to: nat)
    requires AllCheckable(data, request) && request.payload.Signaling? && i < |request.tlvs| && middle <= to
    requires Verdict(hmac, world, latest, cached, data, request, i, code, from, middle)
    ensures Verdict(hmac, world, latest, cached, data, request, i, code, from, to)
  {
    hide AcceptedFor, PassesBehind, IsReason, Checkable;
    if code == 0 {
      AcceptedLater(hmac, world, latest, request.payload.target, data, request, i, from, middle, to);
    }
  }

  lemma ServingStaysCached(world: World, env: Env, request: Message, code: int, kind: u32, room: nat)
    requires DbCache.Coherent(env.db) && request.payload.Signaling? && Usable(env)
    requires Cached(env, request.payload.target)
    ensures var after := ServeChecked(world, env, request, code, kind, room).3;
            Cached(after, request.payload.target)
  {
    hide Fetch, DbCache.Coherent, DbCache.ValidPort, DbCache.Hit, Display;
    var target := request.payload.target;
    HitStays(world, env, target);
    HitStays(world, Fetch(world, env, target).1, target);
  }

  /** One more TLV is served: its message, and why. */
  lemma OneIsTold(
    hmac: Hmac, world: World, env: Env, data: seq<u8>, original: Message, request: Message, i: nat, room: nat,
    cached: bool, from: nat)
    requires DbCache.Coherent(env.db) && AllCheckable(data, original) && Remarked(original, request)
    requires AllCheckable(data, request) && AsksUnicast(request, i) && from <= env.step
    requires Justified(hmac, world, env.db.latest, request.payload.target, data, request, i, from, env.step)
    requires Usable(env) && (cached ==> Cached(env, request.payload.target))
    ensures var s := ServeUnicast(hmac, world, env, data, request, i, room);
            && env.step <= s.env.step && (cached ==> Cached(s.env, request.payload.target))
            && (s.message.Some? ==>
                  && MessageCells(s.message.value, BUFFER_SIZE).Ok?
                  && IsTold(hmac, world, env.db.latest, cached, data, original, i,
                            PtpRoundTrip.Delivered(s.message.value), from, s.env.step))
  {
    hide Authorize, ServeChecked, DbCache.Coherent, Checkable, Justified, Verdict, IsServedBy, PtpRoundTrip.Delivered,
      Cached, MessageCells;
    var target, kind := request.payload.target, request.tlvs[i].body.messageType;
    CodeHasVerdict(hmac, world, env, data, original, request, i, cached, from);
    AuthorizationKeepsDb(hmac, world, env, data, request, i, target);
    ServedMessage(hmac, world, env, data, request, i, room);
    var (code, _, checked) := Authorize(hmac, world, env, data, request, i, target);
    ServingStepsOn(world, checked, request, code, kind, room);
    if cached { ServingStaysCached(world, checked, request, code, kind, room); }
    var s := ServeUnicast(hmac, world, env, data, request, i, room);
    VerdictLater(hmac, world, env.db.latest, cached, data, original, i, code, from, checked.step, s.env.step);
    EarlierServed(world, env.db.latest, request, kind, code, env.step, from);
    SameService(world, env.db.latest, original, request, kind, code);
  }

  predicate Unmarked(request: Message) {
    forall i :: 0 <= i < |request.tlvs| ==> !request.tlvs[i].authenticated
  }

  /** Messages stay, time goes on, and the target stays cached while more TLVs are served. */
  lemma {:induction false} ServingGoesOn(
    hmac: Hmac, world: World, env: Env, data: seq<u8>, request: Message, i: nat, n: nat, room: nat)
    requires DbCache.Coherent(env.db) && AllCheckable(data, request) && request.payload.Signaling?
    requires i <= n <= |request.tlvs| && Unmarked(request)
    ensures Usable(env)
    ensures var s, t := ServeTlvs(hmac, world, env, data, request, i, room),
                        ServeTlvs(hmac, world, env, data, request, n, room);
            && s.messages <= t.messages && s.env.step <= t.env.step
            && (Cached(s.env, request.payload.target) ==> Cached(t.env, request.payload.target))
    decreases n
  {
    hide *;
    CoherentIsUsable(env);
    if i == n { return; }
    ServingGoesOn(hmac, world, env, data, request, i, n - 1, room);
    var b := ServeTlvs(hmac, world, env, data, request, n - 1, room);
    if b.code == 0 && AsksUnicast(request, n - 1) {
      ServesNext(hmac, world, env, data, request, n - 1, room);
      IsSound(hmac, world, env, data, request, n - 1, room);
      OneIsTold(hmac, world, b.env, data, request, b.request, n - 1, room - |b.messages|,
                Cached(b.env, b.request.payload.target), env.step);
    } else {
      SkipsNext(hmac, world, env, data, request, n - 1, room);
    }
  }

  /** What is known before TLV `i` is served. */
  lemma IsSound(hmac: Hmac, world: World, env: Env, data: seq<u8>, request: Message, i: nat, room: nat)
    requires DbCache.Coherent(env.db) && AllCheckable(data, request) && request.payload.Signaling?
    requires i < |request.tlvs| && Unmarked(request)
    ensures Usable(env)
    ensures var b := ServeTlvs(hmac, world, env, data, request, i, room);
            && DbCache.Coherent(b.env.db) && b.env.db.latest == env.db.latest && env.step <= b.env.step
            && Remarked(request, b.request) && AllCheckable(data, b.request)
            && b.request.payload == request.payload
            && (AsksUnicast(request, i) ==> AsksUnicast(b.request, i))
            && Justified(hmac, world, env.db.latest, request.payload.target, data, b.request, i, env.step, b.env.step)
  {
    hide ServeTlvs, Justified, Checkable, DbCache.Coherent, Entitlements;
    GrantsAreAuthorized(hmac, world, env, data, request, i, room);
  }

  /** The message for TLV `i`, as long as nothing has failed up to it. */
  lemma UnicastIsTold(hmac: Hmac, world: World, env: Env, data: seq<u8>, request: Message, i: nat, room: nat)
    returns (m: Message)
    requires DbCache.Coherent(env.db) && AllCheckable(data, request) && AsksUnicast(request, i) && Unmarked(request)
    requires Usable(env) && ServeTlvs(hmac, world, env, data, request, i + 1, room).code == 0
    ensures var s := ServeTlvs(hmac, world, env, data, request, |request.tlvs|, room);
            && UnicastRequests(request.tlvs[..i]) < |s.messages| && m == s.messages[UnicastRequests(request.tlvs[..i])]
            && MessageCells(m, BUFFER_SIZE).Ok?
            && IsTold(hmac, world, env.db.latest, Cached(env, request.payload.target), data, request, i,
                      PtpRoundTrip.Delivered(m), env.step, s.env.step)
  {
    hide *;
    AsksIs(request, i);
    var target := request.payload.target;
    var b := ServeTlvs(hmac, world, env, data, request, i, room);
    if b.code != 0 { SkipsNext(hmac, world, env, data, request, i, room); }
    NothingServedYet(hmac, world, env, data, request, room);
    ServingGoesOn(hmac, world, env, data, request, 0, i, room);
    ServesNext(hmac, world, env, data, request, i, room);
    IsSound(hmac, world, env, data, request, i, room);
    OneIsTold(hmac, world, b.env, data, request, b.request, i, room - |b.messages|, Cached(env, target), env.step);
    var one := ServeUnicast(hmac, world, b.env, data, b.request, i, room - |b.messages|);
    MessagesOf(one.message);
    m := one.message.value;
    ServingGoesOn(hmac, world, env, data, request, i + 1, |request.tlvs|, room);
    var s := ServeTlvs(hmac, world, env, data, request, |request.tlvs|, room);
    assert m == (b.messages + [m])[|b.messages|];
    ToldLater(hmac, world, env.db.latest, Cached(env, target), data, request, i, PtpRoundTrip.Delivered(m), env.step,
              one.env.step, s.env.step);
  }

  lemma AsksIs(request: Message, i: nat)
    requires AsksUnicast(request, i)
    ensures request.payload.Signaling? && i < |request.tlvs|
  {}

  lemma MessagesOf(message: Option<Message>)
    ensures message.Some? ==> Messages(message) == [message.value]
  {}

  lemma ToldLater(
    hmac: Hmac, world: World, latest: map<PortId, DbCache.Row>, cached: bool, data: seq<u8>, request: Message, i: nat,
    m: Message, from: nat, middle: nat, to: nat)
    requires AllCheckable(data, request) && AsksUnicast(request, i) && middle <= to
    requires IsTold(hmac, world, latest, cached, data, request, i, m, from, middle)
    ensures IsTold(hmac, world, latest, cached, data, request, i, m, from, to)
  {
    hide Verdict, Checkable, IsSeconds, HasServiceHeader, IsDenialFor;
    var kind := request.tlvs[i].body.messageType;
    var code: int :|
      && Verdict(hmac, world, latest, cached, data, request, i, code, from, middle)
      && IsServedBy(world, latest, request, kind, code, m, from, middle);
    VerdictLater(hmac, world, latest, cached, data, request, i, code, from, middle, to);
    assert IsServedBy(world, latest, request, kind, code, m, from, to);
  }

  /** What serves the TLVs of a signaling request, right after its arrival. */
  function ServesAt(
    hmac: Hmac, world: World, env: Env, left: Leftover, received: seq<u8>, n: nat, room: nat): (s: Serving)
    requires Usable(env) && |received| <= BUFFER_SIZE && room > 0
    requires DecodedAt(world, env, left, PORT_EVENT, received).Ok?
    requires var request := DecodedAt(world, env, left, PORT_EVENT, received).value;
             request.payload.Signaling? && n <= |request.tlvs|
  {
    ServeTlvs(hmac, world, env.(step := env.step + 1), ReceiveBuffer(received, world(env.step).memory),
              DecodedAt(world, env, left, PORT_EVENT, received).value, n, room - 1)
  }

  /**
   * Unless a failure has ended the request before, a client decodes a message for
   * each REQUEST_UNICAST TLV: the Sync or the Announce that was asked for if the
   * TLV is authorized, a denial with the reason if not.
   */
  lemma UnicastRequestIsTold(
    hmac: Hmac, world: World, env: Env, left: Leftover, received: seq<u8>, room: nat, before: seq<nat>,
    queue: seq<nat>, infos: map<nat, Info>, meant: map<nat, Message>, i: nat)
    returns (m: Message)
    requires DbCache.Coherent(env.db) && Usable(env) && |received| <= BUFFER_SIZE && room > 0
    requires DecodedAt(world, env, left, PORT_EVENT, received).Ok?
    requires AsksUnicast(DecodedAt(world, env, left, PORT_EVENT, received).value, i)
    requires ServesAt(hmac, world, env, left, received, i + 1, room).code == 0
    requires Queued(hmac, env.db.latest, before, queue, infos, meant,
                    Reception(hmac, world, env, left, PORT_EVENT, Some(received), room).responses)
    ensures var request := DecodedAt(world, env, left, PORT_EVENT, received).value;
            var at := |before| + 1 + UnicastRequests(request.tlvs[..i]);
            && at < |queue| && queue[at] in infos && Tells(infos[queue[at]], m)
            && IsTold(hmac, world, env.db.latest, Cached(env, request.payload.target),
                      ReceiveBuffer(received, world(env.step).memory), request, i, m, env.step + 1,
                      Reception(hmac, world, env, left, PORT_EVENT, Some(received), room).env.step)
  {
    hide DbCache.Coherent, Queued, Reception, DecodedAt, ReceiveBuffer, Tells, PtpRoundTrip.Delivered, ServeTlvs,
      MessageCells, Respond, AfterDecoding, AllCheckable, IsTold, UnicastRequests;
    var arrived, data := env.(step := env.step + 1), ReceiveBuffer(received, world(env.step).memory);
    var request := DecodedAt(world, env, left, PORT_EVENT, received).value;
    SameDbIsCoherent(env, arrived);
    ReceptionIs(hmac, world, env, left, PORT_EVENT, received, room);
    SignalingLeadsTo(hmac, world, arrived, data, world(env.step).now, request, AfterDecoding(left, received), room);
    var meantFor := UnicastIsTold(hmac, world, arrived, data, request, i, room - 1);
    ResponseIsTold(hmac, env.db.latest, before, queue, infos, meant,
                   Reception(hmac, world, env, left, PORT_EVENT, Some(received), room).responses,
                   1 + UnicastRequests(request.tlvs[..i]));
    m := PtpRoundTrip.Delivered(meantFor);
  }

  /** Nothing but Syncs is asked for, and Announces of a cached port. */
  predicate AsksForKnown(env: Env, request: Message, n: nat)
    requires Usable(env)
  {
    forall i :: 0 <= i < n && AsksUnicast(request, i) ==>
      var kind := request.tlvs[i].body.messageType;
      kind == 0 || (kind == 0xb && Cached(env, request.payload.target))
  }

  /** Such requests do not fail as long as there is a buffer for each message. */
  lemma {:induction false} KnownIsServed(
    hmac: Hmac, world: World, env: Env, data: seq<u8>, request: Message, n: nat, room: nat)
    requires DbCache.Coherent(env.db) && AllCheckable(data, request) && request.payload.Signaling? && Unmarked(request)
    requires Usable(env) && n <= |request.tlvs| && AsksForKnown(env, request, n)
    requires UnicastRequests(request.tlvs[..n]) <= room
    ensures ServeTlvs(hmac, world, env, data, request, n, room).code == 0
    decreases n
  {
    hide *;
    NothingServedYet(hmac, world, env, data, request, room);
    if n == 0 { return; }
    OneRequestLess(env, request, n);
    KnownIsServed(hmac, world, env, data, request, n - 1, room);
    if AsksUnicast(request, n - 1) {
      ServesNext(hmac, world, env, data, request, n - 1, room);
      IsSound(hmac, world, env, data, request, n - 1, room);
      ServingGoesOn(hmac, world, env, data, request, 0, n - 1, room);
      var b := ServeTlvs(hmac, world, env, data, request, n - 1, room);
      SameKind(request, b.request, n - 1);
      KnownOneIsServed(hmac, world, b.env, data, request, b.request, n - 1, room - |b.messages|, env.step);
    } else {
      SkipsNext(hmac, world, env, data, request, n - 1, room);
    }
  }

  lemma OneRequestLess(env: Env, request: Message, n: nat)
    requires Usable(env) && 0 < n <= |request.tlvs| && request.payload.Signaling? && AsksForKnown(env, request, n)
    ensures AsksForKnown(env, request, n - 1)
    ensures UnicastRequests(request.tlvs[..n])
         == UnicastRequests(request.tlvs[..n - 1]) + if AsksUnicast(request, n - 1) then 1 else 0
    ensures AsksUnicast(request, n - 1) ==>
              var kind := request.tlvs[n - 1].body.messageType;
              kind == 0 || (kind == 0xb && Cached(env, request.payload.target))
  {
    hide Cached;
    assert request.tlvs[..n][..n - 1] == request.tlvs[..n - 1];
  }

  lemma SameKind(before: Message, after: Message, i: nat)
    requires Remarked(before, after) && i < |before.tlvs|
    ensures after.tlvs[i].body == before.tlvs[i].body
  {}

  lemma KnownOneIsServed(
    hmac: Hmac, world: World, env: Env, data: seq<u8>, original: Message, request: Message, i: nat, room: nat,
    from: nat)
    requires DbCache.Coherent(env.db) && AllCheckable(data, original) && Remarked(original, request)
    requires AllCheckable(data, request) && AsksUnicast(request, i) && from <= env.step && room > 0
    requires Justified(hmac, world, env.db.latest, request.payload.target, data, request, i, from, env.step)
    requires Usable(env)
    requires var kind := request.tlvs[i].body.messageType;
             kind == 0 || (kind == 0xb && Cached(env, request.payload.target))
    ensures ServeUnicast(hmac, world, env, data, request, i, room).code == 0
  {
    hide ServeUnicast, DbCache.Coherent, Checkable, Justified, Authorize, Fetch, DbCache.ValidPort, DbCache.Hit,
      Verdict;
    var target := request.payload.target;
    ServedIff(hmac, world, env, data, request, i, room);
    if request.tlvs[i].body.messageType == 0xb {
      CodeHasVerdict(hmac, world, env, data, original, request, i, true, from);
      AuthorizationKeepsDb(hmac, world, env, data, request, i, target);
      HitStays(world, Authorize(hmac, world, env, data, request, i, target).2, target);
    }
  }

  // ---- The signaling response

  /** The messages that are no denials. */
  function Granted(messages: seq<Message>): (n: nat)
    ensures n <= |messages|
  {
    if messages == [] then 0
    else Granted(messages[..|messages| - 1]) + if messages[|messages| - 1].payload.Management? then 0 else 1
  }

  lemma OneIsGranted(
    hmac: Hmac, world: World, env: Env, data: seq<u8>, request: Message, i: nat, room: nat)
    requires Usable(env) && AllCheckable(data, request) && AsksUnicast(request, i)
    ensures var s := ServeUnicast(hmac, world, env, data, request, i, room);
            s.message.Some? ==> (s.granted <==> !s.message.value.payload.Management?)
  {
    hide Authorize, Fetch, ReadTime, Display, Checkable;
  }

  /** There is a grant for each message that is no denial. */
  lemma {:induction false} GrantsAreMessages(
    hmac: Hmac, world: World, env: Env, data: seq<u8>, request: Message, n: nat, room: nat)
    requires Usable(env) && AllCheckable(data, request) && request.payload.Signaling? && n <= |request.tlvs|
    requires ServeTlvs(hmac, world, env, data, request, n, room).code == 0
    ensures var s := ServeTlvs(hmac, world, env, data, request, n, room);
            s.grants == Granted(s.messages)
    decreases n
  {
    hide *;
    NothingServedYet(hmac, world, env, data, request, room);
    NoneGranted();
    if n == 0 { return; }
    var b := ServeTlvs(hmac, world, env, data, request, n - 1, room);
    if b.code != 0 || !AsksUnicast(request, n - 1) {
      SkipsNext(hmac, world, env, data, request, n - 1, room);
      GrantsAreMessages(hmac, world, env, data, request, n - 1, room);
    } else {
      ServesNext(hmac, world, env, data, request, n - 1, room);
      GrantsAreMessages(hmac, world, env, data, request, n - 1, room);
      OneIsGranted(hmac, world, b.env, data, b.request, n - 1, room - |b.messages|);
      var one := ServeUnicast(hmac, world, b.env, data, b.request, n - 1, room - |b.messages|);
      MessagesOf(one.message);
      OneMoreGranted(b.messages, one.message.value);
    }
  }

  lemma NoneGranted()
    ensures Granted([]) == 0
  {}

  lemma OneMoreGranted(messages: seq<Message>, m: Message)
    ensures Granted(messages + [m]) == Granted(messages) + if m.payload.Management? then 0 else 1
  {
    assert (messages + [m])[..|messages|] == messages;
  }

  /** The signaling response as a client decodes it: `n` grants without a message type, and a pad. */
  predicate IsGrants(request: Message, m: Message, n: nat)
    requires request.payload.Signaling?
  {
    && HasServiceHeader(m) && m.portId == request.payload.target && m.sequenceId == request.sequenceId
    && m.payload == Signaling(request.portId) && |m.tlvs| == n + (if n < 20 then 1 else 0)
    && (forall k :: 0 <= k < n ==> m.tlvs[k] == Tlv(false, GrantUnicast(0, 0, 0, 0)))
    && (n < 20 ==> m.tlvs[n].body.Pad?)
  }

  lemma GrantTravels(at: nat)
    ensures PtpRoundTrip.WireBody(GRANT, at) == GrantUnicast(0, 0, 0, 0)
  {}

  lemma GrantsDelivered(request: Message, n: nat)
    requires request.payload.Signaling? && n <= 20
    ensures IsGrants(request, PtpRoundTrip.Delivered(GrantMessage(request, n)), n)
  {
    hide PtpRoundTrip.WireBody, PtpRoundTrip.Delivered;
    var m := GrantMessage(request, n);
    SignalingHeader(m);
    DeliveredPad(m);
    forall k: nat | k < n
      ensures PtpRoundTrip.Delivered(m).tlvs[k] == Tlv(false, GrantUnicast(0, 0, 0, 0))
    {
      var at := DeliveredTlv(m, k);
      GrantTravels(at);
    }
  }

  lemma SignalingHeader(m: Message)
    requires m.payload.Signaling?
    ensures var d := PtpRoundTrip.Delivered(m);
            && d.portId == m.portId && d.sequenceId == m.sequenceId && d.payload == m.payload
            && (HasServiceHeader(m) ==> HasServiceHeader(d))
  {}

  /**
   * A signaling request in which nothing fails: the client decodes one grant for
   * each message behind the response that is no denial.
   */
  lemma GrantsAreTold(
    hmac: Hmac, world: World, env: Env, left: Leftover, received: seq<u8>, room: nat, before: seq<nat>,
    queue: seq<nat>, infos: map<nat, Info>, meant: map<nat, Message>)
    returns (m: Message, messages: seq<Message>)
    requires DbCache.Coherent(env.db) && Usable(env) && |received| <= BUFFER_SIZE && room > 0
    requires DecodedAt(world, env, left, PORT_EVENT, received).Ok?
    requires DecodedAt(world, env, left, PORT_EVENT, received).value.payload.Signaling?
    requires ServesAt(hmac, world, env, left, received,
                      |DecodedAt(world, env, left, PORT_EVENT, received).value.tlvs|, room).code == 0
    requires Queued(hmac, env.db.latest, before, queue, infos, meant,
                    Reception(hmac, world, env, left, PORT_EVENT, Some(received), room).responses)
    ensures |before| < |queue| && queue[|before|] in infos && Tells(infos[queue[|before|]], m)
    ensures Reception(hmac, world, env, left, PORT_EVENT, Some(received), room).responses[1..] == Finals(messages)
    ensures IsGrants(DecodedAt(world, env, left, PORT_EVENT, received).value, m, Granted(messages))
  {
    hide DbCache.Coherent, Queued, Reception, DecodedAt, ReceiveBuffer, Tells, PtpRoundTrip.Delivered, ServeTlvs,
      MessageCells, Respond, AfterDecoding, AllCheckable, IsGrants, GrantMessage;
    var arrived, data := env.(step := env.step + 1), ReceiveBuffer(received, world(env.step).memory);
    var request := DecodedAt(world, env, left, PORT_EVENT, received).value;
    SameDbIsCoherent(env, arrived);
    ReceptionIs(hmac, world, env, left, PORT_EVENT, received, room);
    var s := ServeTlvs(hmac, world, arrived, data, request, |request.tlvs|, room - 1);
    SignalingSucceeds(hmac, world, arrived, data, world(env.step).now, request, AfterDecoding(left, received), room);
    GrantsAreMessages(hmac, world, arrived, data, request, |request.tlvs|, room - 1);
    GrantsEncode(request, s.grants);
    GrantsDelivered(request, s.grants);
    ResponseIsTold(hmac, env.db.latest, before, queue, infos, meant,
                   Reception(hmac, world, env, left, PORT_EVENT, Some(received), room).responses, 0);
    m, messages := PtpRoundTrip.Delivered(GrantMessage(request, s.grants)), s.messages;
  }

  lemma SignalingSucceeds(
    hmac: Hmac, world: World, env: Env, data: seq<u8>, arrival: u64, request: Message, left: Leftover, room: nat)
    requires Usable(env) && AllCheckable(data, request) && request.payload.Signaling? && room > 0
    requires ServeTlvs(hmac, world, env, data, request, |request.tlvs|, room - 1).code == 0
    ensures var s := ServeTlvs(hmac, world, env, data, request, |request.tlvs|, room - 1);
            Respond(hmac, world, env, data, PORT_EVENT, arrival, Ok(request), left, room).responses
            == [Final(GrantMessage(request, s.grants))] + Finals(s.messages)
  {
    hide ServeTlvs, GrantMessage, GeneralError, AllCheckable, Finals;
  }
}
