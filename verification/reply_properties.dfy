/** What the responses promise: authorization, times, sizes, and what happens when one does not fit. */
module ReplyProperties {
  import opened Bytes
  import opened PtpMessage
  import opened PtpWire
  import opened PtpSecurity
  import opened PtpAuthentication
  import opened PtpAcceptance
  import opened PtpOverrun
  import opened Environment
  import opened Responses
  import opened Wrappers
  import opened Leftovers
  import DbCache
  import PtpRoundTrip

  // ---- One more TLV

  lemma AnswersNext(hmac: Hmac, world: World, env: Env, data: seq<u8>, request: Message, i: nat)
    requires Usable(env) && AllCheckable(data, request) && request.payload.Management? && i < |request.tlvs|
    ensures var (answers, marked, before) := AnswerTlvs(hmac, world, env, data, request, i);
            && AllCheckable(data, marked)
            && AnswerTlvs(hmac, world, env, data, request, i + 1)
               == if !IsQuestion(marked, i) then (answers, marked, before)
                  else
                    var (body, after, left) := AnswerTlv(hmac, world, before, data, marked, i);
                    (answers + [Tlv(false, body)], after, left)
  {
    hide AnswerTlv, Checkable;
  }

  lemma ServesNext(hmac: Hmac, world: World, env: Env, data: seq<u8>, request: Message, i: nat, room: nat)
    requires Usable(env) && AllCheckable(data, request) && request.payload.Signaling? && i < |request.tlvs|
    requires ServeTlvs(hmac, world, env, data, request, i, room).code == 0 && AsksUnicast(request, i)
    ensures var s := ServeTlvs(hmac, world, env, data, request, i, room);
            AllCheckable(data, s.request) && AsksUnicast(s.request, i) &&
            var one := ServeUnicast(hmac, world, s.env, data, s.request, i, room - |s.messages|);
            ServeTlvs(hmac, world, env, data, request, i + 1, room)
            == Serving(one.code, s.grants + (if one.granted then 1 else 0), s.messages + Messages(one.message),
                       one.request, one.env)
  {
    hide ServeUnicast, Checkable;
  }

  lemma SkipsNext(hmac: Hmac, world: World, env: Env, data: seq<u8>, request: Message, i: nat, room: nat)
    requires Usable(env) && AllCheckable(data, request) && request.payload.Signaling? && i < |request.tlvs|
    requires ServeTlvs(hmac, world, env, data, request, i, room).code != 0 || !AsksUnicast(request, i)
    ensures ServeTlvs(hmac, world, env, data, request, i + 1, room)
            == ServeTlvs(hmac, world, env, data, request, i, room)
  {
    hide ServeUnicast, Checkable;
  }

  lemma {:induction false} FailedStays(
    hmac: Hmac, world: World, env: Env, data: seq<u8>, request: Message, i: nat, n: nat, room: nat)
    requires Usable(env) && AllCheckable(data, request) && request.payload.Signaling? && i <= n <= |request.tlvs|
    requires ServeTlvs(hmac, world, env, data, request, i, room).code != 0
    ensures ServeTlvs(hmac, world, env, data, request, n, room) == ServeTlvs(hmac, world, env, data, request, i, room)
    decreases n
  {
    hide *;
    if i < n {
      FailedStays(hmac, world, env, data, request, i, n - 1, room);
      SkipsNext(hmac, world, env, data, request, n - 1, room);
    }
  }

  // ---- Authorization

  /** The next authentication TLV behind TLV `i` is accepted with `row` at some step between `from` and `to`. */
  ghost predicate AcceptedBehind(
    hmac: Hmac, world: World, row: DbCache.Row, data: seq<u8>, request: Message, i: nat, from: nat, to: nat)
    requires AllCheckable(data, request) && i < |request.tlvs|
  {
    var j := NextAuthentication(request.tlvs, i + 1);
    && j < |request.tlvs|
    && exists step: nat ::
         from <= step < to && Passes(hmac, row, data, request.tlvs[j].body, world(step).memory)
  }

  ghost predicate AcceptedFor(
    hmac: Hmac, world: World, latest: map<PortId, DbCache.Row>, port: PortId, data: seq<u8>, request: Message, i: nat,
      from: nat, to: nat)
    requires AllCheckable(data, request) && i < |request.tlvs|
  {
    port in latest && AcceptedBehind(hmac, world, latest[port], data, request, i, from, to)
  }

  /** Whatever is marked from TLV `n` on, except for authentication TLVs, has been accepted. */
  ghost predicate Justified(
    hmac: Hmac, world: World, latest: map<PortId, DbCache.Row>, port: PortId, data: seq<u8>, request: Message, n: nat,
      from: nat, to: nat)
    requires AllCheckable(data, request)
  {
    forall k :: n <= k < |request.tlvs| && request.tlvs[k].authenticated && !request.tlvs[k].body.Authentication? ==>
      AcceptedFor(hmac, world, latest, port, data, request, k, from, to)
  }

  lemma {:induction false} NextAuthenticationStays(tlvs: seq<Tlv>, i: nat, k: nat)
    requires i <= |tlvs| && i <= k <= NextAuthentication(tlvs, i)
    ensures NextAuthentication(tlvs, k) == NextAuthentication(tlvs, i)
    decreases k - i
  {
    if i < k { NextAuthenticationStays(tlvs, i + 1, k); }
  }

  lemma {:induction false} NextAuthenticationOf(before: Message, after: Message, i: nat)
    requires Remarked(before, after) && i <= |before.tlvs|
    ensures NextAuthentication(after.tlvs, i) == NextAuthentication(before.tlvs, i)
    decreases |before.tlvs| - i
  {
    if i < |before.tlvs| { NextAuthenticationOf(before, after, i + 1); }
  }

  lemma AcceptedOf(
    hmac: Hmac, world: World, latest: map<PortId, DbCache.Row>, port: PortId, data: seq<u8>,
    before: Message, after: Message, i: nat, from: nat, to: nat)
    requires Remarked(before, after) && AllCheckable(data, before) && i < |before.tlvs|
    ensures AllCheckable(data, after)
    ensures AcceptedFor(hmac, world, latest, port, data, after, i, from, to)
            == AcceptedFor(hmac, world, latest, port, data, before, i, from, to)
  {
    hide Passes;
    NextAuthenticationOf(before, after, i + 1);
  }

  lemma JustifiedLater(
    hmac: Hmac, world: World, latest: map<PortId, DbCache.Row>, port: PortId, data: seq<u8>, request: Message, n: nat,
    from: nat, middle: nat, to: nat)
    requires AllCheckable(data, request) && middle <= to
    requires Justified(hmac, world, latest, port, data, request, n, from, middle)
    ensures Justified(hmac, world, latest, port, data, request, n, from, to)
  {
    hide Passes, NextAuthentication, Checkable;
  }

  /** Authentication succeeds only for TLVs whose next authentication TLV the port's row accepts. */
  lemma AuthorizedIsAccepted(
    hmac: Hmac, world: World, env: Env, data: seq<u8>, request: Message, i: nat, port: PortId, from: nat)
    requires DbCache.Coherent(env.db) && AllCheckable(data, request) && from <= env.step
    requires i < |request.tlvs| && !request.tlvs[i].body.Authentication?
    requires Justified(hmac, world, env.db.latest, port, data, request, i, from, env.step)
    ensures var (code, marked, after) := Authorize(hmac, world, env, data, request, i, port);
            && AllCheckable(data, marked) && env.step <= after.step
            && (code == 0 ==> AcceptedFor(hmac, world, env.db.latest, port, data, request, i, from, after.step))
            && Justified(hmac, world, env.db.latest, port, data, marked, i, from, after.step)
            && DbCache.Coherent(after.db) && after.db.latest == env.db.latest
  {
    hide AcceptCode, Passes, Fetch, DbCache.Coherent, Checkable, Justified, AcceptedFor, Remarked, MarkFirst;
    CoherentIsUsable(env);
    FetchFindsLatest(world, env, port);
    RemarkedIsCheckable(data, request, Authorize(hmac, world, env, data, request, i, port).1);
    if request.tlvs[i].authenticated {
      MarkedIsAccepted(hmac, world, env.db.latest, port, data, request, i, from, env.step);
      return;
    }
    JustifiedLater(hmac, world, env.db.latest, port, data, request, i, from, env.step, env.step + 1);
    var entry := Fetch(world, env, port).0;
    var j := NextAuthentication(request.tlvs, i + 1);
    if entry.Found? && j < |request.tlvs| {
      AcceptsIff(hmac, entry.row, data, request.tlvs[j].body, world(env.step).memory);
      if AcceptCode(hmac, entry.row, data, request.tlvs[j].body, world(env.step).memory) == 0 {
        AcceptanceJustifies(hmac, world, env.db.latest, port, data, request, i, env.step, from, env.step + 1);
      }
    }
  }

  lemma RemarkedIsCheckable(data: seq<u8>, before: Message, after: Message)
    requires Remarked(before, after) && AllCheckable(data, before)
    ensures AllCheckable(data, after)
  {}

  lemma MarkedIsAccepted(
    hmac: Hmac, world: World, latest: map<PortId, DbCache.Row>, port: PortId, data: seq<u8>, request: Message, i: nat,
      from: nat, to: nat)
    requires AllCheckable(data, request) && i < |request.tlvs| && !request.tlvs[i].body.Authentication?
    requires Justified(hmac, world, latest, port, data, request, i, from, to) && request.tlvs[i].authenticated
    ensures AcceptedFor(hmac, world, latest, port, data, request, i, from, to)
  {
    hide AcceptedFor, Checkable;
  }

  /** An accepted authentication TLV justifies the marks from TLV `i` on up to it. */
  lemma AcceptanceJustifies(
    hmac: Hmac, world: World, latest: map<PortId, DbCache.Row>, port: PortId, data: seq<u8>, request: Message, i: nat,
    step: nat, from: nat, to: nat)
    requires AllCheckable(data, request) && i < |request.tlvs| && !request.tlvs[i].body.Authentication?
    requires Justified(hmac, world, latest, port, data, request, i, from, to) && port in latest && from <= step < to
    requires var j := NextAuthentication(request.tlvs, i + 1);
             j < |request.tlvs| && Passes(hmac, latest[port], data, request.tlvs[j].body, world(step).memory)
    ensures var j := NextAuthentication(request.tlvs, i + 1);
            var marked := request.(authenticated := true, tlvs := MarkFirst(request.tlvs, j + 1));
            && AllCheckable(data, marked) && Justified(hmac, world, latest, port, data, marked, i, from, to)
            && AcceptedFor(hmac, world, latest, port, data, request, i, from, to)
  {
    hide Passes, Checkable, AcceptedFor;
    var j := NextAuthentication(request.tlvs, i + 1);
    var marked := request.(authenticated := true, tlvs := MarkFirst(request.tlvs, j + 1));
    RemarkedIsCheckable(data, request, marked);
    AcceptedUpTo(hmac, world, latest, port, data, request, i, i, step, from, to);
    forall k | i <= k < |marked.tlvs| && marked.tlvs[k].authenticated && !marked.tlvs[k].body.Authentication?
      ensures AcceptedFor(hmac, world, latest, port, data, marked, k, from, to)
    {
      AcceptedOf(hmac, world, latest, port, data, request, marked, k, from, to);
      if k < j {
        AcceptedUpTo(hmac, world, latest, port, data, request, i, k, step, from, to);
      } else {
        assert marked.tlvs[k] == request.tlvs[k];
      }
    }
  }

  lemma AcceptedUpTo(
    hmac: Hmac, world: World, latest: map<PortId, DbCache.Row>, port: PortId, data: seq<u8>, request: Message, i: nat,
    k: nat, step: nat, from: nat, to: nat)
    requires AllCheckable(data, request) && i <= k < |request.tlvs| && port in latest && from <= step < to
    requires var j := NextAuthentication(request.tlvs, i + 1);
             && k < j < |request.tlvs|
             && Passes(hmac, latest[port], data, request.tlvs[j].body, world(step).memory)
    ensures AcceptedFor(hmac, world, latest, port, data, request, k, from, to)
  {
    hide Passes, Checkable;
    NextAuthenticationStays(request.tlvs, i + 1, k + 1);
  }

  /** The first 128 bytes of `description`, and zeros behind a shorter one. */
  predicate Describes(body: TlvBody, description: seq<u8>) {
    && body.ManagementTlv? && body.data.UserDescriptionData?
    && var n := if |description| < 128 then |description| else 128;
    && body.data.length == n
    && forall k: nat :: k < 128 ==> body.data.data[k] == if k < n then description[k] else 0
  }

  lemma DescriptionDescribes(row: DbCache.Row)
    ensures Describes(DescriptionBody(row), row.description)
  {}

  /** A user description that TLV `i` may be answered with: a GET for a registered port that this port's row accepts. */
  ghost predicate EntitledBy(
    hmac: Hmac, world: World, latest: map<PortId, DbCache.Row>, data: seq<u8>, request: Message, body: TlvBody, i: nat,
    from: nat, to: nat)
    requires AllCheckable(data, request) && request.payload.Management?
  {
    && request.payload.action == ACTION_GET && request.payload.target in latest
    && Describes(body, latest[request.payload.target].description)
    && IsQuestion(request, i) && request.tlvs[i].body.data.UserDescriptionData?
    && AcceptedBehind(hmac, world, latest[request.payload.target], data, request, i, from, to)
  }

  ghost predicate Entitled(
    hmac: Hmac, world: World, latest: map<PortId, DbCache.Row>, data: seq<u8>, request: Message, body: TlvBody,
    from: nat, to: nat)
    requires AllCheckable(data, request) && request.payload.Management?
  {
    exists i: nat :: EntitledBy(hmac, world, latest, data, request, body, i, from, to)
  }

  predicate IsDescription(body: TlvBody) {
    body.ManagementTlv? && body.data.UserDescriptionData?
  }

  lemma EntitledOf(
    hmac: Hmac, world: World, latest: map<PortId, DbCache.Row>, data: seq<u8>, before: Message, after: Message,
      i: nat, from: nat, to: nat)
    requires Remarked(before, after) && AllCheckable(data, before) && AllCheckable(data, after)
    requires IsQuestion(after, i) && IsDescription(after.tlvs[i].body) && after.payload.action == ACTION_GET
    requires AcceptedFor(hmac, world, latest, after.payload.target, data, after, i, from, to)
    ensures Entitled(hmac, world, latest, data, before, DescriptionBody(latest[after.payload.target]), from, to)
  {
    AcceptedOf(hmac, world, latest, before.payload.target, data, before, after, i, from, to);
    DescriptionDescribes(latest[after.payload.target]);
    hide AcceptedBehind, DescriptionBody, Describes;
    assert EntitledBy(hmac, world, latest, data, before, DescriptionBody(latest[after.payload.target]), i, from, to);
  }

  /** One answer: a description only if the request is entitled to it. */
  lemma AnswerIsAuthorized(
    hmac: Hmac, world: World, env: Env, data: seq<u8>, original: Message, request: Message, i: nat, from: nat)
    requires DbCache.Coherent(env.db) && AllCheckable(data, original) && Remarked(original, request)
    requires AllCheckable(data, request) && IsQuestion(request, i) && from <= env.step
    requires Justified(hmac, world, env.db.latest, request.payload.target, data, request, i, from, env.step)
    ensures var (body, marked, after) := AnswerTlv(hmac, world, env, data, request, i);
            && AllCheckable(data, marked) && Remarked(original, marked) && env.step <= after.step
            && (IsDescription(body) ==> Entitled(hmac, world, env.db.latest, data, original, body, from, after.step))
            && Justified(hmac, world, env.db.latest, request.payload.target, data, marked, i, from, after.step)
            && DbCache.Coherent(after.db) && after.db.latest == env.db.latest
  {
    hide Authorize, Fetch, DbCache.Coherent, Checkable, Justified, AcceptedFor, Entitled, DescriptionBody, Display;
    CoherentIsUsable(env);
    var target, after := request.payload.target, AnswerTlv(hmac, world, env, data, request, i).2;
    FetchFindsLatest(world, env, target);
    if request.tlvs[i].body.data.UserDescriptionData? && request.payload.action == ACTION_GET {
      var (entry, found) := Fetch(world, env, target);
      JustifiedLater(hmac, world, env.db.latest, target, data, request, i, from, env.step, found.step);
      if entry.Found? {
        AuthorizedIsAccepted(hmac, world, found, data, request, i, target, from);
        if Authorize(hmac, world, found, data, request, i, target).0 == 0 {
          EntitledOf(hmac, world, env.db.latest, data, original, request, i, from, after.step);
        }
      }
    } else {
      StepsOn(world, env, target);
      JustifiedLater(hmac, world, env.db.latest, target, data, request, i, from, env.step, after.step);
    }
  }

  lemma StepsOn(world: World, env: Env, port: PortId)
    requires Usable(env)
    ensures ReadTime(world, env, port).1.step >= env.step
  {}

  lemma LaterIsJustified(
    hmac: Hmac, world: World, latest: map<PortId, DbCache.Row>, port: PortId, data: seq<u8>, request: Message, n: nat,
      from: nat, to: nat)
    requires AllCheckable(data, request) && Justified(hmac, world, latest, port, data, request, n, from, to)
    ensures Justified(hmac, world, latest, port, data, request, n + 1, from, to)
  {}

  /** What `n` TLVs of a management request have led to: authorized descriptions, and justified marks. */
  ghost predicate SoundlyAnswered(
    hmac: Hmac, world: World, latest: map<PortId, DbCache.Row>, data: seq<u8>, request: Message, n: nat,
    answers: seq<Tlv>, marked: Message, after: Env, from: nat)
    requires AllCheckable(data, request) && request.payload.Management? && n <= |request.tlvs|
  {
    && AllCheckable(data, marked) && Remarked(request, marked)
    && (forall k :: 0 <= k < |answers| && IsDescription(answers[k].body) ==>
          Entitled(hmac, world, latest, data, request, answers[k].body, from, after.step))
    && from <= after.step && Justified(hmac, world, latest, request.payload.target, data, marked, n, from, after.step)
    && DbCache.Coherent(after.db) && after.db.latest == latest
  }

  lemma EntitledLater(
    hmac: Hmac, world: World, latest: map<PortId, DbCache.Row>, data: seq<u8>, request: Message, body: TlvBody,
    from: nat, middle: nat, to: nat)
    requires AllCheckable(data, request) && request.payload.Management? && middle <= to
    requires Entitled(hmac, world, latest, data, request, body, from, middle)
    ensures Entitled(hmac, world, latest, data, request, body, from, to)
  {
    hide Passes, NextAuthentication, Checkable, DescriptionBody;
    var i: nat :| EntitledBy(hmac, world, latest, data, request, body, i, from, middle);
    assert EntitledBy(hmac, world, latest, data, request, body, i, from, to);
  }

  lemma OneAnsweredSoundly(
    hmac: Hmac, world: World, latest: map<PortId, DbCache.Row>, data: seq<u8>, request: Message, n: nat,
    answers: seq<Tlv>, marked: Message, before: Env, from: nat)
    requires AllCheckable(data, request) && request.payload.Management? && n < |request.tlvs|
    requires SoundlyAnswered(hmac, world, latest, data, request, n, answers, marked, before, from)
    ensures Usable(before) && AllCheckable(data, marked)
    ensures if !IsQuestion(marked, n)
            then SoundlyAnswered(hmac, world, latest, data, request, n + 1, answers, marked, before, from)
            else
              var (body, after, left) := AnswerTlv(hmac, world, before, data, marked, n);
              SoundlyAnswered(hmac, world, latest, data, request, n + 1, answers + [Tlv(false, body)], after, left,
                              from)
  {
    hide AnswerTlv, DbCache.Coherent, Checkable, Entitled, AcceptedFor, Justified, IsDescription;
    CoherentIsUsable(before);
    LaterIsJustified(hmac, world, latest, request.payload.target, data, marked, n, from, before.step);
    if IsQuestion(marked, n) {
      AnswerIsAuthorized(hmac, world, before, data, request, marked, n, from);
      var (body, after, left) := AnswerTlv(hmac, world, before, data, marked, n);
      LaterIsJustified(hmac, world, latest, request.payload.target, data, after, n, from, left.step);
      forall k | 0 <= k < |answers| && IsDescription(answers[k].body)
        ensures Entitled(hmac, world, latest, data, request, answers[k].body, from, left.step)
      {
        EntitledLater(hmac, world, latest, data, request, answers[k].body, from, before.step, left.step);
      }
    }
  }

  lemma NothingAnsweredSoundly(hmac: Hmac, world: World, env: Env, data: seq<u8>, request: Message)
    requires DbCache.Coherent(env.db) && AllCheckable(data, request) && request.payload.Management?
    requires forall i :: 0 <= i < |request.tlvs| ==> !request.tlvs[i].authenticated
    ensures Usable(env)
    ensures var (answers, marked, after) := AnswerTlvs(hmac, world, env, data, request, 0);
            SoundlyAnswered(hmac, world, env.db.latest, data, request, 0, answers, marked, after, env.step)
  {
    hide Checkable, DbCache.Coherent, AcceptedFor;
    CoherentIsUsable(env);
  }

  /** All descriptions among the answers are authorized. */
  lemma {:induction false} AnswersAreAuthorized(
    hmac: Hmac, world: World, env: Env, data: seq<u8>, request: Message, n: nat)
    requires DbCache.Coherent(env.db) && AllCheckable(data, request) && request.payload.Management?
    requires n <= |request.tlvs| && forall i :: 0 <= i < |request.tlvs| ==> !request.tlvs[i].authenticated
    ensures Usable(env)
    ensures var (answers, marked, after) := AnswerTlvs(hmac, world, env, data, request, n);
            SoundlyAnswered(hmac, world, env.db.latest, data, request, n, answers, marked, after, env.step)
    decreases n
  {
    hide *;
    NothingAnsweredSoundly(hmac, world, env, data, request);
    if n == 0 { return; }
    AnswersAreAuthorized(hmac, world, env, data, request, n - 1);
    AnswersNext(hmac, world, env, data, request, n - 1);
    var (answers, marked, before) := AnswerTlvs(hmac, world, env, data, request, n - 1);
    OneAnsweredSoundly(hmac, world, env.db.latest, data, request, n - 1, answers, marked, before, env.step);
  }

  /** How many of the first `n` TLVs ask for a message behind which the port's row accepts. */
  ghost function Entitlements(
    hmac: Hmac, world: World, latest: map<PortId, DbCache.Row>, data: seq<u8>, request: Message, n: nat, from: nat,
      to: nat): nat
    requires AllCheckable(data, request) && request.payload.Signaling? && n <= |request.tlvs|
  {
    if n == 0 then 0
    else
      Entitlements(hmac, world, latest, data, request, n - 1, from, to)
      + if AsksUnicast(request, n - 1)
        && AcceptedFor(hmac, world, latest, request.payload.target, data, request, n - 1, from, to)
        then 1 else 0
  }

  lemma {:induction false} EntitlementsLater(
    hmac: Hmac, world: World, latest: map<PortId, DbCache.Row>, data: seq<u8>, request: Message, n: nat, from: nat,
    middle: nat, to: nat)
    requires AllCheckable(data, request) && request.payload.Signaling? && n <= |request.tlvs| && middle <= to
    ensures Entitlements(hmac, world, latest, data, request, n, from, middle)
         <= Entitlements(hmac, world, latest, data, request, n, from, to)
  {
    hide Passes, NextAuthentication, Checkable;
    if n > 0 { EntitlementsLater(hmac, world, latest, data, request, n - 1, from, middle, to); }
  }

  lemma ServingStepsOn(world: World, env: Env, request: Message, code: int, kind: u32, room: nat)
    requires DbCache.Coherent(env.db) && request.payload.Signaling?
    ensures var after := ServeChecked(world, env, request, code, kind, room).3;
            DbCache.Coherent(after.db) && after.db.latest == env.db.latest && env.step <= after.step
  {
    hide Fetch, DbCache.Coherent, Display;
    CoherentIsUsable(env);
    var target := request.payload.target;
    FetchFindsLatest(world, env, target);
    FetchFindsLatest(world, Fetch(world, env, target).1, target);
  }

  lemma UnicastIsAuthorized(
    hmac: Hmac, world: World, env: Env, data: seq<u8>, original: Message, request: Message, i: nat, room: nat,
    from: nat)
    requires DbCache.Coherent(env.db) && AllCheckable(data, original) && Remarked(original, request)
    requires AllCheckable(data, request) && AsksUnicast(request, i) && from <= env.step
    requires Justified(hmac, world, env.db.latest, request.payload.target, data, request, i, from, env.step)
    ensures var s := ServeUnicast(hmac, world, env, data, request, i, room);
            && AllCheckable(data, s.request) && Remarked(original, s.request) && env.step <= s.env.step
            && (s.granted ==>
                  AcceptedFor(hmac, world, env.db.latest, original.payload.target, data, original, i, from, s.env.step))
            && Justified(hmac, world, env.db.latest, request.payload.target, data, s.request, i, from, s.env.step)
            && DbCache.Coherent(s.env.db) && s.env.db.latest == env.db.latest
  {
    hide Authorize, ServeChecked, DbCache.Coherent, Checkable, Justified, AcceptedFor;
    CoherentIsUsable(env);
    var target := request.payload.target;
    AuthorizedIsAccepted(hmac, world, env, data, request, i, target, from);
    var (code, marked, checked) := Authorize(hmac, world, env, data, request, i, target);
    AcceptedOf(hmac, world, env.db.latest, target, data, original, request, i, from, checked.step);
    ServingStepsOn(world, checked, request, code, request.tlvs[i].body.messageType, room);
    var after := ServeChecked(world, checked, request, code, request.tlvs[i].body.messageType, room).3;
    JustifiedLater(hmac, world, env.db.latest, target, data, marked, i, from, checked.step, after.step);
    GrantedIsAuthorized(world, checked, request, code, request.tlvs[i].body.messageType, room);
    if code == 0 {
      AcceptedLater(hmac, world, env.db.latest, target, data, original, i, from, checked.step, after.step);
    }
  }

  lemma GrantedIsAuthorized(world: World, env: Env, request: Message, code: int, kind: u32, room: nat)
    requires Usable(env) && request.payload.Signaling?
    ensures ServeChecked(world, env, request, code, kind, room).1 ==> code == 0
  {
    hide ServeGranted, Display;
  }

  lemma AcceptedLater(
    hmac: Hmac, world: World, latest: map<PortId, DbCache.Row>, port: PortId, data: seq<u8>, request: Message, i: nat,
    from: nat, middle: nat, to: nat)
    requires AllCheckable(data, request) && i < |request.tlvs| && middle <= to
    requires AcceptedFor(hmac, world, latest, port, data, request, i, from, middle)
    ensures AcceptedFor(hmac, world, latest, port, data, request, i, from, to)
  {
    hide Passes, NextAuthentication, Checkable;
  }

  /** What `n` TLVs of a signaling request have led to: no more grants than it is entitled to, and justified marks. */
  ghost predicate SoundlyServed(
    hmac: Hmac, world: World, latest: map<PortId, DbCache.Row>, data: seq<u8>, request: Message, n: nat, s: Serving,
    from: nat)
    requires AllCheckable(data, request) && request.payload.Signaling? && n <= |request.tlvs|
  {
    && AllCheckable(data, s.request) && Remarked(request, s.request) && from <= s.env.step
    && s.grants <= Entitlements(hmac, world, latest, data, request, n, from, s.env.step)
    && Justified(hmac, world, latest, request.payload.target, data, s.request, n, from, s.env.step)
    && DbCache.Coherent(s.env.db) && s.env.db.latest == latest
  }

  lemma SkippedSoundly(
    hmac: Hmac, world: World, latest: map<PortId, DbCache.Row>, data: seq<u8>, request: Message, n: nat, s: Serving,
    from: nat)
    requires AllCheckable(data, request) && request.payload.Signaling? && n < |request.tlvs|
    requires SoundlyServed(hmac, world, latest, data, request, n, s, from)
    ensures SoundlyServed(hmac, world, latest, data, request, n + 1, s, from)
  {
    hide AcceptedFor, Checkable, DbCache.Coherent, Justified;
    LaterIsJustified(hmac, world, latest, request.payload.target, data, s.request, n, from, s.env.step);
  }

  lemma OneServedSoundly(
    hmac: Hmac, world: World, latest: map<PortId, DbCache.Row>, data: seq<u8>, request: Message, n: nat, s: Serving,
    room: nat, from: nat)
    requires AllCheckable(data, request) && request.payload.Signaling? && n < |request.tlvs|
    requires SoundlyServed(hmac, world, latest, data, request, n, s, from) && AsksUnicast(request, n)
    ensures Usable(s.env) && AllCheckable(data, s.request) && AsksUnicast(s.request, n)
    ensures var one := ServeUnicast(hmac, world, s.env, data, s.request, n, room);
            SoundlyServed(hmac, world, latest, data, request, n + 1,
                          Serving(one.code, s.grants + (if one.granted then 1 else 0),
                                  s.messages + Messages(one.message), one.request, one.env),
                          from)
  {
    hide AcceptedFor, Checkable, DbCache.Coherent, Justified, ServeUnicast;
    CoherentIsUsable(s.env);
    UnicastIsAuthorized(hmac, world, s.env, data, request, s.request, n, room, from);
    var one := ServeUnicast(hmac, world, s.env, data, s.request, n, room);
    EntitlementsLater(hmac, world, latest, data, request, n, from, s.env.step, one.env.step);
    LaterIsJustified(hmac, world, latest, request.payload.target, data, one.request, n, from, one.env.step);
  }

  lemma NothingServedSoundly(hmac: Hmac, world: World, env: Env, data: seq<u8>, request: Message, room: nat)
    requires DbCache.Coherent(env.db) && AllCheckable(data, request) && request.payload.Signaling?
    requires forall i :: 0 <= i < |request.tlvs| ==> !request.tlvs[i].authenticated
    ensures Usable(env)
    ensures SoundlyServed(hmac, world, env.db.latest, data, request, 0,
                          ServeTlvs(hmac, world, env, data, request, 0, room), env.step)
  {
    hide Checkable, DbCache.Coherent, AcceptedFor;
    CoherentIsUsable(env);
  }

  /** At most one grant for each TLV behind which the port's row accepts an authentication TLV in the meantime. */
  lemma {:induction false} GrantsAreAuthorized(
    hmac: Hmac, world: World, env: Env, data: seq<u8>, request: Message, n: nat, room: nat)
    requires DbCache.Coherent(env.db) && AllCheckable(data, request) && request.payload.Signaling?
    requires n <= |request.tlvs| && forall i :: 0 <= i < |request.tlvs| ==> !request.tlvs[i].authenticated
    ensures Usable(env)
    ensures SoundlyServed(hmac, world, env.db.latest, data, request, n,
                          ServeTlvs(hmac, world, env, data, request, n, room), env.step)
    decreases n
  {
    hide *;
    NothingServedSoundly(hmac, world, env, data, request, room);
    if n == 0 { return; }
    GrantsAreAuthorized(hmac, world, env, data, request, n - 1, room);
    var before := ServeTlvs(hmac, world, env, data, request, n - 1, room);
    if before.code == 0 && AsksUnicast(request, n - 1) {
      OneServedSoundly(hmac, world, env.db.latest, data, request, n - 1, before, room - |before.messages|, env.step);
      ServesNext(hmac, world, env, data, request, n - 1, room);
    } else {
      SkippedSoundly(hmac, world, env.db.latest, data, request, n - 1, before, env.step);
      SkipsNext(hmac, world, env, data, request, n - 1, room);
    }
  }

  // ---- Whatever is answered

  predicate NoDescription(m: Message) {
    forall i :: 0 <= i < |m.tlvs| ==> !IsDescription(m.tlvs[i].body)
  }

  predicate Silent(messages: seq<Message>) {
    forall k :: 0 <= k < |messages| ==> NoDescription(messages[k])
  }

  lemma UnicastTellsNothing(
    hmac: Hmac, world: World, env: Env, data: seq<u8>, request: Message, i: nat, room: nat)
    requires Usable(env) && AllCheckable(data, request) && AsksUnicast(request, i)
    ensures var s := ServeUnicast(hmac, world, env, data, request, i, room);
            Silent(Messages(s.message))
  {
    hide Authorize, Fetch, Checkable, ReadTime, Display;
  }

  /** Nothing but a management response tells a description. */
  lemma {:induction false} ServedTellNothing(
    hmac: Hmac, world: World, env: Env, data: seq<u8>, request: Message, n: nat, room: nat)
    requires Usable(env) && AllCheckable(data, request) && request.payload.Signaling? && n <= |request.tlvs|
    ensures Silent(ServeTlvs(hmac, world, env, data, request, n, room).messages)
    decreases n
  {
    hide *;
    SilentTogether([], []);
    NothingServedYet(hmac, world, env, data, request, room);
    if n == 0 { return; }
    ServedTellNothing(hmac, world, env, data, request, n - 1, room);
    var before := ServeTlvs(hmac, world, env, data, request, n - 1, room);
    if before.code == 0 && AsksUnicast(request, n - 1) {
      ServesNext(hmac, world, env, data, request, n - 1, room);
      UnicastTellsNothing(hmac, world, before.env, data, before.request, n - 1, room - |before.messages|);
      var one := ServeUnicast(hmac, world, before.env, data, before.request, n - 1, room - |before.messages|);
      SilentTogether(before.messages, Messages(one.message));
    } else {
      SkipsNext(hmac, world, env, data, request, n - 1, room);
    }
  }

  lemma SilentTogether(messages: seq<Message>, more: seq<Message>)
    ensures Silent([]) && (Silent(messages) && Silent(more) ==> Silent(messages + more))
  {
    hide NoDescription;
  }

  lemma NothingServedYet(hmac: Hmac, world: World, env: Env, data: seq<u8>, request: Message, room: nat)
    requires Usable(env) && AllCheckable(data, request) && request.payload.Signaling?
    ensures ServeTlvs(hmac, world, env, data, request, 0, room) == Serving(0, 0, [], request, env)
  {}

  /** A response tells a description only to a request that is entitled to it. */
  ghost predicate TellsWhatItMay(
    hmac: Hmac, world: World, latest: map<PortId, DbCache.Row>, data: seq<u8>, request: Message, response: Response,
    from: nat, to: nat)
    requires AllCheckable(data, request)
  {
    response.Final? ==>
      forall i :: 0 <= i < |response.message.tlvs| && IsDescription(response.message.tlvs[i].body) ==>
        && request.payload.Management?
        && Entitled(hmac, world, latest, data, request, response.message.tlvs[i].body, from, to)
  }

  lemma GrantsTellNothing(request: Message, n: nat)
    requires request.payload.Signaling?
    ensures NoDescription(GrantMessage(request, n))
  {}

  lemma SignalingTellsNothing(hmac: Hmac, world: World, env: Env, data: seq<u8>, request: Message, room: nat)
    requires Usable(env) && AllCheckable(data, request) && request.payload.Signaling?
    ensures var o := HandleSignaling(hmac, world, env, data, request, room);
            forall k :: 0 <= k < |o.responses| && o.responses[k].Final? ==> NoDescription(o.responses[k].message)
  {
    hide ServeTlvs, Checkable, NoDescription;
    if room == 0 { return; }
    ServedTellNothing(hmac, world, env, data, request, |request.tlvs|, room - 1);
    var s := ServeTlvs(hmac, world, env, data, request, |request.tlvs|, room - 1);
    var responses := HandleSignaling(hmac, world, env, data, request, room).responses;
    GrantsTellNothing(request, s.grants);
    forall k | 0 <= k < |responses| && responses[k].Final?
      ensures NoDescription(responses[k].message)
    {
      if k > 0 { assert responses[k] == Final(s.messages[k - 1]); }
    }
  }

  lemma {:induction false} LookupsStepOn(world: World, env: Env, port: PortId, tlvs: seq<Tlv>)
    requires Usable(env)
    ensures Lookups(world, env, port, tlvs).1.step >= env.step
    decreases |tlvs|
  {
    hide Fetch;
    if tlvs == [] { return; }
    if tlvs[0].body.Authentication? {
      LookupsStepOn(world, Fetch(world, env, port).1, port, tlvs[1..]);
    } else {
      LookupsStepOn(world, env, port, tlvs[1..]);
    }
  }

  lemma ReplyStepsOn(world: World, env: Env, m: Message)
    requires Usable(env)
    ensures var (signed, after) := Sign(world, env, m);
            AfterFinal(world, after, signed).step >= env.step
  {
    hide Fetch, Lookups, MessageCells, PtpRoundTrip.Delivered;
    var (signed, after) := Sign(world, env, m);
    LookupsStepOn(world, after, signed.portId, PtpRoundTrip.Delivered(signed).tlvs);
  }

  lemma ReplyTellsNoMore(hmac: Hmac, world: World, env: Env, data: seq<u8>, request: Message, room: nat)
    requires DbCache.Coherent(env.db) && AllCheckable(data, request) && request.payload.Management?
    requires forall i :: 0 <= i < |request.tlvs| ==> !request.tlvs[i].authenticated
    ensures var o := HandleManagement(hmac, world, env, data, request, room);
            forall k :: 0 <= k < |o.responses| ==>
              TellsWhatItMay(hmac, world, env.db.latest, data, request, o.responses[k], env.step, o.env.step)
  {
    hide AnswerTlvs, Fetch, DbCache.Coherent, Checkable, EntitledBy, Entitled, HasAnswer, AfterFinal;
    CoherentIsUsable(env);
    if room == 0 { return; }
    AnswersAreAuthorized(hmac, world, env, data, request, |request.tlvs|);
    var (answers, marked, answered) := AnswerTlvs(hmac, world, env, data, request, |request.tlvs|);
    ReplyStepsOn(world, answered, ManagementReply(request, answers));
    var to := HandleManagement(hmac, world, env, data, request, room).env.step;
    forall k | 0 <= k < |answers| && IsDescription(answers[k].body)
      ensures Entitled(hmac, world, env.db.latest, data, request, answers[k].body, env.step, to)
    {
      EntitledLater(hmac, world, env.db.latest, data, request, answers[k].body, env.step, answered.step, to);
    }
  }

  /**
   * Whatever the request is: no response tells the description of a port unless
   * it is a GET for that port, and behind the TLV that asks comes an
   * authentication TLV that the port's row accepts while the request is handled.
   */
  lemma DescriptionsAreAuthorized(
    hmac: Hmac, world: World, env: Env, data: seq<u8>, portType: nat, arrival: u64, request: Message, left: Leftover,
    room: nat)
    requires DbCache.Coherent(env.db) && AllCheckable(data, request)
    requires forall i :: 0 <= i < |request.tlvs| ==> !request.tlvs[i].authenticated
    ensures var o := Respond(hmac, world, env, data, portType, arrival, Ok(request), left, room);
            forall k :: 0 <= k < |o.responses| ==>
              TellsWhatItMay(hmac, world, env.db.latest, data, request, o.responses[k], env.step, o.env.step)
  {
    hide HandleManagement, HandleSignaling, DbCache.Coherent, Checkable, Entitled, Display;
    CoherentIsUsable(env);
    if request.payload.Management? { ReplyTellsNoMore(hmac, world, env, data, request, room); }
    if request.payload.Signaling? { SignalingTellsNothing(hmac, world, env, data, request, room); }
  }

  // ---- Signatures

  lemma SignIsKnown(world: World, env: Env, m: Message)
    requires DbCache.Coherent(env.db)
    ensures var (signed, after) := Sign(world, env, m);
            && DbCache.Coherent(after.db) && after.db.latest == env.db.latest
            && (signed == m ||
                (&& m.portId in env.db.latest && |m.tlvs| < MAX_TLV_COUNT
                 && var row := env.db.latest[m.portId];
                 && row.policy != POLICY_PLAIN && signed == WithTlv(m, AuthBody(row.policy))
                 && DbCache.ValidPort(m.portId) && DbCache.Hit(after.db, m.portId)))
  {
    hide Fetch, DbCache.Coherent, DbCache.Hit, DbCache.ValidPort;
    CoherentIsUsable(env);
    FetchFindsLatest(world, env, m.portId);
    if Fetch(world, env, m.portId).0.Found? { FetchFindsAgain(world, env, m.portId); }
  }

  /** Once a port is cached, every lookup that completes a message finds its row. */
  lemma {:induction false} LookupsFind(world: World, env: Env, port: PortId, tlvs: seq<Tlv>)
    requires DbCache.Coherent(env.db) && DbCache.ValidPort(port) && DbCache.Hit(env.db, port)
    ensures port in env.db.latest
    ensures KnownPolicy(env.db.latest[port]) ==> AllFind(Lookups(world, env, port, tlvs).0, tlvs, env.db.latest[port])
    decreases |tlvs|
  {
    hide Fetch, DbCache.Coherent, DbCache.Hit, DbCache.ValidPort;
    CoherentIsUsable(env);
    HitStays(world, env, port);
    if tlvs == [] { return; }
    if tlvs[0].body.Authentication? {
      LookupsFind(world, Fetch(world, env, port).1, port, tlvs[1..]);
    } else {
      LookupsFind(world, env, port, tlvs[1..]);
    }
  }

  lemma {:induction false} LookupsAreLatest(world: World, env: Env, port: PortId, tlvs: seq<Tlv>)
    requires DbCache.Coherent(env.db)
    ensures var (entries, after) := Lookups(world, env, port, tlvs);
            && DbCache.Coherent(after.db) && after.db.latest == env.db.latest
            && (forall i :: 0 <= i < |entries| && entries[i].Found? ==>
                  port in env.db.latest && entries[i].row == env.db.latest[port])
            && (NoAuthentication(tlvs) ==> after == env)
    decreases |tlvs|
  {
    hide Fetch, DbCache.Coherent;
    CoherentIsUsable(env);
    if tlvs == [] { return; }
    if tlvs[0].body.Authentication? {
      FetchFindsLatest(world, env, port);
      LookupsAreLatest(world, Fetch(world, env, port).1, port, tlvs[1..]);
    } else {
      LookupsAreLatest(world, env, port, tlvs[1..]);
    }
  }

  // ---- Times

  /** The time of a registered port, and 0 if it is not found. */
  lemma TimeIsClockPlusOffset(world: World, env: Env, port: PortId)
    requires DbCache.Coherent(env.db)
    ensures var time := ReadTime(world, env, port).0;
            if Fetch(world, env, port).0.Missing? then time == 0
            else port in env.db.latest && time == PortTime(world(env.step + 1).now, env.db.latest[port])
  {
    hide Fetch, DbCache.Coherent;
    CoherentIsUsable(env);
    FetchFindsLatest(world, env, port);
  }

  /** `t` is the time of `port` at a step between `from` and `to`, or 0. */
  ghost predicate IsTimeOf(world: World, latest: map<PortId, DbCache.Row>, port: PortId, t: u64, from: nat, to: nat) {
    t == 0 || (port in latest &&
               exists step: nat :: from <= step < to && t == PortTime(world(step).now, latest[port]))
  }

  ghost predicate Timely(
    world: World, latest: map<PortId, DbCache.Row>, port: PortId, answers: seq<Tlv>, from: nat, to: nat)
  {
    forall k :: 0 <= k < |answers| && answers[k].body.ManagementTlv? && answers[k].body.data.TimeData? ==>
      IsTimeOf(world, latest, port, answers[k].body.data.time, from, to)
  }

  lemma TimelyTogether(
    world: World, latest: map<PortId, DbCache.Row>, port: PortId, answers: seq<Tlv>, more: seq<Tlv>, from: nat,
    middle: nat, to: nat)
    requires Timely(world, latest, port, answers, from, middle) && Timely(world, latest, port, more, middle, to)
    requires from <= middle <= to
    ensures Timely(world, latest, port, answers + more, from, to)
  {}

  lemma AnswerIsTimely(hmac: Hmac, world: World, env: Env, data: seq<u8>, request: Message, i: nat)
    requires DbCache.Coherent(env.db) && AllCheckable(data, request) && IsQuestion(request, i)
    ensures var (body, marked, after) := AnswerTlv(hmac, world, env, data, request, i);
            && AllCheckable(data, marked) && after.step >= env.step
            && DbCache.Coherent(after.db) && after.db.latest == env.db.latest
            && Timely(world, env.db.latest, request.payload.target, [Tlv(false, body)], env.step, after.step)
  {
    hide Authenticate, Fetch, DbCache.Coherent, Checkable, DescriptionBody, Display;
    CoherentIsUsable(env);
    var target := request.payload.target;
    FetchFindsLatest(world, env, target);
    FetchFindsLatest(world, Fetch(world, env, target).1, target);
    ReadIsTimely(world, env, target);
    DescriptionIsNoTime(env.db.latest, target);
  }

  lemma DescriptionIsNoTime(latest: map<PortId, DbCache.Row>, port: PortId)
    ensures port in latest ==> IsDescription(DescriptionBody(latest[port]))
  {}

  lemma ReadIsTimely(world: World, env: Env, port: PortId)
    requires DbCache.Coherent(env.db)
    ensures Usable(env)
    ensures var (t, after) := ReadTime(world, env, port);
            after.step >= env.step && IsTimeOf(world, env.db.latest, port, t, env.step, after.step)
  {
    hide Fetch, DbCache.Coherent, PortTime;
    CoherentIsUsable(env);
    TimeIsClockPlusOffset(world, env, port);
    assert env.step <= env.step + 1 < env.step + 2;
  }

  /** A time in the answers is the port's time at some step while the request is handled, or 0. */
  lemma {:induction false} TimesAreTrue(hmac: Hmac, world: World, env: Env, data: seq<u8>, request: Message, n: nat)
    requires DbCache.Coherent(env.db) && AllCheckable(data, request) && request.payload.Management?
    requires n <= |request.tlvs|
    ensures var (answers, marked, after) := AnswerTlvs(hmac, world, env, data, request, n);
            && AllCheckable(data, marked) && after.step >= env.step
            && DbCache.Coherent(after.db) && after.db.latest == env.db.latest
            && Timely(world, env.db.latest, request.payload.target, answers, env.step, after.step)
    decreases n
  {
    hide AnswerTlv, DbCache.Coherent, Checkable, IsTimeOf;
    CoherentIsUsable(env);
    if n == 0 { return; }
    TimesAreTrue(hmac, world, env, data, request, n - 1);
    hide Timely;
    var (answers, marked, before) := AnswerTlvs(hmac, world, env, data, request, n - 1);
    if IsQuestion(marked, n - 1) {
      AnswerIsTimely(hmac, world, before, data, marked, n - 1);
      var (body, _, after) := AnswerTlv(hmac, world, before, data, marked, n - 1);
      TimelyTogether(world, env.db.latest, request.payload.target, answers, [Tlv(false, body)], env.step, before.step,
                     after.step);
    }
  }

  /** A port registered with the offset `start - created` tells its start plus the time elapsed since it was created. */
  lemma TimeSinceCreation(now: u64, row: DbCache.Row, start: u64, created: u64)
    ensures row.offset == (start - created) % TWO64 ==> PortTime(now, row) == (start + (now - created)) % TWO64
  {
    PtpRoundTrip.StartPlusElapsed(start, created, now);
  }

  /** The management TLV `i` is the only one. */
  predicate OnlyQuestion(request: Message, i: nat) {
    IsQuestion(request, i) && forall k :: 0 <= k < |request.tlvs| && k != i ==> !request.tlvs[k].body.ManagementTlv?
  }

  lemma {:induction false} OnlyAnswer(
    hmac: Hmac, world: World, env: Env, data: seq<u8>, request: Message, i: nat, n: nat)
    requires Usable(env) && AllCheckable(data, request) && OnlyQuestion(request, i) && n <= |request.tlvs|
    ensures var (answers, marked, after) := AnswerTlvs(hmac, world, env, data, request, n);
            if n <= i then answers == [] && marked == request && after == env
            else
              var (body, after', left) := AnswerTlv(hmac, world, env, data, request, i);
              answers == [Tlv(false, body)] && marked == after' && after == left
    decreases n
  {
    hide AnswerTlv, Checkable;
    if n > 0 { OnlyAnswer(hmac, world, env, data, request, i, n - 1); }
  }

  /** `body`, and perhaps an authentication TLV behind it. */
  predicate AnswersOnly(m: Message, body: TlvBody) {
    && 1 <= |m.tlvs| <= 2 && m.tlvs[0] == Tlv(false, body)
    && (|m.tlvs| == 2 ==> m.tlvs[1].body.Authentication? && m.tlvs[1] == Tlv(false, AuthBody(m.tlvs[1].body.policy)))
  }

  /** A single GET of the TIME is answered with what is read for the target port. */
  lemma TimeIsAnswered(hmac: Hmac, world: World, env: Env, data: seq<u8>, request: Message, i: nat, room: nat)
    requires Usable(env) && AllCheckable(data, request) && room > 0
    requires OnlyQuestion(request, i) && request.tlvs[i].body.data.TimeData? && request.payload.action == ACTION_GET
    ensures var o := HandleManagement(hmac, world, env, data, request, room);
            && |o.responses| == 1 && o.responses[0].Final?
            && var m := o.responses[0].message;
            && AnswersOnly(m, ManagementTlv(TimeData(ReadTime(world, env, request.payload.target).0)))
            && m.payload == Management(request.portId, 0, 0, ACTION_RESPONSE)
            && m.portId == request.payload.target && m.sequenceId == request.sequenceId
  {
    assert IsQuestion(request, i);
    hide *;
    OnlyReply(hmac, world, env, data, request, i, room);
    TimeAnswer(hmac, world, env, data, request, i);
  }

  lemma StoredIsFound(world: World, env: Env, port: PortId)
    requires DbCache.Coherent(env.db) && IsStored(world, env, port)
    ensures Fetch(world, env, port).0.Found?
  {
    FetchFindsIff(world, env, port);
  }

  /** The port is in the table when it is looked up next, and the database answers. */
  predicate IsStored(world: World, env: Env, port: PortId) {
    && DbCache.ValidPort(port) && port in env.db.store
    && port !in world(env.step).gone && world(env.step).fault == DbCache.NoFault
  }

  lemma TimeAnswer(hmac: Hmac, world: World, env: Env, data: seq<u8>, request: Message, i: nat)
    requires Usable(env) && AllCheckable(data, request) && IsQuestion(request, i)
    requires request.tlvs[i].body.data.TimeData? && request.payload.action == ACTION_GET
    ensures AnswerTlv(hmac, world, env, data, request, i).0
         == ManagementTlv(TimeData(ReadTime(world, env, request.payload.target).0))
  {
    hide ReadTime;
  }

  /** The reply to a request with one management TLV begins with the answer to it. */
  lemma OnlyReply(hmac: Hmac, world: World, env: Env, data: seq<u8>, request: Message, i: nat, room: nat)
    requires Usable(env) && AllCheckable(data, request) && OnlyQuestion(request, i) && room > 0
    ensures var o := HandleManagement(hmac, world, env, data, request, room);
            var body := AnswerTlv(hmac, world, env, data, request, i).0;
            && |o.responses| == 1 && o.responses[0].Final?
            && var m := o.responses[0].message;
            && AnswersOnly(m, body)
            && m.payload == Management(request.portId, 0, 0, if body.ManagementTlv? then ACTION_RESPONSE else 0)
            && m.portId == request.payload.target && m.sequenceId == request.sequenceId
  {
    hide Fetch, AnswerTlv, AnswerTlvs, Checkable, AfterFinal;
    OnlyAnswer(hmac, world, env, data, request, i, |request.tlvs|);
    var answers := AnswerTlvs(hmac, world, env, data, request, |request.tlvs|).0;
    assert answers[0].body.ManagementTlv? ==> HasAnswer(answers);
  }

  // ---- Sizes

  lemma EventEncodes(m: Message)
    requires m.payload.Event? && m.tlvs == []
    ensures MessageCells(m, BUFFER_SIZE).Ok?
  {
    hide HeaderCells, TimestampCells, PortIdCells;
  }

  lemma OneTlvEncodes(m: Message, body: TlvBody)
    requires PayloadCells(m.payload).Ok? && |PayloadCells(m.payload).value| <= 30
    requires m.tlvs == [Tlv(false, body)] && BodyCells(body).Ok? && |BodyCells(body).value| <= 140
    ensures MessageCells(m, BUFFER_SIZE).Ok?
  {
    hide HeaderCells, PayloadCells, BodyCells, PadLength;
    var payload := PayloadCells(m.payload).value;
    var room := BUFFER_SIZE - HEADER_SIZE - |payload|;
    assert m.tlvs[1..] == [];
    assert TlvsCells(m.tlvs, room).Ok? && |TlvsCells(m.tlvs, room).value| <= 144;
    var contents := payload + TlvsCells(m.tlvs, room).value;
    PadFits(PadLength(HEADER_SIZE + |contents|), BUFFER_SIZE - HEADER_SIZE - |contents|);
  }

  lemma PadFits(pad: u16, room: nat)
    requires pad < ALIGNMENT && room >= TLV_HEADER_SIZE + ALIGNMENT
    ensures TlvCells(Pad(pad), room).Ok?
  {}

  lemma AnnounceEncodes(portId: PortId, sequenceId: u16, time: u64, offset: u64)
    ensures MessageCells(AnnounceMessage(portId, sequenceId, time, offset), BUFFER_SIZE).Ok?
  {
    hide MessageCells, TimestampCells, QualityCells, OffsetSeconds;
    OneTlvEncodes(AnnounceMessage(portId, sequenceId, time, offset), TimeOffset(0, OffsetSeconds(offset), 0, 0, []));
  }

  lemma ErrorEncodes(requester: PortId, sequenceId: u16, errorId: u32, id: u32, text: DisplayData)
    ensures MessageCells(ErrorMessage(requester, sequenceId, errorId, id, text), BUFFER_SIZE).Ok?
  {
    hide MessageCells, PortIdCells;
    OneTlvEncodes(ErrorMessage(requester, sequenceId, errorId, id, text), ErrorStatus(errorId, id, text));
  }

  lemma TwoTlvsEncode(m: Message, first: TlvBody, second: TlvBody)
    requires PayloadCells(m.payload).Ok? && |PayloadCells(m.payload).value| <= 30
    requires m.tlvs == [Tlv(false, first), Tlv(false, second)]
    requires BodyCells(first).Ok? && |BodyCells(first).value| <= 140
    requires BodyCells(second).Ok? && |BodyCells(second).value| <= 140
    ensures MessageCells(m, BUFFER_SIZE).Ok?
  {
    hide HeaderCells, PayloadCells, BodyCells, PadLength;
    var payload := PayloadCells(m.payload).value;
    var room := BUFFER_SIZE - HEADER_SIZE - |payload|;
    assert m.tlvs[1..] == [Tlv(false, second)] && m.tlvs[1..][1..] == [];
    var size := |TlvCells(first, room).value|;
    assert TlvsCells(m.tlvs[1..], room - size).Ok? && |TlvsCells(m.tlvs[1..], room - size).value| <= 144;
    assert TlvsCells(m.tlvs, room).Ok? && |TlvsCells(m.tlvs, room).value| <= 288;
    var contents := payload + TlvsCells(m.tlvs, room).value;
    PadFits(PadLength(HEADER_SIZE + |contents|), BUFFER_SIZE - HEADER_SIZE - |contents|);
  }

  lemma {:induction false} GrantsCells(n: nat, room: nat)
    requires room >= 12 * n
    ensures var cells := TlvsCells(seq(n, _ => Tlv(false, GRANT)), room); cells.Ok? && |cells.value| == 12 * n
  {
    if n > 0 {
      assert seq(n, _ => Tlv(false, GRANT))[1..] == seq(n - 1, _ => Tlv(false, GRANT));
      GrantCells(room);
      GrantsCells(n - 1, room - 12);
    }
  }

  lemma GrantCells(room: nat)
    requires room >= 12
    ensures TlvCells(GRANT, room).Ok? && |TlvCells(GRANT, room).value| == 12
  {}

  lemma GrantsEncode(request: Message, n: nat)
    requires request.payload.Signaling? && n <= MAX_TLV_COUNT
    ensures MessageCells(GrantMessage(request, n), BUFFER_SIZE).Ok?
  {
    hide HeaderCells, PortIdCells, PadLength, TlvCells;
    var contents := 10 + 12 * n;
    GrantsCells(n, BUFFER_SIZE - HEADER_SIZE - 10);
    PadFits(PadLength(HEADER_SIZE + contents), BUFFER_SIZE - HEADER_SIZE - contents);
  }

  // ---- Finalization

  /** What handlers finalize. */
  predicate Finalizable(latest: map<PortId, DbCache.Row>, m: Message) {
    && |m.tlvs| <= MAX_TLV_COUNT && Ordinary(m.tlvs) && PayloadFits(m, BUFFER_SIZE) && HmacLengths(m.tlvs)
    && (NoAuthentication(m.tlvs) || (m.portId in latest && latest[m.portId].policy != POLICY_PLAIN))
  }

  /** A management response: answers, and perhaps an authentication TLV behind them. */
  predicate IsReply(m: Message) {
    && m.payload.Management? && |m.tlvs| <= MAX_TLV_COUNT
    && forall i :: 0 <= i < |m.tlvs| ==>
         IsAnswer(m.tlvs[i].body) || (m.tlvs[i].body.Authentication? && m.tlvs[i].body.icvLength == HMAC_128_SIZE)
  }

  lemma RepliesAreFinalizable(hmac: Hmac, world: World, env: Env, data: seq<u8>, request: Message)
    requires DbCache.Coherent(env.db) && AllCheckable(data, request)
    requires request.payload.Management? && |request.tlvs| <= MAX_TLV_COUNT
    requires forall i :: 0 <= i < |request.tlvs| ==> !request.tlvs[i].authenticated
    ensures var (answers, marked, answered) := AnswerTlvs(hmac, world, env, data, request, |request.tlvs|);
            var m := Sign(world, answered, ManagementReply(request, answers)).0;
            IsReply(m) && Finalizable(env.db.latest, m)
  {
    hide AnswerTlvs, DbCache.Coherent, Checkable, Entitled, Justified, Sign, ManagementReply, DbCache.Hit,
      DbCache.ValidPort, IsReply, Finalizable, IsAnswer;
    CoherentIsUsable(env);
    AnswersAreAuthorized(hmac, world, env, data, request, |request.tlvs|);
    var (answers, marked, answered) := AnswerTlvs(hmac, world, env, data, request, |request.tlvs|);
    var reply := ManagementReply(request, answers);
    AnswersAreFinalizable(env.db.latest, request, answers);
    SignIsKnown(world, answered, reply);
    if reply.portId in env.db.latest && env.db.latest[reply.portId].policy != POLICY_PLAIN {
      SignedIsFinalizable(env.db.latest, reply, env.db.latest[reply.portId].policy);
    }
  }

  lemma AnswersAreFinalizable(latest: map<PortId, DbCache.Row>, request: Message, answers: seq<Tlv>)
    requires request.payload.Management? && |answers| <= MAX_TLV_COUNT
    requires forall k :: 0 <= k < |answers| ==> IsAnswer(answers[k].body)
    ensures var m := ManagementReply(request, answers); IsReply(m) && Finalizable(latest, m)
  {
    hide PortIdCells, HasAnswer;
  }

  lemma SignedIsFinalizable(latest: map<PortId, DbCache.Row>, m: Message, policy: u32)
    requires IsReply(m) && Finalizable(latest, m) && m.portId in latest && latest[m.portId].policy != POLICY_PLAIN
    ensures |m.tlvs| < MAX_TLV_COUNT ==>
              IsReply(WithTlv(m, AuthBody(policy))) && Finalizable(latest, WithTlv(m, AuthBody(policy)))
  {
    hide PortIdCells;
  }

  // ---- Replies that do not fit

  /** Every answer and every authentication TLV takes an even number of bytes. */
  lemma AnswersAreEven(body: TlvBody, room: nat)
    requires IsAnswer(body) || (body.Authentication? && body.icvLength == HMAC_128_SIZE)
    requires TlvCells(body, room).Ok?
    ensures |TlvCells(body, room).value| % 2 == 0
  {
    hide TimestampCells, Octets, Gaps, Word;
  }

  lemma {:induction false} StuckIsEven(tlvs: seq<Tlv>, at: nat, room: nat)
    requires at % 2 == 0
    requires forall i :: 0 <= i < |tlvs| ==>
               IsAnswer(tlvs[i].body) || (tlvs[i].body.Authentication? && tlvs[i].body.icvLength == HMAC_128_SIZE)
    ensures FirstStuck(tlvs, at, room).0 % 2 == 0
    decreases |tlvs|
  {
    hide TlvCells, IsAnswer;
    if tlvs != [] && TlvCells(tlvs[0].body, room).Ok? {
      AnswersAreEven(tlvs[0].body, room);
      var size := |TlvCells(tlvs[0].body, room).value|;
      StuckIsEven(tlvs[1..], at + size, room - size);
    }
  }

  /**
   * A management response that does not fit its buffer is dropped if and only if
   * the first TLV that does not fit starts anywhere but at the very end.
   */
  lemma FailedReplyIsDroppedIff(m: Message)
    requires IsReply(m) && MessageCells(m, BUFFER_SIZE).Err?
    ensures PayloadFits(m, BUFFER_SIZE)
    ensures FailedLength(m) == 0 <==> Stuck(m, BUFFER_SIZE).0 != BUFFER_SIZE
  {
    hide MessageCells, FailedLength, PortIdCells;
    StuckIsEven(m.tlvs, HEADER_SIZE + 14, BUFFER_SIZE - HEADER_SIZE - 14);
    FailedLengthIsZeroIff(m);
  }

  // ---- A request whose reply overruns its buffer

  lemma {:induction false} PrefixFits(front: seq<Tlv>, back: seq<Tlv>, at: nat, room: nat)
    requires TlvsCells(front, room).Ok?
    ensures var size := |TlvsCells(front, room).value|;
            FirstStuck(front + back, at, room) == FirstStuck(back, at + size, room - size)
    decreases |front|
  {
    hide TlvCells;
    if front == [] {
      assert front + back == back;
    } else {
      var size := |TlvCells(front[0].body, room).value|;
      assert (front + back)[1..] == front[1..] + back;
      PrefixFits(front[1..], back, at + size, room - size);
    }
  }

  /** `size` bytes for each of `tlvs`. */
  lemma {:induction false} UniformFits(tlvs: seq<Tlv>, size: nat, room: nat)
    requires size * |tlvs| <= room
    requires forall i, left: nat :: 0 <= i < |tlvs| && size <= left ==>
               TlvCells(tlvs[i].body, left).Ok? && |TlvCells(tlvs[i].body, left).value| == size
    ensures TlvsCells(tlvs, room).Ok? && |TlvsCells(tlvs, room).value| == size * |tlvs|
    decreases |tlvs|
  {
    hide TlvCells;
    if tlvs != [] {
      assert size * |tlvs| == size + size * |tlvs[1..]|;
      assert TlvCells(tlvs[0].body, room).Ok?;
      UniformFits(tlvs[1..], size, room - size);
    }
  }

  lemma DescriptionSize(row: DbCache.Row, left: nat)
    requires |row.description| >= USER_DESCRIPTION_SIZE && left >= 136
    ensures TlvCells(DescriptionBody(row), left).Ok? && |TlvCells(DescriptionBody(row), left).value| == 136
    ensures BodyCells(DescriptionBody(row)).Ok?
  {
    hide Octets;
  }

  lemma TimeSize(body: TlvBody, left: nat)
    requires body.ManagementTlv? && body.data.TimeData? && left >= 16
    ensures TlvCells(body, left).Ok? && |TlvCells(body, left).value| == 16
  {
    hide TimestampCells;
  }

  /** Ten descriptions of full length, four times, and an authentication TLV that starts at the very end. */
  lemma FullReplyOverruns(m: Message, row: DbCache.Row)
    requires m.payload.Management? && |m.tlvs| == 15 && |row.description| >= USER_DESCRIPTION_SIZE
    requires forall i :: 0 <= i < 10 ==> m.tlvs[i].body == DescriptionBody(row)
    requires forall i :: 10 <= i < 14 ==> m.tlvs[i].body.ManagementTlv? && m.tlvs[i].body.data.TimeData?
    requires m.tlvs[14].body == AuthBody(row.policy)
    ensures MessageCells(m, BUFFER_SIZE) == Err(MessageSize)
    ensures PayloadFits(m, BUFFER_SIZE) && Stuck(m, BUFFER_SIZE) == (BUFFER_SIZE, 0x8009)
  {
    hide TlvCells, DescriptionBody, PortIdCells, HeaderCells;
    var at, room := HEADER_SIZE + 14, BUFFER_SIZE - HEADER_SIZE - 14;
    var descriptions, times, auth := m.tlvs[..10], m.tlvs[10..14], m.tlvs[14..];
    forall i, left: nat | 0 <= i < 10 && 136 <= left
      ensures TlvCells(descriptions[i].body, left).Ok? && |TlvCells(descriptions[i].body, left).value| == 136
    {
      DescriptionSize(row, left);
    }
    forall i, left: nat | 0 <= i < 4 && 16 <= left
      ensures TlvCells(times[i].body, left).Ok? && |TlvCells(times[i].body, left).value| == 16
    {
      assert times[i] == m.tlvs[10 + i];
      TimeSize(times[i].body, left);
    }
    UniformFits(descriptions, 136, room);
    UniformFits(times, 16, room - 1360);
    assert m.tlvs == descriptions + (times + auth);
    PrefixFits(descriptions, times + auth, at, room);
    PrefixFits(times, auth, at + 1360, room - 1360);
    AuthNeedsRoom(auth[0].body);
    if TlvsCells(m.tlvs, room).Ok? { StuckBehindFitting(m.tlvs, at, room); }
    DescriptionSize(row, room);
    OnlySizesFail(m.tlvs, room);
  }

  lemma AuthNeedsRoom(body: TlvBody)
    ensures TlvCells(body, 0) == Err(MessageSize)
  {}

  /** Replies fail for their size only. */
  lemma {:induction false} OnlySizesFail(tlvs: seq<Tlv>, room: nat)
    requires forall i :: 0 <= i < |tlvs| ==> BodyCells(tlvs[i].body).Ok?
    ensures TlvsCells(tlvs, room).Err? ==> TlvsCells(tlvs, room) == Err(MessageSize)
    decreases |tlvs|
  {
    hide BodyCells;
    if tlvs != [] && TlvCells(tlvs[0].body, room).Ok? {
      OnlySizesFail(tlvs[1..], room - |TlvCells(tlvs[0].body, room).value|);
    }
  }

  /** A GET whose TLVs ask for ten descriptions and four times, with an authentication TLV behind them. */
  predicate AsksForOverrun(request: Message) {
    && request.payload.Management? && request.payload.action == ACTION_GET && |request.tlvs| == 15
    && (forall i :: 0 <= i < 10 ==> IsDescription(request.tlvs[i].body))
    && (forall i :: 10 <= i < 14 ==> request.tlvs[i].body.ManagementTlv? && request.tlvs[i].body.data.TimeData?)
    && request.tlvs[14].body.Authentication?
    && forall i :: 0 <= i < 15 ==> !request.tlvs[i].authenticated
  }

  lemma OpenPortAuthorizes(hmac: Hmac, world: World, env: Env, data: seq<u8>, request: Message, i: nat, port: PortId)
    requires DbCache.Coherent(env.db) && DbCache.ValidPort(port) && DbCache.Hit(env.db, port)
    requires AllCheckable(data, request) && i < 14 && |request.tlvs| == 15 && request.tlvs[14].body.Authentication?
    requires port in env.db.latest ==> env.db.latest[port].policy == POLICY_NONE
    ensures var (code, marked, after) := Authorize(hmac, world, env, data, request, i, port);
            && code == 0 && AllCheckable(data, marked)
            && DbCache.Coherent(after.db) && DbCache.Hit(after.db, port) && after.db.latest == env.db.latest
  {
    hide Fetch, DbCache.Coherent, DbCache.Hit, DbCache.ValidPort, CheckIcv, Checkable;
    CoherentIsUsable(env);
    HitStays(world, env, port);
  }

  /** `port` is cached and asks for no authentication. */
  ghost predicate IsOpen(db: DbCache.Db, port: PortId) {
    && DbCache.Coherent(db) && DbCache.ValidPort(port) && DbCache.Hit(db, port)
    && port in db.latest && db.latest[port].policy == POLICY_NONE
  }

  /** The first `n` answers to such a request. */
  predicate OpenAnswers(row: DbCache.Row, answers: seq<Tlv>, n: nat) {
    && |answers| == n
    && (forall i :: 0 <= i < n && i < 10 ==> answers[i].body == DescriptionBody(row))
    && (forall i :: 10 <= i < n ==> answers[i].body.ManagementTlv? && answers[i].body.data.TimeData?)
  }

  lemma OpenPortAnswer(hmac: Hmac, world: World, env: Env, data: seq<u8>, request: Message, marked: Message, n: nat)
    requires AsksForOverrun(request) && Remarked(request, marked) && AllCheckable(data, marked) && n < 14
    requires IsOpen(env.db, request.payload.target)
    ensures Usable(env) && IsQuestion(marked, n)
    ensures var (body, after, left) := AnswerTlv(hmac, world, env, data, marked, n);
            var row := env.db.latest[request.payload.target];
            && (if n < 10 then body == DescriptionBody(row) else body.ManagementTlv? && body.data.TimeData?)
            && AllCheckable(data, after) && IsOpen(left.db, request.payload.target) && left.db.latest == env.db.latest
  {
    hide Fetch, DbCache.Coherent, DbCache.Hit, DbCache.ValidPort, Authorize, Checkable, DescriptionBody;
    CoherentIsUsable(env);
    var target := request.payload.target;
    HitStays(world, env, target);
    if n < 10 { OpenPortAuthorizes(hmac, world, Fetch(world, env, target).1, data, marked, n, target); }
  }

  lemma OneMoreOpenAnswer(row: DbCache.Row, answers: seq<Tlv>, n: nat, body: TlvBody)
    requires OpenAnswers(row, answers, n)
    requires if n < 10 then body == DescriptionBody(row) else body.ManagementTlv? && body.data.TimeData?
    ensures OpenAnswers(row, answers + [Tlv(false, body)], n + 1)
  {
    hide DescriptionBody;
  }

  /** A cached port without authentication answers all of these. */
  lemma {:induction false} OpenPortAnswers(hmac: Hmac, world: World, env: Env, data: seq<u8>, request: Message, n: nat)
    requires AsksForOverrun(request) && AllCheckable(data, request) && n <= 14 && IsOpen(env.db, request.payload.target)
    ensures Usable(env)
    ensures var (answers, marked, after) := AnswerTlvs(hmac, world, env, data, request, n);
            && OpenAnswers(env.db.latest[request.payload.target], answers, n) && AllCheckable(data, marked)
            && IsOpen(after.db, request.payload.target) && after.db.latest == env.db.latest
    decreases n
  {
    hide DbCache.Coherent, DbCache.Hit, DbCache.ValidPort, Checkable, AnswerTlv, DescriptionBody;
    CoherentIsUsable(env);
    if n == 0 { return; }
    OpenPortAnswers(hmac, world, env, data, request, n - 1);
    hide IsOpen, OpenAnswers;
    var (answers, marked, before) := AnswerTlvs(hmac, world, env, data, request, n - 1);
    OpenPortAnswer(hmac, world, before, data, request, marked, n - 1);
    OneMoreOpenAnswer(env.db.latest[request.payload.target], answers, n - 1,
                      AnswerTlv(hmac, world, before, data, marked, n - 1).0);
  }

  /**
   * This request, for a cached port with policy NONE and a description of 128
   * bytes or more, is answered with a response that does not fit, and the type of
   * its authentication TLV becomes its length: 2432 bytes will be sent.
   */
  lemma OverrunExample(hmac: Hmac, world: World, env: Env, data: seq<u8>, request: Message, room: nat)
    requires AsksForOverrun(request) && AllCheckable(data, request) && room > 0
    requires var target := request.payload.target;
             IsOpen(env.db, target) && |env.db.latest[target].description| >= USER_DESCRIPTION_SIZE
    ensures Usable(env)
    ensures var o := HandleManagement(hmac, world, env, data, request, room);
            && |o.responses| == 1 && o.responses[0].Final?
            && MessageCells(o.responses[0].message, BUFFER_SIZE) == Err(MessageSize)
            && FailedLength(o.responses[0].message) == 2432
  {
    hide Fetch, DbCache.Coherent, DbCache.Hit, DbCache.ValidPort, AnswerTlvs, DescriptionBody, Checkable, AfterFinal,
      MessageCells, FailedLength, Stuck, PayloadFits;
    CoherentIsUsable(env);
    var target := request.payload.target;
    OpenPortAnswers(hmac, world, env, data, request, 14);
    LastIsNoQuestion(hmac, world, env, data, request);
    var (answers, _, answered) := AnswerTlvs(hmac, world, env, data, request, 15);
    HitStays(world, answered, target);
    var m := Sign(world, answered, ManagementReply(request, answers)).0;
    FullReplyOverruns(m, env.db.latest[target]);
    DescriptionIsNoTime(env.db.latest, target);
    OverrunOrdinary(m);
    FailedLengthIsZeroIff(m);
  }

  lemma LastIsNoQuestion(hmac: Hmac, world: World, env: Env, data: seq<u8>, request: Message)
    requires AsksForOverrun(request) && AllCheckable(data, request) && Usable(env)
    ensures AnswerTlvs(hmac, world, env, data, request, 15) == AnswerTlvs(hmac, world, env, data, request, 14)
  {
    hide AnswerTlv, Checkable;
  }

  lemma OverrunOrdinary(m: Message)
    requires |m.tlvs| == 15 && forall i :: 0 <= i < 15 ==>
             m.tlvs[i].body.ManagementTlv? || m.tlvs[i].body.Authentication?
    ensures Ordinary(m.tlvs)
  {}
}
