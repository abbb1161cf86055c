/**
 * What an accepted authentication TLV covers on a message that the service has
 * decoded. In the list of TLVs it covers what stands in front of it; in the
 * bytes it does so unless a pad has sent the decoder backwards.
 */
module PtpCoverage {
  import opened Bytes
  import opened PtpMessage
  import opened PtpWire
  import opened PtpSecurity
  import opened Wrappers
  import DbCache
  import PtpAuthentication
  import PtpSigned

  predicate IsAccepted(data: seq<u8>)
    requires |data| < 0x8000
  {
    PtpSigned.DecodeMessage(data).Some? && PtpSigned.DecodeMessage(data).value.Ok?
  }

  predicate LongPad(body: TlvBody) {
    body.Pad? && body.length >= 0x8000
  }

  predicate NoLongPad(tlvs: seq<Tlv>) {
    forall i :: 0 <= i < |tlvs| ==> !LongPad(tlvs[i].body)
  }

  /** Where the decoder found the TLVs, and where it stopped. */
  function Positions(data: seq<u8>, at: nat, room: nat): (positions: seq<nat>)
    requires at <= |data| < 0x8000
    requires PtpSigned.DecodeTlvs(data, at, room).Some? && PtpSigned.DecodeTlvs(data, at, room).value.Ok?
    ensures |positions| == |PtpSigned.DecodeTlvs(data, at, room).value.value| + 1 && positions[0] == at
    decreases room
  {
    if room == 0 || at == |data| then [at]
    else [at] + Positions(data, PtpSigned.DecodeTlv(data, at).value.1, room - 1)
  }

  function TlvPositions(data: seq<u8>): (positions: seq<nat>)
    requires |data| < 0x8000 && IsAccepted(data)
    ensures |positions| == |PtpSigned.DecodeMessage(data).value.value.tlvs| + 1
  {
    Positions(data, DecodePayload(data[0] % 0x10, data, HEADER_SIZE).value.1, MAX_TLV_COUNT)
  }

  /** Each TLV ends, behind its own header, where the next one begins. */
  predicate Consecutive(positions: seq<nat>) {
    forall i :: 0 <= i < |positions| - 1 ==> positions[i] + TLV_HEADER_SIZE <= positions[i + 1]
  }

  // ---- One TLV

  lemma OnlyLongPadsGoBack(data: seq<u8>, at: nat)
    requires at < |data| < 0x8000 && PtpSigned.DecodeTlv(data, at).Ok?
    ensures var (body, next) := PtpSigned.DecodeTlv(data, at).value;
            && (LongPad(body) <==> next < at + TLV_HEADER_SIZE)
            && (LongPad(body) ==> PtpWire.DecodeTlv(data, at).Err?)
            && (!LongPad(body) ==> next >= 0 && PtpWire.DecodeTlv(data, at) == Ok((body, next as nat)))
  {
    hide DecodeText, DecodeManagement, UntilNul, GetBe32;
  }

  lemma IcvFillsTlv(data: seq<u8>, at: nat)
    requires at < |data| < 0x8000 && PtpSigned.DecodeTlv(data, at).Ok?
    ensures var (body, next) := PtpSigned.DecodeTlv(data, at).value;
            body.Authentication? ==> body.icv == at + 10 && body.icv + body.icvLength == next
  {
    hide DecodeText, DecodeManagement, UntilNul, GetBe32;
  }

  // ---- All TLVs

  lemma ConsecutiveStep(at: nat, positions: seq<nat>)
    requires positions != []
    ensures Consecutive([at] + positions) <==> at + TLV_HEADER_SIZE <= positions[0] && Consecutive(positions)
  {
    var all := [at] + positions;
    assert all[1..] == positions;
    if Consecutive(all) {
      forall i | 0 <= i < |positions| - 1
        ensures positions[i] + TLV_HEADER_SIZE <= positions[i + 1]
      {
        assert all[i + 1] + TLV_HEADER_SIZE <= all[i + 2];
      }
      assert all[0] + TLV_HEADER_SIZE <= all[1];
    }
  }

  lemma NoLongPadStep(tlv: Tlv, tlvs: seq<Tlv>)
    ensures NoLongPad([tlv] + tlvs) <==> !LongPad(tlv.body) && NoLongPad(tlvs)
  {
    var all := [tlv] + tlvs;
    if NoLongPad(all) {
      assert !LongPad(all[0].body);
      forall i | 0 <= i < |tlvs|
        ensures !LongPad(tlvs[i].body)
      {
        assert all[i + 1] == tlvs[i];
      }
    }
  }

  lemma {:induction false} TlvsConsecutiveIff(data: seq<u8>, at: nat, room: nat)
    requires at <= |data| < 0x8000
    requires PtpSigned.DecodeTlvs(data, at, room).Some? && PtpSigned.DecodeTlvs(data, at, room).value.Ok?
    ensures var tlvs := PtpSigned.DecodeTlvs(data, at, room).value.value;
            && (Consecutive(Positions(data, at, room)) <==> NoLongPad(tlvs))
            && (PtpWire.DecodeTlvs(data, at, room).Ok? <==> NoLongPad(tlvs))
    decreases room
  {
    hide PtpSigned.DecodeTlv, PtpWire.DecodeTlv, Consecutive, NoLongPad, LongPad;
    if room == 0 || at == |data| {
      NothingIsConsecutive(at);
      return;
    }
    var (body, next) := PtpSigned.DecodeTlv(data, at).value;
    OnlyLongPadsGoBack(data, at);
    TlvsConsecutiveIff(data, next, room - 1);
    ConsecutiveStep(at, Positions(data, next, room - 1));
    NoLongPadStep(Tlv(false, body), PtpSigned.DecodeTlvs(data, next, room - 1).value.value);
  }

  lemma NothingIsConsecutive(at: nat)
    ensures Consecutive([at]) && NoLongPad([])
  {}

  /**
   * The TLVs of a message that the service accepts occupy consecutive ranges if
   * and only if no pad has a length of 0x8000 or more, and if and only if the
   * unsigned copy of the decoder accepts the message too.
   */
  lemma ConsecutiveIff(data: seq<u8>)
    requires |data| < 0x8000 && IsAccepted(data)
    ensures var m := PtpSigned.DecodeMessage(data).value.value;
            && (Consecutive(TlvPositions(data)) <==> NoLongPad(m.tlvs))
            && (PtpWire.DecodeMessage(data).Ok? <==> NoLongPad(m.tlvs))
            && (NoLongPad(m.tlvs) ==> PtpWire.DecodeMessage(data) == Ok(m))
  {
    hide DecodePayload, PtpSigned.DecodeTlvs, PtpWire.DecodeTlvs, Positions, Consecutive, NoLongPad;
    TlvsConsecutiveIff(data, DecodePayload(data[0] % 0x10, data, HEADER_SIZE).value.1, MAX_TLV_COUNT);
    PtpSigned.CopiesAgree(data);
  }

  lemma {:induction false} IcvsFillTlvs(data: seq<u8>, at: nat, room: nat, j: nat)
    requires at <= |data| < 0x8000
    requires PtpSigned.DecodeTlvs(data, at, room).Some? && PtpSigned.DecodeTlvs(data, at, room).value.Ok?
    requires j < |PtpSigned.DecodeTlvs(data, at, room).value.value|
    ensures var body, positions := PtpSigned.DecodeTlvs(data, at, room).value.value[j].body, Positions(data, at, room);
            body.Authentication? ==> body.icv == positions[j] + 10 && body.icv + body.icvLength == positions[j + 1]
    decreases room
  {
    hide PtpSigned.DecodeTlv;
    IcvFillsTlv(data, at);
    if j > 0 { IcvsFillTlvs(data, PtpSigned.DecodeTlv(data, at).value.1, room - 1, j - 1); }
  }

  lemma PositionsIncrease(positions: seq<nat>, i: nat, j: nat)
    requires Consecutive(positions) && i <= j < |positions|
    ensures positions[i] <= positions[j]
    decreases j - i
  {
    if i < j { PositionsIncrease(positions, i + 1, j); }
  }

  // ---- Coverage

  /** The bytes of TLV `i` lie in front of the ICV of TLV `j`, so that the ICV covers them. */
  predicate Covers(data: seq<u8>, i: nat, j: nat)
    requires |data| < 0x8000 && IsAccepted(data)
  {
    var tlvs, positions := PtpSigned.DecodeMessage(data).value.value.tlvs, TlvPositions(data);
    && i < j < |tlvs| && tlvs[j].body.Authentication?
    && positions[i] + TLV_HEADER_SIZE <= positions[i + 1] <= tlvs[j].body.icv
  }

  predicate CoversFront(data: seq<u8>, j: nat)
    requires |data| < 0x8000 && IsAccepted(data)
  {
    forall i: nat :: i < j ==> Covers(data, i, j)
  }

  /** A TLV in front of an authentication TLV is covered by its ICV, unless a long pad has been decoded. */
  lemma CoveredUnlessLongPad(data: seq<u8>, i: nat, j: nat)
    requires |data| < 0x8000 && IsAccepted(data)
    requires i < j < |PtpSigned.DecodeMessage(data).value.value.tlvs|
    requires PtpSigned.DecodeMessage(data).value.value.tlvs[j].body.Authentication?
    ensures NoLongPad(PtpSigned.DecodeMessage(data).value.value.tlvs) ==> Covers(data, i, j)
  {
    hide PtpSigned.DecodeTlvs, DecodePayload, NoLongPad, Positions;
    ConsecutiveIff(data);
    IcvsFillTlvs(data, DecodePayload(data[0] % 0x10, data, HEADER_SIZE).value.1, MAX_TLV_COUNT, j);
    if Consecutive(TlvPositions(data)) { PositionsIncrease(TlvPositions(data), i + 1, j); }
  }

  // ---- Messages that the decoder does not accept

  /** The decoder comes to a pad with a length of 0x8000 or more. */
  predicate ReachesLongPad(data: seq<u8>, at: nat, room: nat)
    requires at <= |data| < 0x8000
    decreases room
  {
    && room > 0 && at < |data| && PtpSigned.DecodeTlv(data, at).Ok?
    && var (body, next) := PtpSigned.DecodeTlv(data, at).value;
    LongPad(body) || (next >= 0 && ReachesLongPad(data, next, room - 1))
  }

  predicate GoesBack(data: seq<u8>)
    requires |data| < 0x8000
  {
    && HEADER_SIZE <= |data| && DecodePayload(data[0] % 0x10, data, HEADER_SIZE).Ok?
    && ReachesLongPad(data, DecodePayload(data[0] % 0x10, data, HEADER_SIZE).value.1, MAX_TLV_COUNT)
  }

  lemma {:induction false} LongPadIsReached(data: seq<u8>, at: nat, room: nat)
    requires at <= |data| < 0x8000
    ensures var r := PtpSigned.DecodeTlvs(data, at, room);
            && (r.None? ==> ReachesLongPad(data, at, room))
            && (r.Some? && r.value.Ok? ==> (ReachesLongPad(data, at, room) <==> !NoLongPad(r.value.value)))
    decreases room
  {
    hide PtpSigned.DecodeTlv, NoLongPad, LongPad;
    if room == 0 || at == |data| || PtpSigned.DecodeTlv(data, at).Err? {
      NothingIsConsecutive(at);
      return;
    }
    var (body, next) := PtpSigned.DecodeTlv(data, at).value;
    OnlyLongPadsGoBack(data, at);
    if next >= 0 {
      LongPadIsReached(data, next, room - 1);
      var rest := PtpSigned.DecodeTlvs(data, next, room - 1);
      if rest.Some? && rest.value.Ok? { NoLongPadStep(Tlv(false, body), rest.value.value); }
    }
  }

  /**
   * The decoder leaves the buffer at its front only behind a long pad; an accepted
   * message has one if and only if the decoder goes back.
   */
  lemma GoesBackIff(data: seq<u8>)
    requires |data| < 0x8000
    ensures PtpSigned.DecodeMessage(data).None? ==> GoesBack(data)
    ensures IsAccepted(data) ==> (GoesBack(data) <==> !NoLongPad(PtpSigned.DecodeMessage(data).value.value.tlvs))
  {
    hide DecodePayload, PtpSigned.DecodeTlvs, NoLongPad, ReachesLongPad;
    if HEADER_SIZE <= |data| && DecodePayload(data[0] % 0x10, data, HEADER_SIZE).Ok? {
      LongPadIsReached(data, DecodePayload(data[0] % 0x10, data, HEADER_SIZE).value.1, MAX_TLV_COUNT);
    }
  }

  /**
   * However the TLVs of a message that the service has just decoded are
   * authenticated: the marked ones are a prefix that ends in an accepted
   * authentication TLV, and the ICV of that one covers the bytes of all others,
   * unless the decoder has gone back.
   */
  lemma MarkedBytesAreCovered(hmac: Hmac, data: seq<u8>, length: nat, calls: seq<Call>) returns (n: nat)
    requires length < 0x8000 && length + SECRET_SIZE <= |data| && IsAccepted(data[..length])
    requires var m := PtpSigned.DecodeMessage(data[..length]).value.value;
             forall i :: 0 <= i < |calls| ==> ValidCall(m, calls[i])
    ensures var m := PtpSigned.DecodeMessage(data[..length]).value.value;
            && AllCheckable(data, m) && n <= |m.tlvs|
            && PtpAuthentication.Marked(PtpAuthentication.RunCalls(hmac, data, m, calls), n)
            && (n > 0 ==> PtpAuthentication.Accepted(hmac, data, m, calls, n - 1))
    ensures n > 0 && !GoesBack(data[..length]) ==> CoversFront(data[..length], n - 1)
  {
    hide PtpSigned.DecodeMessage, GoesBack, Covers, PtpAuthentication.RunCalls, Checkable, NoLongPad, IsAccepted;
    AcceptedIsDecoded(data[..length]);
    SignedIcvsAreInside(data, length);
    var m := PtpSigned.DecodeMessage(data[..length]).value.value;
    n := PtpAuthentication.MarksAreAcceptedPrefix(hmac, data, m, calls);
    GoesBackIff(data[..length]);
    if n > 0 && NoLongPad(m.tlvs) { FrontIsCovered(data[..length], n - 1); }
  }

  lemma FrontIsCovered(data: seq<u8>, j: nat)
    requires |data| < 0x8000 && IsAccepted(data) && NoLongPad(PtpSigned.DecodeMessage(data).value.value.tlvs)
    requires j < |PtpSigned.DecodeMessage(data).value.value.tlvs|
    requires PtpSigned.DecodeMessage(data).value.value.tlvs[j].body.Authentication?
    ensures CoversFront(data, j)
  {
    hide PtpSigned.DecodeMessage, Covers, NoLongPad;
    forall i: nat | i < j
      ensures Covers(data, i, j)
    {
      CoveredUnlessLongPad(data, i, j);
    }
  }

  lemma AcceptedIsDecoded(data: seq<u8>)
    requires |data| < 0x8000 && IsAccepted(data)
    ensures PtpSigned.DecodeMessage(data).Some? && PtpSigned.DecodeMessage(data).value.Ok?
    ensures !PtpSigned.DecodeMessage(data).value.value.authenticated
  {}

  // ---- A message on which coverage fails

  /** A management GET, and the beginning of an authentication TLV up to its ICV. */
  function LoopFront(): (d: seq<u8>)
    ensures |d| == 58
  {
    [0x0d] + seq(33, _ => 0) + [0, 0, 0, 0, 0, 0, 0, 1, 0, 1, 0, 0, 0, 0] + [0x80, 0x09, 0, 22, 2, 0, 0, 0, 0, 0]
  }

  /** A question for the user description, and a pad whose length is -38. */
  const LOOP_BACK: seq<u8> := [0, 1, 0, 4, 0, 2, 0, 0, 0x80, 0x08, 0xff, 0xda]

  type Icv = s: seq<u8> | |s| == HMAC_128_SIZE witness seq(HMAC_128_SIZE, _ => 0)

  function LoopRequest(icv: Icv): (d: seq<u8>)
    ensures |d| == 86
  {
    LoopFront() + icv + LOOP_BACK
  }

  function LoopTlv(i: nat): TlvBody {
    if i % 3 == 0 then Authentication(POLICY_HMAC_128, 0, 0, 58, HMAC_128_SIZE)
    else if i % 3 == 1 then ManagementTlv(UserDescriptionData(0, Described([])))
    else Pad(0xffda)
  }

  function LoopPosition(i: nat): nat {
    if i % 3 == 0 then 48 else if i % 3 == 1 then 74 else 82
  }

  lemma LoopStep(icv: Icv, i: nat)
    ensures PtpSigned.DecodeTlv(LoopRequest(icv), LoopPosition(i)) == Ok((LoopTlv(i), LoopPosition(i + 1)))
  {
    var d := LoopRequest(icv);
    assert d[48..58] == LoopFront()[48..58] && d[74..86] == LOOP_BACK;
    assert d[48] == LoopFront()[48] && d[49] == LoopFront()[49] && d[50] == LoopFront()[50] && d[51] == LoopFront()[51];
  }

  /** The three TLVs, from the `i`th on, over and over. */
  ghost predicate Looped(tlvs: seq<Tlv>, positions: seq<nat>, i: nat) {
    && |positions| == |tlvs| + 1
    && (forall k: nat :: k < |tlvs| ==> tlvs[k] == Tlv(false, LoopTlv(i + k)))
    && forall k: nat :: k < |positions| ==> positions[k] == LoopPosition(i + k)
  }

  lemma {:induction false} LoopTlvs(icv: Icv, i: nat, room: nat)
    ensures var d := LoopRequest(icv);
            && LoopPosition(i) < 86
            && var tlvs := PtpSigned.DecodeTlvs(d, LoopPosition(i), room);
            && tlvs.Some? && tlvs.value.Ok? && |tlvs.value.value| == room
            && Looped(tlvs.value.value, Positions(d, LoopPosition(i), room), i)
    decreases room
  {
    hide PtpSigned.DecodeTlv, LoopRequest, LoopTlv, LoopPosition, Looped;
    LoopPositionInside(i);
    LoopStep(icv, i);
    if room == 0 {
      LoopedMore([], [], i);
      return;
    }
    LoopTlvs(icv, i + 1, room - 1);
    var d := LoopRequest(icv);
    LoopedMore(PtpSigned.DecodeTlvs(d, LoopPosition(i + 1), room - 1).value.value,
               Positions(d, LoopPosition(i + 1), room - 1), i);
  }

  lemma LoopedMore(tlvs: seq<Tlv>, positions: seq<nat>, i: nat)
    ensures Looped([], [LoopPosition(i)], i)
    ensures Looped(tlvs, positions, i + 1) ==>
              Looped([Tlv(false, LoopTlv(i))] + tlvs, [LoopPosition(i)] + positions, i)
  {
    hide LoopTlv, LoopPosition;
    if Looped(tlvs, positions, i + 1) {
      var tlvs', positions' := [Tlv(false, LoopTlv(i))] + tlvs, [LoopPosition(i)] + positions;
      forall k: nat | k < |tlvs'|
        ensures tlvs'[k] == Tlv(false, LoopTlv(i + k))
      {
        if k > 0 { assert tlvs'[k] == tlvs[k - 1] == Tlv(false, LoopTlv(i + 1 + (k - 1))); }
      }
      forall k: nat | k < |positions'|
        ensures positions'[k] == LoopPosition(i + k)
      {
        if k > 0 { assert positions'[k] == positions[k - 1] == LoopPosition(i + 1 + (k - 1)); }
      }
    }
  }

  lemma LoopPositionInside(i: nat)
    ensures LoopPosition(i) < 86
  {}

  lemma LoopBytes(icv: Icv, k: nat)
    requires k < 58
    ensures LoopRequest(icv)[k] == LoopFront()[k]
  {}

  lemma LoopPayload(icv: Icv)
    ensures var d := LoopRequest(icv);
            && d[0] % 0x10 == 0xd
            && DecodePayload(0xd, d, HEADER_SIZE) == Ok((Management(PortId(1, 1), 0, 0, 0), LoopPosition(0)))
  {
    var d := LoopRequest(icv);
    forall k: nat | k < 58
      ensures d[k] == LoopFront()[k]
    {
      LoopBytes(icv, k);
    }
    hide LoopRequest;
    assert d[0] == LoopFront()[0] == 0x0d;
    assert GetPortId(d, 34) == GetPortId(LoopFront(), 34);
    assert GetBe64(LoopFront(), 34) == 1 && GetBe16(LoopFront(), 42) == 1;
  }

  /** The service finds 20 TLVs in these 86 bytes, the same three over and over; the unsigned copy rejects them. */
  lemma LoopIsDecoded(icv: Icv)
    ensures var d := LoopRequest(icv);
            && IsAccepted(d) && PtpWire.DecodeMessage(d).Err?
            && var m := PtpSigned.DecodeMessage(d).value.value;
            && m.payload == Management(PortId(1, 1), 0, 0, 0) && |m.tlvs| == MAX_TLV_COUNT
            && Looped(m.tlvs, TlvPositions(d), 0)
  {
    hide PtpSigned.DecodeTlvs, DecodePayload, LoopRequest, LoopTlv, NoLongPad, Consecutive, Positions, Looped;
    var d := LoopRequest(icv);
    LoopPayload(icv);
    LoopTlvs(icv, 0, MAX_TLV_COUNT);
    ConsecutiveIff(d);
    LoopHasLongPad(PtpSigned.DecodeMessage(d).value.value.tlvs, TlvPositions(d));
  }

  lemma LoopHasLongPad(tlvs: seq<Tlv>, positions: seq<nat>)
    requires |tlvs| > 2 && Looped(tlvs, positions, 0)
    ensures !NoLongPad(tlvs)
  {
    assert LongPad(tlvs[0 + 2].body);
  }

  /**
   * If its 16 ICV bytes are the HMAC of what stands in front of them, the question
   * behind them is authenticated by the second copy of the TLV in front of it,
   * although its bytes, from 74 to 82, lie behind everything that an ICV covers.
   */
  lemma LoopIsNotCovered(hmac: Hmac, row: DbCache.Row, rest: seq<u8>, scratch: seq<u8>)
    requires row.policy == POLICY_HMAC_128 && |rest| >= SECRET_SIZE && |scratch| >= 0x8000
    ensures var d := LoopRequest(hmac(row.secret, LoopFront())[..HMAC_128_SIZE]);
            && IsAccepted(d)
            && var m := PtpSigned.DecodeMessage(d).value.value;
            && AllCheckable(d + rest, m) && ValidCall(m, Call(1, Found(row), scratch))
            && m.tlvs[1].body.ManagementTlv? && m.tlvs[1].body.data.UserDescriptionData?
            && TlvPositions(d)[1] == 74 && TlvPositions(d)[2] == 82
            && NextAuthentication(m.tlvs, 2) == 3 && m.tlvs[3].body.icv == 58 && !Covers(d, 1, 3)
            && Authenticate(hmac, d + rest, m, Call(1, Found(row), scratch)).1 == 0
  {
    var icv: Icv := hmac(row.secret, LoopFront())[..HMAC_128_SIZE];
    var d := LoopRequest(icv);
    LoopBuffer(icv, rest);
    LoopIsDecoded(icv);
    SignedIcvsAreInside(d + rest, 86);
    hide PtpSigned.DecodeMessage, TlvPositions, Checkable, Looped, LoopRequest, NextAuthentication, LoopTlv,
      AcceptCode;
    var m := PtpSigned.DecodeMessage(d).value.value;
    FirstLoop(m.tlvs, TlvPositions(d));
    LoopPasses(hmac, row, d + rest, m.tlvs[3].body, scratch, icv);
  }

  lemma LoopBuffer(icv: Icv, rest: seq<u8>)
    ensures var data := LoopRequest(icv) + rest;
            |data| >= 86 && data[..86] == LoopRequest(icv) && data[..58] == LoopFront() && data[58..74] == icv
  {}

  lemma FirstLoop(tlvs: seq<Tlv>, positions: seq<nat>)
    requires |tlvs| == MAX_TLV_COUNT && Looped(tlvs, positions, 0)
    ensures tlvs[1] == Tlv(false, LoopTlv(1)) && tlvs[3] == Tlv(false, LoopTlv(0))
    ensures tlvs[1].body.ManagementTlv? && tlvs[1].body.data.UserDescriptionData?
    ensures tlvs[3].body.Authentication? && tlvs[3].body.icv == 58 && NextAuthentication(tlvs, 2) == 3
    ensures positions[1] == 74 && positions[2] == 82
  {
    assert tlvs[2] == Tlv(false, LoopTlv(0 + 2)) && tlvs[3] == Tlv(false, LoopTlv(0 + 3));
    assert tlvs[1] == Tlv(false, LoopTlv(0 + 1)) && LoopTlv(3) == LoopTlv(0);
    assert positions[1] == LoopPosition(0 + 1) && positions[2] == LoopPosition(0 + 2);
  }

  lemma LoopPasses(hmac: Hmac, row: DbCache.Row, data: seq<u8>, body: TlvBody, scratch: seq<u8>, icv: Icv)
    requires row.policy == POLICY_HMAC_128 && body == LoopTlv(0) && |data| >= 58 + SECRET_SIZE && |scratch| >= 0x8000
    requires data[..58] == LoopFront() && data[58..74] == icv == hmac(row.secret, LoopFront())[..HMAC_128_SIZE]
    ensures AcceptCode(hmac, row, data, body, scratch) == 0
  {
    assert (hmac(row.secret, LoopFront()) + scratch)[..HMAC_128_SIZE] == icv;
  }
}
