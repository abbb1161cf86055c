/** What sealing and marking guarantee together with the layout of a decoded message. */
module PtpAuthentication {
  import opened Bytes
  import opened PtpMessage
  import opened PtpWire
  import opened PtpLayout
  import opened PtpSecurity
  import PtpRoundTrip
  import DbCache

  // ---- Later seals never disturb an earlier covered prefix

  /** Position `k` belongs to the ICV of one of `tlvs`. */
  predicate InIcv(tlvs: seq<Tlv>, k: nat) {
    exists i :: 0 <= i < |tlvs| && IcvAt(tlvs[i].body, k)
  }

  predicate IcvAt(body: TlvBody, k: nat) {
    body.Authentication? && body.icv <= k < body.icv + body.icvLength
  }

  lemma InIcvSplit(tlvs: seq<Tlv>, k: nat)
    requires tlvs != []
    ensures InIcv(tlvs, k) <==> IcvAt(tlvs[0].body, k) || InIcv(tlvs[1..], k)
  {
    if InIcv(tlvs[1..], k) {
      var i :| 0 <= i < |tlvs[1..]| && IcvAt(tlvs[1..][i].body, k);
      assert IcvAt(tlvs[i + 1].body, k);
    }
    if InIcv(tlvs, k) && !IcvAt(tlvs[0].body, k) {
      var i :| 0 <= i < |tlvs| && IcvAt(tlvs[i].body, k);
      assert IcvAt(tlvs[1..][i - 1].body, k);
    }
  }

  predicate NoAuthentication(tlvs: seq<Tlv>) {
    forall i :: 0 <= i < |tlvs| ==> !tlvs[i].body.Authentication?
  }

  /** Every ICV of `tlvs` has the length of a truncated HMAC. */
  predicate HmacLengths(tlvs: seq<Tlv>) {
    forall i :: 0 <= i < |tlvs| && tlvs[i].body.Authentication? ==> tlvs[i].body.icvLength == HMAC_128_SIZE
  }

  /** Every authentication TLV has a 16-byte ICV inside the buffer, behind the earlier ones. */
  ghost predicate Ordered(data: seq<u8>, tlvs: seq<Tlv>) {
    && (forall i :: 0 <= i < |tlvs| && tlvs[i].body.Authentication? ==> tlvs[i].body.icv + HMAC_128_SIZE <= |data|)
    && HmacLengths(tlvs)
    && forall i, j :: 0 <= i < j < |tlvs| && tlvs[i].body.Authentication? && tlvs[j].body.Authentication? ==>
         tlvs[i].body.icv + HMAC_128_SIZE <= tlvs[j].body.icv
  }

  ghost predicate IsSeal(hmac: Hmac, row: DbCache.Row, data: seq<u8>, icv: nat) {
    && icv + HMAC_128_SIZE <= |data|
    && data[icv..icv + HMAC_128_SIZE] == hmac(row.secret, data[..icv])[..HMAC_128_SIZE]
  }

  /** Every lookup for an authentication TLV has found `row`. */
  predicate AllFind(entries: seq<Entry>, tlvs: seq<Tlv>, row: DbCache.Row) {
    && |entries| == |tlvs|
    && forall i :: 0 <= i < |tlvs| && tlvs[i].body.Authentication? ==> entries[i] == Found(row)
  }

  /** The buffer after the first TLV has been completed with `row`. */
  function FirstSealed(hmac: Hmac, row: DbCache.Row, data: seq<u8>, body: TlvBody): (r: seq<u8>)
    requires row.policy == POLICY_HMAC_128 && (body.Authentication? ==> body.icv + HMAC_128_SIZE <= |data|)
    ensures |r| == |data|
  {
    if body.Authentication? then Put(data, body.icv, hmac(row.secret, data[..body.icv])[..HMAC_128_SIZE]) else data
  }

  lemma SealsNext(hmac: Hmac, entries: seq<Entry>, row: DbCache.Row, data: seq<u8>, tlvs: seq<Tlv>)
    requires row.policy == POLICY_HMAC_128 && Ordered(data, tlvs) && AllFind(entries, tlvs, row) && tlvs != []
    ensures var middle := FirstSealed(hmac, row, data, tlvs[0].body);
            && Ordered(middle, tlvs[1..]) && AllFind(entries[1..], tlvs[1..], row)
            && (IcvRoom(entries[1..], middle, tlvs[1..]) ==>
                  && IcvRoom(entries, data, tlvs)
                  && Sealed(hmac, entries, data, tlvs) == Sealed(hmac, entries[1..], middle, tlvs[1..]))
  {}

  /** Later seals leave the first one, and what it covers, alone. */
  lemma FirstSealStays(hmac: Hmac, row: DbCache.Row, data: seq<u8>, sealed: seq<u8>, body: TlvBody)
    requires row.policy == POLICY_HMAC_128 && body.Authentication? && body.icv + HMAC_128_SIZE <= |data| == |sealed|
    requires forall k :: 0 <= k < body.icv + HMAC_128_SIZE ==>
               sealed[k] == FirstSealed(hmac, row, data, body)[k]
    ensures IsSeal(hmac, row, sealed, body.icv)
  {
    var middle, end := FirstSealed(hmac, row, data, body), body.icv + HMAC_128_SIZE;
    assert sealed[..body.icv] == middle[..body.icv] == data[..body.icv];
    assert sealed[body.icv..end] == middle[body.icv..end] == hmac(row.secret, data[..body.icv])[..HMAC_128_SIZE];
  }

  lemma RestLiesBehind(data: seq<u8>, tlvs: seq<Tlv>, k: nat)
    requires Ordered(data, tlvs) && tlvs != [] && tlvs[0].body.Authentication?
    requires k < tlvs[0].body.icv + HMAC_128_SIZE
    ensures !InIcv(tlvs[1..], k)
  {}

  lemma {:induction false} SealsHold(hmac: Hmac, entries: seq<Entry>, row: DbCache.Row, data: seq<u8>, tlvs: seq<Tlv>)
    requires row.policy == POLICY_HMAC_128 && Ordered(data, tlvs) && AllFind(entries, tlvs, row)
    ensures IcvRoom(entries, data, tlvs)
    ensures var (sealed, ret) := Sealed(hmac, entries, data, tlvs);
            && ret == 0 && |sealed| == |data|
            && (forall k :: 0 <= k < |data| && !InIcv(tlvs, k) ==> sealed[k] == data[k])
            && forall i :: 0 <= i < |tlvs| && tlvs[i].body.Authentication? ==>
               IsSeal(hmac, row, sealed, tlvs[i].body.icv)
    decreases |tlvs|
  {
    if tlvs == [] { return; }
    SealsNext(hmac, entries, row, data, tlvs);
    var rest, body := tlvs[1..], tlvs[0].body;
    var middle := FirstSealed(hmac, row, data, body);
    SealsHold(hmac, entries[1..], row, middle, rest);
    hide Sealed, IsSeal, InIcv, IcvRoom;
    var sealed := Sealed(hmac, entries, data, tlvs).0;
    forall k | 0 <= k < |data| && !InIcv(tlvs, k)
      ensures sealed[k] == data[k]
    {
      InIcvSplit(tlvs, k);
    }
    if body.Authentication? {
      forall k: nat | k < body.icv + HMAC_128_SIZE
        ensures sealed[k] == middle[k]
      {
        RestLiesBehind(data, tlvs, k);
      }
      FirstSealStays(hmac, row, data, sealed, body);
    }
    forall i | 0 <= i < |tlvs| && tlvs[i].body.Authentication?
      ensures IsSeal(hmac, row, sealed, tlvs[i].body.icv)
    {
      if i > 0 { assert tlvs[i] == rest[i - 1]; }
    }
  }

  // ---- Decoding does not read the ICVs

  ghost predicate SameUntil(d: seq<u8>, d': seq<u8>, from: nat, to: nat) {
    to <= |d| == |d'| && forall k :: from <= k < to ==> d[k] == d'[k]
  }

  lemma TextLocal(d: seq<u8>, d': seq<u8>, at: nat, end: nat, limit: nat)
    requires SameUntil(d, d', at, end)
    ensures DecodeText(d', at, end, limit) == DecodeText(d, at, end, limit)
  {
    if at < end && at + 1 + d[at] <= end {
      assert d'[at + 1..at + 1 + d[at]] == d[at + 1..at + 1 + d[at]];
    }
  }

  lemma Be16Local(d: seq<u8>, d': seq<u8>, at: nat)
    requires SameUntil(d, d', at, at + 2)
    ensures GetBe16(d', at) == GetBe16(d, at)
  {}

  lemma Be32Local(d: seq<u8>, d': seq<u8>, at: nat)
    requires SameUntil(d, d', at, at + 4)
    ensures GetBe32(d', at) == GetBe32(d, at)
  {}

  lemma ManagementLocal(d: seq<u8>, d': seq<u8>, at: nat, end: nat)
    requires SameUntil(d, d', at, end)
    ensures DecodeManagement(d', at, end) == DecodeManagement(d, at, end)
  {
    hide DecodeText;
    if at + 2 <= end {
      TextLocal(d, d', at + 2, end, USER_DESCRIPTION_SIZE);
      Be16Local(d, d', at);
      if at + 12 <= end { TimestampLocal(d, d', at + 2); }
    }
  }

  lemma TimestampLocal(d: seq<u8>, d': seq<u8>, at: nat)
    requires SameUntil(d, d', at, at + 10)
    ensures GetTimestamp(d', at) == GetTimestamp(d, at)
  {
    Be16Local(d, d', at);
    Be32Local(d, d', at + 2);
    Be32Local(d, d', at + 6);
  }

  /** The bytes of its contents that a TLV's decoding depends on. */
  function ReadEnd(code: u16, at: nat, end: nat): nat {
    if code == 0x8009 && at + 6 <= end then at + 6 else end
  }

  lemma BodyLocal(code: u16, d: seq<u8>, d': seq<u8>, at: nat, end: nat)
    requires at <= end <= |d| && end - at < 0x8000
    requires SameUntil(d, d', at, ReadEnd(code, at, end))
    ensures DecodeBody(code, d', at, end) == DecodeBody(code, d, at, end)
  {
    hide DecodeText, GetBe16, GetBe32, DecodeManagement;
    match code
    case 0x1 => ManagementLocal(d, d', at, end);
    case 0x2 =>
      if at + 8 <= end {
        TextLocal(d, d', at + 8, end, ERROR_DISPLAY_DATA_SIZE);
        Be16Local(d, d', at);
        Be16Local(d, d', at + 2);
      }
    case 0x9 =>
      if at + 15 <= end {
        TextLocal(d, d', at + 15, end, DISPLAY_NAME_SIZE);
        Be32Local(d, d', at + 1);
        Be32Local(d, d', at + 5);
        Be16Local(d, d', at + 9);
        Be32Local(d, d', at + 11);
      }
    case _ =>
      if at + 6 <= end { Be32Local(d, d', at + 2); }
  }

  lemma {:induction false} TlvsLocal(d: seq<u8>, d': seq<u8>, at: nat, room: nat)
    requires at <= |d| < 0x8000 && |d| == |d'| && DecodeTlvs(d, at, room).Ok?
    requires forall k :: at <= k < |d| && !InIcv(DecodeTlvs(d, at, room).value, k) ==> d[k] == d'[k]
    ensures DecodeTlvs(d', at, room) == DecodeTlvs(d, at, room)
    decreases room
  {
    if room == 0 || at == |d| { return; }
    hide DecodeBody;
    var (body, next) := DecodeTlv(d, at).value;
    var tlvs, rest := DecodeTlvs(d, at, room).value, DecodeTlvs(d, next, room - 1).value;
    forall k | at <= k < |d| && !IcvAt(body, k) && !InIcv(rest, k)
      ensures d[k] == d'[k]
    {
      InIcvSplit(tlvs, k);
    }
    forall k | at <= k < next
      ensures !InIcv(rest, k)
    {
      NoIcvBefore(d, next, room - 1, k);
    }
    forall k | next <= k
      ensures !IcvAt(body, k)
    {
      TlvIcvRange(d, at);
    }
    TlvLocal(d, d', at);
    TlvsLocal(d, d', next, room - 1);
  }

  lemma TlvIcvRange(d: seq<u8>, at: nat)
    requires at < |d| < 0x8000 && DecodeTlv(d, at).Ok?
    ensures var (body, next) := DecodeTlv(d, at).value;
            body.Authentication? ==> body.icv == at + 10 && body.icv + body.icvLength == next
    ensures DecodeTlv(d, at).value.0.Authentication? <==> GetBe16(d, at) == 0x8009
  {
    BodyKind(GetBe16(d, at), d, at + TLV_HEADER_SIZE, DecodeTlv(d, at).value.1);
  }

  lemma BodyKind(code: u16, d: seq<u8>, at: nat, end: nat)
    requires at <= end <= |d| && end - at < 0x8000 && DecodeBody(code, d, at, end).Ok?
    ensures var body := DecodeBody(code, d, at, end).value;
            && (body.Authentication? <==> code == 0x8009)
            && (body.Authentication? ==> body.icv == at + 6 && body.icv + body.icvLength == end)
  {
    hide DecodeText, GetBe16, GetBe32, DecodeManagement, UntilNul;
  }

  lemma TlvLocal(d: seq<u8>, d': seq<u8>, at: nat)
    requires at < |d| < 0x8000 && |d| == |d'| && DecodeTlv(d, at).Ok?
    requires forall k :: at <= k < DecodeTlv(d, at).value.1 && !IcvAt(DecodeTlv(d, at).value.0, k) ==> d[k] == d'[k]
    ensures DecodeTlv(d', at) == DecodeTlv(d, at)
  {
    hide DecodeBody;
    TlvIcvRange(d, at);
    var next := DecodeTlv(d, at).value.1;
    assert SameUntil(d, d', at, at + 4);
    Be16Local(d, d', at);
    Be16Local(d, d', at + 2);
    BodyLocal(GetBe16(d, at), d, d', at + TLV_HEADER_SIZE, next);
  }

  lemma NoIcvBefore(d: seq<u8>, at: nat, room: nat, k: nat)
    requires at <= |d| < 0x8000 && DecodeTlvs(d, at, room).Ok? && k <= at
    ensures !InIcv(DecodeTlvs(d, at, room).value, k)
  {
    var tlvs := DecodeTlvs(d, at, room).value;
    forall i | 0 <= i < |tlvs|
      ensures !IcvAt(tlvs[i].body, k)
    {
      if tlvs[i].body.Authentication? { LaterIcvsAreBehind(d, at, room, i); }
    }
  }

  lemma LaterIcvsAreBehind(d: seq<u8>, at: nat, room: nat, i: nat)
    requires at <= |d| < 0x8000 && DecodeTlvs(d, at, room).Ok?
    requires i < |DecodeTlvs(d, at, room).value| && DecodeTlvs(d, at, room).value[i].body.Authentication?
    ensures at < DecodeTlvs(d, at, room).value[i].body.icv
  {
    PositionsAreLayout(d, at, room);
    var tlvs, positions := DecodeTlvs(d, at, room).value, Positions(d, at, room);
    IcvFillsTlv(d, tlvs, positions, i);
    if i > 0 { PositionsIncrease(d, tlvs, positions, 0, i); }
  }

  lemma IcvsAreOrdered(data: seq<u8>, length: nat)
    requires length < 0x8000 && length <= |data| && DecodeMessage(data[..length]).Ok?
    requires HmacLengths(DecodeMessage(data[..length]).value.tlvs)
    ensures Ordered(data, DecodeMessage(data[..length]).value.tlvs)
  {
    var d := data[..length];
    var tlvs, positions := DecodeMessage(d).value.tlvs, TlvPositions(d);
    MessageLayout(d);
    forall i | 0 <= i < |tlvs| && tlvs[i].body.Authentication?
      ensures tlvs[i].body.icv + HMAC_128_SIZE <= |data|
    {
      IcvFillsTlv(d, tlvs, positions, i);
    }
    forall i, j | 0 <= i < j < |tlvs| && tlvs[i].body.Authentication? && tlvs[j].body.Authentication?
      ensures tlvs[i].body.icv + HMAC_128_SIZE <= tlvs[j].body.icv
    {
      IcvFillsTlv(d, tlvs, positions, i);
      IcvFillsTlv(d, tlvs, positions, j);
      if i + 1 < j { PositionsIncrease(d, tlvs, positions, i + 1, j); }
    }
  }

  /** Every authentication TLV passes the check of a receiver that has `row`. */
  ghost predicate AllPass(hmac: Hmac, row: DbCache.Row, data: seq<u8>, tlvs: seq<Tlv>, scratch: seq<u8>)
    requires |scratch| >= 0x8000
  {
    forall i :: 0 <= i < |tlvs| && tlvs[i].body.Authentication? ==>
      && tlvs[i].body.icv + tlvs[i].body.icvLength <= |data|
      && CheckHmac128(hmac, row, data, tlvs[i].body, scratch)
  }

  /** The decoded message has only 16-byte ICVs and its port uses HMAC. */
  ghost predicate Sealable(row: DbCache.Row, data: seq<u8>, length: nat) {
    && row.policy == POLICY_HMAC_128
    && length < 0x8000 && length <= |data| && DecodeMessage(data[..length]).Ok?
    && HmacLengths(DecodeMessage(data[..length]).value.tlvs)
  }

  /**
   * Completing a message with any number of HMAC TLVs changes nothing but ICV
   * bytes, so it decodes as before, and every one of its ICVs passes the check.
   */
  lemma SealedMessagePasses(
    hmac: Hmac, entries: seq<Entry>, row: DbCache.Row, data: seq<u8>, length: nat, scratch: seq<u8>)
    requires Sealable(row, data, length) && |scratch| >= 0x8000
    requires AllFind(entries, DecodeMessage(data[..length]).value.tlvs, row)
    ensures var m := DecodeMessage(data[..length]).value;
            IcvRoom(entries, data, m.tlvs) &&
            var (sealed, ret) := Sealed(hmac, entries, data, m.tlvs);
            && ret == 0 && |sealed| == |data|
            && (forall k :: 0 <= k < |data| && !InIcv(m.tlvs, k) ==> sealed[k] == data[k])
            && DecodeMessage(sealed[..length]) == Ok(m)
            && AllPass(hmac, row, sealed, m.tlvs, scratch)
  {
    hide DecodeMessage, Sealed;
    var d := data[..length];
    var m := DecodeMessage(d).value;
    IcvsAreOrdered(data, length);
    SealsHold(hmac, entries, row, data, m.tlvs);
    var sealed := Sealed(hmac, entries, data, m.tlvs).0;
    SealedDecodes(d, sealed[..length]);
    forall i | 0 <= i < |m.tlvs| && m.tlvs[i].body.Authentication?
      ensures m.tlvs[i].body.icv + m.tlvs[i].body.icvLength <= |sealed|
      ensures CheckHmac128(hmac, row, sealed, m.tlvs[i].body, scratch)
    {
      var icv := m.tlvs[i].body.icv;
      assert IsSeal(hmac, row, sealed, icv);
      var digest := hmac(row.secret, sealed[..icv]);
      assert (digest + scratch)[..HMAC_128_SIZE] == digest[..HMAC_128_SIZE];
    }
  }

  lemma SealedDecodes(d: seq<u8>, d': seq<u8>)
    requires |d| == |d'| < 0x8000 && DecodeMessage(d).Ok?
    requires forall k :: 0 <= k < |d| && !InIcv(DecodeMessage(d).value.tlvs, k) ==> d[k] == d'[k]
    ensures DecodeMessage(d') == DecodeMessage(d)
  {
    hide DecodeTlvs, PtpWire.DecodePayload, InIcv, GetBe16, GetPortId, GetBe64, GetLe16;
    var at := DecodePayload(d[0] % 0x10, d, HEADER_SIZE).value.1;
    var tlvs := DecodeMessage(d).value.tlvs;
    assert tlvs == DecodeTlvs(d, at, MAX_TLV_COUNT).value;
    forall k | 0 <= k < at
      ensures d[k] == d'[k]
    {
      NoIcvBefore(d, at, MAX_TLV_COUNT, k);
    }
    TlvsLocal(d, d', at, MAX_TLV_COUNT);
    HeaderLocal(d, d');
    PayloadLocal(d[0] % 0x10, d, d', at);
  }

  lemma HeaderLocal(d: seq<u8>, d': seq<u8>)
    requires SameUntil(d, d', 0, HEADER_SIZE)
    ensures GetBe16(d', 30) == GetBe16(d, 30) && GetPortId(d', 20) == GetPortId(d, 20)
    ensures GetLe16(d', 6) == GetLe16(d, 6) && GetBe64(d', 8) == GetBe64(d, 8)
  {
    hide GetBe32;
    Be16Local(d, d', 30);
    Be16Local(d, d', 28);
    Be32Local(d, d', 20);
    Be32Local(d, d', 24);
    Be32Local(d, d', 8);
    Be32Local(d, d', 12);
  }

  lemma PayloadLocal(code: u8, d: seq<u8>, d': seq<u8>, end: nat)
    requires DecodePayload(code, d, HEADER_SIZE).Ok? && DecodePayload(code, d, HEADER_SIZE).value.1 == end
    requires SameUntil(d, d', 0, end)
    ensures DecodePayload(code, d', HEADER_SIZE) == DecodePayload(code, d, HEADER_SIZE)
  {
    hide GetTimestamp, GetBe16, GetBe32;
    if code == 0xb {
      TimestampLocal(d, d', 34);
      Be16Local(d, d', 44);
      Be16Local(d, d', 50);
      Be32Local(d, d', 53);
      Be32Local(d, d', 57);
      Be16Local(d, d', 61);
    } else if code == 0xc || code == 0xd {
      PortIdLocal(d, d', 34);
    } else {
      TimestampLocal(d, d', 34);
      if end == 54 { PortIdLocal(d, d', 44); }
    }
  }

  lemma PortIdLocal(d: seq<u8>, d': seq<u8>, at: nat)
    requires SameUntil(d, d', at, at + 10)
    ensures GetPortId(d', at) == GetPortId(d, at)
  {
    Be32Local(d, d', at);
    Be32Local(d, d', at + 4);
    Be16Local(d, d', at + 8);
  }

  /**
   * A receiver that knows the same row accepts every TLV of the sealed message
   * in front of an authentication TLV that names the HMAC policy.
   */
  lemma SealedTlvsAuthenticate(
    hmac: Hmac, entries: seq<Entry>, row: DbCache.Row, data: seq<u8>, length: nat, call: Call)
    requires Sealable(row, data, length) && length + SECRET_SIZE <= |data|
    requires AllFind(entries, DecodeMessage(data[..length]).value.tlvs, row)
    requires ValidCall(DecodeMessage(data[..length]).value, call) && call.entry == Found(row)
    requires var tlvs := DecodeMessage(data[..length]).value.tlvs;
             var j := NextAuthentication(tlvs, call.index + 1);
             j < |tlvs| && tlvs[j].body.policy == POLICY_HMAC_128
    ensures var m := DecodeMessage(data[..length]).value;
            IcvRoom(entries, data, m.tlvs) &&
            var sealed := Sealed(hmac, entries, data, m.tlvs).0;
            AllCheckable(sealed, m) && Authenticate(hmac, sealed, m, call).1 == 0
  {
    hide DecodeMessage, Sealed, CheckHmac128;
    SealedMessagePasses(hmac, entries, row, data, length, call.scratch);
    IcvsAreInside(data, length);
  }

  // ---- What an HMAC check compares

  /** Behind the 32 bytes of a digest the check goes on with what lies on the stack. */
  predicate BehindDigest(data: seq<u8>, body: TlvBody, scratch: seq<u8>)
    requires body.Authentication? && body.icv + body.icvLength <= |data| && |scratch| >= 0x8000
  {
    body.icvLength > 32 ==> data[body.icv + 32..body.icv + body.icvLength] == scratch[..body.icvLength - 32]
  }

  lemma HmacCheckIs(hmac: Hmac, row: DbCache.Row, data: seq<u8>, body: TlvBody, scratch: seq<u8>)
    requires body.Authentication? && body.icv + body.icvLength <= |data| && |scratch| >= 0x8000
    ensures var n := if body.icvLength <= 32 then body.icvLength else 32;
            CheckHmac128(hmac, row, data, body, scratch) <==>
            && data[body.icv..body.icv + n] == hmac(row.secret, data[..body.icv])[..n]
            && BehindDigest(data, body, scratch)
  {
    var digest, at, length := hmac(row.secret, data[..body.icv]), body.icv, body.icvLength;
    if length <= 32 {
      assert (digest + scratch)[..length] == digest[..length];
    } else {
      assert digest[..32] == digest;
      assert (digest + scratch)[..length] == digest + scratch[..length - 32];
      assert data[at..at + length] == data[at..at + 32] + data[at + 32..at + length];
      SameHalves(data[at..at + 32], data[at + 32..at + length], digest, scratch[..length - 32]);
    }
  }

  lemma SameHalves(a: seq<u8>, b: seq<u8>, c: seq<u8>, d: seq<u8>)
    requires |a| == |c|
    ensures a + b == c + d <==> a == c && b == d
  {
    if a + b == c + d {
      assert a == (a + b)[..|a|] == (c + d)[..|c|] == c;
      assert b == (a + b)[|a|..] == (c + d)[|c|..] == d;
    }
  }

  /**
   * The sender chooses how much is compared. The verdict does not depend on the
   * secret if and only if that is nothing, and then it is acceptance, or more than
   * a digest with a rest that differs from the stack, and then it is rejection.
   */
  lemma SecretMattersIff(data: seq<u8>, body: TlvBody, scratch: seq<u8>)
    requires body.Authentication? && body.icv + body.icvLength <= |data| && |scratch| >= 0x8000
    ensures (forall hmac: Hmac, a: DbCache.Row, b: DbCache.Row ::
               CheckHmac128(hmac, a, data, body, scratch) == CheckHmac128(hmac, b, data, body, scratch))
            <==> body.icvLength == 0 || !BehindDigest(data, body, scratch)
    ensures body.icvLength == 0 ==>
              forall hmac: Hmac, row: DbCache.Row :: CheckHmac128(hmac, row, data, body, scratch)
    ensures !BehindDigest(data, body, scratch) ==>
              forall hmac: Hmac, row: DbCache.Row :: !CheckHmac128(hmac, row, data, body, scratch)
  {
    hide CheckHmac128, BehindDigest;
    forall hmac: Hmac, row: DbCache.Row
      ensures !BehindDigest(data, body, scratch) ==> !CheckHmac128(hmac, row, data, body, scratch)
      ensures body.icvLength == 0 && BehindDigest(data, body, scratch) ==> CheckHmac128(hmac, row, data, body, scratch)
    {
      HmacCheckIs(hmac, row, data, body, scratch);
    }
    NothingBehind(data, body, scratch);
    if body.icvLength > 0 && BehindDigest(data, body, scratch) { SecretsDiffer(data, body, scratch); }
  }

  lemma NothingBehind(data: seq<u8>, body: TlvBody, scratch: seq<u8>)
    requires body.Authentication? && body.icv + body.icvLength <= |data| && |scratch| >= 0x8000
    ensures body.icvLength <= 32 ==> BehindDigest(data, body, scratch)
  {}

  lemma SecretsDiffer(data: seq<u8>, body: TlvBody, scratch: seq<u8>)
    requires body.Authentication? && body.icv + body.icvLength <= |data| && |scratch| >= 0x8000
    requires body.icvLength > 0 && BehindDigest(data, body, scratch)
    ensures exists hmac: Hmac, a: DbCache.Row, b: DbCache.Row ::
              CheckHmac128(hmac, a, data, body, scratch) != CheckHmac128(hmac, b, data, body, scratch)
  {
    hide CheckHmac128, BehindDigest;
    var n := if body.icvLength <= 32 then body.icvLength else 32;
    var icv := data[body.icv..body.icv + n];
    var right: Digest := icv + seq(32 - n, _ => 0);
    var wrong: Digest := right[0 := 255 - right[0]];
    var a := DbCache.Row(POLICY_HMAC_128, 0, false, [], [1]);
    var b := a.(secret := [2]);
    var hmac: Hmac := (secret, covered) => if secret == a.secret then right else wrong;
    HmacCheckIs(hmac, a, data, body, scratch);
    HmacCheckIs(hmac, b, data, body, scratch);
    assert right[..n] == icv && wrong[..n][0] != icv[0];
    assert CheckHmac128(hmac, a, data, body, scratch) != CheckHmac128(hmac, b, data, body, scratch);
  }

  lemma {:induction false} WireKeepsIcvLengths(tlvs: seq<Tlv>, at: nat)
    requires HmacLengths(tlvs)
    ensures HmacLengths(PtpRoundTrip.WireTlvs(tlvs, at))
    decreases |tlvs|
  {
    hide PtpRoundTrip.TlvSize;
    if tlvs == [] { return; }
    var next := at + PtpRoundTrip.TlvSize(tlvs[0].body);
    WireKeepsIcvLengths(tlvs[1..], next);
    var head := Tlv(false, PtpRoundTrip.WireBody(tlvs[0].body, at));
    assert tlvs[0].body.Authentication? <==> head.body.Authentication?;
    assert PtpRoundTrip.WireTlvs(tlvs, at) == [head] + PtpRoundTrip.WireTlvs(tlvs[1..], next);
  }

  predicate NonePlain(entries: seq<Entry>, tlvs: seq<Tlv>) {
    && |entries| == |tlvs|
    && forall i :: 0 <= i < |tlvs| && tlvs[i].body.Authentication? && entries[i].Found? ==>
         entries[i].row.policy != POLICY_PLAIN
  }

  /** Completion with any policy but the plain one stores nothing outside the ICVs. */
  lemma {:induction false} SealTouchesOnlyIcvs(hmac: Hmac, entries: seq<Entry>, data: seq<u8>, tlvs: seq<Tlv>)
    requires Ordered(data, tlvs) && NonePlain(entries, tlvs)
    ensures IcvRoom(entries, data, tlvs)
    ensures var sealed := Sealed(hmac, entries, data, tlvs).0;
            |sealed| == |data| && forall k :: 0 <= k < |data| && !InIcv(tlvs, k) ==> sealed[k] == data[k]
    decreases |tlvs|
  {
    if tlvs == [] { return; }
    var body := tlvs[0].body;
    var stores :=
      body.Authentication? && entries[0].Found? && IcvBytes(hmac, entries[0].row, data[..body.icv]).Ok?;
    var middle :=
      if stores then Put(data, body.icv, IcvBytes(hmac, entries[0].row, data[..body.icv]).value) else data;
    SealTouchesOnlyIcvs(hmac, entries[1..], middle, tlvs[1..]);
    forall k | 0 <= k < |data| && !InIcv(tlvs, k)
      ensures Sealed(hmac, entries, data, tlvs).0[k] == data[k]
    {
      InIcvSplit(tlvs, k);
    }
  }

  /** Encoding and then completing a message leaves what its receiver decodes unchanged, ICV bytes aside. */
  lemma EncodedSealedDecodes(hmac: Hmac, entries: seq<Entry>, m: Message, limit: int, data: seq<u8>)
    requires |m.tlvs| <= MAX_TLV_COUNT && limit < 0x8000 && MessageCells(m, limit).Ok? && HmacLengths(m.tlvs)
    requires NonePlain(entries, PtpRoundTrip.Delivered(m).tlvs)
    requires var length := |MessageCells(m, limit).value|;
             length <= |data| && Fits(MessageCells(m, limit).value, data[..length], 0)
    ensures var length, received := |MessageCells(m, limit).value|, PtpRoundTrip.Delivered(m);
            && DecodeMessage(data[..length]) == Ok(received) && HmacLengths(received.tlvs)
            && IcvRoom(entries, data, received.tlvs) &&
            var sealed := Sealed(hmac, entries, data, received.tlvs).0;
            && |sealed| == |data| && DecodeMessage(sealed[..length]) == Ok(received)
            && forall k :: 0 <= k < |data| && !InIcv(received.tlvs, k) ==> sealed[k] == data[k]
  {
    hide MessageCells, DecodeMessage, Sealed, InIcv;
    var length := |MessageCells(m, limit).value|;
    PtpRoundTrip.MessageRoundTrip(m, limit, data[..length]);
    var received := PtpRoundTrip.Delivered(m);
    DeliveredKeepsIcvLengths(m);
    IcvsAreOrdered(data, length);
    SealTouchesOnlyIcvs(hmac, entries, data, received.tlvs);
    SealedDecodes(data[..length], Sealed(hmac, entries, data, received.tlvs).0[..length]);
  }

  lemma DeliveredKeepsIcvLengths(m: Message)
    requires HmacLengths(m.tlvs)
    ensures HmacLengths(PtpRoundTrip.Delivered(m).tlvs)
  {
    WireKeepsIcvLengths(m.tlvs, HEADER_SIZE + PtpRoundTrip.PayloadSize(m.payload));
  }

  /** From end to end: encode, seal, and every authentication TLV that is received passes. */
  lemma EncodedSealedMessagePasses(
    hmac: Hmac, entries: seq<Entry>, row: DbCache.Row, m: Message, limit: int, data: seq<u8>, scratch: seq<u8>)
    requires row.policy == POLICY_HMAC_128 && |scratch| >= 0x8000
    requires |m.tlvs| <= MAX_TLV_COUNT && limit < 0x8000 && MessageCells(m, limit).Ok? && HmacLengths(m.tlvs)
    requires AllFind(entries, PtpRoundTrip.Delivered(m).tlvs, row)
    requires var length := |MessageCells(m, limit).value|;
             length <= |data| && Fits(MessageCells(m, limit).value, data[..length], 0)
    ensures var length, received := |MessageCells(m, limit).value|, PtpRoundTrip.Delivered(m);
            IcvRoom(entries, data, received.tlvs) &&
            var (sealed, ret) := Sealed(hmac, entries, data, received.tlvs);
            && ret == 0 && |sealed| == |data| && DecodeMessage(sealed[..length]) == Ok(received)
            && AllPass(hmac, row, sealed, received.tlvs, scratch)
  {
    hide MessageCells, DecodeMessage, Sealed, CheckHmac128, AllPass;
    EncodedSealedDecodes(hmac, entries, m, limit, data);
    SealedMessagePasses(hmac, entries, row, data, |MessageCells(m, limit).value|, scratch);
  }

  // ---- Marks

  function RunCalls(hmac: Hmac, data: seq<u8>, message: Message, calls: seq<Call>): (end: Message)
    requires AllCheckable(data, message)
    requires forall i :: 0 <= i < |calls| ==> ValidCall(message, calls[i])
    ensures |end.tlvs| == |message.tlvs|
    ensures forall i :: 0 <= i < |end.tlvs| ==> end.tlvs[i].body == message.tlvs[i].body
  {
    if calls == [] then message
    else
      var last := calls[|calls| - 1];
      assert ValidCall(message, last);
      Authenticate(hmac, data, RunCalls(hmac, data, message, calls[..|calls| - 1]), last).0
  }

  /** Exactly the first `n` TLVs are marked. */
  ghost predicate Marked(message: Message, n: nat) {
    && n <= |message.tlvs|
    && (forall i :: 0 <= i < |message.tlvs| ==> (message.tlvs[i].authenticated <==> i < n))
    && (message.authenticated <==> 0 < n)
  }

  /** One of `calls` looked up a row that accepts the authentication TLV `i`. */
  ghost predicate Accepted(hmac: Hmac, data: seq<u8>, message: Message, calls: seq<Call>, i: nat)
    requires AllCheckable(data, message) && i < |message.tlvs|
  {
    && message.tlvs[i].body.Authentication?
    && exists k :: && 0 <= k < |calls| && calls[k].entry.Found? && |calls[k].scratch| >= 0x8000
                   && AcceptCode(hmac, calls[k].entry.row, data, message.tlvs[i].body, calls[k].scratch) == 0
  }

  /** One call leaves the marks alone or extends them to a TLV that its row accepts. */
  lemma CallExtendsMarks(hmac: Hmac, data: seq<u8>, message: Message, call: Call, n: nat) returns (n': nat)
    requires AllCheckable(data, message) && ValidCall(message, call) && Marked(message, n)
    ensures n <= n' && Marked(Authenticate(hmac, data, message, call).0, n')
    ensures n < n' ==> && call.entry.Found? && message.tlvs[n' - 1].body.Authentication?
                       && AcceptCode(hmac, call.entry.row, data, message.tlvs[n' - 1].body, call.scratch) == 0
  {
    hide AcceptCode, Checkable;
    if Authenticate(hmac, data, message, call).0 == message { return n; }
    n' := NextAuthentication(message.tlvs, call.index + 1) + 1;
  }

  lemma AcceptedByMore(hmac: Hmac, data: seq<u8>, message: Message, calls: seq<Call>, call: Call, i: nat)
    requires AllCheckable(data, message) && i < |message.tlvs| && Accepted(hmac, data, message, calls, i)
    ensures Accepted(hmac, data, message, calls + [call], i)
  {
    hide AcceptCode;
    var k :| && 0 <= k < |calls| && calls[k].entry.Found? && |calls[k].scratch| >= 0x8000
             && AcceptCode(hmac, calls[k].entry.row, data, message.tlvs[i].body, calls[k].scratch) == 0;
    assert (calls + [call])[k] == calls[k];
  }

  /**
   * However TLVs of a freshly decoded message are authenticated, the marked ones
   * are a prefix, and the last of them is an authentication TLV that was accepted.
   */
  lemma {:induction false} MarksAreAcceptedPrefix(
    hmac: Hmac, data: seq<u8>, message: Message, calls: seq<Call>)
    returns (n: nat)
    requires AllCheckable(data, message) && Marked(message, 0)
    requires forall i :: 0 <= i < |calls| ==> ValidCall(message, calls[i])
    ensures Marked(RunCalls(hmac, data, message, calls), n)
    ensures n > 0 ==> Accepted(hmac, data, message, calls, n - 1)
    decreases |calls|
  {
    hide AcceptCode, Authenticate;
    if calls == [] { return 0; }
    var front, call := calls[..|calls| - 1], calls[|calls| - 1];
    assert calls == front + [call] && ValidCall(message, call);
    var m := MarksAreAcceptedPrefix(hmac, data, message, front);
    var before := RunCalls(hmac, data, message, front);
    n := CallExtendsMarks(hmac, data, before, call, m);
    if m < n {
      assert calls[|calls| - 1] == call;
    } else if m > 0 {
      AcceptedByMore(hmac, data, message, front, call, m - 1);
    }
  }
}
