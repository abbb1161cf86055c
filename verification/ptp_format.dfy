/**
 * The wire formats, byte by byte: where each field of a message is found in its
 * bytes. Numbers are big-endian unless said otherwise; see sections 13.3 and 14.1
 * of IEEE 1588-2019.
 */
module PtpFormat {
  import opened Bytes
  import opened PtpMessage
  import opened PtpWire
  import opened PtpLayout

  /** The number in `n` bytes, the most significant one first. */
  function Number(data: seq<u8>, at: nat, n: nat): int
    requires at + n <= |data|
  {
    if n == 0 then 0 else Number(data, at, n - 1) * 0x100 + data[at + n - 1]
  }

  lemma Number2(data: seq<u8>, at: nat)
    requires at + 2 <= |data|
    ensures Number(data, at, 2) == GetBe16(data, at)
  {
    assert Number(data, at, 1) == Number(data, at, 0) * 0x100 + data[at];
  }

  /** Two more bytes. */
  lemma NumberAppends(data: seq<u8>, at: nat, n: nat)
    requires at + n + 2 <= |data|
    ensures Number(data, at, n + 2) == Number(data, at, n) * 0x1_0000 + GetBe16(data, at + n)
  {
    assert Number(data, at, n + 2) == Number(data, at, n + 1) * 0x100 + data[at + n + 1];
  }

  lemma Number4(data: seq<u8>, at: nat)
    requires at + 4 <= |data|
    ensures Number(data, at, 4) == GetBe32(data, at)
  {
    hide Number;
    Number2(data, at);
    NumberAppends(data, at, 2);
  }

  lemma Number6(data: seq<u8>, at: nat)
    requires at + 6 <= |data|
    ensures Number(data, at, 6) == GetBe16(data, at) * 0x1_0000_0000 + GetBe32(data, at + 2)
  {
    hide Number, GetBe16;
    Number2(data, at);
    NumberAppends(data, at, 2);
    NumberAppends(data, at, 4);
  }

  lemma Number8(data: seq<u8>, at: nat)
    requires at + 8 <= |data|
    ensures Number(data, at, 8) == GetBe64(data, at)
  {
    hide Number, GetBe16;
    Number2(data, at);
    NumberAppends(data, at, 2);
    NumberAppends(data, at, 4);
    NumberAppends(data, at, 6);
  }

  // ---- Fields

  /** 48 bits of seconds and 32 bits of nanoseconds; the sum is 64 bits wide. */
  predicate IsTime(data: seq<u8>, at: nat, t: u64) {
    && at + 10 <= |data|
    && t == (Number(data, at, 6) * 1_000_000_000 + Number(data, at + 6, 4)) % 0x1_0000_0000_0000_0000
  }

  predicate IsPort(data: seq<u8>, at: nat, port: PortId) {
    at + 10 <= |data| && port.clockId == Number(data, at, 8) && port.port == Number(data, at + 8, 2)
  }

  /** A length byte and as many bytes, of which `text` is what comes before the first NUL. */
  predicate IsText(data: seq<u8>, at: nat, end: nat, limit: nat, text: seq<u8>) {
    && at < end <= |data| && |text| <= data[at] <= limit && at + 1 + data[at] <= end
    && data[at + 1..at + 1 + |text|] == text && 0 !in text
    && (|text| < data[at] ==> data[at + 1 + |text|] == 0)
  }

  /** A signed number in two's complement. */
  predicate IsSigned(data: seq<u8>, at: nat, x: i32) {
    && at + 4 <= |data|
    && x == Number(data, at, 4) - (if data[at] >= 0x80 then 0x1_0000_0000 else 0)
  }

  lemma TimeIs(data: seq<u8>, at: nat)
    requires at + 10 <= |data|
    ensures IsTime(data, at, GetTimestamp(data, at))
  {
    hide GetBe16, GetBe32, Number;
    Number6(data, at);
    Number4(data, at + 6);
  }

  lemma PortIs(data: seq<u8>, at: nat)
    requires at + 10 <= |data|
    ensures IsPort(data, at, GetPortId(data, at))
  {
    hide GetBe16, GetBe64, Number;
    Number8(data, at);
    Number2(data, at + 8);
  }

  lemma SignedIs(data: seq<u8>, at: nat)
    requires at + 4 <= |data|
    ensures IsSigned(data, at, ToSigned32(GetBe32(data, at)))
  {
    hide Number;
    Number4(data, at);
  }

  // ---- Header and payload

  predicate HasHeader(data: seq<u8>, m: Message) {
    && 34 <= |data|
    && m.sdoId == data[0] as int / 0x10 * 0x100 + data[5] && m.domain == data[4]
    && m.flags == data[6] as int + data[7] as int * 0x100
    && m.correction == Number(data, 8, 8) && IsPort(data, 20, m.portId) && m.sequenceId == Number(data, 30, 2)
    && m.control == data[32] && m.logInterval == data[33] && !m.authenticated
  }

  /** The payload that the low half of the first byte names, up to `end`. */
  predicate HasPayload(data: seq<u8>, payload: Payload, end: nat) {
    && 34 <= end <= |data|
    && match payload
       case Event(kind, t, port) =>
         && data[0] % 0x10 == (match kind
                               case Sync => 0 case DelayRequest => 1 case PdelayRequest => 2 case PdelayResponse => 3
                               case FollowUp => 8 case DelayResponse => 9 case PdelayResponseFollowUp => 10)
         && IsTime(data, 34, t) && end == (if kind == Sync || kind == DelayRequest then 44 else 54)
         && (if end == 54 && kind != PdelayRequest then IsPort(data, 44, port) else port == PortId(0, 0))
       case Announce(t, utcOffset, priority, quality, id, steps, source) =>
         && data[0] % 0x10 == 11 && end == 64 && IsTime(data, 34, t) && utcOffset == Number(data, 44, 2)
         && priority == data[47] as int * 0x100 + data[52] && quality.clockClass == data[48]
         && quality.accuracy == data[49] && quality.variance == Number(data, 50, 2)
         && id == Number(data, 53, 8) && steps == Number(data, 61, 2) && source == data[63]
       case Signaling(target) => data[0] % 0x10 == 12 && end == 44 && IsPort(data, 34, target)
       case Management(target, startingHops, hops, action) =>
         && data[0] % 0x10 == 13 && end == 48 && IsPort(data, 34, target)
         && startingHops == data[44] && hops == data[45] && action == data[46]
       case UnknownPayload(_) => false
  }

  lemma HeaderIs(data: seq<u8>, payload: Payload, tlvs: seq<Tlv>)
    requires 34 <= |data|
    ensures HasHeader(data, HeaderOf(data, payload, tlvs))
  {
    hide GetBe64, GetBe16, GetPortId, IsPort, Number;
    Number8(data, 8);
    PortIs(data, 20);
    Number2(data, 30);
  }

  lemma PayloadIs(data: seq<u8>)
    requires 34 <= |data| && DecodePayload(data[0] % 0x10, data, 34).Ok?
    ensures var (payload, end) := DecodePayload(data[0] % 0x10, data, 34).value;
            HasPayload(data, payload, end)
  {
    hide GetBe64, GetBe16, GetPortId, IsPort, GetTimestamp, IsTime, Number;
    var (payload, end) := DecodePayload(data[0] % 0x10, data, 34).value;
    if end >= 44 { PortIs(data, 34); TimeIs(data, 34); }
    if end == 54 { PortIs(data, 44); }
    if payload.Announce? {
      Number2(data, 44);
      Number2(data, 50);
      Number8(data, 53);
      Number2(data, 61);
    }
  }

  // ---- TLVs

  /** The TLV that starts at `p` and ends at `end`: its type, its length, and its contents. */
  predicate HasTlv(data: seq<u8>, p: nat, end: nat, body: TlvBody) {
    && p + 4 <= end <= |data| && Number(data, p + 2, 2) == end - p - 4
    && var code, at := Number(data, p, 2), p + 4;
    match body
    case ManagementTlv(UserDescriptionData(length, text)) =>
      && code == 1 && at + 3 <= end && Number(data, at, 2) == 2
      && length == data[at + 2] <= 128 && at + 3 + length <= end
      && text[..length] == data[at + 3..at + 3 + length]
      && forall k :: length <= k < 128 ==> text[k] == 0
    case ManagementTlv(TimeData(t)) =>
      code == 1 && at + 12 <= end && Number(data, at, 2) == 0x200f && IsTime(data, at + 2, t)
    case ManagementTlv(UnknownData(_)) => false
    case ErrorStatus(errorId, id, text) =>
      && code == 2 && at + 8 <= end && errorId == Number(data, at, 2) && id == Number(data, at + 2, 2)
      && IsText(data, at + 8, end, 50, text)
    case RequestUnicast(messageType, interval, duration) =>
      && code == 4 && at + 6 <= end && messageType == data[at] / 0x10 && interval == data[at + 1]
      && duration == Number(data, at + 2, 4)
    case GrantUnicast(messageType, interval, duration, flags) =>
      && code == 5 && at + 8 <= end && messageType == data[at] / 0x10 && interval == data[at + 1]
      && duration == Number(data, at + 2, 4) && flags == data[at + 7] / 0x10
    case CancelUnicast(messageType, flags) =>
      code == 6 && at + 2 <= end && messageType == data[at] / 0x10 && flags == data[at] % 4
    case AcknowledgeCancelUnicast(messageType, flags) =>
      code == 7 && at + 2 <= end && messageType == data[at] / 0x10 && flags == data[at] % 4
    case TimeOffset(key, current, jump, next, name) =>
      && code == 9 && at + 15 <= end && key == data[at] && IsSigned(data, at + 1, current)
      && IsSigned(data, at + 5, jump) && next == Number(data, at + 9, 6) && IsText(data, at + 15, end, 10, name)
    case Pad(length) => code == 0x8008 && length == end - at
    case Authentication(policy, indicator, keyId, icv, icvLength) =>
      && code == 0x8009 && at + 6 <= end && policy == data[at] && indicator == data[at + 1]
      && keyId == Number(data, at + 2, 4) && icv == at + 6 && icvLength == end - icv
    case UnknownTlv(_) => false
  }

  lemma TextIs(data: seq<u8>, at: nat, end: nat, limit: nat)
    requires end <= |data| && DecodeText(data, at, end, limit).Ok?
    ensures IsText(data, at, end, limit, UntilNul(DecodeText(data, at, end, limit).value))
  {
    hide UntilNul;
    var text := DecodeText(data, at, end, limit).value;
    var r := UntilNul(text);
    assert data[at + 1..at + 1 + |r|] == text[..|r|];
  }

  lemma DescriptionIs(data: seq<u8>, at: nat, end: nat)
    requires end <= |data| && DecodeText(data, at, end, 128).Ok?
    ensures var text := DecodeText(data, at, end, 128).value;
            && |text| == data[at] && at + 1 + |text| <= end
            && Described(text)[..|text|] == data[at + 1..at + 1 + |text|]
            && forall k :: |text| <= k < 128 ==> Described(text)[k] == 0
  {}

  lemma ManagementIs(data: seq<u8>, p: nat, end: nat)
    requires p + 4 <= end <= |data| && Number(data, p + 2, 2) == end - p - 4 && Number(data, p, 2) == 1
    requires end - p < 0x8000 && DecodeBody(1, data, p + 4, end).Ok?
    ensures HasTlv(data, p, end, DecodeBody(1, data, p + 4, end).value)
  {
    hide GetBe16, Number, IsTime, GetTimestamp, DecodeText, Described;
    Number2(data, p + 4);
    if GetBe16(data, p + 4) == 2 {
      DescriptionIs(data, p + 6, end);
    } else {
      TimeIs(data, p + 6);
    }
  }

  lemma ErrorStatusIs(data: seq<u8>, p: nat, end: nat)
    requires p + 4 <= end <= |data| && Number(data, p + 2, 2) == end - p - 4 && Number(data, p, 2) == 2
    requires end - p < 0x8000 && DecodeBody(2, data, p + 4, end).Ok?
    ensures HasTlv(data, p, end, DecodeBody(2, data, p + 4, end).value)
  {
    hide GetBe16, Number, IsText, DecodeText, UntilNul;
    Number2(data, p + 4);
    Number2(data, p + 6);
    TextIs(data, p + 12, end, 50);
  }

  lemma TimeOffsetIs(data: seq<u8>, p: nat, end: nat)
    requires p + 4 <= end <= |data| && Number(data, p + 2, 2) == end - p - 4 && Number(data, p, 2) == 9
    requires end - p < 0x8000 && DecodeBody(9, data, p + 4, end).Ok?
    ensures HasTlv(data, p, end, DecodeBody(9, data, p + 4, end).value)
  {
    hide GetBe16, GetBe32, Number, IsText, DecodeText, UntilNul, IsSigned, ToSigned32;
    SignedIs(data, p + 5);
    SignedIs(data, p + 9);
    Number6(data, p + 13);
    TextIs(data, p + 19, end, 10);
  }

  lemma FlatTlvIs(data: seq<u8>, p: nat, end: nat, code: u16)
    requires p + 4 <= end <= |data| && Number(data, p + 2, 2) == end - p - 4 && Number(data, p, 2) == code
    requires end - p < 0x8000 && DecodeBody(code, data, p + 4, end).Ok? && code != 1 && code != 2 && code != 9
    ensures HasTlv(data, p, end, DecodeBody(code, data, p + 4, end).value)
  {
    hide GetBe16, GetBe32, Number, DecodeText, DecodeManagement, UntilNul;
    if p + 10 <= end { Number4(data, p + 6); }
  }

  lemma TlvIs(data: seq<u8>, p: nat)
    requires p < |data| < 0x8000 && DecodeTlv(data, p).Ok?
    ensures var (body, end) := DecodeTlv(data, p).value; HasTlv(data, p, end, body)
  {
    hide GetBe16, Number, HasTlv, DecodeBody;
    var end := DecodeTlv(data, p).value.1;
    Number2(data, p);
    Number2(data, p + 2);
    match GetBe16(data, p)
    case 1 => ManagementIs(data, p, end);
    case 2 => ErrorStatusIs(data, p, end);
    case 9 => TimeOffsetIs(data, p, end);
    case code => FlatTlvIs(data, p, end, code);
  }

  // ---- Messages

  /**
   * The bytes of a message are its header, its payload, and its TLVs one behind the
   * other at `positions`, up to the end or the 20th TLV.
   */
  predicate HasFormat(data: seq<u8>, m: Message, positions: seq<nat>) {
    && HasHeader(data, m) && |positions| == |m.tlvs| + 1 && |m.tlvs| <= 20
    && HasPayload(data, m.payload, positions[0])
    && (forall i :: 0 <= i < |m.tlvs| ==>
          !m.tlvs[i].authenticated && HasTlv(data, positions[i], positions[i + 1], m.tlvs[i].body))
    && (|m.tlvs| == 20 || positions[|m.tlvs|] == |data|)
  }

  /** Whatever is decoded is found in the bytes where the standard puts it. */
  lemma DecodedHasFormat(data: seq<u8>)
    requires |data| < 0x8000 && DecodeMessage(data).Ok?
    ensures HasFormat(data, DecodeMessage(data).value, TlvPositions(data))
  {
    hide HasTlv, DecodeTlv, HasPayload, HasHeader, DecodePayload, DecodeTlvs, Positions;
    var m, positions := DecodeMessage(data).value, TlvPositions(data);
    MessageLayout(data);
    HeaderIs(data, m.payload, m.tlvs);
    PayloadIs(data);
    forall i | 0 <= i < |m.tlvs|
      ensures HasTlv(data, positions[i], positions[i + 1], m.tlvs[i].body)
    {
      assert positions[i] + 4 <= positions[i + 1] <= |data|;
      assert DecodeTlv(data, positions[i]) == Ok((m.tlvs[i].body, positions[i + 1]));
      TlvIs(data, positions[i]);
    }
  }

  /** What the encoder adds to that: the version, the message's length, and its alignment behind 42 bytes of headers. */
  lemma EncodedHasFormat(m: Message, size: int, data: seq<u8>)
    requires MessageCells(m, size).Ok? && Fits(MessageCells(m, size).value, data, 0)
    ensures var n := |MessageCells(m, size).value|;
            && 34 <= n <= size && (n + 42) % 16 == 0 && data[1] == 0x12 && Number(data, 2, 2) == n % 0x1_0000
  {
    hide ContentCells, Number;
    var contents := ContentCells(m, size - HEADER_SIZE).value;
    var header := HeaderCells(m, Word(HEADER_SIZE + |contents|));
    var cells := MessageCells(m, size).value;
    assert cells == header + contents;
    assert cells[1] == header[1] && cells[2] == header[2] && cells[3] == header[3];
    Number2(data, 2);
  }

  // ---- Whatever has the format is decoded

  lemma {:induction false} UntilNulIs(s: seq<u8>, n: nat)
    requires n <= |s| && 0 !in s[..n] && (n < |s| ==> s[n] == 0)
    ensures UntilNul(s) == s[..n]
  {
    if n > 0 {
      assert s[..n][0] == s[0] && s[..n][1..] == s[1..][..n - 1];
      UntilNulIs(s[1..], n - 1);
    }
  }

  lemma TextIsDecoded(data: seq<u8>, at: nat, end: nat, limit: nat, text: seq<u8>)
    requires IsText(data, at, end, limit, text)
    ensures DecodeText(data, at, end, limit).Ok? && UntilNul(DecodeText(data, at, end, limit).value) == text
  {
    var all := data[at + 1..at + 1 + data[at]];
    assert all[..|text|] == text;
    UntilNulIs(all, |text|);
  }

  lemma PayloadIsDecoded(data: seq<u8>, payload: Payload, end: nat)
    requires HasPayload(data, payload, end)
    ensures DecodePayload(data[0] % 0x10, data, 34) == Ok((payload, end))
  {
    hide GetBe64, GetBe16, GetPortId, GetTimestamp, Number;
    PortIs(data, 34);
    TimeIs(data, 34);
    if end == 54 { PortIs(data, 44); }
    if payload.Announce? {
      Number2(data, 44);
      Number2(data, 50);
      Number8(data, 53);
      Number2(data, 61);
    }
  }

  lemma ManagementIsDecoded(data: seq<u8>, p: nat, end: nat, body: TlvBody)
    requires HasTlv(data, p, end, body) && body.ManagementTlv? && end - p < 0x8000
    ensures DecodeBody(1, data, p + 4, end) == Ok(body)
  {
    hide GetBe16, GetBe32, Number, GetTimestamp;
    Number2(data, p + 4);
    if body.data.TimeData? {
      TimeIs(data, p + 6);
    } else {
      DescriptionIs(data, p + 6, end);
      var text := DecodeText(data, p + 6, end, 128).value;
      assert body.data.data == body.data.data[..|text|] + body.data.data[|text|..];
      assert Described(text) == body.data.data;
    }
  }

  lemma OtherIsDecoded(data: seq<u8>, p: nat, end: nat, body: TlvBody)
    requires HasTlv(data, p, end, body) && !body.ManagementTlv? && end - p < 0x8000
    ensures DecodeBody(Number(data, p, 2), data, p + 4, end) == Ok(body)
  {
    hide GetBe16, GetBe32, Number, IsText, DecodeText, UntilNul, ToSigned32;
    if p + 10 <= end { Number4(data, p + 6); }
    match body
    case ErrorStatus(_, _, text) =>
      Number2(data, p + 4);
      Number2(data, p + 6);
      TextIsDecoded(data, p + 12, end, 50, text);
    case TimeOffset(_, _, _, _, name) =>
      SignedIs(data, p + 5);
      SignedIs(data, p + 9);
      Number6(data, p + 13);
      TextIsDecoded(data, p + 19, end, 10, name);
    case _ =>
  }

  lemma TlvIsDecoded(data: seq<u8>, p: nat, end: nat, body: TlvBody)
    requires HasTlv(data, p, end, body) && |data| < 0x8000
    ensures DecodeTlv(data, p) == Ok((body, end))
  {
    hide GetBe16, Number, DecodeBody;
    Number2(data, p);
    Number2(data, p + 2);
    if body.ManagementTlv? {
      ManagementIsDecoded(data, p, end, body);
    } else {
      OtherIsDecoded(data, p, end, body);
    }
  }

  lemma {:induction false} TlvsAreDecoded(data: seq<u8>, tlvs: seq<Tlv>, positions: seq<nat>, room: nat)
    requires |data| < 0x8000 && |positions| == |tlvs| + 1 && |tlvs| <= room && positions[0] <= |data|
    requires forall i :: 0 <= i < |tlvs| ==>
               !tlvs[i].authenticated && HasTlv(data, positions[i], positions[i + 1], tlvs[i].body)
    requires |tlvs| == room || positions[|tlvs|] == |data|
    ensures DecodeTlvs(data, positions[0], room) == Ok(tlvs)
    decreases room
  {
    hide DecodeTlv;
    if tlvs != [] {
      TlvIsDecoded(data, positions[0], positions[1], tlvs[0].body);
      HeadEnds(data, positions[0], positions[1], tlvs[0].body);
      hide HasTlv;
      forall i | 0 <= i < |tlvs[1..]|
        ensures !tlvs[1..][i].authenticated
        ensures HasTlv(data, positions[1..][i], positions[1..][i + 1], tlvs[1..][i].body)
      {
        assert tlvs[1..][i] == tlvs[i + 1] && positions[1..][i] == positions[i + 1];
      }
      TlvsAreDecoded(data, tlvs[1..], positions[1..], room - 1);
      assert tlvs == [Tlv(false, tlvs[0].body)] + tlvs[1..];
    }
  }

  lemma HeadEnds(data: seq<u8>, p: nat, end: nat, body: TlvBody)
    requires HasTlv(data, p, end, body)
    ensures p < end <= |data|
  {}

  lemma HeaderIsDecoded(data: seq<u8>, m: Message)
    requires HasHeader(data, m)
    ensures HeaderOf(data, m.payload, m.tlvs) == m
  {
    hide GetBe64, GetBe16, GetPortId, Number;
    Number8(data, 8);
    PortIs(data, 20);
    Number2(data, 30);
  }

  /** Exactly what has the format is decoded. */
  lemma DecodesIff(data: seq<u8>, m: Message)
    requires |data| < 0x8000
    ensures DecodeMessage(data) == Ok(m) <==> exists positions: seq<nat> :: HasFormat(data, m, positions)
  {
    hide DecodePayload, DecodeTlvs, HeaderOf, HasTlv, HasHeader, HasPayload, TlvPositions;
    if DecodeMessage(data) == Ok(m) {
      DecodedHasFormat(data);
    }
    if positions: seq<nat> :| HasFormat(data, m, positions) {
      HeaderIsDecoded(data, m);
      PayloadIsDecoded(data, m.payload, positions[0]);
      TlvsAreDecoded(data, m.tlvs, positions, 20);
    }
  }
}
