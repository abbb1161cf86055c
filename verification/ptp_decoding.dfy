/**
 * The decoder as it runs, with the unsigned TLV length. It reads type, length
 * and text length bytes before their bounds checks, so up to three bytes behind
 * the message must be readable; their values never matter, because every
 * contract speaks only of the message's own bytes.
 */
module PtpDecoding {
  import opened Bytes
  import opened PtpMessage
  import opened PtpWire

  const OVERREAD: nat := 3

  method DecodeTimestamp(input: array<u8>, at: nat, ghost tail: nat) returns (t: u64)
    requires at + 10 <= tail <= input.Length
    ensures t == GetTimestamp(input[..tail], at)
  {
    var seconds := GetBe16(input[at..at + 2], 0) * TWO32 + GetBe32(input[at + 2..at + 6], 0);
    var nanoseconds := GetBe32(input[at + 6..at + 10], 0);
    t := (seconds * 1_000_000_000 + nanoseconds) % TWO64;
  }

  method DecodePortId(input: array<u8>, at: nat, ghost tail: nat) returns (p: PortId)
    requires at + 10 <= tail <= input.Length
    ensures p == GetPortId(input[..tail], at)
  {
    p := PortId(GetBe64(input[at..at + 8], 0), GetBe16(input[at + 8..at + 10], 0));
  }

  method DecodePayload(input: array<u8>, code: u8, head0: nat, tail: nat) returns (r: Result<(Payload, nat)>)
    requires tail <= input.Length
    ensures r == PtpWire.DecodePayload(code, input[..tail], head0)
  {
    var head := head0;
    if code == 0xb {
      head := head + 30;
      if head > tail { return Err(MessageSize); }
      var t := DecodeTimestamp(input, head0, tail);
      var quality := ClockQuality(input[head0 + 14], input[head0 + 15], GetBe16(input[head0 + 16..head0 + 18], 0));
      return Ok((Announce(t, GetBe16(input[head0 + 10..head0 + 12], 0),
                          (input[head0 + 13] as int) * 0x100 + input[head0 + 18], quality,
                          GetBe64(input[head0 + 19..head0 + 27], 0),
                          GetBe16(input[head0 + 27..head0 + 29], 0), input[head0 + 29]), head));
    } else if code == 0xc {
      head := head + 10;
      if head > tail { return Err(MessageSize); }
      var p := DecodePortId(input, head0, tail);
      return Ok((Signaling(p), head));
    } else if code == 0xd {
      head := head + 14;
      if head > tail { return Err(MessageSize); }
      var p := DecodePortId(input, head0, tail);
      return Ok((Management(p, input[head0 + 10], input[head0 + 11], input[head0 + 12]), head));
    }
    var kind := KindOf(code);
    if kind.Err? { return Err(Invalid); }
    head := head + EventSize(kind.value);
    if head > tail { return Err(MessageSize); }
    var t := DecodeTimestamp(input, head0, tail);
    var p := NO_PORT;
    if CarriesPort(kind.value) {
      p := DecodePortId(input, head0 + 10, tail);
    }
    return Ok((Event(kind.value, t, p), head));
  }

  /** Reads the length byte at `head0` first, even when the TLV ends there. */
  method DecodeText(input: array<u8>, head0: nat, end: nat, limit: nat, ghost tail: nat) returns (r: Result<seq<u8>>)
    requires head0 <= end <= tail && tail + OVERREAD <= input.Length
    ensures r == PtpWire.DecodeText(input[..tail], head0, end, limit)
  {
    var length := input[head0];
    var head := head0 + 1;
    if length > limit { return Err(MessageSize); }
    if head + length > end { return Err(MessageSize); }
    assert input[..tail][head..head + length] == input[head..head + length];
    return Ok(input[head..head + length]);
  }

  method DecodeManagementTlv(
    input: array<u8>, head0: nat, end: nat, ghost tail: nat)
    returns (r: Result<ManagementData>)
    requires head0 <= end <= tail && tail + OVERREAD <= input.Length
    ensures r == DecodeManagement(input[..tail], head0, end)
  {
    var head := head0 + 2;
    if head > end { return Err(MessageSize); }
    var id := GetBe16(input[head0..head], 0);
    if id == ID_USER_DESCRIPTION {
      var text := DecodeText(input, head, end, USER_DESCRIPTION_SIZE, tail);
      if text.Err? { return Err(text.error); }
      return Ok(UserDescriptionData(|text.value|, Described(text.value)));
    } else if id == ID_TIME {
      head := head + 10;
      if head > end { return Err(MessageSize); }
      var t := DecodeTimestamp(input, head - 10, tail);
      return Ok(TimeData(t));
    } else {
      return Err(Invalid);
    }
  }

  method DecodeErrorStatusTlv(input: array<u8>, head0: nat, end: nat, ghost tail: nat) returns (r: Result<TlvBody>)
    requires head0 <= end <= tail < 0x8000 && tail + OVERREAD <= input.Length && end - head0 < 0x8000
    ensures r == DecodeBody(0x2, input[..tail], head0, end)
  {
    var head := head0 + 8;
    if head > end { return Err(MessageSize); }
    var text := DecodeText(input, head, end, ERROR_DISPLAY_DATA_SIZE, tail);
    if text.Err? { return Err(text.error); }
    return Ok(ErrorStatus(GetBe16(input[head0..head0 + 2], 0), GetBe16(input[head0 + 2..head0 + 4], 0),
                          UntilNul(text.value)));
  }

  method DecodeTimeOffsetTlv(input: array<u8>, head0: nat, end: nat, ghost tail: nat) returns (r: Result<TlvBody>)
    requires head0 <= end <= tail < 0x8000 && tail + OVERREAD <= input.Length && end - head0 < 0x8000
    ensures r == DecodeBody(0x9, input[..tail], head0, end)
  {
    var head := head0 + 15;
    if head > end { return Err(MessageSize); }
    var offset := ToSigned32(GetBe32(input[head0 + 1..head0 + 5], 0));
    var jump := ToSigned32(GetBe32(input[head0 + 5..head0 + 9], 0));
    var next := GetBe16(input[head0 + 9..head0 + 11], 0) * TWO32 + GetBe32(input[head0 + 11..head0 + 15], 0);
    var text := DecodeText(input, head, end, DISPLAY_NAME_SIZE, tail);
    if text.Err? { return Err(text.error); }
    return Ok(TimeOffset(input[head0], offset, jump, next, UntilNul(text.value)));
  }

  /** A TLV's contents between `head` and `end`; the switch of ptp_decode_tlv. */
  method DecodeTlvBody(input: array<u8>, code: u16, head: nat, end: nat, ghost tail: nat) returns (r: Result<TlvBody>)
    requires head <= end <= tail < 0x8000 && tail + OVERREAD <= input.Length && end - head < 0x8000
    ensures r == DecodeBody(code, input[..tail], head, end)
  {
    if code == 0x1 {
      var data := DecodeManagementTlv(input, head, end, tail);
      if data.Err? { return Err(data.error); }
      return Ok(ManagementTlv(data.value));
    } else if code == 0x2 {
      r := DecodeErrorStatusTlv(input, head, end, tail);
    } else if code == 0x4 {
      if head + 6 > end { return Err(MessageSize); }
      return Ok(RequestUnicast(input[head] / 0x10, input[head + 1], GetBe32(input[head + 2..head + 6], 0)));
    } else if code == 0x5 {
      if head + 8 > end { return Err(MessageSize); }
      return Ok(GrantUnicast(input[head] / 0x10, input[head + 1], GetBe32(input[head + 2..head + 6], 0),
                             input[head + 7] / 0x10));
    } else if code == 0x6 {
      if head + 2 > end { return Err(MessageSize); }
      return Ok(CancelUnicast(input[head] / 0x10, input[head] % 4));
    } else if code == 0x7 {
      if head + 2 > end { return Err(MessageSize); }
      return Ok(AcknowledgeCancelUnicast(input[head] / 0x10, input[head] % 4));
    } else if code == 0x9 {
      r := DecodeTimeOffsetTlv(input, head, end, tail);
    } else if code == 0x8008 {
      return Ok(Pad(end - head));
    } else if code == 0x8009 {
      if head + 6 > end { return Err(MessageSize); }
      return Ok(Authentication(input[head], input[head + 1], GetBe32(input[head + 2..head + 6], 0),
                               head + 6, end - head - 6));
    } else {
      return Err(Invalid);
    }
  }

  /** Reads the TLV header first, even when fewer than four bytes are left. */
  method DecodeTlv(input: array<u8>, head0: nat, tail: nat) returns (r: Result<(TlvBody, nat)>)
    requires head0 < tail < 0x8000 && tail + OVERREAD <= input.Length
    ensures r == PtpWire.DecodeTlv(input[..tail], head0)
  {
    var code := GetBe16(input[head0..head0 + 2], 0);
    var length := GetBe16(input[head0 + 2..head0 + 4], 0);
    var head := head0 + TLV_HEADER_SIZE;
    var end := head + length;
    if head > tail || end > tail { return Err(MessageSize); }
    var body := DecodeTlvBody(input, code, head, end, tail);
    if body.Err? { return Err(body.error); }
    return Ok((body.value, end));
  }

  /** The loop of ptp_decode_message, from the end of the payload. */
  method DecodeTlvList(input: array<u8>, head0: nat, tail: nat) returns (r: Result<seq<Tlv>>)
    requires head0 <= tail < 0x8000 && tail + OVERREAD <= input.Length
    ensures r == DecodeTlvs(input[..tail], head0, MAX_TLV_COUNT)
  {
    hide PtpWire.DecodeTlv;
    ghost var data := input[..tail];
    var head := head0;
    var tlvs: seq<Tlv> := [];
    assert forall rest: seq<Tlv> :: [] + rest == rest;
    while |tlvs| < MAX_TLV_COUNT
      invariant |tlvs| <= MAX_TLV_COUNT && 0 <= head <= tail
      invariant DecodeTlvs(data, head0, MAX_TLV_COUNT) ==
                match DecodeTlvs(data, head, MAX_TLV_COUNT - |tlvs|)
                case Ok(rest) => Ok(tlvs + rest)
                case Err(e) => Err(e)
    {
      if head >= tail { break; }
      var tlv := DecodeTlv(input, head, tail);
      if tlv.Err? { return Err(tlv.error); }
      ghost var one := [Tlv(false, tlv.value.0)];
      assert forall rest: seq<Tlv> :: tlvs + (one + rest) == tlvs + one + rest;
      tlvs := tlvs + [Tlv(false, tlv.value.0)];
      head := tlv.value.1;
    }
    assert tlvs + [] == tlvs;
    r := Ok(tlvs);
  }

  method DecodeHeader(input: array<u8>, tail: nat) returns (m: Message)
    requires HEADER_SIZE <= tail <= input.Length
    ensures m == HeaderOf(input[..tail], UnknownPayload(0), [])
  {
    var portId := DecodePortId(input, 20, tail);
    m := Message(
      GetBe16(input[30..32], 0), false, (input[0] / 0x10) as int * 0x100 + input[5], input[4], portId,
      GetLe16(input[6..8], 0), GetBe64(input[8..16], 0), input[32], input[33], UnknownPayload(0), []);
  }

  method DecodeMessage(input: array<u8>, length: int) returns (r: Result<Message>)
    requires -0x8000 <= length < 0x8000 && length + OVERREAD <= input.Length
    ensures r == if length < 0 then Err(MessageSize) else PtpWire.DecodeMessage(input[..length])
  {
    hide DecodeTlvs, PtpWire.DecodePayload;
    if HEADER_SIZE > length { return Err(MessageSize); }
    var header := DecodeHeader(input, length);
    var payload := DecodePayload(input, input[0] % 0x10, HEADER_SIZE, length);
    if payload.Err? { return Err(payload.error); }
    var tlvs := DecodeTlvList(input, payload.value.1, length);
    if tlvs.Err? { return Err(tlvs.error); }
    r := Ok(header.(payload := payload.value.0, tlvs := tlvs.value));
  }
}
