/**
 * The service's copy of the decoder, which reads TLV lengths as signed. A
 * length of 0x8000 or more is negative there, so a TLV may end in front of its
 * own contents; only a pad survives that, and it sends the decoder backwards.
 */
module PtpSigned {
  import opened Bytes
  import opened PtpMessage
  import opened PtpWire
  import opened Wrappers
  import PtpDecoding

  /** TLV types that the decoder knows and that have contents to read. */
  predicate HasContents(code: u16) {
    code in {0x1, 0x2, 0x4, 0x5, 0x6, 0x7, 0x9, 0x8009}
  }

  /** The TLV at `at`, and the position after it, which may lie in front of it. */
  function DecodeTlv(data: seq<u8>, at: nat): (r: Result<(TlvBody, int)>)
    requires at < |data| < 0x8000
    ensures r.Ok? ==> r.value.1 <= |data|
  {
    if at + TLV_HEADER_SIZE > |data| then Err(MessageSize)
    else
      var code, length := GetBe16(data, at), GetBe16(data, at + 2);
      var end := at + TLV_HEADER_SIZE + ToSigned16(length);
      if end > |data| then Err(MessageSize)
      else if length < 0x8000 then
        var body :- DecodeBody(code, data, at + TLV_HEADER_SIZE, end);
        Ok((body, end))
      else if code == 0x8008 then Ok((Pad(length), end))
      else Err(if HasContents(code) then MessageSize else Invalid)
  }

  /** The TLVs from `at` on; nothing if the decoder would leave the buffer at its front. */
  function DecodeTlvs(data: seq<u8>, at: nat, room: nat): (r: Option<Result<seq<Tlv>>>)
    requires at <= |data| < 0x8000
    ensures r.Some? && r.value.Ok? ==> |r.value.value| <= room
    decreases room
  {
    if room == 0 || at == |data| then Some(Ok([]))
    else
      match DecodeTlv(data, at)
      case Err(e) => Some(Err(e))
      case Ok((body, next)) =>
        if next < 0 then None
        else
          match DecodeTlvs(data, next, room - 1)
          case None => None
          case Some(Err(e)) => Some(Err(e))
          case Some(Ok(rest)) => Some(Ok([Tlv(false, body)] + rest))
  }

  function DecodeMessage(data: seq<u8>): (r: Option<Result<Message>>)
    requires |data| < 0x8000
    ensures r.Some? && r.value.Ok? ==> |r.value.value.tlvs| <= MAX_TLV_COUNT
  {
    if HEADER_SIZE > |data| then Some(Err(MessageSize))
    else
      match DecodePayload(data[0] % 0x10, data, HEADER_SIZE)
      case Err(e) => Some(Err(e))
      case Ok((payload, at)) =>
        match DecodeTlvs(data, at, MAX_TLV_COUNT)
        case None => None
        case Some(Err(e)) => Some(Err(e))
        case Some(Ok(tlvs)) => Some(Ok(HeaderOf(data, payload, tlvs)))
  }

  // ---- Agreement with the unsigned copy

  /** The unsigned decoder gets to a TLV whose length is 0x8000 or more. */
  predicate ReachesLong(data: seq<u8>, at: nat, room: nat)
    requires at <= |data| < 0x8000
    decreases room
  {
    && room > 0 && at + TLV_HEADER_SIZE <= |data|
    && (GetBe16(data, at + 2) >= 0x8000 ||
        (PtpWire.DecodeTlv(data, at).Ok? && ReachesLong(data, PtpWire.DecodeTlv(data, at).value.1, room - 1)))
  }

  predicate MessageReachesLong(data: seq<u8>)
    requires |data| < 0x8000
  {
    && HEADER_SIZE <= |data| && DecodePayload(data[0] % 0x10, data, HEADER_SIZE).Ok?
    && ReachesLong(data, DecodePayload(data[0] % 0x10, data, HEADER_SIZE).value.1, MAX_TLV_COUNT)
  }

  lemma ShortTlvsAgree(data: seq<u8>, at: nat)
    requires at < |data| < 0x8000
    requires at + TLV_HEADER_SIZE <= |data| ==> GetBe16(data, at + 2) < 0x8000
    ensures match PtpWire.DecodeTlv(data, at)
            case Err(e) => DecodeTlv(data, at) == Err(e)
            case Ok((body, end)) => DecodeTlv(data, at) == Ok((body, end as int))
  {
    hide DecodeBody, GetBe16;
  }

  /** A TLV with a negative length: only a pad is decoded, and the decoder goes back. */
  lemma LongTlvs(data: seq<u8>, at: nat)
    requires at + TLV_HEADER_SIZE <= |data| < 0x8000 && GetBe16(data, at + 2) >= 0x8000
    ensures PtpWire.DecodeTlv(data, at) == Err(MessageSize)
    ensures DecodeTlv(data, at).Ok? <==> GetBe16(data, at) == 0x8008
    ensures DecodeTlv(data, at).Ok? ==>
            DecodeTlv(data, at).value.0.Pad? && DecodeTlv(data, at).value.1 < at + TLV_HEADER_SIZE
  {
    hide DecodeBody, GetBe16;
  }

  lemma {:induction false} TlvsAgree(data: seq<u8>, at: nat, room: nat)
    requires at <= |data| < 0x8000 && !ReachesLong(data, at, room)
    ensures DecodeTlvs(data, at, room) == Some(PtpWire.DecodeTlvs(data, at, room))
    decreases room
  {
    hide DecodeTlv, PtpWire.DecodeTlv;
    if room > 0 && at < |data| {
      ShortTlvsAgree(data, at);
      var tlv := PtpWire.DecodeTlv(data, at);
      if tlv.Ok? { TlvsAgree(data, tlv.value.1, room - 1); }
    }
  }

  lemma {:induction false} DecodedReachesNoLong(data: seq<u8>, at: nat, room: nat)
    requires at <= |data| < 0x8000 && PtpWire.DecodeTlvs(data, at, room).Ok?
    ensures !ReachesLong(data, at, room)
    decreases room
  {
    hide DecodeBody, GetBe16;
    if room > 0 && at < |data| {
      DecodedReachesNoLong(data, PtpWire.DecodeTlv(data, at).value.1, room - 1);
    }
  }

  /**
   * The two copies decode alike, errors included, unless a length of 0x8000 or
   * more is reached; so the service accepts whatever the unsigned copy accepts.
   */
  lemma CopiesAgree(data: seq<u8>)
    requires |data| < 0x8000
    ensures !MessageReachesLong(data) ==> DecodeMessage(data) == Some(PtpWire.DecodeMessage(data))
    ensures PtpWire.DecodeMessage(data).Ok? ==> DecodeMessage(data) == Some(PtpWire.DecodeMessage(data))
  {
    hide DecodePayload, DecodeTlvs, PtpWire.DecodeTlvs, ReachesLong, HeaderOf;
    if HEADER_SIZE <= |data| && DecodePayload(data[0] % 0x10, data, HEADER_SIZE).Ok? {
      var at := DecodePayload(data[0] % 0x10, data, HEADER_SIZE).value.1;
      if PtpWire.DecodeTlvs(data, at, MAX_TLV_COUNT).Ok? { DecodedReachesNoLong(data, at, MAX_TLV_COUNT); }
      if !ReachesLong(data, at, MAX_TLV_COUNT) { TlvsAgree(data, at, MAX_TLV_COUNT); }
    }
  }

  /**
   * Behind the same TLVs both copies reach a TLV whose length is 0x8000 or more,
   * which the unsigned one rejects for its size and the other does not: it is of
   * an unknown type, or a pad from which decoding goes on to anything else.
   */
  predicate Differ(data: seq<u8>, at: nat, room: nat)
    requires at <= |data| < 0x8000
    decreases room
  {
    && room > 0 && at + TLV_HEADER_SIZE <= |data|
    && if GetBe16(data, at + 2) >= 0x8000
       then !HasContents(GetBe16(data, at)) && DecodeTlvs(data, at, room) != Some(Err(MessageSize))
       else PtpWire.DecodeTlv(data, at).Ok? && Differ(data, PtpWire.DecodeTlv(data, at).value.1, room - 1)
  }

  predicate MessagesDiffer(data: seq<u8>)
    requires |data| < 0x8000
  {
    && HEADER_SIZE <= |data| && DecodePayload(data[0] % 0x10, data, HEADER_SIZE).Ok?
    && Differ(data, DecodePayload(data[0] % 0x10, data, HEADER_SIZE).value.1, MAX_TLV_COUNT)
  }

  lemma {:induction false} TlvsDifferIff(data: seq<u8>, at: nat, room: nat)
    requires at <= |data| < 0x8000
    ensures DecodeTlvs(data, at, room) != Some(PtpWire.DecodeTlvs(data, at, room)) <==> Differ(data, at, room)
    decreases room
  {
    hide DecodeBody, GetBe16, DecodeTlv, PtpWire.DecodeTlv;
    if room == 0 || at == |data| { return; }
    if at + TLV_HEADER_SIZE <= |data| && GetBe16(data, at + 2) >= 0x8000 {
      LongTlvs(data, at);
      LongContents(data, at);
    } else {
      ShortTlvsAgree(data, at);
      HeaderNeedsRoom(data, at);
      var tlv := PtpWire.DecodeTlv(data, at);
      if tlv.Ok? {
        var next := tlv.value.1;
        TlvsDifferIff(data, next, room - 1);
        SamePrefix(Tlv(false, tlv.value.0), DecodeTlvs(data, next, room - 1), PtpWire.DecodeTlvs(data, next, room - 1));
      }
    }
  }

  lemma HeaderNeedsRoom(data: seq<u8>, at: nat)
    requires at < |data| < 0x8000
    ensures PtpWire.DecodeTlv(data, at).Ok? ==> at + TLV_HEADER_SIZE <= |data|
  {}

  /** A negative length leaves no contents to read. */
  lemma LongContents(data: seq<u8>, at: nat)
    requires at + TLV_HEADER_SIZE <= |data| < 0x8000 && GetBe16(data, at + 2) >= 0x8000
    ensures HasContents(GetBe16(data, at)) ==> DecodeTlv(data, at) == Err(MessageSize)
  {
    hide DecodeBody;
  }

  lemma SamePrefix(tlv: Tlv, a: Option<Result<seq<Tlv>>>, b: Result<seq<Tlv>>)
    ensures a.Some? && a.value.Ok? && b.Ok? ==> ([tlv] + a.value.value == [tlv] + b.value <==> a.value.value == b.value)
  {
    if a.Some? && a.value.Ok? && b.Ok? && [tlv] + a.value.value == [tlv] + b.value {
      assert a.value.value == ([tlv] + a.value.value)[1..] == ([tlv] + b.value)[1..] == b.value;
    }
  }

  /** Exactly when the two copies of the decoder return different results. */
  lemma CopiesDifferIff(data: seq<u8>)
    requires |data| < 0x8000
    ensures DecodeMessage(data) != Some(PtpWire.DecodeMessage(data)) <==> MessagesDiffer(data)
  {
    hide DecodePayload, DecodeTlvs, PtpWire.DecodeTlvs, Differ;
    if HEADER_SIZE <= |data| && DecodePayload(data[0] % 0x10, data, HEADER_SIZE).Ok? {
      TlvsDifferIff(data, DecodePayload(data[0] % 0x10, data, HEADER_SIZE).value.1, MAX_TLV_COUNT);
    }
  }

  /** Even after going back, every ICV lies inside the message. */
  lemma {:induction false} IcvsAreInMessage(data: seq<u8>, at: nat, room: nat)
    requires at <= |data| < 0x8000 && DecodeTlvs(data, at, room).Some? && DecodeTlvs(data, at, room).value.Ok?
    ensures var tlvs := DecodeTlvs(data, at, room).value.value;
            forall i :: 0 <= i < |tlvs| && tlvs[i].body.Authentication? ==>
              tlvs[i].body.icv + tlvs[i].body.icvLength <= |data|
    ensures var tlvs := DecodeTlvs(data, at, room).value.value;
            forall i :: 0 <= i < |tlvs| ==> !tlvs[i].authenticated
    decreases room
  {
    hide DecodeTlv;
    if room == 0 || at == |data| { return; }
    var (body, next) := DecodeTlv(data, at).value;
    var tlvs, rest := DecodeTlvs(data, at, room).value.value, DecodeTlvs(data, next, room - 1).value.value;
    IcvsAreInMessage(data, next, room - 1);
    TlvIcvInMessage(data, at);
    forall i | 0 <= i < |tlvs|
      ensures tlvs[i].body.Authentication? ==> tlvs[i].body.icv + tlvs[i].body.icvLength <= |data|
      ensures !tlvs[i].authenticated
    {
      if i > 0 { assert tlvs[i] == rest[i - 1]; }
    }
  }

  lemma TlvIcvInMessage(data: seq<u8>, at: nat)
    requires at < |data| < 0x8000 && DecodeTlv(data, at).Ok?
    ensures var body := DecodeTlv(data, at).value.0;
            body.Authentication? ==> body.icv + body.icvLength <= |data|
  {
    hide DecodeText, DecodeManagement, UntilNul, GetBe32;
  }

  // ---- In place

  method DecodeTlvInPlace(input: array<u8>, head0: nat, tail: nat) returns (r: Result<(TlvBody, int)>)
    requires head0 < tail < 0x8000 && tail + PtpDecoding.OVERREAD <= input.Length
    ensures r == DecodeTlv(input[..tail], head0)
  {
    hide DecodeBody;
    var code := GetBe16(input[head0..head0 + 2], 0);
    var length := GetBe16(input[head0 + 2..head0 + 4], 0);
    var head := head0 + TLV_HEADER_SIZE;
    var end := head + ToSigned16(length);
    if head > tail || end > tail { return Err(MessageSize); }
    if length < 0x8000 {
      var body := PtpDecoding.DecodeTlvBody(input, code, head, end, tail);
      if body.Err? { return Err(body.error); }
      return Ok((body.value, end));
    }
    if code == 0x8008 { return Ok((Pad(length), end)); }
    // the contents end in front of their first byte
    if HasContents(code) { return Err(MessageSize); }
    r := Err(Invalid);
  }

  method DecodeTlvList(input: array<u8>, head0: nat, tail: nat) returns (r: Option<Result<seq<Tlv>>>)
    requires head0 <= tail < 0x8000 && tail + PtpDecoding.OVERREAD <= input.Length
    ensures r == DecodeTlvs(input[..tail], head0, MAX_TLV_COUNT)
  {
    hide DecodeTlv;
    ghost var data := input[..tail];
    var head := head0;
    var tlvs: seq<Tlv> := [];
    assert forall rest: seq<Tlv> :: [] + rest == rest;
    while |tlvs| < MAX_TLV_COUNT
      invariant |tlvs| <= MAX_TLV_COUNT && 0 <= head <= tail
      invariant DecodeTlvs(data, head0, MAX_TLV_COUNT) ==
                match DecodeTlvs(data, head, MAX_TLV_COUNT - |tlvs|)
                case None => None
                case Some(Err(e)) => Some(Err(e))
                case Some(Ok(rest)) => Some(Ok(tlvs + rest))
    {
      if head >= tail { break; }
      var tlv := DecodeTlvInPlace(input, head, tail);
      if tlv.Err? { return Some(Err(tlv.error)); }
      if tlv.value.1 < 0 { return None; }
      ghost var one := [Tlv(false, tlv.value.0)];
      assert forall rest: seq<Tlv> :: tlvs + (one + rest) == tlvs + one + rest;
      tlvs := tlvs + [Tlv(false, tlv.value.0)];
      head := tlv.value.1;
    }
    assert tlvs + [] == tlvs;
    r := Some(Ok(tlvs));
  }

  /** `ptp_decode_message` of the service. */
  method DecodeInPlace(input: array<u8>, length: int) returns (r: Option<Result<Message>>)
    requires -0x8000 <= length < 0x8000 && length + PtpDecoding.OVERREAD <= input.Length
    ensures r == if length < 0 then Some(Err(MessageSize)) else DecodeMessage(input[..length])
  {
    hide DecodeTlvs, DecodePayload;
    if HEADER_SIZE > length { return Some(Err(MessageSize)); }
    var header := PtpDecoding.DecodeHeader(input, length);
    var payload := PtpDecoding.DecodePayload(input, input[0] % 0x10, HEADER_SIZE, length);
    if payload.Err? { return Some(Err(payload.error)); }
    var tlvs := DecodeTlvList(input, payload.value.1, length);
    if tlvs.None? { return None; }
    if tlvs.value.Err? { return Some(Err(tlvs.value.error)); }
    r := Some(Ok(header.(payload := payload.value.0, tlvs := tlvs.value.value)));
  }
}
