/**
 * Encoding a decoded message again: the same cells, one more pad TLV. The one
 * field that does not survive is the flags of a GRANT TLV.
 */
module PtpReencoding {
  import opened Bytes
  import opened PtpMessage
  import opened PtpWire
  import opened PtpRoundTrip

  predicate KeepsFlags(body: TlvBody) {
    body.GrantUnicast? ==> body.flags % 4 == 0
  }

  /** The cells of a pad TLV. */
  function PadCells(length: u16): Cells {
    Word(TlvCode(Pad(length))) + (Word(length) + Octets(seq(length, i => 0)))
  }

  predicate AllKeepFlags(tlvs: seq<Tlv>) {
    forall i :: 0 <= i < |tlvs| ==> KeepsFlags(tlvs[i].body)
  }

  lemma Split48Again(x: u64)
    ensures var y := x % 0x1_0000_0000_0000;
            y / TWO32 % 0x1_0000 == x / TWO32 % 0x1_0000 && y % TWO32 == x % TWO32
  {
    var q, y := x / 0x1_0000_0000_0000, x % 0x1_0000_0000_0000;
    assert x == (q * 0x1_0000 + y / TWO32) * TWO32 + y % TWO32;
    assert x / TWO32 == q * 0x1_0000 + y / TWO32;
  }

  /** Encoding the wire form of `body` repeats its cells, up to the flags of a GRANT. */
  ghost predicate BodyRepeats(body: TlvBody, at: nat)
    requires BodyCells(body).Ok?
  {
    var wire := WireBody(body, at);
    && TlvCode(wire) == TlvCode(body) && CheckedFirst(wire) == CheckedFirst(body)
    && BodyCells(wire).Ok? && |BodyCells(wire).value| == |BodyCells(body).value|
    && (BodyCells(wire) == BodyCells(body) <==> KeepsFlags(body))
  }

  lemma BodyReencodes(body: TlvBody, at: nat)
    requires BodyCells(body).Ok?
    ensures BodyRepeats(body, at)
  {
    hide WireBody, TlvCode, CheckedFirst, BodyRepeats, KeepsFlags;
    match body
    case ManagementTlv(_) => ManagementReencodes(body, at);
    case ErrorStatus(_, _, _) => ErrorStatusReencodes(body, at);
    case RequestUnicast(_, _, _) => RequestReencodes(body, at);
    case GrantUnicast(_, _, _, _) => GrantReencodes(body, at);
    case CancelUnicast(_, _) => CancelReencodes(body, at);
    case AcknowledgeCancelUnicast(_, _) => CancelReencodes(body, at);
    case TimeOffset(_, _, _, _, _) => TimeOffsetReencodes(body, at);
    case Pad(_) => PadReencodes(body, at);
    case Authentication(_, _, _, _, _) => AuthenticationReencodes(body, at);
  }

  lemma ManagementReencodes(body: TlvBody, at: nat)
    requires body.ManagementTlv? && BodyCells(body).Ok?
    ensures BodyRepeats(body, at)
  {
    if body.data.UserDescriptionData? {
      var n := WireLength(body.data.length);
      assert Described(body.data.data[..n])[..n] == body.data.data[..n];
    }
  }

  lemma ErrorStatusReencodes(body: TlvBody, at: nat)
    requires body.ErrorStatus?
    ensures BodyRepeats(body, at)
  {
    WordKept(body.errorId);
    WordKept(body.id);
    hide Word, TextCells, Gaps;
  }

  lemma WordKept(x: nat)
    ensures Word(x % 0x1_0000) == Word(x)
  {}

  lemma UnicastByteKept(t: u32, flags: u32)
    ensures UnicastByte(t % 0x10, flags % 4) == UnicastByte(t, flags)
    ensures UnicastByte(t % 0x10, 0) == UnicastByte(t, 0)
  {}

  lemma RequestReencodes(body: TlvBody, at: nat)
    requires body.RequestUnicast?
    ensures BodyRepeats(body, at)
  {
    UnicastByteKept(body.messageType, 0);
    hide UnicastByte;
  }

  lemma CancelReencodes(body: TlvBody, at: nat)
    requires body.CancelUnicast? || body.AcknowledgeCancelUnicast?
    ensures BodyRepeats(body, at)
  {
    UnicastByteKept(body.messageType, body.flags);
    hide UnicastByte;
  }

  lemma GrantReencodes(body: TlvBody, at: nat)
    requires body.GrantUnicast?
    ensures BodyRepeats(body, at)
  {
    UnicastByteKept(body.messageType, 0);
    hide UnicastByte;
    assert BodyCells(body).value[7] == Octet(body.flags % 4);
    assert BodyCells(WireBody(body, at)).value[7] == Octet(0);
  }

  lemma TimeOffsetReencodes(body: TlvBody, at: nat)
    requires body.TimeOffset?
    ensures BodyRepeats(body, at)
  {
    Split48Again(body.nextJump);
  }

  lemma PadReencodes(body: TlvBody, at: nat)
    requires body.Pad?
    ensures BodyRepeats(body, at)
  {}

  lemma AuthenticationReencodes(body: TlvBody, at: nat)
    requires body.Authentication?
    ensures BodyRepeats(body, at)
  {}

  lemma TlvReencodes(body: TlvBody, at: nat, room: nat, room': nat)
    requires TlvCells(body, room).Ok? && |TlvCells(body, room).value| <= room'
    ensures var wire := TlvCells(WireBody(body, at), room');
            wire.Ok? && |wire.value| == TlvSize(body) == |TlvCells(body, room).value|
            && (wire == TlvCells(body, room) <==> KeepsFlags(body))
  {
    BodyReencodes(body, at);
    hide BodyCells, WireBody, TlvCode, KeepsFlags, Word;
    var c, c' := BodyCells(body).value, BodyCells(WireBody(body, at)).value;
    SameBehind(Word(TlvCode(body)), Word(|c|), c, c');
  }

  lemma SameBehind(a: Cells, b: Cells, c: Cells, c': Cells)
    ensures a + (b + c) == a + (b + c') <==> c == c'
  {
    assert (a + (b + c))[|a| + |b|..] == c && (a + (b + c'))[|a| + |b|..] == c';
  }

  lemma {:induction false} TlvsReencode(tlvs: seq<Tlv>, at: nat, room: nat, room': nat)
    requires TlvsCells(tlvs, room).Ok? && |TlvsCells(tlvs, room).value| <= room'
    ensures var wire := TlvsCells(WireTlvs(tlvs, at), room');
            wire.Ok? && |wire.value| == |TlvsCells(tlvs, room).value|
            && (wire == TlvsCells(tlvs, room) <==> AllKeepFlags(tlvs))
  {
    hide TlvCells, WireBody, KeepsFlags, TlvSize;
    if tlvs != [] {
      var c := TlvCells(tlvs[0].body, room).value;
      TlvReencodes(tlvs[0].body, at, room, room');
      var c' := TlvCells(WireBody(tlvs[0].body, at), room').value;
      TlvsReencode(tlvs[1..], at + |c|, room - |c|, room' - |c|);
      var rest := TlvsCells(tlvs[1..], room - |c|).value;
      var rest' := TlvsCells(WireTlvs(tlvs[1..], at + |c|), room' - |c|).value;
      assert WireTlvs(tlvs, at)[1..] == WireTlvs(tlvs[1..], at + |c|);
      assert (c + rest)[..|c|] == c && (c' + rest')[..|c|] == c';
      assert (c + rest)[|c|..] == rest && (c' + rest')[|c|..] == rest';
      assert AllKeepFlags(tlvs) <==> KeepsFlags(tlvs[0].body) && AllKeepFlags(tlvs[1..]);
    }
  }

  lemma WireTlvCells(body: TlvBody, at: nat, room: nat, room': nat)
    requires TlvCells(body, room).Ok? && KeepsFlags(body)
    ensures var cells := TlvCells(body, room).value;
            TlvCells(WireBody(body, at), room') == if room' < |cells| then Err(MessageSize) else Ok(cells)
    ensures TlvSize(body) == |TlvCells(body, room).value|
  {
    BodyReencodes(body, at);
    hide BodyCells, WireBody, TlvCode, KeepsFlags;
  }

  lemma PadTlvCells(length: u16, room: nat)
    ensures TlvCells(Pad(length), room) ==
            if room < TLV_HEADER_SIZE + length then Err(MessageSize) else Ok(PadCells(length))
    ensures |PadCells(length)| == TLV_HEADER_SIZE + length
  {}

  lemma OnlyPad(pad: Tlv, room: nat)
    requires pad.body.Pad?
    ensures var end := PadCells(pad.body.length);
            TlvsCells([pad], room) == if room < |end| then Err(MessageSize) else Ok(end)
  {
    hide TlvCells, PadCells;
    PadTlvCells(pad.body.length, room);
    var end := PadCells(pad.body.length);
    assert [pad][1..] == [] && end + [] == end;
  }

  /** The received TLVs encode as they did, followed by the pad, if there is room. */
  lemma {:induction false} WireTlvsCells(tlvs: seq<Tlv>, pad: Tlv, at: nat, room: nat, room': nat)
    requires TlvsCells(tlvs, room).Ok? && AllKeepFlags(tlvs) && pad.body.Pad?
    ensures var cells := TlvsCells(tlvs, room).value + PadCells(pad.body.length);
            TlvsCells(WireTlvs(tlvs, at) + [pad], room') ==
            if room' < |cells| then Err(MessageSize) else Ok(cells)
    ensures |TlvsCells(tlvs, room).value| == TlvsSize(tlvs)
    decreases tlvs
  {
    hide TlvCells, WireBody, KeepsFlags, TlvSize, PadCells;
    var end := PadCells(pad.body.length);
    var wire := WireTlvs(tlvs, at) + [pad];
    if tlvs == [] {
      OnlyPad(pad, room');
      assert wire == [pad] && [] + end == end;
    } else {
      var first := TlvCells(tlvs[0].body, room).value;
      WireTlvCells(tlvs[0].body, at, room, room');
      assert wire[1..] == WireTlvs(tlvs[1..], at + |first|) + [pad];
      if |first| <= room' {
        WireTlvsCells(tlvs[1..], pad, at + |first|, room - |first|, room' - |first|);
      } else {
        WireTlvsCells(tlvs[1..], pad, at + |first|, room - |first|, 0);
      }
      var rest := TlvsCells(tlvs[1..], room - |first|).value;
      assert first + (rest + end) == first + rest + end;
    }
  }

  lemma PayloadReencodes(payload: Payload)
    ensures PayloadCells(WirePayload(payload)) == PayloadCells(payload)
    ensures PayloadCode(WirePayload(payload)) == PayloadCode(payload)
  {
    hide TimestampCells, PortIdCells, Octets;
  }

  /** What a receiver decodes of `m`, given a free slot for the pad. */
  function Received(m: Message): (received: Message)
    ensures |m.tlvs| < MAX_TLV_COUNT ==> received == Delivered(m)
  {
    WireMessage(m).(tlvs := WireMessage(m).tlvs + [FinalPad(m)])
  }

  lemma SdoIdKept(id: u16)
    ensures id % 0x1000 / 0x100 % 0x10 == id / 0x100 % 0x10 && id % 0x1000 % 0x100 == id % 0x100
  {
    assert id / 0x100 == id / 0x1000 * 0x10 + id % 0x1000 / 0x100;
  }

  lemma PadOfAligned(length: nat)
    requires (length + NETWORK_OVERHEAD) % ALIGNMENT == 0
    ensures PadLength(length) == 12
  {}

  lemma ReceivedHeader(m: Message, length: Cells)
    requires |length| == 2
    ensures HeaderCells(Received(m), length) == HeaderCells(m, length)
  {
    PayloadReencodes(m.payload);
    SdoIdKept(m.sdoId);
    hide PortIdCells, Octets, WirePayload, PayloadCode, WireTlvs, FinalPad, Be64, Be16, Le16;
  }

  lemma TlvSizeIs(body: TlvBody, room: nat)
    requires TlvCells(body, room).Ok?
    ensures |TlvCells(body, room).value| == TlvSize(body)
  {
    hide BodyCells;
  }

  lemma {:induction false} TlvsSizeIs(tlvs: seq<Tlv>, room: nat)
    requires TlvsCells(tlvs, room).Ok?
    ensures |TlvsCells(tlvs, room).value| == TlvsSize(tlvs)
  {
    hide TlvCells, PtpRoundTrip.TlvSize;
    if tlvs != [] {
      TlvSizeIs(tlvs[0].body, room);
      TlvsSizeIs(tlvs[1..], room - |TlvCells(tlvs[0].body, room).value|);
    }
  }

  lemma ContentParts(m: Message, room: nat)
    requires ContentCells(m, room).Ok?
    ensures var payload := PayloadCells(m.payload);
            && payload.Ok? && |payload.value| <= room
            && TlvsCells(m.tlvs, room - |payload.value|).Ok?
            && ContentCells(m, room).value
               == payload.value + TlvsCells(m.tlvs, room - |payload.value|).value + PadCells(FinalPad(m).body.length)
  {
    hide PayloadCells, TlvsCells, TlvCells, PadCells, PadLength;
    var payload := PayloadCells(m.payload).value;
    var tlvs := TlvsCells(m.tlvs, room - |payload|).value;
    TlvsSizeIs(m.tlvs, room - |payload|);
    PadTlvCells(FinalPad(m).body.length, room - |payload + tlvs|);
  }

  lemma ContentOfAligned(m: Message, room: nat, payload: Cells, tlvs: Cells)
    requires PayloadCells(m.payload) == Ok(payload) && |payload| <= room
    requires TlvsCells(m.tlvs, room - |payload|) == Ok(tlvs)
    requires (HEADER_SIZE + |payload + tlvs| + NETWORK_OVERHEAD) % ALIGNMENT == 0
    ensures ContentCells(m, room) ==
            if room < |payload + tlvs| + ALIGNMENT then Err(MessageSize) else Ok(payload + tlvs + PadCells(12))
  {
    hide PayloadCells, TlvsCells, TlvCells, PadCells, PadLength;
    PadOfAligned(HEADER_SIZE + |payload + tlvs|);
    PadTlvCells(12, room - |payload + tlvs|);
  }

  lemma ContentTooLong(m: Message, room: nat, payload: Cells)
    requires PayloadCells(m.payload) == Ok(payload)
    requires |payload| <= room ==> TlvsCells(m.tlvs, room - |payload|) == Err(MessageSize)
    ensures ContentCells(m, room) == Err(MessageSize)
  {
    hide PayloadCells, TlvsCells;
  }

  lemma ContentReencodes(m: Message, room: nat, room': nat)
    requires ContentCells(m, room).Ok? && AllKeepFlags(m.tlvs)
    ensures var contents := ContentCells(m, room).value;
            ContentCells(Received(m), room') ==
            if room' < |contents| + ALIGNMENT then Err(MessageSize) else Ok(contents + PadCells(12))
  {
    hide ContentCells, PayloadCells, WirePayload, TlvsCells, TlvCells, PadCells, FinalPad;
    ContentParts(m, room);
    PayloadReencodes(m.payload);
    var contents := ContentCells(m, room).value;
    var payload := PayloadCells(m.payload).value;
    var tlvs := TlvsCells(m.tlvs, room - |payload|).value;
    var pad := FinalPad(m);
    WireTlvsCells(m.tlvs, pad, HEADER_SIZE + |payload|, room - |payload|,
                  if |payload| <= room' then room' - |payload| else 0);
    assert payload + (tlvs + PadCells(pad.body.length)) == contents;
    if |contents| <= room' {
      ContentOfAligned(Received(m), room', payload, tlvs + PadCells(pad.body.length));
    } else {
      ContentTooLong(Received(m), room', payload);
    }
  }

  /**
   * Encoding the received message again needs 16 bytes more and then repeats the
   * first encoding, except for the length field and 12 more bytes of padding.
   */
  lemma ReencodingAppendsOnePad(m: Message, length: int, length': int)
    requires MessageCells(m, length).Ok? && AllKeepFlags(m.tlvs)
    ensures var first := MessageCells(m, length).value;
            first == HeaderCells(m, Word(|first|)) + first[HEADER_SIZE..]
    ensures var first := MessageCells(m, length).value;
            MessageCells(Received(m), length') ==
            if length' < |first| + ALIGNMENT then Err(MessageSize)
            else Ok(HeaderCells(m, Word(|first| + ALIGNMENT)) + first[HEADER_SIZE..] + PadCells(12))
  {
    hide ContentCells, HeaderCells, PadCells, WireMessage, Received;
    var first := MessageCells(m, length).value;
    var contents := ContentCells(m, length - HEADER_SIZE).value;
    assert first == HeaderCells(m, Word(|first|)) + contents;
    assert first[HEADER_SIZE..] == contents;
    ReceivedHeader(m, Word(|first| + ALIGNMENT));
    PadTlvCells(12, 0);
    if HEADER_SIZE <= length' {
      ContentReencodes(m, length - HEADER_SIZE, length' - HEADER_SIZE);
      var header := HeaderCells(m, Word(|first| + ALIGNMENT));
      assert header + (contents + PadCells(12)) == header + contents + PadCells(12);
    }
  }

  /**
   * A full message is received without its pad, so encoding it again gives the
   * same bytes.
   */
  lemma FullMessageReencodes(m: Message, length: int, length': int)
    requires |m.tlvs| == MAX_TLV_COUNT && AllKeepFlags(m.tlvs)
    requires MessageCells(m, length).Ok? && |MessageCells(m, length).value| <= length'
    ensures MessageCells(Delivered(m), length') == MessageCells(m, length)
  {
    hide PayloadCells, WirePayload, TlvsCells, TlvCells, PadCells, FinalPad, HeaderCells, WireTlvs, PadLength;
    var room, room' := length - HEADER_SIZE, length' - HEADER_SIZE;
    ContentParts(m, room);
    PayloadReencodes(m.payload);
    FullHeader(m, Word(|MessageCells(m, length).value|));
    var payload := PayloadCells(m.payload).value;
    TlvsReencode(m.tlvs, HEADER_SIZE + |payload|, room - |payload|, room' - |payload|);
    var tlvs := TlvsCells(m.tlvs, room - |payload|).value;
    var pad := PadLength(HEADER_SIZE + |payload + tlvs|);
    PadTlvCells(pad, room - |payload + tlvs|);
    PadTlvCells(pad, room' - |payload + tlvs|);
    assert WireTlvs(m.tlvs, HEADER_SIZE + |payload|) + [] == WireTlvs(m.tlvs, HEADER_SIZE + |payload|);
  }

  lemma FullHeader(m: Message, length: Cells)
    requires |length| == 2
    ensures HeaderCells(Delivered(m), length) == HeaderCells(m, length)
  {
    PayloadReencodes(m.payload);
    SdoIdKept(m.sdoId);
    hide PortIdCells, Octets, WirePayload, PayloadCode, WireTlvs, FinalPad, Be64, Be16, Le16;
  }

  /** Encode, decode, encode: what the second encoding is, for every number of TLVs. */
  lemma DecodedReencodes(m: Message, length: int, data: seq<u8>, length': int)
    requires |m.tlvs| <= MAX_TLV_COUNT && AllKeepFlags(m.tlvs) && length < 0x8000 && MessageCells(m, length).Ok?
    requires |data| == |MessageCells(m, length).value| && Fits(MessageCells(m, length).value, data, 0)
    requires length' >= |data| + ALIGNMENT
    ensures |data| < 0x8000 && DecodeMessage(data).Ok?
    ensures var first := MessageCells(m, length).value;
            MessageCells(DecodeMessage(data).value, length') ==
            if |m.tlvs| == MAX_TLV_COUNT then Ok(first)
            else Ok(HeaderCells(m, Word(|first| + ALIGNMENT)) + first[HEADER_SIZE..] + PadCells(12))
  {
    hide MessageCells, DecodeMessage, HeaderCells, PadCells, Delivered;
    MessageRoundTrip(m, length, data);
    if |m.tlvs| == MAX_TLV_COUNT {
      FullMessageReencodes(m, length, length');
    } else {
      ReencodingAppendsOnePad(m, length, length');
    }
  }
}
