/**
 * Decoding undoes encoding. The statements are about every buffer that fits
 * the encoder's cells, so reserved bytes, padding and ICVs may hold anything.
 */
module PtpRoundTrip {
  import opened Bytes
  import opened PtpMessage
  import opened PtpWire

  // ---- Fields

  lemma FitsConcat(a: Cells, b: Cells, data: seq<u8>, at: nat)
    requires Fits(a + b, data, at)
    ensures Fits(a, data, at) && Fits(b, data, at + |a|)
  {
    forall i | 0 <= i < |a| && a[i].Octet?
      ensures data[at + i] == a[i].value
    {
      assert (a + b)[i] == a[i];
    }
    forall i | 0 <= i < |b| && b[i].Octet?
      ensures data[at + |a| + i] == b[i].value
    {
      assert (a + b)[|a| + i] == b[i];
    }
  }

  lemma FitsOctets(s: seq<u8>, data: seq<u8>, at: nat)
    requires Fits(Octets(s), data, at)
    ensures data[at..at + |s|] == s
  {
    forall i | 0 <= i < |s|
      ensures data[at + i] == s[i]
    {
      assert Octets(s)[i] == Octet(s[i]);
    }
  }

  lemma FitsBe16(x: u16, data: seq<u8>, at: nat)
    requires Fits(Octets(Be16(x)), data, at)
    ensures GetBe16(data, at) == x
  {
    FitsOctets(Be16(x), data, at);
    assert data[at] == data[at..at + 2][0] && data[at + 1] == data[at..at + 2][1];
  }

  lemma FitsWord(x: int, data: seq<u8>, at: nat)
    requires Fits(Word(x), data, at)
    ensures GetBe16(data, at) == x % 0x1_0000
  {
    FitsBe16(x % 0x1_0000, data, at);
  }

  lemma OctetsConcat(a: seq<u8>, b: seq<u8>)
    ensures Octets(a + b) == Octets(a) + Octets(b)
  {}

  lemma FitsBe32(x: u32, data: seq<u8>, at: nat)
    requires Fits(Octets(Be32(x)), data, at)
    ensures GetBe32(data, at) == x
  {
    var high, low := Be16(x / 0x1_0000), Be16(x % 0x1_0000);
    OctetsConcat(high, low);
    FitsConcat(Octets(high), Octets(low), data, at);
    FitsBe16(x / 0x1_0000, data, at);
    FitsBe16(x % 0x1_0000, data, at + 2);
  }

  lemma FitsBe64(x: u64, data: seq<u8>, at: nat)
    requires Fits(Octets(Be64(x)), data, at)
    ensures GetBe64(data, at) == x
  {
    var high, low := Be32(x / TWO32), Be32(x % TWO32);
    OctetsConcat(high, low);
    FitsConcat(Octets(high), Octets(low), data, at);
    FitsBe32(x / TWO32, data, at);
    FitsBe32(x % TWO32, data, at + 4);
  }

  lemma FitsLe16(x: u16, data: seq<u8>, at: nat)
    requires Fits(Octets(Le16(x)), data, at)
    ensures GetLe16(data, at) == x
  {
    FitsOctets(Le16(x), data, at);
    assert data[at] == data[at..at + 2][0] && data[at + 1] == data[at..at + 2][1];
  }

  lemma ModShift(x: int, q: int)
    ensures (x + TWO64 * q) % TWO64 == x % TWO64
  {
    assert x + TWO64 * q == TWO64 * (x / TWO64 + q) + x % TWO64;
  }

  lemma ModAdd(a: int, d: int)
    ensures (a + d % TWO64) % TWO64 == (a + d) % TWO64
  {
    ModShift(a + d % TWO64, d / TWO64);
  }

  lemma TimestampParts(t: u64)
    ensures var seconds := t / 1_000_000_000;
            seconds % 0xffff_0000_0000 / TWO32 * TWO32 + seconds % TWO32 == seconds
  {
    var seconds := t / 1_000_000_000;
    assert seconds < 0xffff_0000_0000;
  }

  lemma TimestampWhole(seconds: nat, t: u64)
    requires seconds == t / 1_000_000_000
    ensures (seconds * 1_000_000_000 + t % 1_000_000_000) % TWO64 == t
  {}

  /**
   * The 48-bit seconds and the nanoseconds carry all 2^64 timestamps, although
   * the high seconds are masked with `%` instead of `&`.
   */
  lemma TimestampRoundTrip(t: u64, data: seq<u8>, at: nat)
    requires Fits(TimestampCells(t), data, at)
    ensures GetTimestamp(data, at) == t
  {
    var seconds := t / 1_000_000_000;
    var high, low := Octets(Be16(seconds % 0xffff_0000_0000 / TWO32)), Octets(Be32(seconds % TWO32));
    var nanoseconds := Octets(Be32(t % 1_000_000_000));
    FitsConcat(high, low + nanoseconds, data, at);
    FitsConcat(low, nanoseconds, data, at + 2);
    FitsBe16(seconds % 0xffff_0000_0000 / TWO32, data, at);
    FitsBe32(seconds % TWO32, data, at + 2);
    FitsBe32(t % 1_000_000_000, data, at + 6);
    TimestampParts(t);
    TimestampWhole(seconds, t);
  }

  /** The offset `start` minus the clock, added to the clock later on. */
  lemma StartPlusElapsed(start: u64, created: u64, now: u64)
    ensures (now + (start - created) % TWO64) % TWO64 == (start + (now - created)) % TWO64
  {
    ModAdd(now, start - created);
    assert now + (start - created) == start + (now - created);
  }

  /**
   * The offset stored at creation, `start` minus the clock, makes every later
   * TIME the start plus the nanoseconds elapsed, modulo 2^64.
   */
  lemma PortTimeIsStartPlusElapsed(start: u64, created: u64, now: u64, data: seq<u8>, at: nat)
    requires Fits(TimestampCells((now + (start - created) % TWO64) % TWO64), data, at)
    ensures GetTimestamp(data, at) == (start + (now - created)) % TWO64
  {
    StartPlusElapsed(start, created, now);
    TimestampRoundTrip((now + (start - created) % TWO64) % TWO64, data, at);
  }

  lemma PortIdRoundTrip(p: PortId, data: seq<u8>, at: nat)
    requires Fits(PortIdCells(p), data, at)
    ensures GetPortId(data, at) == p
  {
    FitsConcat(Octets(Be64(p.clockId)), Octets(Be16(p.port)), data, at);
    FitsBe64(p.clockId, data, at);
    FitsBe16(p.port, data, at + 8);
  }

  lemma TextRoundTrip(text: seq<u8>, padding: nat, data: seq<u8>, at: nat, end: nat, limit: nat)
    requires |text| <= limit < 0x100
    requires Fits(TextCells(text, padding), data, at)
    requires at + 1 + |text| + padding <= end <= |data|
    ensures DecodeText(data, at, end, limit) == Ok(text)
  {
    var tail := Octets(text) + Gaps(padding);
    FitsConcat([Octet(|text|)], tail, data, at);
    assert [Octet(|text|)][0] == Octet(|text|);
    FitsConcat(Octets(text), Gaps(padding), data, at + 1);
    FitsOctets(text, data, at + 1);
  }

  lemma UntilNulIsIdentity(s: seq<u8>)
    requires 0 !in s
    ensures UntilNul(s) == s
  {}

  // ---- What a message looks like after a trip over the wire

  function WirePayload(payload: Payload): Payload {
    match payload
    case Event(kind, t, p) => Event(kind, t, if CarriesPort(kind) then p else NO_PORT)
    case Announce(t, utcOffset, priority, quality, id, steps, source) =>
      Announce(t, utcOffset, priority,
               ClockQuality(quality.clockClass % 0x100, quality.accuracy % 0x100, quality.variance),
               id, steps, source % 0x100)
    case Signaling(p) => payload
    case Management(p, startingHops, hops, action) => Management(p, startingHops, hops, action % 0x100)
    case UnknownPayload(_) => payload
  }

  /** The body a receiver sees of a TLV that starts at `at`. */
  function WireBody(body: TlvBody, at: nat): TlvBody {
    match body
    case ManagementTlv(UserDescriptionData(length, data)) =>
      var n := WireLength(length);
      if n > USER_DESCRIPTION_SIZE then body
      else ManagementTlv(UserDescriptionData(n, Described(data[..n])))
    case ErrorStatus(errorId, id, display) => ErrorStatus(errorId % 0x1_0000, id % 0x1_0000, display)
    case RequestUnicast(t, interval, duration) => RequestUnicast(t % 0x10, interval, duration)
    case GrantUnicast(t, interval, duration, _) => GrantUnicast(t % 0x10, interval, duration, 0)
    case CancelUnicast(t, flags) => CancelUnicast(t % 0x10, flags % 4)
    case AcknowledgeCancelUnicast(t, flags) => AcknowledgeCancelUnicast(t % 0x10, flags % 4)
    case TimeOffset(key, offset, jump, next, name) =>
      TimeOffset(key, offset, jump, next % 0x1_0000_0000_0000, name)
    case Authentication(policy, indicator, keyId, _, icvLength) =>
      Authentication(policy % 0x100, indicator, keyId, at + TLV_HEADER_SIZE + 6, icvLength)
    case _ => body
  }

  function TlvSize(body: TlvBody): nat {
    TLV_HEADER_SIZE + (if BodyCells(body).Ok? then |BodyCells(body).value| else 0)
  }

  function WireTlvs(tlvs: seq<Tlv>, at: nat): (wire: seq<Tlv>)
    ensures |wire| == |tlvs|
  {
    if tlvs == [] then []
    else [Tlv(false, WireBody(tlvs[0].body, at))] + WireTlvs(tlvs[1..], at + TlvSize(tlvs[0].body))
  }

  function PayloadSize(payload: Payload): nat {
    if PayloadCells(payload).Ok? then |PayloadCells(payload).value| else 0
  }

  function TlvsSize(tlvs: seq<Tlv>): nat {
    if tlvs == [] then 0 else TlvSize(tlvs[0].body) + TlvsSize(tlvs[1..])
  }

  /** The pad TLV that the encoder appends to `m`. */
  function FinalPad(m: Message): (pad: Tlv)
    ensures pad.body.Pad? && !pad.authenticated
  {
    Tlv(false, Pad(PadLength(HEADER_SIZE + PayloadSize(m.payload) + TlvsSize(m.tlvs))))
  }

  function WireMessage(m: Message): Message {
    m.(authenticated := false, sdoId := m.sdoId % 0x1000, payload := WirePayload(m.payload),
       tlvs := WireTlvs(m.tlvs, HEADER_SIZE + PayloadSize(m.payload)))
  }

  /** What a receiver decodes: the pad follows if the decoder has a slot left for it. */
  function Delivered(m: Message): Message {
    var wire := WireMessage(m);
    wire.(tlvs := wire.tlvs + if |m.tlvs| < MAX_TLV_COUNT then [FinalPad(m)] else [])
  }

  // ---- The round trips

  lemma PayloadRoundTrip(payload: Payload, data: seq<u8>, at: nat)
    requires PayloadCells(payload).Ok? && Fits(PayloadCells(payload).value, data, at)
    ensures DecodePayload(PayloadCode(payload), data, at)
         == Ok((WirePayload(payload), at + |PayloadCells(payload).value|))
  {
    match payload
    case Event(kind, t, p) =>
      if CarriesPort(kind) {
        FitsConcat(TimestampCells(t), PortIdCells(p), data, at);
        PortIdRoundTrip(p, data, at + 10);
      } else if kind == PdelayRequest {
        FitsConcat(TimestampCells(t), Gaps(10), data, at);
      }
      TimestampRoundTrip(t, data, at);
    case Announce(_, _, _, _, _, _, _) => AnnounceRoundTrip(payload, data, at);
    case Signaling(p) => PortIdRoundTrip(p, data, at);
    case Management(p, startingHops, hops, action) =>
      var rest := [Octet(startingHops), Octet(hops), Octet(action % 0x100), Gap];
      FitsConcat(PortIdCells(p), rest, data, at);
      PortIdRoundTrip(p, data, at);
      assert rest[0].Octet? && rest[1].Octet? && rest[2].Octet?;
  }

  lemma AnnounceRoundTrip(payload: Payload, data: seq<u8>, at: nat)
    requires payload.Announce? && Fits(PayloadCells(payload).value, data, at)
    ensures DecodePayload(0xb, data, at) == Ok((WirePayload(payload), at + 30))
  {
    var Announce(t, utcOffset, priority, quality, id, steps, source) := payload;
    var c4 :=
      [Octet(priority % 0x100)] + (Octets(Be64(id)) + (Octets(Be16(steps)) + [Octet(source % 0x100)]));
    var c3 := QualityCells(quality) + c4;
    var c2 := [Gap, Octet(priority / 0x100)] + c3;
    var c1 := Octets(Be16(utcOffset)) + c2;
    FitsConcat(TimestampCells(t), c1, data, at);
    FitsConcat(Octets(Be16(utcOffset)), c2, data, at + 10);
    FitsConcat([Gap, Octet(priority / 0x100)], c3, data, at + 12);
    FitsConcat(QualityCells(quality), c4, data, at + 14);
    AnnounceTail(priority, id, steps, source, data, at + 18);
    TimestampRoundTrip(t, data, at);
    FitsBe16(utcOffset, data, at + 10);
    assert [Gap, Octet(priority / 0x100)][1].Octet?;
    var classes := [Octet(quality.clockClass % 0x100), Octet(quality.accuracy % 0x100)];
    FitsConcat(classes, Octets(Be16(quality.variance)), data, at + 14);
    assert classes[0].Octet? && classes[1].Octet?;
    FitsBe16(quality.variance, data, at + 16);
  }

  lemma AnnounceTail(priority: u16, id: u64, steps: u16, source: u32, data: seq<u8>, at: nat)
    requires Fits([Octet(priority % 0x100)] + (Octets(Be64(id)) + (Octets(Be16(steps)) + [Octet(source % 0x100)])),
                  data, at)
    ensures at + 12 <= |data| && data[at] == priority % 0x100 && data[at + 11] == source % 0x100
    ensures GetBe64(data, at + 1) == id && GetBe16(data, at + 9) == steps
  {
    var end := [Octet(source % 0x100)];
    FitsConcat([Octet(priority % 0x100)], Octets(Be64(id)) + (Octets(Be16(steps)) + end), data, at);
    FitsConcat(Octets(Be64(id)), Octets(Be16(steps)) + end, data, at + 1);
    FitsConcat(Octets(Be16(steps)), end, data, at + 9);
    assert [Octet(priority % 0x100)][0].Octet? && end[0].Octet?;
    FitsBe64(id, data, at + 1);
    FitsBe16(steps, data, at + 9);
  }

  /** The contents of `body`, stored behind a TLV header at `at`, decode to its wire form. */
  ghost predicate BodyTrips(body: TlvBody, data: seq<u8>, at: nat)
    requires BodyCells(body).Ok? && |data| < 0x8000
    requires Fits(BodyCells(body).value, data, at + TLV_HEADER_SIZE)
  {
    var start := at + TLV_HEADER_SIZE;
    && TlvCode(body) < 0x1_0000
    && DecodeBody(TlvCode(body), data, start, start + |BodyCells(body).value|) == Ok(WireBody(body, at))
  }

  lemma BodyRoundTrip(body: TlvBody, data: seq<u8>, at: nat)
    requires BodyCells(body).Ok? && |data| < 0x8000
    requires Fits(BodyCells(body).value, data, at + TLV_HEADER_SIZE)
    ensures BodyTrips(body, data, at)
  {
    hide DecodeBody, WireBody, BodyTrips;
    match body
    case ManagementTlv(_) => ManagementRoundTrip(body, data, at);
    case ErrorStatus(_, _, _) => ErrorStatusRoundTrip(body, data, at);
    case RequestUnicast(_, _, _) => RequestRoundTrip(body, data, at);
    case GrantUnicast(_, _, _, _) => GrantRoundTrip(body, data, at);
    case CancelUnicast(_, _) => CancelRoundTrip(body, data, at);
    case AcknowledgeCancelUnicast(_, _) => CancelRoundTrip(body, data, at);
    case TimeOffset(_, _, _, _, _) => TimeOffsetRoundTrip(body, data, at);
    case Pad(_) => PadRoundTrip(body, data, at);
    case Authentication(_, _, _, _, _) => AuthenticationRoundTrip(body, data, at);
  }

  lemma RequestRoundTrip(body: TlvBody, data: seq<u8>, at: nat)
    requires body.RequestUnicast? && |data| < 0x8000
    requires Fits(BodyCells(body).value, data, at + TLV_HEADER_SIZE)
    ensures BodyTrips(body, data, at)
  {
    var start := at + TLV_HEADER_SIZE;
    var RequestUnicast(t, interval, duration) := body;
    var head := [Octet(UnicastByte(t, 0)), Octet(interval)];
    FitsConcat(head, Octets(Be32(duration)), data, start);
    assert head[0].Octet? && head[1].Octet?;
    FitsBe32(duration, data, start + 2);
  }

  lemma GrantRoundTrip(body: TlvBody, data: seq<u8>, at: nat)
    requires body.GrantUnicast? && |data| < 0x8000
    requires Fits(BodyCells(body).value, data, at + TLV_HEADER_SIZE)
    ensures BodyTrips(body, data, at)
  {
    var start := at + TLV_HEADER_SIZE;
    var GrantUnicast(t, interval, duration, flags) := body;
    var head, end := [Octet(UnicastByte(t, 0)), Octet(interval)], [Gap, Octet(flags % 4)];
    FitsConcat(head, Octets(Be32(duration)) + end, data, start);
    FitsConcat(Octets(Be32(duration)), end, data, start + 2);
    assert head[0].Octet? && head[1].Octet? && end[1].Octet?;
    FitsBe32(duration, data, start + 2);
  }

  lemma CancelRoundTrip(body: TlvBody, data: seq<u8>, at: nat)
    requires (body.CancelUnicast? || body.AcknowledgeCancelUnicast?) && |data| < 0x8000
    requires Fits(BodyCells(body).value, data, at + TLV_HEADER_SIZE)
    ensures BodyTrips(body, data, at)
  {
    assert BodyCells(body).value[0].Octet?;
  }

  lemma PadRoundTrip(body: TlvBody, data: seq<u8>, at: nat)
    requires body.Pad? && |data| < 0x8000
    requires Fits(BodyCells(body).value, data, at + TLV_HEADER_SIZE)
    ensures BodyTrips(body, data, at)
  {}

  lemma AuthenticationRoundTrip(body: TlvBody, data: seq<u8>, at: nat)
    requires body.Authentication? && |data| < 0x8000
    requires Fits(BodyCells(body).value, data, at + TLV_HEADER_SIZE)
    ensures BodyTrips(body, data, at)
  {
    var start := at + TLV_HEADER_SIZE;
    var Authentication(policy, indicator, keyId, _, icvLength) := body;
    var head := [Octet(policy % 0x100), Octet(indicator)];
    FitsConcat(head, Octets(Be32(keyId)) + Gaps(icvLength), data, start);
    FitsConcat(Octets(Be32(keyId)), Gaps(icvLength), data, start + 2);
    assert head[0].Octet? && head[1].Octet?;
    FitsBe32(keyId, data, start + 2);
  }

  lemma ManagementRoundTrip(body: TlvBody, data: seq<u8>, at: nat)
    requires body.ManagementTlv? && BodyCells(body).Ok? && |data| < 0x8000
    requires Fits(BodyCells(body).value, data, at + TLV_HEADER_SIZE)
    ensures BodyTrips(body, data, at)
  {
    var start := at + TLV_HEADER_SIZE;
    match body.data
    case UserDescriptionData(length, bytes) =>
      var text := bytes[..WireLength(length)];
      var padding := (|text| + 1) % 2;
      FitsConcat(Word(ID_USER_DESCRIPTION), TextCells(text, padding), data, start);
      FitsWord(ID_USER_DESCRIPTION, data, start);
      TextRoundTrip(text, padding, data, start + 2, start + 2 + 1 + |text| + padding, USER_DESCRIPTION_SIZE);
    case TimeData(t) =>
      FitsConcat(Word(ID_TIME), TimestampCells(t), data, start);
      FitsWord(ID_TIME, data, start);
      TimestampRoundTrip(t, data, start + 2);
  }

  lemma ErrorStatusRoundTrip(body: TlvBody, data: seq<u8>, at: nat)
    requires body.ErrorStatus? && |data| < 0x8000
    requires Fits(BodyCells(body).value, data, at + TLV_HEADER_SIZE)
    ensures BodyTrips(body, data, at)
  {
    var start := at + TLV_HEADER_SIZE;
    var ErrorStatus(errorId, id, display) := body;
    var padding := (|display| + 1) % 2;
    var text := TextCells(display, padding);
    FitsConcat(Word(errorId), Word(id) + (Gaps(4) + text), data, start);
    FitsConcat(Word(id), Gaps(4) + text, data, start + 2);
    FitsConcat(Gaps(4), text, data, start + 4);
    FitsWord(errorId, data, start);
    FitsWord(id, data, start + 2);
    TextRoundTrip(display, padding, data, start + 8, start + 9 + |display| + padding, ERROR_DISPLAY_DATA_SIZE);
    UntilNulIsIdentity(display);
  }

  lemma SignedRoundTrip(x: i32)
    ensures ToSigned32(ToUnsigned32(x)) == x
  {}

  lemma Split48(x: u64)
    ensures x / TWO32 % 0x1_0000 * TWO32 + x % TWO32 == x % 0x1_0000_0000_0000
  {
    var high := x / TWO32;
    assert x == high / 0x1_0000 * 0x1_0000_0000_0000 + (high % 0x1_0000 * TWO32 + x % TWO32);
  }

  lemma TimeOffsetRoundTrip(body: TlvBody, data: seq<u8>, at: nat)
    requires body.TimeOffset? && |data| < 0x8000
    requires Fits(BodyCells(body).value, data, at + TLV_HEADER_SIZE)
    ensures BodyTrips(body, data, at)
  {
    hide Fits, GetBe16, GetBe32, TextCells, DecodeText, ToSigned32, ToUnsigned32, UntilNul;
    var start, name := at + TLV_HEADER_SIZE, body.name;
    var padding := (|name| + 1) % 2;
    TimeOffsetSize(body);
    TimeOffsetFields(body, TextCells(name, padding), data, start);
    SignedRoundTrip(body.currentOffset);
    SignedRoundTrip(body.jumpSeconds);
    Split48(body.nextJump);
    TextRoundTrip(name, padding, data, start + 15, start + 16 + |name| + padding, DISPLAY_NAME_SIZE);
    UntilNulIsIdentity(name);
    hide BodyCells;
  }

  lemma TimeOffsetSize(body: TlvBody)
    requires body.TimeOffset?
    ensures BodyCells(body).Ok? && |BodyCells(body).value| == 15 + |TextCells(body.name, (|body.name| + 1) % 2)|
    ensures |BodyCells(body).value| == 16 + |body.name| + (|body.name| + 1) % 2
  {
    hide Octets;
  }

  lemma TimeOffsetFields(body: TlvBody, text: Cells, data: seq<u8>, start: nat)
    requires body.TimeOffset? && text == TextCells(body.name, (|body.name| + 1) % 2)
    requires Fits(BodyCells(body).value, data, start)
    ensures Fits(text, data, start + 15) && data[start] == body.key
    ensures GetBe32(data, start + 1) == ToUnsigned32(body.currentOffset)
    ensures GetBe32(data, start + 5) == ToUnsigned32(body.jumpSeconds)
    ensures GetBe16(data, start + 9) == body.nextJump / TWO32 % 0x1_0000
    ensures GetBe32(data, start + 11) == body.nextJump % TWO32
  {
    var TimeOffset(key, offset, jump, next, name) := body;
    var c4 := Octets(Be32(next % TWO32)) + text;
    var c3 := Octets(Be16(next / TWO32 % 0x1_0000)) + c4;
    var c2 := Octets(Be32(ToUnsigned32(jump))) + c3;
    var c1 := Octets(Be32(ToUnsigned32(offset))) + c2;
    FitsConcat([Octet(key)], c1, data, start);
    FitsConcat(Octets(Be32(ToUnsigned32(offset))), c2, data, start + 1);
    FitsConcat(Octets(Be32(ToUnsigned32(jump))), c3, data, start + 5);
    FitsConcat(Octets(Be16(next / TWO32 % 0x1_0000)), c4, data, start + 9);
    FitsConcat(Octets(Be32(next % TWO32)), text, data, start + 11);
    assert [Octet(key)][0].Octet?;
    FitsBe32(ToUnsigned32(offset), data, start + 1);
    FitsBe32(ToUnsigned32(jump), data, start + 5);
    FitsBe16(next / TWO32 % 0x1_0000, data, start + 9);
    FitsBe32(next % TWO32, data, start + 11);
  }

  lemma TlvRoundTrip(body: TlvBody, room: nat, data: seq<u8>, at: nat)
    requires TlvCells(body, room).Ok? && |data| < 0x8000
    requires Fits(TlvCells(body, room).value, data, at)
    ensures at < |data| && DecodeTlv(data, at) == Ok((WireBody(body, at), at + TlvSize(body)))
    ensures |TlvCells(body, room).value| == TlvSize(body)
  {
    hide BodyCells, DecodeBody, WireBody, TlvCode;
    var contents := BodyCells(body).value;
    FitsConcat(Word(TlvCode(body)), Word(|contents|) + contents, data, at);
    FitsConcat(Word(|contents|), contents, data, at + 2);
    FitsWord(TlvCode(body), data, at);
    FitsWord(|contents|, data, at + 2);
    BodyRoundTrip(body, data, at);
  }

  /** The last TLV is the pad, decoded if a slot is left for it. */
  lemma PadEndsTlvs(pad: Tlv, padRoom: nat, data: seq<u8>, at: nat, slots: nat)
    requires pad.body.Pad? && !pad.authenticated && TlvCells(pad.body, padRoom).Ok? && |data| < 0x8000
    requires Fits(TlvCells(pad.body, padRoom).value, data, at)
    requires |data| == at + |TlvCells(pad.body, padRoom).value|
    ensures DecodeTlvs(data, at, slots) == Ok(if 0 < slots then [pad] else [])
  {
    hide BodyCells, DecodeBody, TlvCells;
    TlvRoundTrip(pad.body, padRoom, data, at);
    if slots > 0 {
      assert DecodeTlvs(data, |data|, slots - 1) == Ok([]);
      assert [pad] + [] == [pad];
    }
  }

  lemma {:induction false} TlvsRoundTrip(
    tlvs: seq<Tlv>, pad: Tlv, room: nat, padRoom: nat, data: seq<u8>, at: nat, slots: nat)
    requires pad.body.Pad? && !pad.authenticated && TlvCells(pad.body, padRoom).Ok? && |data| < 0x8000
    requires TlvsCells(tlvs, room).Ok? && |tlvs| <= slots
    requires Fits(TlvsCells(tlvs, room).value + TlvCells(pad.body, padRoom).value, data, at)
    requires |data| == at + |TlvsCells(tlvs, room).value| + |TlvCells(pad.body, padRoom).value|
    ensures DecodeTlvs(data, at, slots) == Ok(WireTlvs(tlvs, at) + if |tlvs| < slots then [pad] else [])
    ensures |TlvsCells(tlvs, room).value| == TlvsSize(tlvs)
  {
    hide BodyCells, DecodeBody, WireBody, TlvCells, DecodeTlv;
    var padCells := TlvCells(pad.body, padRoom).value;
    if tlvs == [] {
      assert [] + padCells == padCells;
      PadEndsTlvs(pad, padRoom, data, at, slots);
      assert forall end: seq<Tlv> :: [] + end == end;
    } else {
      var first := TlvCells(tlvs[0].body, room).value;
      var rest := TlvsCells(tlvs[1..], room - |first|).value;
      assert first + rest + padCells == first + (rest + padCells);
      FitsConcat(first, rest + padCells, data, at);
      TlvRoundTrip(tlvs[0].body, room, data, at);
      TlvsRoundTrip(tlvs[1..], pad, room - |first|, padRoom, data, at + |first|, slots - 1);
      var end := if |tlvs| < slots then [pad] else [];
      var wire := [Tlv(false, WireBody(tlvs[0].body, at))];
      assert wire + (WireTlvs(tlvs[1..], at + |first|) + end) == wire + WireTlvs(tlvs[1..], at + |first|) + end;
    }
  }

  lemma HeaderFits(m: Message, length: Cells, data: seq<u8>)
    requires |length| == 2 && Fits(HeaderCells(m, length), data, 0)
    ensures Fits([Octet(PayloadCode(m.payload) % 0x10 + m.sdoId / 0x100 % 0x10 * 0x10), Octet(VERSION)], data, 0)
    ensures Fits(length, data, 2)
    ensures Fits([Octet(m.domain), Octet(m.sdoId % 0x100)], data, 4)
    ensures Fits(Octets(Le16(m.flags)), data, 6)
    ensures Fits(Octets(Be64(m.correction)), data, 8)
    ensures Fits(PortIdCells(m.portId), data, 20)
    ensures Fits(Octets(Be16(m.sequenceId)), data, 30)
    ensures Fits([Octet(m.control), Octet(m.logInterval)], data, 32)
  {
    hide Fits, Octets, PortIdCells;
    var c0 := [Octet(PayloadCode(m.payload) % 0x10 + m.sdoId / 0x100 % 0x10 * 0x10), Octet(VERSION)];
    var c2 := [Octet(m.domain), Octet(m.sdoId % 0x100)];
    var c7 := [Octet(m.control), Octet(m.logInterval)];
    var r6 := Octets(Be16(m.sequenceId)) + c7;
    var r5 := PortIdCells(m.portId) + r6;
    var r4 := Gaps(4) + r5;
    var r3 := Octets(Be64(m.correction)) + r4;
    var r2 := Octets(Le16(m.flags)) + r3;
    FitsConcat(c0, length + (c2 + r2), data, 0);
    FitsConcat(length, c2 + r2, data, 2);
    FitsConcat(c2, r2, data, 4);
    FitsConcat(Octets(Le16(m.flags)), r3, data, 6);
    FitsConcat(Octets(Be64(m.correction)), r4, data, 8);
    FitsConcat(Gaps(4), r5, data, 16);
    FitsConcat(PortIdCells(m.portId), r6, data, 20);
    FitsConcat(Octets(Be16(m.sequenceId)), c7, data, 30);
  }

  lemma FitsPair(a: u8, b: u8, data: seq<u8>, at: nat)
    requires Fits([Octet(a), Octet(b)], data, at)
    ensures data[at] == a && data[at + 1] == b
  {
    assert [Octet(a), Octet(b)][0].Octet? && [Octet(a), Octet(b)][1].Octet?;
  }

  lemma FirstByte(code: u32, id: u16, b: u8)
    requires b == code % 0x10 + id / 0x100 % 0x10 * 0x10
    ensures b % 0x10 == code % 0x10
    ensures (b / 0x10) as int * 0x100 + id % 0x100 == id % 0x1000
  {
    var high := id / 0x100 % 0x10;
    assert b / 0x10 == high;
    assert id == id / 0x1000 * 0x1000 + (high * 0x100 + id % 0x100);
  }

  lemma HeaderRoundTrip(m: Message, length: Cells, data: seq<u8>)
    requires |length| == 2 && Fits(HeaderCells(m, length), data, 0)
    ensures |data| >= HEADER_SIZE && Fits(length, data, 2)
    ensures data[0] % 0x10 == PayloadCode(m.payload) % 0x10
    ensures (data[0] / 0x10) as int * 0x100 + data[5] == m.sdoId % 0x1000
    ensures data[4] == m.domain && GetLe16(data, 6) == m.flags && GetBe64(data, 8) == m.correction
    ensures GetPortId(data, 20) == m.portId && GetBe16(data, 30) == m.sequenceId
    ensures data[32] == m.control && data[33] == m.logInterval
  {
    HeaderFits(m, length, data);
    hide Octets, HeaderCells, PortIdCells, GetBe64, GetPortId, PayloadCode;
    FitsPair(PayloadCode(m.payload) % 0x10 + m.sdoId / 0x100 % 0x10 * 0x10, VERSION, data, 0);
    FirstByte(PayloadCode(m.payload), m.sdoId, data[0]);
    FitsPair(m.domain, m.sdoId % 0x100, data, 4);
    FitsLe16(m.flags, data, 6);
    FitsBe64(m.correction, data, 8);
    PortIdRoundTrip(m.portId, data, 20);
    FitsBe16(m.sequenceId, data, 30);
    FitsPair(m.control, m.logInterval, data, 32);
  }

  lemma KnownPayloadCode(payload: Payload)
    requires PayloadCells(payload).Ok?
    ensures PayloadCode(payload) < 0x10
  {}

  /**
   * Every message the encoder accepts comes back with its wire-carried fields,
   * its TLVs in order, and the alignment pad behind them; the pad is lost only
   * when the message already has as many TLVs as the decoder keeps.
   */
  lemma MessageRoundTrip(m: Message, length: int, data: seq<u8>)
    requires |m.tlvs| <= MAX_TLV_COUNT && length < 0x8000
    requires MessageCells(m, length).Ok?
    requires |data| == |MessageCells(m, length).value| && Fits(MessageCells(m, length).value, data, 0)
    ensures |data| < 0x8000
    ensures DecodeMessage(data) == Ok(Delivered(m))
  {
    hide TlvsCells, PayloadCells, HeaderCells, TlvCells, DecodeTlvs, DecodePayload, WirePayload, WireTlvs, GetBe64,
      GetPortId, PadLength;
    var room := length - HEADER_SIZE;
    var contents := ContentCells(m, room).value;
    var header := HeaderCells(m, Word(HEADER_SIZE + |contents|));
    var payload := PayloadCells(m.payload).value;
    var tlvs := TlvsCells(m.tlvs, room - |payload|).value;
    var pad := Tlv(false, Pad(PadLength(HEADER_SIZE + |payload + tlvs|)));
    var padRoom := room - |payload + tlvs|;
    var padCells := TlvCells(pad.body, padRoom).value;
    FitsConcat(header, contents, data, 0);
    HeaderRoundTrip(m, Word(HEADER_SIZE + |contents|), data);
    assert contents == payload + (tlvs + padCells);
    FitsConcat(payload, tlvs + padCells, data, HEADER_SIZE);
    PayloadRoundTrip(m.payload, data, HEADER_SIZE);
    TlvsRoundTrip(m.tlvs, pad, room - |payload|, padRoom, data, HEADER_SIZE + |payload|, MAX_TLV_COUNT);
    KnownPayloadCode(m.payload);
  }

  // ---- Exactly which messages come back unchanged

  /** The fields of a TLV at `at` fit their wire format, and unsent parts are zero. */
  predicate FitsWire(body: TlvBody, at: nat) {
    match body
    case ManagementTlv(UserDescriptionData(length, data)) =>
      WireLength(length) <= USER_DESCRIPTION_SIZE ==>
        && 0 <= length <= USER_DESCRIPTION_SIZE
        && forall i :: length <= i < USER_DESCRIPTION_SIZE ==> data[i] == 0
    case ErrorStatus(errorId, id, _) => errorId < 0x1_0000 && id < 0x1_0000
    case RequestUnicast(t, _, _) => t < 0x10
    case GrantUnicast(t, _, _, flags) => t < 0x10 && flags == 0
    case CancelUnicast(t, flags) => t < 0x10 && flags < 4
    case AcknowledgeCancelUnicast(t, flags) => t < 0x10 && flags < 4
    case TimeOffset(_, _, _, next, _) => next < 0x1_0000_0000_0000
    case Authentication(policy, _, _, icv, _) => policy < 0x100 && icv == at + TLV_HEADER_SIZE + 6
    case _ => true
  }

  lemma BodyUnchangedIff(body: TlvBody, at: nat)
    ensures WireBody(body, at) == body <==> FitsWire(body, at)
  {
    if body.ManagementTlv? && body.data.UserDescriptionData? {
      var n, data := WireLength(body.data.length), body.data.data;
      if n <= USER_DESCRIPTION_SIZE {
        var sent := Described(data[..n]);
        assert forall i :: 0 <= i < USER_DESCRIPTION_SIZE ==> sent[i] == if i < n then data[i] else 0;
        if FitsWire(body, at) {
          assert sent == data;
        } else if body.data.length == n {
          var i :| n <= i < USER_DESCRIPTION_SIZE && data[i] != 0;
          assert sent[i] != data[i];
        }
      }
    }
  }

  predicate AllFitWire(tlvs: seq<Tlv>, at: nat) {
    tlvs != [] ==> && !tlvs[0].authenticated && FitsWire(tlvs[0].body, at)
                   && AllFitWire(tlvs[1..], at + TlvSize(tlvs[0].body))
  }

  lemma {:induction false} TlvsUnchangedIff(tlvs: seq<Tlv>, at: nat)
    ensures WireTlvs(tlvs, at) == tlvs <==> AllFitWire(tlvs, at)
    decreases |tlvs|
  {
    hide WireBody, FitsWire, TlvSize;
    if tlvs != [] {
      var next := at + TlvSize(tlvs[0].body);
      BodyUnchangedIff(tlvs[0].body, at);
      TlvsUnchangedIff(tlvs[1..], next);
      HeadAndTail(tlvs, Tlv(false, WireBody(tlvs[0].body, at)), WireTlvs(tlvs[1..], next));
    }
  }

  lemma HeadAndTail(tlvs: seq<Tlv>, head: Tlv, tail: seq<Tlv>)
    requires tlvs != []
    ensures [head] + tail == tlvs <==> head == tlvs[0] && tail == tlvs[1..]
  {
    assert ([head] + tail)[1..] == tail && ([head] + tail)[0] == head;
  }

  predicate PayloadFitsWire(payload: Payload) {
    match payload
    case Event(kind, _, p) => CarriesPort(kind) || p == NO_PORT
    case Announce(_, _, _, quality, _, _, source) =>
      quality.clockClass < 0x100 && quality.accuracy < 0x100 && source < 0x100
    case Management(_, _, _, action) => action < 0x100
    case _ => true
  }

  lemma PayloadUnchangedIff(payload: Payload)
    ensures WirePayload(payload) == payload <==> PayloadFitsWire(payload)
  {}

  lemma SdoIdUnchangedIff(id: u16)
    ensures id % 0x1000 == id <==> id < 0x1000
  {}

  /** A message survives the wire unchanged, up to the pad, if and only if its fields fit their formats. */
  lemma MessageUnchangedIff(m: Message)
    ensures WireMessage(m) == m <==>
            && !m.authenticated && m.sdoId < 0x1000 && PayloadFitsWire(m.payload)
            && AllFitWire(m.tlvs, HEADER_SIZE + PayloadSize(m.payload))
  {
    TlvsUnchangedIff(m.tlvs, HEADER_SIZE + PayloadSize(m.payload));
    PayloadUnchangedIff(m.payload);
    SdoIdUnchangedIff(m.sdoId);
    hide WireTlvs, AllFitWire, WirePayload, PayloadFitsWire, PayloadSize;
  }
}
