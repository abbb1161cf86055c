/**
 * What the encoder writes and what the decoder reads, as functions on values.
 *
 * The encoder leaves reserved fields, string padding and ICVs of the caller's
 * buffer untouched, so its output is a sequence of cells: an octet, or a gap
 * that keeps whatever the buffer held.
 */
module PtpWire {
  import opened Bytes
  import opened PtpMessage

  datatype Cell = Gap | Octet(value: u8)

  type Cells = seq<Cell>

  const VERSION: u8 := 0x12
  const NETWORK_OVERHEAD: nat := 14 + 20 + 8
  const ALIGNMENT: nat := 16

  function Octets(s: seq<u8>): (cells: Cells)
    ensures |cells| == |s|
  {
    seq(|s|, i requires 0 <= i < |s| => Octet(s[i]))
  }

  function Gaps(n: nat): (cells: Cells)
    ensures |cells| == n
  {
    seq(n, i => Gap)
  }

  /** `buffer` after `cells` have been stored from position `at` on. */
  function Overlay(buffer: seq<u8>, at: nat, cells: Cells): (result: seq<u8>)
    requires at + |cells| <= |buffer|
    ensures |result| == |buffer|
  {
    seq(|buffer|, i requires 0 <= i < |buffer| =>
      if at <= i < at + |cells| && cells[i - at].Octet? then cells[i - at].value else buffer[i])
  }

  /** `data` holds every octet of `cells` at position `at`; its gaps are free. */
  ghost predicate Fits(cells: Cells, data: seq<u8>, at: nat) {
    && at + |cells| <= |data|
    && forall i :: 0 <= i < |cells| && cells[i].Octet? ==> data[at + i] == cells[i].value
  }

  // ---- Field cells

  function Word(x: int): (cells: Cells)
    ensures |cells| == 2
  {
    Octets(Be16(x % 0x1_0000))
  }

  function TimestampCells(t: u64): (cells: Cells)
    ensures |cells| == 10
  {
    var seconds := t / 1_000_000_000;
    Octets(Be16(seconds % 0xffff_0000_0000 / TWO32))
    + (Octets(Be32(seconds % TWO32)) + Octets(Be32(t % 1_000_000_000)))
  }

  function PortIdCells(p: PortId): (cells: Cells)
    ensures |cells| == 10
  {
    Octets(Be64(p.clockId)) + Octets(Be16(p.port))
  }

  function QualityCells(q: ClockQuality): (cells: Cells)
    ensures |cells| == 4
  {
    [Octet(q.clockClass % 0x100), Octet(q.accuracy % 0x100)] + Octets(Be16(q.variance))
  }

  // ---- Encoding

  predicate CarriesPort(kind: EventKind) {
    kind != Sync && kind != DelayRequest && kind != PdelayRequest
  }

  function PayloadCells(payload: Payload): Result<Cells> {
    match payload
    case Event(kind, t, p) =>
      Ok(if CarriesPort(kind) then TimestampCells(t) + PortIdCells(p)
         else if kind == PdelayRequest then TimestampCells(t) + Gaps(10)
         else TimestampCells(t))
    case Announce(t, utcOffset, priority, quality, id, steps, source) =>
      Ok(TimestampCells(t) +
         (Octets(Be16(utcOffset)) +
          ([Gap, Octet(priority / 0x100)] +
           (QualityCells(quality) +
            ([Octet(priority % 0x100)] +
             (Octets(Be64(id)) +
              (Octets(Be16(steps)) + [Octet(source % 0x100)])))))))
    case Signaling(p) => Ok(PortIdCells(p))
    case Management(p, startingHops, hops, action) =>
      Ok(PortIdCells(p) + [Octet(startingHops), Octet(hops), Octet(action % 0x100), Gap])
    case UnknownPayload(_) => Err(Invalid)
  }

  /** A length byte, the text, and unwritten padding. */
  function TextCells(text: seq<u8>, padding: nat): Cells
    requires |text| < 0x100
  {
    [Octet(|text|)] + (Octets(text) + Gaps(padding))
  }

  function WireLength(length: i16): u8 {
    length % 0x100
  }

  function UnicastByte(messageType: u32, flags: u32): u8 {
    messageType % 0x10 * 0x10 + flags % 4
  }

  /** The TLV's contents after its header, unless it has no encoding at any size. */
  function BodyCells(body: TlvBody): (r: Result<Cells>)
    ensures r.Ok? ==> |r.value| < 0x1_0000
  {
    match body
    case ManagementTlv(UserDescriptionData(length, data)) =>
      var n := WireLength(length);
      if n > USER_DESCRIPTION_SIZE then Err(MessageSize)
      else Ok(Word(ID_USER_DESCRIPTION) + TextCells(data[..n], (n + 1) % 2))
    case ManagementTlv(TimeData(t)) => Ok(Word(ID_TIME) + TimestampCells(t))
    case ManagementTlv(UnknownData(_)) => Err(Invalid)
    case ErrorStatus(errorId, id, display) =>
      Ok(Word(errorId) + (Word(id) + (Gaps(4) + TextCells(display, (|display| + 1) % 2))))
    case RequestUnicast(t, interval, duration) =>
      Ok([Octet(UnicastByte(t, 0)), Octet(interval)] + Octets(Be32(duration)))
    case GrantUnicast(t, interval, duration, flags) =>
      Ok([Octet(UnicastByte(t, 0)), Octet(interval)] + (Octets(Be32(duration)) + [Gap, Octet(flags % 4)]))
    case CancelUnicast(t, flags) => Ok([Octet(UnicastByte(t, flags)), Gap])
    case AcknowledgeCancelUnicast(t, flags) => Ok([Octet(UnicastByte(t, flags)), Gap])
    case TimeOffset(key, offset, jump, next, name) =>
      Ok([Octet(key)] +
         (Octets(Be32(ToUnsigned32(offset))) +
          (Octets(Be32(ToUnsigned32(jump))) +
           (Octets(Be16(next / TWO32 % 0x1_0000)) +
            (Octets(Be32(next % TWO32)) + TextCells(name, (|name| + 1) % 2))))))
    case Pad(length) => Ok(Octets(seq(length, i => 0)))
    case Authentication(policy, indicator, keyId, _, icvLength) =>
      Ok([Octet(policy % 0x100), Octet(indicator)] + (Octets(Be32(keyId)) + Gaps(icvLength)))
    case UnknownTlv(_) => Err(Invalid)
  }

  /** How much of the contents is bounds-checked before the contents are rejected. */
  function CheckedFirst(body: TlvBody): nat {
    if body.ManagementTlv? then 2 else 0
  }

  /** One TLV with at most `room` bytes left in the buffer. */
  function TlvCells(body: TlvBody, room: nat): (r: Result<Cells>)
    ensures r.Ok? ==> TLV_HEADER_SIZE <= |r.value| <= room
  {
    if room < TLV_HEADER_SIZE + CheckedFirst(body) then Err(MessageSize)
    else
      var contents :- BodyCells(body);
      if TLV_HEADER_SIZE + |contents| > room then Err(MessageSize)
      else Ok(Word(TlvCode(body)) + (Word(|contents|) + contents))
  }

  function TlvsCells(tlvs: seq<Tlv>, room: nat): (r: Result<Cells>)
    ensures r.Ok? ==> |r.value| <= room
  {
    if tlvs == [] then Ok([])
    else
      var first :- TlvCells(tlvs[0].body, room);
      var rest :- TlvsCells(tlvs[1..], room - |first|);
      Ok(first + rest)
  }

  /** The header; its length field is stored last, so `length` may still be a gap. */
  function HeaderCells(m: Message, length: Cells): (cells: Cells)
    requires |length| == 2
    ensures |cells| == HEADER_SIZE
  {
    [Octet(PayloadCode(m.payload) % 0x10 + m.sdoId / 0x100 % 0x10 * 0x10), Octet(VERSION)] +
    (length +
     ([Octet(m.domain), Octet(m.sdoId % 0x100)] +
      (Octets(Le16(m.flags)) +
       (Octets(Be64(m.correction)) +
        (Gaps(4) +
         (PortIdCells(m.portId) +
          (Octets(Be16(m.sequenceId)) + [Octet(m.control), Octet(m.logInterval)])))))))
  }

  /** Contents length of the pad TLV that follows `length` bytes of message. */
  function PadLength(length: nat): (pad: u16)
    ensures pad < ALIGNMENT
  {
    -(length + NETWORK_OVERHEAD + TLV_HEADER_SIZE) % ALIGNMENT
  }

  lemma PadAligns(length: nat)
    ensures (length + TLV_HEADER_SIZE + PadLength(length) + NETWORK_OVERHEAD) % ALIGNMENT == 0
  {}

  /** Everything after the header. */
  function ContentCells(m: Message, room: nat): (r: Result<Cells>)
    ensures r.Ok? ==> |r.value| <= room
    ensures r.Ok? ==> (HEADER_SIZE + |r.value| + NETWORK_OVERHEAD) % ALIGNMENT == 0
  {
    var payload :- PayloadCells(m.payload);
    if |payload| > room then Err(MessageSize)
    else
      var tlvs :- TlvsCells(m.tlvs, room - |payload|);
      var contents := payload + tlvs;
      var pad :- TlvCells(Pad(PadLength(HEADER_SIZE + |contents|)), room - |contents|);
      PadAligns(HEADER_SIZE + |contents|);
      Ok(contents + pad)
  }

  /** A whole message in a buffer of `length` bytes. */
  function MessageCells(m: Message, length: int): (r: Result<Cells>)
    ensures r.Ok? ==> HEADER_SIZE <= |r.value| <= length
    ensures r.Ok? ==> (|r.value| + NETWORK_OVERHEAD) % ALIGNMENT == 0
  {
    if HEADER_SIZE > length then Err(MessageSize)
    else
      var contents :- ContentCells(m, length - HEADER_SIZE);
      Ok(HeaderCells(m, Word(HEADER_SIZE + |contents|)) + contents)
  }

  // ---- Behind the end of the buffer

  /**
   * What a TLV with `room` bytes left stores behind the end of the buffer: its
   * type goes in before any bounds check, and so do the contents of a pad.
   */
  function SpillCells(body: TlvBody, room: nat): Cells {
    if room < 2 then Word(TlvCode(body))[room..]
    else if body.Pad? && TLV_HEADER_SIZE <= room then PadSpill(body, room - TLV_HEADER_SIZE)
    else []
  }

  /** The same for a TLV's contents. */
  function PadSpill(body: TlvBody, room: nat): Cells {
    if body.Pad? && body.length > room then Octets(seq(body.length - room, _ => 0)) else []
  }

  /** The spill of the first TLV that does not fit. */
  function TlvsSpill(tlvs: seq<Tlv>, room: nat): Cells {
    if tlvs == [] then []
    else
      match TlvCells(tlvs[0].body, room)
      case Err(_) => SpillCells(tlvs[0].body, room)
      case Ok(first) => TlvsSpill(tlvs[1..], room - |first|)
  }

  /** The spill of the message's TLVs and of the pad behind them. */
  function MessageSpill(m: Message, length: int): Cells {
    if HEADER_SIZE > length then []
    else
      match PayloadCells(m.payload)
      case Err(_) => []
      case Ok(payload) =>
        var room := length - HEADER_SIZE - |payload|;
        if room < 0 then []
        else
          match TlvsCells(m.tlvs, room)
          case Err(_) => TlvsSpill(m.tlvs, room)
          case Ok(tlvs) => SpillCells(Pad(PadLength(HEADER_SIZE + |payload + tlvs|)), room - |tlvs|)
  }

  // ---- Decoding

  function GetTimestamp(data: seq<u8>, at: nat): u64
    requires at + 10 <= |data|
  {
    var seconds := GetBe16(data, at) * TWO32 + GetBe32(data, at + 2);
    (seconds * 1_000_000_000 + GetBe32(data, at + 6)) % TWO64
  }

  function GetPortId(data: seq<u8>, at: nat): PortId
    requires at + 10 <= |data|
  {
    PortId(GetBe64(data, at), GetBe16(data, at + 8))
  }

  function EventSize(kind: EventKind): nat {
    if kind == Sync || kind == DelayRequest then 10 else 20
  }

  function KindOf(code: u8): Result<EventKind> {
    match code
    case 0x0 => Ok(Sync)
    case 0x1 => Ok(DelayRequest)
    case 0x2 => Ok(PdelayRequest)
    case 0x3 => Ok(PdelayResponse)
    case 0x8 => Ok(FollowUp)
    case 0x9 => Ok(DelayResponse)
    case 0xa => Ok(PdelayResponseFollowUp)
    case _ => Err(Invalid)
  }

  const NO_PORT := PortId(0, 0)

  /** The payload of type `code` at `at`, and the position after it. */
  function DecodePayload(code: u8, data: seq<u8>, at: nat): (r: Result<(Payload, nat)>)
    ensures r.Ok? ==> at + 10 <= r.value.1 <= |data|
  {
    var size :=
      if code == 0xb then 30 else if code == 0xc then 10 else if code == 0xd then 14
      else if KindOf(code).Ok? then EventSize(KindOf(code).value) else 0;
    if size == 0 then Err(Invalid)
    else if at + size > |data| then Err(MessageSize)
    else if code == 0xb then
      Ok((Announce(GetTimestamp(data, at), GetBe16(data, at + 10),
                   (data[at + 13] as int) * 0x100 + data[at + 18],
                   ClockQuality(data[at + 14], data[at + 15], GetBe16(data, at + 16)),
                   GetBe64(data, at + 19), GetBe16(data, at + 27), data[at + 29]), at + size))
    else if code == 0xc then
      Ok((Signaling(GetPortId(data, at)), at + size))
    else if code == 0xd then
      Ok((Management(GetPortId(data, at), data[at + 10], data[at + 11], data[at + 12]), at + size))
    else
      var kind := KindOf(code).value;
      Ok((Event(kind, GetTimestamp(data, at), if CarriesPort(kind) then GetPortId(data, at + 10) else NO_PORT),
          at + size))
  }

  /** The text whose length byte is at `at`, in a TLV that ends at `end`. */
  function DecodeText(data: seq<u8>, at: nat, end: nat, limit: nat): (r: Result<seq<u8>>)
    requires end <= |data|
    ensures r.Ok? ==> |r.value| <= limit
  {
    if at >= end || data[at] > limit || at + 1 + data[at] > end then Err(MessageSize)
    else Ok(data[at + 1..at + 1 + data[at]])
  }

  /** What `strncpy` leaves in a zeroed array. */
  function UntilNul(s: seq<u8>): (r: seq<u8>)
    ensures |r| <= |s| && r == s[..|r|] && 0 !in r
    ensures |r| < |s| ==> s[|r|] == 0
  {
    if s == [] || s[0] == 0 then [] else [s[0]] + UntilNul(s[1..])
  }

  /** What `memcpy` leaves in the zeroed user description array. */
  function Described(text: seq<u8>): UserDescription
    requires |text| <= USER_DESCRIPTION_SIZE
  {
    text + seq(USER_DESCRIPTION_SIZE - |text|, _ => 0)
  }

  function DecodeManagement(data: seq<u8>, at: nat, end: nat): Result<ManagementData>
    requires end <= |data|
  {
    if at + 2 > end then Err(MessageSize)
    else
      var id := GetBe16(data, at);
      if id == ID_USER_DESCRIPTION then
        var text :- DecodeText(data, at + 2, end, USER_DESCRIPTION_SIZE);
        Ok(UserDescriptionData(|text|, Described(text)))
      else if id == ID_TIME then
        if at + 12 > end then Err(MessageSize) else Ok(TimeData(GetTimestamp(data, at + 2)))
      else
        Err(Invalid)
  }

  function DecodeBody(code: u16, data: seq<u8>, at: nat, end: nat): Result<TlvBody>
    requires at <= end <= |data|
    requires end - at < 0x8000
  {
    match code
    case 0x1 =>
      var management :- DecodeManagement(data, at, end);
      Ok(ManagementTlv(management))
    case 0x2 =>
      if at + 8 > end then Err(MessageSize)
      else
        var text :- DecodeText(data, at + 8, end, ERROR_DISPLAY_DATA_SIZE);
        Ok(ErrorStatus(GetBe16(data, at), GetBe16(data, at + 2), UntilNul(text)))
    case 0x4 =>
      if at + 6 > end then Err(MessageSize)
      else Ok(RequestUnicast(data[at] / 0x10, data[at + 1], GetBe32(data, at + 2)))
    case 0x5 =>
      // the flags are read with the mask and shift of the type
      if at + 8 > end then Err(MessageSize)
      else Ok(GrantUnicast(data[at] / 0x10, data[at + 1], GetBe32(data, at + 2), data[at + 7] / 0x10))
    case 0x6 =>
      if at + 2 > end then Err(MessageSize) else Ok(CancelUnicast(data[at] / 0x10, data[at] % 4))
    case 0x7 =>
      if at + 2 > end then Err(MessageSize) else Ok(AcknowledgeCancelUnicast(data[at] / 0x10, data[at] % 4))
    case 0x9 =>
      if at + 15 > end then Err(MessageSize)
      else
        var text :- DecodeText(data, at + 15, end, DISPLAY_NAME_SIZE);
        Ok(TimeOffset(data[at], ToSigned32(GetBe32(data, at + 1)), ToSigned32(GetBe32(data, at + 5)),
                      GetBe16(data, at + 9) * TWO32 + GetBe32(data, at + 11), UntilNul(text)))
    case 0x8008 => Ok(Pad(end - at))
    case 0x8009 =>
      if at + 6 > end then Err(MessageSize)
      else Ok(Authentication(data[at], data[at + 1], GetBe32(data, at + 2), at + 6, end - at - 6))
    case _ => Err(Invalid)
  }

  /** The TLV at `at`, and the position after it. */
  function DecodeTlv(data: seq<u8>, at: nat): (r: Result<(TlvBody, nat)>)
    requires at < |data| < 0x8000
    ensures r.Ok? ==> at + TLV_HEADER_SIZE <= r.value.1 <= |data|
  {
    if at + TLV_HEADER_SIZE > |data| then Err(MessageSize)
    else
      var end := at + TLV_HEADER_SIZE + GetBe16(data, at + 2);
      if end > |data| then Err(MessageSize)
      else
        var body :- DecodeBody(GetBe16(data, at), data, at + TLV_HEADER_SIZE, end);
        Ok((body, end))
  }

  /** The TLVs from `at` on, at most `room` of them. */
  function DecodeTlvs(data: seq<u8>, at: nat, room: nat): (r: Result<seq<Tlv>>)
    requires at <= |data| < 0x8000
    ensures r.Ok? ==> |r.value| <= room
    decreases room
  {
    if room == 0 || at == |data| then Ok([])
    else
      var (body, next) :- DecodeTlv(data, at);
      var rest :- DecodeTlvs(data, next, room - 1);
      Ok([Tlv(false, body)] + rest)
  }

  /** A received message: its header, and what has been decoded behind it. */
  function HeaderOf(data: seq<u8>, payload: Payload, tlvs: seq<Tlv>): Message
    requires HEADER_SIZE <= |data|
  {
    Message(GetBe16(data, 30), false, (data[0] / 0x10) as int * 0x100 + data[5], data[4],
            GetPortId(data, 20), GetLe16(data, 6), GetBe64(data, 8), data[32], data[33],
            payload, tlvs)
  }

  /** A received message of `|data|` bytes; C passes its length as a `short`. */
  function DecodeMessage(data: seq<u8>): (r: Result<Message>)
    requires |data| < 0x8000
    ensures r.Ok? ==> |r.value.tlvs| <= MAX_TLV_COUNT
  {
    if HEADER_SIZE > |data| then Err(MessageSize)
    else
      var (payload, at) :- DecodePayload(data[0] % 0x10, data, HEADER_SIZE);
      var tlvs :- DecodeTlvs(data, at, MAX_TLV_COUNT);
      Ok(HeaderOf(data, payload, tlvs))
  }
}
