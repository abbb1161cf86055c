/**
 * What a message that does not fit leaves in the two bytes behind its buffer.
 * In `struct common_message_info` these bytes are the length of the datagram.
 */
module PtpOverrun {
  import opened Bytes
  import opened PtpMessage
  import opened PtpWire

  const BUFFER_SIZE: nat := 1472
  const LENGTH_SIZE: nat := 2
  /** The alignment gap between the length and the decoded message. */
  const GAP_SIZE: nat := 6

  /** Kinds that handlers produce. */
  predicate Ordinary(tlvs: seq<Tlv>) {
    forall i :: 0 <= i < |tlvs| ==> !tlvs[i].body.UnknownTlv? && !tlvs[i].body.Pad?
  }

  predicate PayloadFits(m: Message, length: int) {
    PayloadCells(m.payload).Ok? && HEADER_SIZE + |PayloadCells(m.payload).value| <= length
  }

  /** Where the first TLV starts that does not fit, and its code; the pad is the last one. */
  function FirstStuck(tlvs: seq<Tlv>, at: nat, room: nat): (r: (nat, u32))
    ensures at <= r.0 <= at + room
  {
    if tlvs == [] then (at, 0x8008)
    else
      match TlvCells(tlvs[0].body, room)
      case Err(_) => (at, TlvCode(tlvs[0].body))
      case Ok(first) => FirstStuck(tlvs[1..], at + |first|, room - |first|)
  }

  function Stuck(m: Message, length: nat): (r: (nat, u32))
    requires PayloadFits(m, length)
    ensures r.0 <= length
  {
    var at := HEADER_SIZE + |PayloadCells(m.payload).value|;
    FirstStuck(m.tlvs, at, length - at)
  }

  /** The length field in front of which the buffer ends, if it was 0 before. */
  function SpilledLength(spill: Cells): i16 {
    var bytes := Overlay(seq(|spill| + LENGTH_SIZE, _ => 0), 0, spill);
    ToSigned16(GetLe16(bytes, 0))
  }

  /** The length of a response whose message could not be encoded. */
  function FailedLength(m: Message): i16 {
    SpilledLength(MessageSpill(m, BUFFER_SIZE))
  }

  // ---- The spill, by where the encoder gets stuck

  /** The cells behind a buffer of `length` bytes when a TLV of type `code` at `at` does not fit. */
  ghost predicate SpillsFrom(spill: Cells, at: nat, code: u32, length: nat)
    requires at <= length
  {
    if length < at + 2 then spill == Word(code)[length - at..]
    else forall i :: 0 <= i < |spill| ==> spill[i] == Octet(0)
  }

  lemma {:induction false} TlvsSpillFrom(tlvs: seq<Tlv>, at: nat, room: nat)
    requires Ordinary(tlvs) && TlvsCells(tlvs, room).Err?
    ensures var (s, code) := FirstStuck(tlvs, at, room);
            SpillsFrom(TlvsSpill(tlvs, room), s, code, at + room) && |TlvsSpill(tlvs, room)| <= 2
    decreases |tlvs|
  {
    hide TlvCells, TlvCode, SpillCells, SpillsFrom;
    if TlvCells(tlvs[0].body, room).Ok? {
      var size := |TlvCells(tlvs[0].body, room).value|;
      TlvsSpillFrom(tlvs[1..], at + size, room - size);
    } else {
      SpillFrom(tlvs[0].body, at, room);
    }
  }

  lemma SpillFrom(body: TlvBody, at: nat, room: nat)
    requires !body.Pad?
    ensures SpillsFrom(SpillCells(body, room), at, TlvCode(body), at + room) && |SpillCells(body, room)| <= 2
  {
    hide TlvCode, Word;
  }

  lemma {:induction false} StuckBehindFitting(tlvs: seq<Tlv>, at: nat, room: nat)
    requires TlvsCells(tlvs, room).Ok?
    ensures FirstStuck(tlvs, at, room) == (at + |TlvsCells(tlvs, room).value|, 0x8008)
    decreases |tlvs|
  {
    hide TlvCells;
    if tlvs != [] {
      var size := |TlvCells(tlvs[0].body, room).value|;
      StuckBehindFitting(tlvs[1..], at + size, room - size);
    }
  }

  lemma PadSpillsFrom(at: nat, length: nat)
    requires at <= length
    ensures var spill := SpillCells(Pad(PadLength(at)), length - at);
            SpillsFrom(spill, at, 0x8008, length) && (length == BUFFER_SIZE ==> |spill| <= GAP_SIZE)
  {
    hide Word;
    if TLV_HEADER_SIZE <= length - at {
      PadAligns(at);
    }
  }

  lemma MessageSpillsFrom(m: Message, length: nat)
    requires Ordinary(m.tlvs) && PayloadFits(m, length) && MessageCells(m, length).Err?
    ensures SpillsFrom(MessageSpill(m, length), Stuck(m, length).0, Stuck(m, length).1, length)
    ensures length == BUFFER_SIZE ==> |MessageSpill(m, length)| <= GAP_SIZE
  {
    hide PayloadCells, TlvsCells, TlvCells, TlvsSpill, SpillCells, PadLength, SpillsFrom, HeaderCells;
    var payload := PayloadCells(m.payload).value;
    var at := HEADER_SIZE + |payload|;
    var room := length - at;
    if TlvsCells(m.tlvs, room).Err? {
      TlvsSpillFrom(m.tlvs, at, room);
    } else {
      StuckBehindFitting(m.tlvs, at, room);
      PadSpillsFrom(at + |TlvsCells(m.tlvs, room).value|, length);
    }
  }

  lemma {:induction false} StuckCodeIsOrdinary(tlvs: seq<Tlv>, at: nat, room: nat)
    requires Ordinary(tlvs)
    ensures FirstStuck(tlvs, at, room).1 in {0x1, 0x2, 0x4, 0x5, 0x6, 0x7, 0x9, 0x8008, 0x8009}
    decreases |tlvs|
  {
    hide TlvCells;
    if tlvs != [] && TlvCells(tlvs[0].body, room).Ok? {
      var size := |TlvCells(tlvs[0].body, room).value|;
      StuckCodeIsOrdinary(tlvs[1..], at + size, room - size);
    }
  }

  /** The byte that the `i`th cell leaves in a field of zeros. */
  function SpilledByte(spill: Cells, i: nat): u8 {
    if i < |spill| && spill[i].Octet? then spill[i].value else 0
  }

  lemma SpilledBytes(spill: Cells)
    ensures SpilledLength(spill) == ToSigned16((SpilledByte(spill, 1) as int) * 0x100 + SpilledByte(spill, 0))
  {
    var bytes := Overlay(seq(|spill| + LENGTH_SIZE, _ => 0), 0, spill);
    assert bytes[0] == SpilledByte(spill, 0) && bytes[1] == SpilledByte(spill, 1);
    hide Overlay;
  }

  lemma WordOctets(code: u32)
    ensures Word(code) == [Octet(code / 0x100 % 0x100), Octet(code % 0x100)]
  {
    HighByte(code);
    assert Be16(code % 0x1_0000) == [code / 0x100 % 0x100, code % 0x100];
  }

  lemma HighByte(x: nat)
    ensures x % 0x1_0000 / 0x100 == x / 0x100 % 0x100 && x % 0x1_0000 % 0x100 == x % 0x100
  {
    var q, r := x / 0x1_0000, x % 0x1_0000;
    assert x == q * 0x1_0000 + r;
    assert x / 0x100 == q * 0x100 + r / 0x100;
  }

  lemma OrdinaryCode(code: u32)
    requires code in {0x1, 0x2, 0x4, 0x5, 0x6, 0x7, 0x9, 0x8008, 0x8009}
    ensures 0 < code % 0x100 < 0x80 && code / 0x100 % 0x100 == code / 0x100
    ensures 0 < code % 0x100 * 0x100 + code / 0x100 < 0x8000
  {}

  lemma SpilledLengthIs(spill: Cells, at: nat, code: u32, length: nat)
    requires at <= length && SpillsFrom(spill, at, code, length) && code % 0x100 < 0x80
    ensures SpilledLength(spill) ==
            if at == length then code % 0x100 * 0x100 + code / 0x100 % 0x100
            else if at + 1 == length then code % 0x100
            else 0
  {
    hide SpilledLength, Word;
    SpilledBytes(spill);
    WordOctets(code);
    if at == length {
      assert spill == Word(code);
    } else if at + 1 == length {
      assert spill == [Octet(code % 0x100)];
    }
  }

  /**
   * A message that does not fit leaves the length 0 if and only if the first TLV
   * that does not fit, the pad included, starts at least two bytes in front of
   * the end of the buffer. Otherwise the bytes of its type become the length.
   */
  lemma FailedLengthIsZeroIff(m: Message)
    requires Ordinary(m.tlvs) && PayloadFits(m, BUFFER_SIZE) && MessageCells(m, BUFFER_SIZE).Err?
    ensures var (s, code) := Stuck(m, BUFFER_SIZE);
            && FailedLength(m) == (if s == BUFFER_SIZE then code % 0x100 * 0x100 + code / 0x100
                                   else if s + 1 == BUFFER_SIZE then code % 0x100 else 0)
            && FailedLength(m) >= 0 && (FailedLength(m) == 0 <==> s <= BUFFER_SIZE - 2)
  {
    hide MessageCells, PayloadCells, MessageSpill, SpilledLength, SpillsFrom;
    MessageSpillsFrom(m, BUFFER_SIZE);
    var at := HEADER_SIZE + |PayloadCells(m.payload).value|;
    StuckCodeIsOrdinary(m.tlvs, at, BUFFER_SIZE - at);
    var (s, code) := Stuck(m, BUFFER_SIZE);
    OrdinaryCode(code);
    SpilledLengthIs(MessageSpill(m, BUFFER_SIZE), s, code, BUFFER_SIZE);
  }
}
