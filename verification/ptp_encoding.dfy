/**
 * The encoder as it runs: a `head` that moves through the caller's buffer, and
 * length fields patched once the contents are written. A TLV type and the
 * contents of a pad are stored before their bounds check; every contract states
 * exactly which bytes behind `tail` a failure changes, and to what.
 */
module PtpEncoding {
  import opened Bytes
  import opened PtpMessage
  import opened PtpWire

  /** The two buffers agree outside `[from, to)`. */
  ghost predicate SameOutside(before: seq<u8>, after: seq<u8>, from: int, to: int) {
    && |before| == |after|
    && forall i :: 0 <= i < |before| && !(from <= i < to) ==> before[i] == after[i]
  }

  /** A failure that left anything in `[head, tail)`, and `spill` behind it. */
  ghost predicate Failed(before: seq<u8>, after: seq<u8>, head: nat, tail: int, spill: Cells) {
    if tail < head then after == before
    else tail + |spill| <= |before| && SameOutside(Overlay(before, tail, spill), after, head, tail)
  }

  lemma OverlayConcat(b: seq<u8>, at: nat, c1: Cells, c2: Cells)
    requires at + |c1| + |c2| <= |b|
    ensures Overlay(Overlay(b, at, c1), at + |c1|, c2) == Overlay(b, at, c1 + c2)
  {}

  lemma OverlayPatch(b: seq<u8>, at: nat, before: Cells, patch: Cells, after: Cells)
    requires at + |before| + |patch| + |after| <= |b|
    ensures Overlay(Overlay(b, at, before + Gaps(|patch|) + after), at + |before|, patch)
         == Overlay(b, at, before + patch + after)
  {}

  /** Field stores into a packed struct; fields that are gaps are not assigned. */
  method Store(out: array<u8>, at: nat, cells: Cells)
    requires at + |cells| <= out.Length
    modifies out
    ensures out[..] == Overlay(old(out[..]), at, cells)
  {
    for i := 0 to |cells|
      invariant out[..] == Overlay(old(out[..]), at, cells[..i])
    {
      if cells[i].Octet? {
        out[at + i] := cells[i].value;
      }
    }
    assert cells[..|cells|] == cells;
  }

  /** The result of a step that writes `cells` at `head`, or fails. */
  ghost predicate Written(
    r: Result<nat>, cells: Result<Cells>, spill: Cells, before: seq<u8>, after: seq<u8>, head: nat, tail: int)
    requires cells.Ok? ==> head + |cells.value| <= |before|
  {
    match cells
    case Ok(c) => r == Ok(head + |c|) && after == Overlay(before, head, c)
    case Err(e) => r == Err(e) && Failed(before, after, head, tail, spill)
  }

  function Bounded(cells: Result<Cells>, room: int): Result<Cells> {
    if cells.Ok? && |cells.value| > room then Err(MessageSize) else cells
  }

  method EncodePayload(out: array<u8>, head0: nat, payload: Payload, tail: nat) returns (r: Result<nat>)
    requires head0 <= tail <= out.Length
    modifies out
    ensures Written(r, Bounded(PayloadCells(payload), tail - head0), [], old(out[..]), out[..], head0, tail)
  {
    hide TimestampCells, PortIdCells, QualityCells;
    var head := head0;
    match payload {
    case Event(kind, timestamp, portId) =>
      head := head + EventSize(kind);
      if head > tail { return Err(MessageSize); }
      Store(out, head0, TimestampCells(timestamp));
      if CarriesPort(kind) {
        Store(out, head0 + 10, PortIdCells(portId));
        OverlayConcat(old(out[..]), head0, TimestampCells(timestamp), PortIdCells(portId));
      }
      assert out[..] == Overlay(old(out[..]), head0, PayloadCells(payload).value);
    case Announce(_, _, _, _, _, _, _) =>
      head := head + 30;
      if head > tail { return Err(MessageSize); }
      Store(out, head0, PayloadCells(payload).value);
    case Signaling(target) =>
      head := head + 10;
      if head > tail { return Err(MessageSize); }
      Store(out, head0, PortIdCells(target));
    case Management(target, startingHops, hops, action) =>
      head := head + 14;
      if head > tail { return Err(MessageSize); }
      Store(out, head0, PortIdCells(target));
      Store(out, head0 + 10, [Octet(startingHops), Octet(hops), Octet(action % 0x100), Gap]);
      OverlayConcat(old(out[..]), head0, PortIdCells(target),
                    [Octet(startingHops), Octet(hops), Octet(action % 0x100), Gap]);
    case UnknownPayload(_) =>
      return Err(Invalid);
    }
    return Ok(head);
  }

  /** A length byte and its text, padded to an even size; shared by three TLVs. */
  method EncodeText(out: array<u8>, head0: nat, text: seq<u8>, padding: nat, tail: nat) returns (r: Result<nat>)
    requires head0 <= tail <= out.Length && |text| < 0x100
    modifies out
    ensures Written(r, Bounded(Ok(TextCells(text, padding)), tail - head0), [], old(out[..]), out[..], head0, tail)
  {
    var head := head0 + 1;
    if head > tail { return Err(MessageSize); }
    Store(out, head0, [Octet(|text|)]);
    if head + |text| + padding > tail { return Err(MessageSize); }
    Store(out, head, Octets(text));
    OverlayConcat(old(out[..]), head0, [Octet(|text|)], Octets(text));
    assert out[..] == Overlay(old(out[..]), head0, TextCells(text, padding));
    return Ok(head + |text| + padding);
  }

  method EncodeManagementTlv(out: array<u8>, head0: nat, data: ManagementData, tail: nat) returns (r: Result<nat>)
    requires head0 <= tail <= out.Length
    modifies out
    ensures var cells := if head0 + 2 > tail then Err(MessageSize)
            else Bounded(BodyCells(ManagementTlv(data)), tail - head0);
            Written(r, cells, [], old(out[..]), out[..], head0, tail)
  {
    hide TimestampCells, Octets, Overlay, Word;
    OverlayNothing(old(out[..]), tail);
    var head := head0 + 2;
    if head > tail { return Err(MessageSize); }
    match data
    case UserDescriptionData(length, bytes) =>
      Store(out, head0, Word(ID_USER_DESCRIPTION));
      OverlayOutside(old(out[..]), head0, Word(ID_USER_DESCRIPTION));
      OverlayNothing(out[..], tail);
      if head + 1 > tail { return Err(MessageSize); }
      if WireLength(length) > USER_DESCRIPTION_SIZE {
        out[head] := WireLength(length);
        return Err(MessageSize);
      }
      var text := bytes[..WireLength(length)];
      r := EncodeText(out, head, text, (|text| + 1) % 2, tail);
      if r.Err? { return; }
      OverlayConcat(old(out[..]), head0, Word(ID_USER_DESCRIPTION), TextCells(text, (|text| + 1) % 2));
    case TimeData(time) =>
      Store(out, head0, Word(ID_TIME));
      OverlayOutside(old(out[..]), head0, Word(ID_TIME));
      head := head + 10;
      if head > tail { return Err(MessageSize); }
      Store(out, head - 10, TimestampCells(time));
      OverlayConcat(old(out[..]), head0, Word(ID_TIME), TimestampCells(time));
      r := Ok(head);
    case UnknownData(id) =>
      Store(out, head0, Word(id));
      OverlayOutside(old(out[..]), head0, Word(id));
      r := Err(Invalid);
  }

  method EncodeErrorStatusTlv(out: array<u8>, head0: nat, errorId: u32, id: u32, display: DisplayData, tail: nat)
    returns (r: Result<nat>)
    requires head0 <= tail <= out.Length
    modifies out
    ensures Written(r, Bounded(BodyCells(ErrorStatus(errorId, id, display)), tail - head0), [],
                    old(out[..]), out[..], head0, tail)
  {
    var head := head0 + 8;
    if head > tail { return Err(MessageSize); }
    var fields := Word(errorId) + (Word(id) + Gaps(4));
    Store(out, head0, fields);
    var padding := (|display| + 1) % 2;
    r := EncodeText(out, head, display, padding, tail);
    if r.Err? { return; }
    OverlayConcat(old(out[..]), head0, fields, TextCells(display, padding));
    assert fields + TextCells(display, padding) == BodyCells(ErrorStatus(errorId, id, display)).value;
  }

  method EncodeTimeOffsetTlv(out: array<u8>, head0: nat, body: TlvBody, tail: nat) returns (r: Result<nat>)
    requires head0 <= tail <= out.Length && body.TimeOffset?
    modifies out
    ensures Written(r, Bounded(BodyCells(body), tail - head0), [], old(out[..]), out[..], head0, tail)
  {
    var head := head0 + 15;
    if head > tail { return Err(MessageSize); }
    var TimeOffset(key, offset, jump, next, name) := body;
    var fields := [Octet(key)] +
      (Octets(Be32(ToUnsigned32(offset))) +
       (Octets(Be32(ToUnsigned32(jump))) +
        (Octets(Be16(next / TWO32 % 0x1_0000)) + Octets(Be32(next % TWO32)))));
    Store(out, head0, fields);
    var padding := (|name| + 1) % 2;
    r := EncodeText(out, head, name, padding, tail);
    if r.Err? { return; }
    OverlayConcat(old(out[..]), head0, fields, TextCells(name, padding));
    assert fields + TextCells(name, padding) == BodyCells(body).value;
  }

  /** A TLV's contents; the switch of ptp_encode_tlv. */
  method EncodeBody(out: array<u8>, head0: nat, body: TlvBody, tail: nat) returns (r: Result<nat>)
    requires head0 <= tail && tail + |PadSpill(body, tail - head0)| <= out.Length
    modifies out
    ensures var cells := if head0 + CheckedFirst(body) > tail then Err(MessageSize)
                         else Bounded(BodyCells(body), tail - head0);
            Written(r, cells, PadSpill(body, tail - head0), old(out[..]), out[..], head0, tail)
  {
    hide TimestampCells, TextCells;
    var head := head0;
    match body
    case ManagementTlv(data) => r := EncodeManagementTlv(out, head, data, tail);
    case ErrorStatus(errorId, id, display) => r := EncodeErrorStatusTlv(out, head, errorId, id, display, tail);
    case TimeOffset(_, _, _, _, _) => r := EncodeTimeOffsetTlv(out, head, body, tail);
    case Pad(length) =>
      Store(out, head, BodyCells(body).value);
      PadBehind(old(out[..]), head, tail, length);
      head := head + length;
      if head > tail { return Err(MessageSize); }
      r := Ok(head);
    case UnknownTlv(_) => r := Err(Invalid);
    case _ =>
      // the remaining kinds are one packed struct, an authentication TLV with room for its ICV
      var cells := BodyCells(body).value;
      head := head + |cells|;
      if head > tail { return Err(MessageSize); }
      Store(out, head0, cells);
      r := Ok(head);
  }

  lemma PadBehind(b: seq<u8>, head: nat, tail: nat, length: u16)
    requires head <= tail && tail + |PadSpill(Pad(length), tail - head)| <= |b| && head + length <= |b|
    ensures head + length > tail ==>
              Failed(b, Overlay(b, head, BodyCells(Pad(length)).value), head, tail, PadSpill(Pad(length), tail - head))
  {}

  method EncodeTlv(out: array<u8>, head0: nat, body: TlvBody, tail: nat) returns (r: Result<nat>)
    requires head0 <= tail && tail + |SpillCells(body, tail - head0)| <= out.Length
    modifies out
    ensures Written(r, TlvCells(body, tail - head0), SpillCells(body, tail - head0), old(out[..]), out[..], head0, tail)
  {
    hide BodyCells, Overlay, Word;
    var kind := Word(TlvCode(body));
    Store(out, head0, kind);
    TypeBehind(old(out[..]), head0, tail, body);
    var head := head0 + TLV_HEADER_SIZE;
    if head > tail { return Err(MessageSize); }
    ghost var typed := out[..];
    r := EncodeBody(out, head, body, tail);
    if r.Err? {
      FailedBehindType(old(out[..]), typed, out[..], head0, head, tail, kind, PadSpill(body, tail - head));
      return;
    }
    var length := Word(r.value - head);
    ghost var contents := BodyCells(body).value;
    assert out[..] == Overlay(typed, head, contents);
    Store(out, head0 + 2, length);
    OverlayTlv(old(out[..]), head0, kind, length, contents);
  }

  /** A type that is stored at the end of the buffer. */
  lemma TypeBehind(b: seq<u8>, head: nat, tail: nat, body: TlvBody)
    requires head <= tail && tail + |SpillCells(body, tail - head)| <= |b|
    ensures head + 2 <= |b|
    ensures tail < head + TLV_HEADER_SIZE ==>
              Failed(b, Overlay(b, head, Word(TlvCode(body))), head, tail, SpillCells(body, tail - head))
  {
    hide Word, TlvCode;
  }

  lemma FailedBehindType(
    b: seq<u8>, typed: seq<u8>, after: seq<u8>, at: nat, head: nat, tail: nat, kind: Cells, spill: Cells)
    requires at + |kind| <= head <= tail <= |b| && typed == Overlay(b, at, kind)
    requires Failed(typed, after, head, tail, spill)
    ensures Failed(b, after, at, tail, spill)
  {}

  lemma OverlayTlv(b: seq<u8>, at: nat, kind: Cells, length: Cells, contents: Cells)
    requires |kind| == 2 == |length| && at + 4 + |contents| <= |b|
    ensures Overlay(Overlay(Overlay(b, at, kind), at + 4, contents), at + 2, length)
         == Overlay(b, at, kind + (length + contents))
  {}

  method EncodeTlvs(out: array<u8>, head0: nat, tlvs: seq<Tlv>, tail: nat) returns (r: Result<nat>)
    requires head0 <= tail && tail + |TlvsSpill(tlvs, tail - head0)| <= out.Length
    modifies out
    ensures Written(r, TlvsCells(tlvs, tail - head0), TlvsSpill(tlvs, tail - head0), old(out[..]), out[..], head0, tail)
  {
    hide TlvCells, Overlay, SpillCells, Failed;
    ghost var before := out[..];
    var head := head0;
    ghost var done: Cells := [];
    assert tlvs[0..] == tlvs;
    assert forall rest: Cells :: [] + rest == rest;
    assert before == Overlay(before, head0, []) by { OverlayNothing(before, head0); }
    for i := 0 to |tlvs|
      invariant head0 <= head <= tail && head == head0 + |done|
      invariant out[..] == Overlay(before, head0, done)
      invariant TlvsSpill(tlvs, tail - head0) == TlvsSpill(tlvs[i..], tail - head)
      invariant TlvsCells(tlvs, tail - head0) ==
                match TlvsCells(tlvs[i..], tail - head)
                case Ok(rest) => Ok(done + rest)
                case Err(e) => Err(e)
    {
      ghost var cells := TlvCells(tlvs[i].body, tail - head);
      ghost var middle := out[..];
      if cells.Ok? { NoSpillIfFits(tlvs[i].body, tail - head); }
      r := EncodeTlv(out, head, tlvs[i].body, tail);
      assert tlvs[i..][1..] == tlvs[i + 1..];
      if r.Err? {
        FailedBehindDone(before, middle, out[..], head0, head, tail, done, SpillCells(tlvs[i].body, tail - head));
        return;
      }
      head := r.value;
      OverlayConcat(before, head0, done, cells.value);
      assert forall rest: Cells :: done + (cells.value + rest) == done + cells.value + rest;
      done := done + cells.value;
    }
    assert done + [] == done;
    r := Ok(head);
  }

  lemma NoSpillIfFits(body: TlvBody, room: nat)
    requires TlvCells(body, room).Ok?
    ensures SpillCells(body, room) == []
  {}

  lemma {:induction false} NoTlvsSpill(tlvs: seq<Tlv>, room: nat)
    requires TlvsCells(tlvs, room).Ok?
    ensures TlvsSpill(tlvs, room) == []
    decreases |tlvs|
  {
    hide TlvCells, SpillCells;
    if tlvs != [] { NoTlvsSpill(tlvs[1..], room - |TlvCells(tlvs[0].body, room).value|); }
  }

  lemma FailedBehindDone(
    b: seq<u8>, middle: seq<u8>, after: seq<u8>, at: nat, head: nat, tail: nat, done: Cells, spill: Cells)
    requires at + |done| == head <= tail <= |b| && middle == Overlay(b, at, done)
    requires Failed(middle, after, head, tail, spill)
    ensures Failed(b, after, at, tail, spill)
  {}

  lemma OverlayNothing(b: seq<u8>, at: nat)
    requires at <= |b|
    ensures Overlay(b, at, []) == b
  {}

  lemma OverlayOutside(b: seq<u8>, at: nat, cells: Cells)
    requires at + |cells| <= |b|
    ensures SameOutside(b, Overlay(b, at, cells), at, at + |cells|)
  {}

  /** The pad TLV and the length in the header. */
  method FinishMessage(
    out: array<u8>, m: Message, head: nat, tail: nat, ghost before: seq<u8>, ghost contents: Cells)
    returns (r: Result<nat>)
    requires head == HEADER_SIZE + |contents| <= tail && |before| == out.Length
    requires tail + |SpillCells(Pad(PadLength(head)), tail - head)| <= out.Length
    requires out[..] == Overlay(before, 0, HeaderCells(m, Gaps(2)) + contents)
    modifies out
    ensures match TlvCells(Pad(PadLength(head)), tail - head)
            case Err(e) =>
              r == Err(e) && Failed(before, out[..], 0, tail, SpillCells(Pad(PadLength(head)), tail - head))
            case Ok(pad) =>
              && r == Ok(HEADER_SIZE + |contents + pad|) && HEADER_SIZE + |contents + pad| <= |before|
              && out[..] == Overlay(before, 0, HeaderCells(m, Word(HEADER_SIZE + |contents + pad|)) + (contents + pad))
  {
    hide TlvCells, HeaderCells, PadLength, Overlay, Word, SpillCells, Failed;
    ghost var header, middle := HeaderCells(m, Gaps(2)), out[..];
    // the alignment guard of the source is never zero, so a pad TLV always follows
    var pad := PadLength(head);
    r := EncodeTlv(out, head, Pad(pad), tail);
    if r.Err? {
      FailedBehindDone(before, middle, out[..], 0, head, tail, header + contents, SpillCells(Pad(pad), tail - head));
      return;
    }
    ghost var padCells := TlvCells(Pad(pad), tail - head).value;
    var actual := head + pad + TLV_HEADER_SIZE;
    assert r.value == actual by { PadSize(pad, tail - head); }
    OverlayConcat(before, 0, header + contents, padCells);
    assert header + contents + padCells == header + (contents + padCells);
    Store(out, 2, Word(actual));
    PatchHeader(m, before, contents + padCells, Word(actual));
    r := Ok(actual);
  }

  /** The whole message; the result is its length. */
  method EncodeMessage(out: array<u8>, m: Message, length: int) returns (r: Result<nat>)
    requires |m.tlvs| <= MAX_TLV_COUNT
    requires length + |MessageSpill(m, length)| <= out.Length
    modifies out
    ensures Written(r, MessageCells(m, length), MessageSpill(m, length), old(out[..]), out[..], 0, length)
  {
    hide TlvCells, TlvsCells, PayloadCells, HeaderCells, PadLength, Overlay, Word, SpillCells, TlvsSpill;
    ghost var before := out[..];
    var head, tail := HEADER_SIZE, length;
    if head > tail {
      if tail >= 0 { OverlayNothing(before, tail); }
      return Err(MessageSize);
    }
    MessageSteps(m, length);
    SpillSteps(m, length);
    hide MessageCells, ContentCells, MessageSpill, Failed;
    ghost var header := HeaderCells(m, Gaps(2));
    Store(out, 0, HeaderCells(m, Gaps(2)));
    ghost var middle := out[..];
    r := EncodePayload(out, head, m.payload, tail);
    if r.Err? {
      FailedBehindDone(before, middle, out[..], 0, head, tail, header, []);
      return;
    }
    head := r.value;
    ghost var payload := PayloadCells(m.payload).value;
    OverlayConcat(before, 0, header, payload);
    middle := out[..];
    ghost var spill := TlvsSpill(m.tlvs, tail - head);
    if TlvsCells(m.tlvs, tail - head).Ok? { NoTlvsSpill(m.tlvs, tail - head); }
    r := EncodeTlvs(out, head, m.tlvs, tail);
    if r.Err? {
      FailedBehindDone(before, middle, out[..], 0, head, tail, header + payload, spill);
      return;
    }
    ghost var tlvs := TlvsCells(m.tlvs, tail - head).value;
    OverlayConcat(before, 0, header + payload, tlvs);
    head := r.value;
    assert header + payload + tlvs == header + (payload + tlvs);
    r := FinishMessage(out, m, head, tail, before, payload + tlvs);
  }

  /** The encoding of a message, or its first failure, step by step. */
  lemma MessageSteps(m: Message, length: nat)
    requires HEADER_SIZE <= length
    ensures var room := length - HEADER_SIZE;
            MessageCells(m, length) ==
            match Bounded(PayloadCells(m.payload), room)
            case Err(e) => Err(e)
            case Ok(payload) =>
              match TlvsCells(m.tlvs, room - |payload|)
              case Err(e) => Err(e)
              case Ok(tlvs) =>
                var contents := payload + tlvs;
                match TlvCells(Pad(PadLength(HEADER_SIZE + |contents|)), room - |contents|)
                case Err(e) => Err(e)
                case Ok(pad) =>
                  Ok(HeaderCells(m, Word(HEADER_SIZE + |contents + pad|)) + (contents + pad))
  {
    hide TlvCells, TlvsCells, PayloadCells, HeaderCells, PadLength, Word;
  }

  /** The same for what a failure leaves behind the buffer. */
  lemma SpillSteps(m: Message, length: nat)
    requires HEADER_SIZE <= length
    ensures var room := length - HEADER_SIZE;
            MessageSpill(m, length) ==
            match Bounded(PayloadCells(m.payload), room)
            case Err(_) => []
            case Ok(payload) =>
              match TlvsCells(m.tlvs, room - |payload|)
              case Err(_) => TlvsSpill(m.tlvs, room - |payload|)
              case Ok(tlvs) =>
                var contents := payload + tlvs;
                SpillCells(Pad(PadLength(HEADER_SIZE + |contents|)), room - |contents|)
  {
    hide TlvsCells, PayloadCells, PadLength, SpillCells, TlvsSpill;
  }

  lemma PadSize(pad: u16, room: nat)
    requires TlvCells(Pad(pad), room).Ok?
    ensures |TlvCells(Pad(pad), room).value| == TLV_HEADER_SIZE + pad
  {}

  lemma PatchHeader(m: Message, b: seq<u8>, contents: Cells, length: Cells)
    requires |length| == 2 && HEADER_SIZE + |contents| <= |b|
    ensures Overlay(Overlay(b, 0, HeaderCells(m, Gaps(2)) + contents), 2, length)
         == Overlay(b, 0, HeaderCells(m, length) + contents)
  {
    var gaps, full := HeaderCells(m, Gaps(2)), HeaderCells(m, length);
    var before, after := full[..2], full[4..];
    assert full == before + length + after;
    assert gaps == before + Gaps(2) + after;
    assert gaps + contents == before + Gaps(|length|) + (after + contents);
    assert full + contents == before + length + (after + contents);
    OverlayPatch(b, 0, before, length, after + contents);
  }
}
