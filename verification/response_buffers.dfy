/**
 * Message buffers as memory: what is stored in a response, what a finalized one
 * carries, what has been queued, and what the socket makes of the queue.
 */
module ResponseBuffers {
  import opened Bytes
  import opened Wrappers
  import opened PtpMessage
  import opened PtpWire
  import opened PtpSecurity
  import opened PtpAuthentication
  import opened PtpOverrun
  import opened Environment
  import opened Responses
  import opened ReplyProperties
  import opened Leftovers
  import PtpEncoding
  import PtpSigned
  import PtpRoundTrip
  import DbCache

  const BLOCK_SIZE: nat := BUFFER_SIZE + LENGTH_SIZE + GAP_SIZE

  /** `data`, the `short length` right behind it, and the gap in front of the decoded message. */
  type Block = s: seq<u8> | |s| == BLOCK_SIZE witness seq(BLOCK_SIZE, _ => 0)

  const ZEROS: Block := seq(BLOCK_SIZE, _ => 0)

  /** A response: `struct common_message_info`. */
  datatype Info = Info(portType: nat, timestamp: u64, block: Block, message: Message)

  /** A request, with the memory behind what was received and the union that holds its message's payload. */
  datatype Request = Request(
    portType: nat, timestamp: u64, data: seq<u8>, length: nat, message: Message, payload: Union)

  /** The length field of a response. */
  function Length(info: Info): i16 {
    ToSigned16(GetLe16(info.block, BUFFER_SIZE))
  }

  function WithLength(block: Block, length: u16): Block {
    Put(block, BUFFER_SIZE, Le16(length))
  }

  /** What `sendto` hands to the network; a length beyond the block reads on into other memory. */
  function WireBytes(info: Info, memory: Memory): (d: seq<u8>)
    requires Length(info) > 0
    ensures |d| == Length(info)
  {
    (info.block + memory)[..Length(info)]
  }

  /** A datagram as it should be: its own length field says how long it is, aligned for the wire. */
  predicate IsDatagram(d: seq<u8>) {
    && HEADER_SIZE <= |d| <= BUFFER_SIZE && (|d| + NETWORK_OVERHEAD) % ALIGNMENT == 0
    && GetBe16(d, 2) == |d|
  }

  /** The bytes of a finalized response decode to `m` as a receiver sees it. */
  ghost predicate Carries(info: Info, m: Message) {
    0 < Length(info) <= BUFFER_SIZE && DecodeMessage(info.block[..Length(info)]) == Ok(PtpRoundTrip.Delivered(m))
  }

  /** Every authentication TLV of a finalized response passes a receiver's check with `row`. */
  ghost predicate Authentic(hmac: Hmac, row: DbCache.Row, info: Info) {
    && 0 < Length(info) <= BUFFER_SIZE && DecodeMessage(info.block[..Length(info)]).Ok?
    && forall scratch: Memory ::
         AllPass(hmac, row, info.block, DecodeMessage(info.block[..Length(info)]).value.tlvs, scratch)
  }

  /** A response after finalizing `m`, completed with `entries`. */
  ghost predicate Finished(hmac: Hmac, entries: seq<Entry>, info: Info, m: Message) {
    match MessageCells(m, BUFFER_SIZE)
    case Err(_) => Length(info) == FailedLength(m)
    case Ok(cells) =>
      && Length(info) == |cells| && Carries(info, m)
      && forall row: DbCache.Row ::
           row.policy == POLICY_HMAC_128 && AllFind(entries, PtpRoundTrip.Delivered(m).tlvs, row) ==>
             Authentic(hmac, row, info)
  }

  predicate SignedWithHmac(m: Message) {
    exists i :: 0 <= i < |m.tlvs| && m.tlvs[i].body.Authentication? && m.tlvs[i].body.policy == POLICY_HMAC_128
  }

  /**
   * A response is what it should be. If its message fits, it carries it, and its
   * HMACs are valid for the row registered last; if not, `FailedLength` says how
   * long it has become.
   */
  ghost predicate Realizes(hmac: Hmac, latest: map<PortId, DbCache.Row>, info: Info, response: Response) {
    match response
    case Draft => Length(info) == 0
    case Final(m) =>
      match MessageCells(m, BUFFER_SIZE)
      case Err(_) => Length(info) == FailedLength(m)
      case Ok(cells) =>
        && Length(info) == |cells| && Carries(info, m)
        && (SignedWithHmac(m) ==> m.portId in latest && Authentic(hmac, latest[m.portId], info))
  }

  /** The queued `item` is what `response` says. */
  ghost predicate Holds(
    hmac: Hmac, latest: map<PortId, DbCache.Row>, infos: map<nat, Info>, meant: map<nat, Message>, item: nat,
    response: Response)
  {
    && item in infos && Realizes(hmac, latest, infos[item], response)
    && (response.Final? ==> item in meant && meant[item] == response.message)
  }

  /** The queue has grown by `responses`. */
  ghost predicate Queued(
    hmac: Hmac, latest: map<PortId, DbCache.Row>, before: seq<nat>, after: seq<nat>, infos: map<nat, Info>,
    meant: map<nat, Message>, responses: seq<Response>)
  {
    && before <= after && |after| == |before| + |responses|
    && forall k :: 0 <= k < |responses| ==> Holds(hmac, latest, infos, meant, after[|before| + k], responses[k])
  }

  // ---- Sending

  /**
   * How many of the queued responses leave the queue in one event, the step of
   * the world behind the last of them, and what goes out: sending stops behind a
   * response that is not finalized, behind a failed `sendto`, or when none is left.
   */
  function Drain(world: World, step: nat, infos: map<nat, Info>, queue: seq<nat>): (r: (nat, nat, seq<seq<u8>>))
    ensures r.0 <= |queue|
    decreases |queue|
  {
    if queue == [] || queue[0] !in infos then (0, step, [])
    else if Length(infos[queue[0]]) <= 0 then (1, step + 1, [])
    else
      var d := WireBytes(infos[queue[0]], world(step + 1).memory);
      if !world(step + 1).sends then (1, step + 2, [d])
      else
        var (n, end, rest) := Drain(world, step + 2, infos, queue[1..]);
        (n + 1, end, [d] + rest)
  }

  /** The messages that were meant by what goes out. */
  function Wired(infos: map<nat, Info>, meant: map<nat, Message>, queue: seq<nat>): seq<Message> {
    if queue == [] then []
    else
      var last := queue[|queue| - 1];
      Wired(infos, meant, queue[..|queue| - 1])
      + if last in infos && Length(infos[last]) > 0 && last in meant then [meant[last]] else []
  }

  /** Sending stamps a response but changes neither its bytes nor its length. */
  ghost predicate SameResponses(before: map<nat, Info>, after: map<nat, Info>) {
    before.Keys == after.Keys && forall item :: item in before ==> before[item].block == after[item].block
  }

  lemma DrainNext(world: World, step: nat, infos: map<nat, Info>, queue: seq<nat>, n: nat, out: seq<seq<u8>>)
    requires n < |queue| && queue[n] in infos
    ensures var (more, end, rest) := Drain(world, step, infos, queue[n..]);
            if Length(infos[queue[n]]) <= 0 then (n + more, end, out + rest) == (n + 1, step + 1, out)
            else
              var sent := out + [WireBytes(infos[queue[n]], world(step + 1).memory)];
              if !world(step + 1).sends then (n + more, end, out + rest) == (n + 1, step + 2, sent)
              else
                var (more', end', rest') := Drain(world, step + 2, infos, queue[n + 1..]);
                (n + more, end, out + rest) == (n + 1 + more', end', sent + rest')
  {
    hide Length, WireBytes;
    assert queue[n..][0] == queue[n] && queue[n..][1..] == queue[n + 1..];
    assert out + [] == out;
    if Length(infos[queue[n]]) > 0 && world(step + 1).sends {
      var d, rest' :=
        WireBytes(infos[queue[n]], world(step + 1).memory), Drain(world, step + 2, infos, queue[n + 1..]).2;
      assert out + ([d] + rest') == out + [d] + rest';
    }
  }

  lemma DrainNone(world: World, step: nat, infos: map<nat, Info>)
    ensures Drain(world, step, infos, []) == (0, step, [])
  {}

  lemma SameDatagram(a: Info, b: Info, memory: Memory)
    requires a.block == b.block
    ensures Length(a) == Length(b) && (Length(a) > 0 ==> WireBytes(a, memory) == WireBytes(b, memory))
  {}

  lemma SameResponsesAgain(a: map<nat, Info>, b: map<nat, Info>, c: map<nat, Info>)
    requires SameResponses(a, b) && SameResponses(b, c)
    ensures SameResponses(a, c)
  {}

  lemma {:induction false} DrainOfSame(
    world: World, step: nat, before: map<nat, Info>, after: map<nat, Info>, queue: seq<nat>)
    requires SameResponses(before, after)
    ensures Drain(world, step, after, queue) == Drain(world, step, before, queue)
    decreases |queue|
  {
    if queue != [] && queue[0] in before && Length(before[queue[0]]) > 0 && world(step + 1).sends {
      DrainOfSame(world, step + 2, before, after, queue[1..]);
    }
  }

  /** What may be finalized. */
  predicate Ready(m: Message) {
    |m.tlvs| <= MAX_TLV_COUNT && Ordinary(m.tlvs) && PayloadFits(m, BUFFER_SIZE)
  }

  /** A finalized response is aligned and as long as its header says, or has the length of a failure. */
  ghost predicate Shaped(info: Info, m: Message) {
    match MessageCells(m, BUFFER_SIZE)
    case Err(_) => Length(info) == FailedLength(m)
    case Ok(cells) => Length(info) == |cells| && IsDatagram(info.block[..|cells|])
  }

  ghost predicate SentAs(d: seq<u8>, m: Message) {
    match MessageCells(m, BUFFER_SIZE)
    case Err(_) => |d| == FailedLength(m) > 0
    case Ok(cells) => |d| == |cells| && IsDatagram(d)
  }

  lemma ShapedIsSent(info: Info, m: Message, memory: Memory)
    requires Shaped(info, m) && Length(info) > 0
    ensures SentAs(WireBytes(info, memory), m)
  {
    hide MessageCells, FailedLength, IsDatagram;
    if MessageCells(m, BUFFER_SIZE).Ok? {
      assert WireBytes(info, memory) == info.block[..Length(info)];
    }
  }

  /** The length of a failure is never that of a datagram. */
  lemma OverrunIsNoDatagram(d: seq<u8>, m: Message)
    requires Ready(m) && SentAs(d, m)
    ensures IsDatagram(d) <==> MessageCells(m, BUFFER_SIZE).Ok?
    ensures MessageCells(m, BUFFER_SIZE).Err? ==> |d| == FailedLength(m) && Stuck(m, BUFFER_SIZE).0 + 2 > BUFFER_SIZE
  {
    hide MessageCells, FailedLength, PayloadFits, Stuck;
    if MessageCells(m, BUFFER_SIZE).Err? {
      FailedLengthIsZeroIff(m);
      FailedLengthIsMisaligned(m);
    }
  }

  lemma FailedLengthIsMisaligned(m: Message)
    requires Ready(m) && MessageCells(m, BUFFER_SIZE).Err?
    ensures FailedLength(m) < HEADER_SIZE || (FailedLength(m) + NETWORK_OVERHEAD) % ALIGNMENT != 0
  {
    hide MessageCells, FailedLength, PayloadCells, FirstStuck;
    FailedLengthIsZeroIff(m);
    var at := HEADER_SIZE + |PayloadCells(m.payload).value|;
    StuckCodeIsOrdinary(m.tlvs, at, BUFFER_SIZE - at);
    SwappedCodeIsMisaligned(Stuck(m, BUFFER_SIZE).1);
  }

  lemma SwappedCodeIsMisaligned(code: u32)
    requires code in {0x1, 0x2, 0x4, 0x5, 0x6, 0x7, 0x9, 0x8008, 0x8009}
    ensures code % 0x100 < HEADER_SIZE
    ensures (code % 0x100 * 0x100 + code / 0x100 + NETWORK_OVERHEAD) % ALIGNMENT != 0
  {}

  // ---- Finalizing

  lemma LengthBytes(data: seq<u8>, cells: Cells)
    requires HEADER_SIZE <= |cells| <= |data| && |cells| < 0x1_0000
    requires cells[2] == Octet(|cells| % 0x1_0000 / 0x100) && cells[3] == Octet(|cells| % 0x100)
    ensures GetBe16(Overlay(data, 0, cells), 2) == |cells|
  {
    var written := Overlay(data, 0, cells);
    assert written[2] == cells[2].value && written[3] == cells[3].value;
    hide Overlay;
    var n := |cells|;
    assert n == n / 0x100 * 0x100 + n % 0x100;
  }

  lemma LengthCells(m: Message, length: nat)
    requires MessageCells(m, length).Ok?
    ensures var cells := MessageCells(m, length).value;
            cells[2] == Octet(|cells| % 0x1_0000 / 0x100) && cells[3] == Octet(|cells| % 0x100)
  {
    hide ContentCells, HeaderCells, Word;
    var cells := MessageCells(m, length).value;
    WordBytes(|cells|);
    HeaderLength(m, Word(|cells|), ContentCells(m, length - HEADER_SIZE).value);
  }

  lemma WordBytes(n: nat)
    ensures Word(n) == [Octet(n % 0x1_0000 / 0x100), Octet(n % 0x100)]
  {}

  lemma HeaderLength(m: Message, length: Cells, contents: Cells)
    requires |length| == 2
    ensures var cells := HeaderCells(m, length) + contents; cells[2] == length[0] && cells[3] == length[1]
  {}

  /** The block of a response after its message has been encoded. */
  function EncodedBlock(block: Block, cells: Cells): Block
    requires |cells| <= BUFFER_SIZE
  {
    WithLength(Overlay(block, 0, cells), |cells|)
  }

  lemma LengthField(block: Block, n: nat)
    requires n < 0x8000
    ensures GetLe16(WithLength(block, n), BUFFER_SIZE) == n
    ensures WithLength(block, n)[..BUFFER_SIZE] == block[..BUFFER_SIZE]
  {
    var b := WithLength(block, n);
    assert b[BUFFER_SIZE] == Le16(n)[0] && b[BUFFER_SIZE + 1] == Le16(n)[1];
  }

  /** The header's length field of an encoded message is the length that the encoder returns. */
  lemma EncodedIsDatagram(m: Message, block: Block)
    requires MessageCells(m, BUFFER_SIZE).Ok?
    ensures var cells := MessageCells(m, BUFFER_SIZE).value;
            IsDatagram(EncodedBlock(block, cells)[..|cells|])
  {
    hide MessageCells, Overlay, WithLength;
    var cells := MessageCells(m, BUFFER_SIZE).value;
    LengthCells(m, BUFFER_SIZE);
    LengthBytes(block, cells);
    LengthField(Overlay(block, 0, cells), |cells|);
    var written := EncodedBlock(block, cells)[..|cells|];
    assert written == EncodedBlock(block, cells)[..BUFFER_SIZE][..|cells|] == Overlay(block, 0, cells)[..|cells|];
  }

  lemma OverlayFits(data: seq<u8>, cells: Cells)
    requires |cells| <= |data|
    ensures Fits(cells, Overlay(data, 0, cells)[..|cells|], 0)
  {}

  lemma EncodedFits(m: Message, block: Block)
    requires MessageCells(m, BUFFER_SIZE).Ok?
    ensures var cells := MessageCells(m, BUFFER_SIZE).value;
            Fits(cells, EncodedBlock(block, cells)[..|cells|], 0)
  {
    hide MessageCells, Overlay, WithLength, Fits;
    var cells := MessageCells(m, BUFFER_SIZE).value;
    LengthField(Overlay(block, 0, cells), |cells|);
    OverlayFits(block, cells);
    assert EncodedBlock(block, cells)[..|cells|] == EncodedBlock(block, cells)[..BUFFER_SIZE][..|cells|]
        == Overlay(block, 0, cells)[..|cells|];
  }

  /** Completing what has been encoded touches neither the header nor the length field. */
  lemma SealKeepsShape(before: Block, after: seq<u8>, length: nat, tlvs: seq<Tlv>)
    requires |after| == |before| && HEADER_SIZE <= length <= BUFFER_SIZE && IsDatagram(before[..length])
    requires forall k :: 0 <= k < |before| && !InIcv(tlvs, k) ==> after[k] == before[k]
    requires forall i :: 0 <= i < |tlvs| && tlvs[i].body.Authentication? ==>
               HEADER_SIZE <= tlvs[i].body.icv && tlvs[i].body.icv + tlvs[i].body.icvLength <= length
    ensures IsDatagram(after[..length])
    ensures after[BUFFER_SIZE] == before[BUFFER_SIZE] && after[BUFFER_SIZE + 1] == before[BUFFER_SIZE + 1]
  {}

  lemma IcvsInMessage(d: seq<u8>)
    requires |d| < 0x8000 && DecodeMessage(d).Ok?
    ensures forall i :: 0 <= i < |DecodeMessage(d).value.tlvs| ==>
              var body := DecodeMessage(d).value.tlvs[i].body;
              body.Authentication? ==> HEADER_SIZE <= body.icv && body.icv + body.icvLength <= |d|
  {
    PtpLayout.MessageLayout(d);
    var tlvs, positions := DecodeMessage(d).value.tlvs, PtpLayout.TlvPositions(d);
    forall i | 0 <= i < |tlvs| && tlvs[i].body.Authentication?
      ensures HEADER_SIZE <= tlvs[i].body.icv && tlvs[i].body.icv + tlvs[i].body.icvLength <= |d|
    {
      PtpLayout.IcvFillsTlv(d, tlvs, positions, i);
      if i > 0 { PtpLayout.PositionsIncrease(d, tlvs, positions, 0, i); }
    }
  }

  /** Completion changes nothing that a receiver decodes, nor the length. */
  lemma CompletedKeeps(hmac: Hmac, entries: seq<Entry>, before: Block, block: Block, m: Message)
    requires |m.tlvs| <= MAX_TLV_COUNT && HmacLengths(m.tlvs) && MessageCells(m, BUFFER_SIZE).Ok?
    requires NonePlain(entries, PtpRoundTrip.Delivered(m).tlvs)
    requires block == EncodedBlock(before, MessageCells(m, BUFFER_SIZE).value)
    ensures var length, received := |MessageCells(m, BUFFER_SIZE).value|, PtpRoundTrip.Delivered(m);
            && IcvRoom(entries, block, received.tlvs) && DecodeMessage(block[..length]) == Ok(received)
            && var sealed := Sealed(hmac, entries, block, received.tlvs).0;
            && |sealed| == BLOCK_SIZE && DecodeMessage(sealed[..length]) == Ok(received)
            && IsDatagram(sealed[..length]) && GetLe16(sealed, BUFFER_SIZE) == length
  {
    hide MessageCells, DecodeMessage, Sealed, PtpRoundTrip.Delivered, HmacLengths, InIcv, Overlay, NonePlain, IcvRoom,
      IsDatagram, WithLength, Fits;
    var cells := MessageCells(m, BUFFER_SIZE).value;
    var tlvs := PtpRoundTrip.Delivered(m).tlvs;
    EncodedIsDatagram(m, before);
    EncodedFits(m, before);
    EncodedSealedDecodes(hmac, entries, m, BUFFER_SIZE, block);
    IcvsInMessage(block[..|cells|]);
    SealKeepsShape(block, Sealed(hmac, entries, block, tlvs).0, |cells|, tlvs);
    LengthField(Overlay(before, 0, cells), |cells|);
  }

  /** Completion keeps what the message says and makes its authentication TLVs valid. */
  lemma CompletedIsFinished(hmac: Hmac, entries: seq<Entry>, before: Block, info: Info, m: Message)
    requires |m.tlvs| <= MAX_TLV_COUNT && HmacLengths(m.tlvs) && MessageCells(m, BUFFER_SIZE).Ok?
    requires NonePlain(entries, PtpRoundTrip.Delivered(m).tlvs)
    requires info.block == EncodedBlock(before, MessageCells(m, BUFFER_SIZE).value)
    ensures IcvRoom(entries, info.block, PtpRoundTrip.Delivered(m).tlvs)
    ensures var sealed := Sealed(hmac, entries, info.block, PtpRoundTrip.Delivered(m).tlvs).0;
            && |sealed| == BLOCK_SIZE
            && Finished(hmac, entries, info.(block := sealed), m) && Shaped(info.(block := sealed), m)
    ensures NoAuthentication(m.tlvs) ==> Sealed(hmac, entries, info.block, PtpRoundTrip.Delivered(m).tlvs).1 == 0
  {
    assert |entries| == |PtpRoundTrip.Delivered(m).tlvs|;
    hide MessageCells, DecodeMessage, Sealed, PtpRoundTrip.Delivered, HmacLengths, NonePlain, IcvRoom, AllFind,
      IsDatagram, EncodedBlock, Authentic, NoAuthentication, Fits, GetLe16, Finished, Shaped;
    var tlvs := PtpRoundTrip.Delivered(m).tlvs;
    CompletedKeeps(hmac, entries, before, info.block, m);
    EncodedFits(m, before);
    var completed := info.(block := Sealed(hmac, entries, info.block, tlvs).0);
    CompletedIsAuthenticForAll(hmac, entries, info, completed, m);
    FinishedFromParts(hmac, entries, completed, m);
    if NoAuthentication(m.tlvs) {
      DeliveredAddsNoAuthentication(m);
      NothingToSeal(hmac, entries, info.block, tlvs);
    }
  }

  lemma FinishedFromParts(hmac: Hmac, entries: seq<Entry>, info: Info, m: Message)
    requires MessageCells(m, BUFFER_SIZE).Ok? && Length(info) == |MessageCells(m, BUFFER_SIZE).value|
    requires IsDatagram(info.block[..Length(info)])
    requires DecodeMessage(info.block[..Length(info)]) == Ok(PtpRoundTrip.Delivered(m))
    requires forall row: DbCache.Row ::
               row.policy == POLICY_HMAC_128 && AllFind(entries, PtpRoundTrip.Delivered(m).tlvs, row) ==>
                 Authentic(hmac, row, info)
    ensures Finished(hmac, entries, info, m) && Shaped(info, m)
  {
    hide MessageCells, DecodeMessage, PtpRoundTrip.Delivered, AllFind, Authentic, GetLe16;
  }

  lemma CompletedIsAuthenticForAll(hmac: Hmac, entries: seq<Entry>, info: Info, completed: Info, m: Message)
    requires |m.tlvs| <= MAX_TLV_COUNT && HmacLengths(m.tlvs) && MessageCells(m, BUFFER_SIZE).Ok?
    requires Fits(MessageCells(m, BUFFER_SIZE).value, info.block[..|MessageCells(m, BUFFER_SIZE).value|], 0)
    requires IcvRoom(entries, info.block, PtpRoundTrip.Delivered(m).tlvs)
    requires completed.block == Sealed(hmac, entries, info.block, PtpRoundTrip.Delivered(m).tlvs).0
    requires Length(completed) == |MessageCells(m, BUFFER_SIZE).value|
    ensures forall row: DbCache.Row ::
              row.policy == POLICY_HMAC_128 && AllFind(entries, PtpRoundTrip.Delivered(m).tlvs, row) ==>
                Authentic(hmac, row, completed)
  {
    hide MessageCells, Sealed, PtpRoundTrip.Delivered, HmacLengths, IcvRoom, AllFind, Authentic, Fits, Length;
    forall row: DbCache.Row | row.policy == POLICY_HMAC_128 && AllFind(entries, PtpRoundTrip.Delivered(m).tlvs, row)
      ensures Authentic(hmac, row, completed)
    {
      CompletedIsAuthentic(hmac, entries, row, info, completed, m);
    }
  }

  lemma CompletedIsAuthentic(hmac: Hmac, entries: seq<Entry>, row: DbCache.Row, info: Info, completed: Info, m: Message)
    requires |m.tlvs| <= MAX_TLV_COUNT && HmacLengths(m.tlvs) && MessageCells(m, BUFFER_SIZE).Ok?
    requires row.policy == POLICY_HMAC_128 && AllFind(entries, PtpRoundTrip.Delivered(m).tlvs, row)
    requires Fits(MessageCells(m, BUFFER_SIZE).value, info.block[..|MessageCells(m, BUFFER_SIZE).value|], 0)
    requires IcvRoom(entries, info.block, PtpRoundTrip.Delivered(m).tlvs)
    requires completed.block == Sealed(hmac, entries, info.block, PtpRoundTrip.Delivered(m).tlvs).0
    requires Length(completed) == |MessageCells(m, BUFFER_SIZE).value|
    ensures Authentic(hmac, row, completed)
  {
    hide MessageCells, DecodeMessage, Sealed, PtpRoundTrip.Delivered, HmacLengths, IcvRoom, AllFind, AllPass, Fits;
    forall scratch: Memory
      ensures AllPass(hmac, row, completed.block, PtpRoundTrip.Delivered(m).tlvs, scratch)
    {
      EncodedSealedMessagePasses(hmac, entries, row, m, BUFFER_SIZE, info.block, scratch);
    }
    EncodedSealedMessagePasses(hmac, entries, row, m, BUFFER_SIZE, info.block, seq(0x8000, _ => 0));
  }

  lemma {:induction false} WireAddsNoAuthentication(tlvs: seq<Tlv>, at: nat)
    requires NoAuthentication(tlvs)
    ensures NoAuthentication(PtpRoundTrip.WireTlvs(tlvs, at))
    decreases |tlvs|
  {
    hide PtpRoundTrip.TlvSize;
    if tlvs != [] { WireAddsNoAuthentication(tlvs[1..], at + PtpRoundTrip.TlvSize(tlvs[0].body)); }
  }

  lemma DeliveredAddsNoAuthentication(m: Message)
    requires NoAuthentication(m.tlvs)
    ensures NoAuthentication(PtpRoundTrip.Delivered(m).tlvs)
  {
    WireAddsNoAuthentication(m.tlvs, HEADER_SIZE + PtpRoundTrip.PayloadSize(m.payload));
  }

  lemma {:induction false} NothingToSeal(hmac: Hmac, entries: seq<Entry>, data: seq<u8>, tlvs: seq<Tlv>)
    requires NoAuthentication(tlvs) && |entries| == |tlvs|
    ensures IcvRoom(entries, data, tlvs) && Sealed(hmac, entries, data, tlvs) == (data, 0)
    decreases |tlvs|
  {
    if tlvs != [] { NothingToSeal(hmac, entries[1..], data, tlvs[1..]); }
  }

  /** Only the block of a response matters. */
  lemma SameBlock(hmac: Hmac, entries: seq<Entry>, a: Info, b: Info, m: Message)
    requires a.block == b.block
    ensures Finished(hmac, entries, a, m) == Finished(hmac, entries, b, m) && Shaped(a, m) == Shaped(b, m)
  {
    hide MessageCells, DecodeMessage, AllFind, AllPass, PtpRoundTrip.Delivered, FailedLength, IsDatagram;
    forall row: DbCache.Row
      ensures Authentic(hmac, row, a) == Authentic(hmac, row, b)
    {
    }
  }

  /** A failed encoding leaves its spill in the length field. */
  lemma SpillIsLength(before: Block, after: Block, spill: Cells)
    requires |spill| <= LENGTH_SIZE + GAP_SIZE && GetLe16(before, BUFFER_SIZE) == 0
    requires PtpEncoding.Failed(before, after, 0, BUFFER_SIZE, spill)
    ensures ToSigned16(GetLe16(after, BUFFER_SIZE)) == SpilledLength(spill)
  {
    hide SpilledLength;
    SpilledBytes(spill);
    var written := Overlay(before, BUFFER_SIZE, spill);
    assert after[BUFFER_SIZE] == written[BUFFER_SIZE] == SpilledByte(spill, 0);
    assert after[BUFFER_SIZE + 1] == written[BUFFER_SIZE + 1] == SpilledByte(spill, 1);
  }

  lemma SpillStaysInBlock(m: Message)
    requires Ready(m)
    ensures |MessageSpill(m, BUFFER_SIZE)| <= GAP_SIZE
  {
    hide PayloadCells, TlvsCells, TlvCells, TlvsSpill, SpillCells, PadLength, HeaderCells;
    if MessageCells(m, BUFFER_SIZE).Err? {
      MessageSpillsFrom(m, BUFFER_SIZE);
    } else {
      var room := BUFFER_SIZE - HEADER_SIZE - |PayloadCells(m.payload).value|;
      var tlvs := TlvsCells(m.tlvs, room).value;
      assert |PayloadCells(m.payload).value + tlvs| == |PayloadCells(m.payload).value| + |tlvs|;
      PtpEncoding.NoSpillIfFits(Pad(PadLength(HEADER_SIZE + |PayloadCells(m.payload).value + tlvs|)), room - |tlvs|);
    }
  }

  // ---- Requests and queues

  /** The receive buffer: what was received, and what else lies there. */
  function ReceiveBuffer(received: seq<u8>, memory: Memory): (data: seq<u8>)
    requires |received| <= BUFFER_SIZE
    ensures |data| == BUFFER_SIZE + SECRET_SIZE && data[..|received|] == received
  {
    received + memory[..BUFFER_SIZE + SECRET_SIZE - |received|]
  }

  /** A request as it is handed to a handler: decoded, and not marked yet. */
  predicate Received(request: Request) {
    && request.portType <= PORT_GENERAL && AllCheckable(request.data, request.message)
    && |request.message.tlvs| <= MAX_TLV_COUNT
    && forall i :: 0 <= i < |request.message.tlvs| ==> !request.message.tlvs[i].authenticated
  }

  /** The two requests differ at most in the marks of their messages. */
  predicate SameRequest(before: Request, after: Request) {
    after == before.(message := after.message) && Remarked(before.message, after.message)
  }

  /** The two maps differ at most at `k`. */
  ghost predicate OnlyAt<V>(before: map<nat, V>, after: map<nat, V>, k: nat) {
    k in after && after == before[k := after[k]]
  }

  lemma OnlyAtAgain<V>(a: map<nat, V>, b: map<nat, V>, c: map<nat, V>, k: nat)
    requires OnlyAt(a, b, k) && OnlyAt(b, c, k)
    ensures OnlyAt(a, c, k)
  {}

  lemma StoredOnlyAt<V>(a: map<nat, V>, k: nat, v: V)
    ensures OnlyAt(a, a[k := v], k)
  {}

  lemma OnlyAtNothing<V>(a: map<nat, V>, k: nat)
    requires k in a
    ensures OnlyAt(a, a, k)
  {
    assert a == a[k := a[k]];
  }

  /** What was in `queue` stays there, and as it was, except for `but`. */
  ghost predicate Kept(
    queue: seq<nat>, infos: map<nat, Info>, meant: map<nat, Message>,
    queue': seq<nat>, infos': map<nat, Info>, meant': map<nat, Message>, but: set<nat>)
  {
    && queue <= queue'
    && forall item :: item in queue && item in infos && item !in but ==>
         && item in infos' && infos'[item] == infos[item]
         && (item in meant ==> item in meant' && meant'[item] == meant[item])
  }

  lemma KeptNothing(queue: seq<nat>, infos: map<nat, Info>, meant: map<nat, Message>, but: set<nat>)
    ensures Kept(queue, infos, meant, queue, infos, meant, but)
  {}

  lemma KeptAgain(
    queue: seq<nat>, infos: map<nat, Info>, meant: map<nat, Message>,
    queue': seq<nat>, infos': map<nat, Info>, meant': map<nat, Message>,
    queue'': seq<nat>, infos'': map<nat, Info>, meant'': map<nat, Message>, but: set<nat>)
    requires Kept(queue, infos, meant, queue', infos', meant', but)
    requires Kept(queue', infos', meant', queue'', infos'', meant'', but)
    ensures Kept(queue, infos, meant, queue'', infos'', meant'', but)
  {}

  /** What `after` says outside `k` is what `before` said. */
  ghost predicate SameBut<V>(before: map<nat, V>, after: map<nat, V>, k: nat) {
    forall j :: j in before && j != k ==> j in after && after[j] == before[j]
  }

  lemma OnlyAtIsSameBut<V>(before: map<nat, V>, after: map<nat, V>, k: nat)
    requires OnlyAt(before, after, k)
    ensures SameBut(before, after, k)
  {}

  lemma SameButAgain<V>(a: map<nat, V>, b: map<nat, V>, c: map<nat, V>, k: nat)
    requires SameBut(a, b, k) && SameBut(b, c, k)
    ensures SameBut(a, c, k)
  {}

  lemma SameIsSameBut<V>(m: map<nat, V>, k: nat)
    ensures SameBut(m, m, k)
  {}

  lemma KeptFresh(
    queue: seq<nat>, item: nat, infos: map<nat, Info>, meant: map<nat, Message>,
    infos': map<nat, Info>, meant': map<nat, Message>)
    requires item !in queue && SameBut(infos, infos', item) && SameBut(meant, meant', item)
    ensures Kept(queue, infos, meant, queue + [item], infos', meant', {})
  {}

  lemma KeptBehind(
    queue: seq<nat>, item: nat, infos: map<nat, Info>, infos1: map<nat, Info>, meant: map<nat, Message>,
    queue2: seq<nat>, infos2: map<nat, Info>, meant2: map<nat, Message>)
    requires item !in queue && SameBut(infos, infos1, item)
    requires Kept(queue, infos1, meant, queue2, infos2, meant2, {})
    ensures Kept(queue, infos, meant, queue2, infos2, meant2, {})
  {}

  /** What happens to a new item does not matter for what was queued before. */
  lemma KeptOutside(
    queue: seq<nat>, item: nat, infos: map<nat, Info>, meant: map<nat, Message>,
    infos1: map<nat, Info>, meant1: map<nat, Message>,
    queue2: seq<nat>, infos2: map<nat, Info>, meant2: map<nat, Message>,
    infos3: map<nat, Info>, meant3: map<nat, Message>)
    requires item !in queue && SameBut(infos, infos1, item) && SameBut(meant, meant1, item)
    requires Kept(queue + [item], infos1, meant1, queue2, infos2, meant2, {item})
    requires SameBut(infos2, infos3, item) && SameBut(meant2, meant3, item)
    ensures Kept(queue, infos, meant, queue2, infos3, meant3, {})
  {
    assert queue2[..|queue|] == (queue + [item])[..|queue|] == queue;
    forall k | k in queue && k in infos
      ensures k in infos3 && infos3[k] == infos[k] && (k in meant ==> k in meant3 && meant3[k] == meant[k])
    {
      assert k in queue + [item];
    }
  }

  /** A new item comes first, whatever happens to it later. */
  lemma QueuedBehind(
    hmac: Hmac, latest: map<PortId, DbCache.Row>, before: seq<nat>, item: nat, after: seq<nat>,
    infos: map<nat, Info>, infos': map<nat, Info>, meant: map<nat, Message>, meant': map<nat, Message>,
    first: Response, more: seq<Response>)
    requires Queued(hmac, latest, before + [item], after, infos, meant, more)
    requires SameBut(infos, infos', item) && SameBut(meant, meant', item)
    requires forall j :: |before| < j < |after| ==> after[j] != item
    requires Holds(hmac, latest, infos', meant', item, first)
    ensures Queued(hmac, latest, before, after, infos', meant', [first] + more)
  {
    hide Realizes;
    var all := [first] + more;
    assert after[..|before|] == after[..|before| + 1][..|before|] == before;
    assert after[|before|] == (before + [item])[|before|];
    forall k | 0 <= k < |all|
      ensures Holds(hmac, latest, infos', meant', after[|before| + k], all[k])
    {
      if k > 0 {
        assert all[k] == more[k - 1] && after[|before| + k] == after[|before + [item]| + (k - 1)];
      }
    }
  }

  /** Responses queued so far stay queued when more are added, if they are kept. */
  lemma QueuedAgain(
    hmac: Hmac, latest: map<PortId, DbCache.Row>, before: seq<nat>, middle: seq<nat>, after: seq<nat>,
    infos: map<nat, Info>, infos': map<nat, Info>, meant: map<nat, Message>, meant': map<nat, Message>,
    responses: seq<Response>, more: seq<Response>, but: set<nat>)
    requires Queued(hmac, latest, before, middle, infos, meant, responses)
    requires Queued(hmac, latest, middle, after, infos', meant', more)
    requires Kept(middle, infos, meant, after, infos', meant', but)
    requires forall k :: |before| <= k < |middle| ==> middle[k] !in but
    ensures Queued(hmac, latest, before, after, infos', meant', responses + more)
  {
    hide Realizes;
    var all := responses + more;
    forall k | 0 <= k < |all|
      ensures Holds(hmac, latest, infos', meant', after[|before| + k], all[k])
    {
      if k < |responses| {
        assert all[k] == responses[k] && after[|before| + k] == middle[|before| + k];
      } else {
        assert after[|before| + k] == after[|middle| + (k - |responses|)] && all[k] == more[k - |responses|];
      }
    }
  }

  // ---- Arrivals

  function LeftoverOf(request: Request): Leftover {
    Leftover(request.message.portId, request.message.sequenceId, request.payload)
  }

  predicate Buffered(request: Request) {
    request.portType <= PORT_GENERAL && request.length <= BUFFER_SIZE && |request.data| == BUFFER_SIZE + SECRET_SIZE
  }

  /** The received bytes. */
  function Datagram(request: Request): (d: seq<u8>)
    requires Buffered(request)
    ensures |d| == request.length <= BUFFER_SIZE
  {
    request.data[..request.length]
  }

  /** A request as it has been received into a struct, before it is decoded. */
  function Over(left: Leftover, portType: nat, received: seq<u8>, memory: Memory): (request: Request)
    requires |received| <= BUFFER_SIZE && portType <= PORT_GENERAL
    ensures Buffered(request) && Datagram(request) == received && LeftoverOf(request) == left
  {
    Request(portType, 0, ReceiveBuffer(received, memory), |received|,
            FreshMessage(UnknownPayload(0), left.requester, left.sequenceId), left.payload)
  }

  /**
   * What the service's decoder makes of a request. In front of its buffer it finds
   * `wild`, which must be checkable to count.
   */
  function Decoding(request: Request, wild: Result<seq<Tlv>>): (r: Result<Message>)
    requires Buffered(request)
    ensures r.Ok? ==> Received(request.(message := r.value))
    ensures r.Ok? ==>
            HEADER_SIZE <= request.length
              && DecodePayload(Datagram(request)[0] % 0x10, Datagram(request), HEADER_SIZE).Ok?
    ensures r.Ok? ==>
            r.value.portId == GetPortId(Datagram(request), 20) && r.value.sequenceId == GetBe16(Datagram(request), 30)
  {
    var d := Datagram(request);
    match PtpSigned.DecodeMessage(d)
    case Some(Err(e)) => Err(e)
    case Some(Ok(m)) =>
      SignedIcvsAreInside(request.data, request.length);
      Ok(m.(payload := WithPort(m.payload, request.payload)))
    case None =>
      if wild.Err? then Err(wild.error)
      else
        var m := HeaderOf(d, WithPort(DecodePayload(d[0] % 0x10, d, HEADER_SIZE).value.0, request.payload), wild.value);
        if Received(request.(message := m)) then Ok(m) else Err(Invalid)
  }

  /** The request behind its decoding. */
  function Decoded(request: Request, r: Result<Message>): Request
    requires Buffered(request)
  {
    var left := AfterDecoding(LeftoverOf(request), Datagram(request));
    request.(payload := left.payload,
             message := if r.Ok? then r.value
                        else request.message.(portId := left.requester, sequenceId := left.sequenceId))
  }

  lemma DecodedLeaves(request: Request, wild: Result<seq<Tlv>>)
    requires Buffered(request)
    ensures LeftoverOf(Decoded(request, Decoding(request, wild)))
            == AfterDecoding(LeftoverOf(request), Datagram(request))
  {
    hide Decoding, Stored;
  }

  /** Everything that a request leads to. */
  function AnswerTo(hmac: Hmac, world: World, env: Env, request: Request, room: nat): (o: Outcome)
    requires Usable(env) && Buffered(request)
    ensures Usable(o.env) && |o.responses| <= room
  {
    Respond(hmac, world, env, request.data, request.portType, request.timestamp,
            Decoding(request, world(env.step).wild), AfterDecoding(LeftoverOf(request), Datagram(request)), room)
  }

  /** What an arrival amounts to, received over what is `left` in a struct: nothing if nothing could be received. */
  function Reception(
    hmac: Hmac, world: World, start: Env, left: Leftover, portType: nat, received: Option<seq<u8>>, room: nat):
    (o: Outcome)
    requires Usable(start) && portType <= PORT_GENERAL && (received.Some? ==> |received.value| <= BUFFER_SIZE)
    ensures Usable(o.env) && |o.responses| <= room
  {
    if received.None? then Outcome(-1, [], start)
    else
      var (now, after) := Clock(world, start);
      var request := Over(left, portType, received.value, world(start.step).memory);
      AnswerTo(hmac, world, after, request.(timestamp := now), room)
  }
}
