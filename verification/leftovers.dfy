/**
 * What older messages leave in the struct of a request. Nothing clears it, and
 * the decoder stores only the fields that a message has. So a delay request, which
 * has no port, is answered with a port that older messages have left, and so is a
 * message without a full header. The payloads share the memory of a union, here
 * with little-endian fields and 32-bit enumerations.
 */
module Leftovers {
  import opened Bytes
  import opened Wrappers
  import opened PtpMessage
  import opened PtpWire

  const UNION_SIZE: nat := 40
  const REQUEST_COUNT: nat := 8

  type Union = s: seq<u8> | |s| == UNION_SIZE witness seq(UNION_SIZE, _ => 0)

  /** What is read of a struct before it has been stored: the header's port and sequence number, and the payload. */
  datatype Leftover = Leftover(requester: PortId, sequenceId: u16, payload: Union)

  function Le32(x: u32): (s: seq<u8>)
    ensures |s| == 4
  {
    Le16(x % 0x1_0000) + Le16(x / 0x1_0000)
  }

  function Le64(x: u64): (s: seq<u8>)
    ensures |s| == 8
  {
    Le32(x % TWO32) + Le32(x / TWO32)
  }

  function GetLe32(data: seq<u8>, at: nat): u32
    requires at + 4 <= |data|
  {
    (GetLe16(data, at + 2) as int) * 0x1_0000 + GetLe16(data, at)
  }

  function GetLe64(data: seq<u8>, at: nat): u64
    requires at + 8 <= |data|
  {
    (GetLe32(data, at + 4) as int) * TWO32 + GetLe32(data, at)
  }

  function PutPort(union: Union, at: nat, port: PortId): Union
    requires at + 10 <= UNION_SIZE
  {
    Put(Put(union, at, Le64(port.clockId)), at + 8, Le16(port.port))
  }

  /** The union after a payload has been decoded into it. */
  function Stored(union: Union, payload: Payload): Union {
    match payload
    case Event(kind, timestamp, port) =>
      var timed := Put(union, 0, Le64(timestamp));
      if CarriesPort(kind) then PutPort(timed, 8, port) else timed
    case Announce(timestamp, utcOffset, priority, quality, grandmasterId, stepsRemoved, timeSource) =>
      var timed := Put(Put(Put(union, 0, Le64(timestamp)), 8, Le16(utcOffset)), 10, Le16(priority));
      var rated := Put(Put(Put(timed, 12, Le32(quality.clockClass)), 16, Le32(quality.accuracy)), 20,
                       Le16(quality.variance));
      Put(Put(Put(rated, 24, Le64(grandmasterId)), 32, Le16(stepsRemoved)), 36, Le32(timeSource))
    case Signaling(target) => PutPort(union, 0, target)
    case Management(target, startingHops, hops, action) =>
      Put(Put(PutPort(union, 0, target), 16, Le32(action)), 20, [startingHops, hops])
    case UnknownPayload(_) => union
  }

  /** The port of an event message in the union. */
  function EventPort(union: Union): PortId {
    PortId(GetLe64(union, 8), GetLe16(union, 16))
  }

  /** What the decoder makes of a payload: an event without a port keeps the one in the union. */
  function WithPort(payload: Payload, union: Union): (p: Payload)
    ensures payload.Event? <==> p.Event?
    ensures !payload.Event? ==> p == payload
  {
    match payload
    case Event(kind, timestamp, port) => Event(kind, timestamp, if CarriesPort(kind) then port else EventPort(union))
    case _ => payload
  }

  /** The struct after `d` has been decoded into it, successfully or not. */
  function AfterDecoding(left: Leftover, d: seq<u8>): Leftover {
    if |d| < HEADER_SIZE then left
    else
      var payload := DecodePayload(d[0] % 0x10, d, HEADER_SIZE);
      Leftover(GetPortId(d, 20), GetBe16(d, 30),
               if payload.Ok? then Stored(left.payload, payload.value.0) else left.payload)
  }

  /** A failed `recvfrom` uses a struct up without storing into it. */
  function AfterArrival(left: Leftover, received: Option<seq<u8>>): Leftover {
    if received.None? then left else AfterDecoding(left, received.value)
  }

  // ---- Which port a delay request is answered with

  /** The port of an event in the union, in terms of what is stored over `before`. */
  function Overlaid(before: PortId, payload: Payload): PortId {
    match payload
    case Event(kind, _, port) => if CarriesPort(kind) then port else before
    case Announce(_, utcOffset, priority, quality, _, _, _) =>
      PortId(quality.clockClass * TWO32 + priority * 0x1_0000 + utcOffset, quality.accuracy % 0x1_0000)
    case Signaling(target) => PortId(WithLowWord(before.clockId, target.port), before.port)
    case Management(target, _, _, action) =>
      PortId(WithLowWord(before.clockId, target.port), action % 0x1_0000)
    case UnknownPayload(_) => before
  }

  function WithLowWord(x: u64, low: u16): u64 {
    x / 0x1_0000 * 0x1_0000 + low
  }

  lemma TimeStored(union: Union, timestamp: u64)
    ensures EventPort(Put(union, 0, Le64(timestamp))) == EventPort(union)
  {}

  lemma PortStored(union: Union, port: PortId)
    ensures EventPort(PutPort(union, 8, port)) == port
  {}

  lemma EventStored(union: Union, p: Payload)
    requires p.Event?
    ensures EventPort(Stored(union, p)) == Overlaid(EventPort(union), p)
  {
    hide Put, PutPort, EventPort;
    TimeStored(union, p.timestamp);
    PortStored(Put(union, 0, Le64(p.timestamp)), p.portId);
  }

  lemma StoredBehind(union: Union, at: nat, s: seq<u8>)
    requires 18 <= at && at + |s| <= UNION_SIZE
    ensures EventPort(Put(union, at, s)) == EventPort(union)
  {}

  lemma AnnounceWords(union: Union, p: Payload)
    requires p.Announce?
    ensures var rated := Put(Put(Put(Put(union, 8, Le16(p.utcOffset)), 10, Le16(p.priority)), 12,
                                 Le32(p.quality.clockClass)), 16, Le32(p.quality.accuracy));
            EventPort(rated) == Overlaid(EventPort(union), p)
  {
    var first := Put(Put(union, 8, Le16(p.utcOffset)), 10, Le16(p.priority));
    assert first[8..10] == Le16(p.utcOffset) && first[10..12] == Le16(p.priority);
    var second := Put(first, 12, Le32(p.quality.clockClass));
    assert second[8..12] == first[8..12] && second[12..16] == Le32(p.quality.clockClass);
    var third := Put(second, 16, Le32(p.quality.accuracy));
    assert third[8..16] == second[8..16] && third[16..20] == Le32(p.quality.accuracy);
  }

  lemma TargetStored(union: Union, target: PortId)
    ensures EventPort(PutPort(union, 0, target))
         == PortId(WithLowWord(EventPort(union).clockId, target.port), EventPort(union).port)
  {
    var u := PutPort(union, 0, target);
    assert u[8] == Le16(target.port)[0] && u[9] == Le16(target.port)[1];
    assert u[10..18] == union[10..18];
    SameWords(u, union);
    LowWordOf(union);
  }

  lemma SameWords(a: Union, b: Union)
    requires a[10..18] == b[10..18]
    ensures GetLe16(a, 10) == GetLe16(b, 10) && GetLe32(a, 12) == GetLe32(b, 12) && GetLe16(a, 16) == GetLe16(b, 16)
  {
    var t := a[10..18];
    assert forall k: nat :: k < 8 ==> t[k] == a[10 + k] == b[10 + k];
  }

  lemma LowWordOf(union: Union)
    ensures EventPort(union).clockId / 0x1_0000 == GetLe32(union, 12) * 0x1_0000 + GetLe16(union, 10)
  {
    hide GetLe16;
  }

  lemma SignalingStored(union: Union, p: Payload)
    requires p.Signaling?
    ensures EventPort(Stored(union, p)) == Overlaid(EventPort(union), p)
  {
    hide PutPort, EventPort, WithLowWord;
    TargetStored(union, p.target);
  }

  lemma ActionStored(union: Union, action: u32)
    ensures EventPort(Put(union, 16, Le32(action))) == PortId(EventPort(union).clockId, action % 0x1_0000)
  {
    var u := Put(union, 16, Le32(action));
    assert u[8..16] == union[8..16] && u[16..20] == Le32(action);
  }

  lemma ManagementStored(union: Union, p: Payload)
    requires p.Management?
    ensures EventPort(Stored(union, p)) == Overlaid(EventPort(union), p)
  {
    hide Put, PutPort, EventPort, WithLowWord, Le32;
    TargetStored(union, p.target);
    var named := PutPort(union, 0, p.target);
    ActionStored(named, p.action);
    StoredBehind(Put(named, 16, Le32(p.action)), 20, [p.startingHops, p.hops]);
  }

  lemma AnnounceStored(union: Union, p: Payload)
    requires p.Announce?
    ensures EventPort(Stored(union, p)) == Overlaid(EventPort(union), p)
  {
    var timed := Put(union, 0, Le64(p.timestamp));
    AnnounceWords(timed, p);
    hide Put, EventPort, Le16, Le32, Le64;
    var rated := Put(Put(Put(Put(timed, 8, Le16(p.utcOffset)), 10, Le16(p.priority)), 12,
                         Le32(p.quality.clockClass)), 16, Le32(p.quality.accuracy));
    StoredBehind(rated, 20, Le16(p.quality.variance));
    var named := Put(rated, 20, Le16(p.quality.variance));
    StoredBehind(named, 24, Le64(p.grandmasterId));
    StoredBehind(Put(named, 24, Le64(p.grandmasterId)), 32, Le16(p.stepsRemoved));
    StoredBehind(Put(Put(named, 24, Le64(p.grandmasterId)), 32, Le16(p.stepsRemoved)), 36, Le32(p.timeSource));
  }

  /** The memory of the union holds exactly what has been stored over the port. */
  lemma StoredIsOverlaid(union: Union, payload: Payload)
    ensures EventPort(Stored(union, payload)) == Overlaid(EventPort(union), payload)
  {
    hide Stored, EventPort, Overlaid;
    match payload
    case Event(_, _, _) => EventStored(union, payload);
    case Announce(_, _, _, _, _, _, _) => AnnounceStored(union, payload);
    case Signaling(_) => SignalingStored(union, payload);
    case Management(_, _, _, _) => ManagementStored(union, payload);
    case UnknownPayload(_) => NothingStored(union, payload);
  }

  lemma NothingStored(union: Union, p: Payload)
    requires p.UnknownPayload?
    ensures EventPort(Stored(union, p)) == Overlaid(EventPort(union), p)
  {}

  /** What the payload of a message leaves is no port, the one that names nobody. */
  predicate LeavesNoPort(before: PortId, payload: Payload) {
    match payload
    case Event(kind, _, port) => (if CarriesPort(kind) then port else before) == NO_PORT
    case Announce(_, utcOffset, priority, quality, _, _, _) =>
      utcOffset == priority == quality.clockClass == quality.accuracy == 0
    case Signaling(target) => before.clockId < 0x1_0000 && before.port == 0 && target.port == 0
    case Management(target, _, _, action) => before.clockId < 0x1_0000 && target.port == 0 && action == 0
    case UnknownPayload(_) => before == NO_PORT
  }

  /** Exactly when a delay request is answered with the port (0, 0), by the message that was received before it. */
  lemma NoPortIff(left: Leftover, d: seq<u8>)
    ensures EventPort(AfterDecoding(left, d).payload) == NO_PORT <==>
            if |d| < HEADER_SIZE || DecodePayload(d[0] % 0x10, d, HEADER_SIZE).Err?
            then EventPort(left.payload) == NO_PORT
            else LeavesNoPort(EventPort(left.payload), DecodePayload(d[0] % 0x10, d, HEADER_SIZE).value.0)
  {
    hide Stored, EventPort, GetTimestamp, GetPortId, GetBe16, GetBe64;
    if HEADER_SIZE <= |d| && DecodePayload(d[0] % 0x10, d, HEADER_SIZE).Ok? {
      StoredIsOverlaid(left.payload, DecodePayload(d[0] % 0x10, d, HEADER_SIZE).value.0);
    }
  }

  // ---- Which message that was

  /** What `malloc` has left in the structs of the pool. */
  type Heap = nat -> Leftover

  /** What `arrivals` leave in struct `slot`; each of them takes the next one, from the second on. */
  function LeftIn(heap: Heap, arrivals: seq<Option<seq<u8>>>, slot: nat): Leftover {
    if arrivals == [] then heap(slot)
    else
      var last := |arrivals| - 1;
      var left := LeftIn(heap, arrivals[..last], slot);
      if |arrivals| % REQUEST_COUNT == slot then AfterArrival(left, arrivals[last]) else left
  }

  /** What lies in the struct into which the next message is received. */
  function NextLeftover(heap: Heap, arrivals: seq<Option<seq<u8>>>): Leftover {
    LeftIn(heap, arrivals, (|arrivals| + 1) % REQUEST_COUNT)
  }

  lemma LeftBefore(heap: Heap, arrivals: seq<Option<seq<u8>>>, last: Option<seq<u8>>, slot: nat)
    ensures LeftIn(heap, arrivals + [last], slot)
         == if (|arrivals| + 1) % REQUEST_COUNT == slot then AfterArrival(LeftIn(heap, arrivals, slot), last)
            else LeftIn(heap, arrivals, slot)
  {
    hide AfterArrival;
    assert (arrivals + [last])[..|arrivals|] == arrivals;
  }

  lemma {:induction false} OthersLeave(
    heap: Heap, arrivals: seq<Option<seq<u8>>>, more: seq<Option<seq<u8>>>, slot: nat)
    requires forall k :: |arrivals| < k <= |arrivals + more| ==> k % REQUEST_COUNT != slot
    ensures LeftIn(heap, arrivals + more, slot) == LeftIn(heap, arrivals, slot)
    decreases |more|
  {
    hide LeftIn, AfterArrival;
    if more == [] {
      assert arrivals + more == arrivals;
    } else {
      var last := |more| - 1;
      assert arrivals + more == (arrivals + more[..last]) + [more[last]];
      LeftBefore(heap, arrivals + more[..last], more[last], slot);
      OthersLeave(heap, arrivals, more[..last], slot);
    }
  }

  lemma OtherSlots(n: nat, k: nat)
    requires n < k < n + REQUEST_COUNT
    ensures k % REQUEST_COUNT != n % REQUEST_COUNT
  {}

  /** Seven arrivals leave the struct of the one before them alone. */
  lemma SevenLeave(heap: Heap, arrivals: seq<Option<seq<u8>>>, more: seq<Option<seq<u8>>>, slot: nat)
    requires |more| < REQUEST_COUNT && slot == |arrivals| % REQUEST_COUNT
    ensures LeftIn(heap, arrivals + more, slot) == LeftIn(heap, arrivals, slot)
  {
    hide LeftIn;
    forall k | |arrivals| < k <= |arrivals + more|
      ensures k % REQUEST_COUNT != slot
    {
      OtherSlots(|arrivals|, k);
    }
    OthersLeave(heap, arrivals, more, slot);
  }

  lemma SameSlot(n: nat)
    requires n >= REQUEST_COUNT
    ensures (n - REQUEST_COUNT + 1) % REQUEST_COUNT == (n + 1) % REQUEST_COUNT
  {}

  /** A message is received over what the one eight arrivals earlier has left, and over nothing but it. */
  lemma EightArrivalsEarlier(heap: Heap, arrivals: seq<Option<seq<u8>>>)
    ensures var earlier := |arrivals| - REQUEST_COUNT;
            NextLeftover(heap, arrivals)
            == if earlier < 0 then heap((|arrivals| + 1) % REQUEST_COUNT)
               else AfterArrival(NextLeftover(heap, arrivals[..earlier]), arrivals[earlier])
  {
    hide AfterArrival, LeftIn;
    var slot, earlier := (|arrivals| + 1) % REQUEST_COUNT, |arrivals| - REQUEST_COUNT;
    if earlier < 0 {
      NothingLeft(heap, arrivals);
    } else {
      var front := arrivals[..earlier];
      assert arrivals == (front + [arrivals[earlier]]) + arrivals[earlier + 1..];
      SameSlot(|arrivals|);
      SevenLeave(heap, front + [arrivals[earlier]], arrivals[earlier + 1..], slot);
      LeftBefore(heap, front, arrivals[earlier], slot);
    }
  }

  lemma NothingLeft(heap: Heap, arrivals: seq<Option<seq<u8>>>)
    requires |arrivals| < REQUEST_COUNT
    ensures LeftIn(heap, arrivals, (|arrivals| + 1) % REQUEST_COUNT) == heap((|arrivals| + 1) % REQUEST_COUNT)
  {
    assert [] + arrivals == arrivals;
    OthersLeave(heap, [], arrivals, (|arrivals| + 1) % REQUEST_COUNT);
  }

  /**
   * The port that a delay request is answered with: that of the last message,
   * eight, sixteen and more arrivals earlier, which has stored into its place.
   */
  lemma AnsweredPort(heap: Heap, arrivals: seq<Option<seq<u8>>>)
    ensures var earlier := |arrivals| - REQUEST_COUNT;
            EventPort(NextLeftover(heap, arrivals).payload)
            == if earlier < 0 then EventPort(heap((|arrivals| + 1) % REQUEST_COUNT).payload)
               else
                 var before := EventPort(NextLeftover(heap, arrivals[..earlier]).payload);
                 match arrivals[earlier]
                 case None => before
                 case Some(d) =>
                   if |d| < HEADER_SIZE || DecodePayload(d[0] % 0x10, d, HEADER_SIZE).Err? then before
                   else Overlaid(before, DecodePayload(d[0] % 0x10, d, HEADER_SIZE).value.0)
  {
    hide Stored, EventPort, Overlaid, NextLeftover, GetTimestamp, GetPortId, GetBe16, GetBe64;
    EightArrivalsEarlier(heap, arrivals);
    var earlier := |arrivals| - REQUEST_COUNT;
    if earlier >= 0 && arrivals[earlier].Some? {
      var d := arrivals[earlier].value;
      if HEADER_SIZE <= |d| && DecodePayload(d[0] % 0x10, d, HEADER_SIZE).Ok? {
        StoredIsOverlaid(NextLeftover(heap, arrivals[..earlier]).payload,
                         DecodePayload(d[0] % 0x10, d, HEADER_SIZE).value.0);
      }
    }
  }
}
