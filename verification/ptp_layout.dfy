/** Where the TLVs of a decoded message lie in its buffer. */
module PtpLayout {
  import opened Bytes
  import opened PtpMessage
  import opened PtpWire

  /** The TLVs found from `at` on start at `starts` and end at the last position. */
  ghost predicate IsLayout(data: seq<u8>, tlvs: seq<Tlv>, positions: seq<nat>) {
    && |data| < 0x8000
    && |positions| == |tlvs| + 1
    && (forall i :: 0 <= i < |positions| ==> positions[i] <= |data|)
    && forall i :: 0 <= i < |tlvs| ==>
         && positions[i] + TLV_HEADER_SIZE <= positions[i + 1]
         && PtpWire.DecodeTlv(data, positions[i]) == Ok((tlvs[i].body, positions[i + 1]))
         && !tlvs[i].authenticated
  }

  function Positions(data: seq<u8>, at: nat, room: nat): (positions: seq<nat>)
    requires at <= |data| < 0x8000 && DecodeTlvs(data, at, room).Ok?
    ensures |positions| == |DecodeTlvs(data, at, room).value| + 1 && positions[0] == at
    decreases room
  {
    if room == 0 || at == |data| then [at]
    else [at] + Positions(data, DecodeTlv(data, at).value.1, room - 1)
  }

  lemma {:induction false} PositionsAreLayout(data: seq<u8>, at: nat, room: nat)
    requires at <= |data| < 0x8000 && DecodeTlvs(data, at, room).Ok?
    ensures var tlvs, positions := DecodeTlvs(data, at, room).value, Positions(data, at, room);
            IsLayout(data, tlvs, positions) && (|tlvs| == room || positions[|tlvs|] == |data|)
    decreases room
  {
    hide DecodeTlv;
    if room != 0 && at != |data| {
      var (body, next) := DecodeTlv(data, at).value;
      PositionsAreLayout(data, next, room - 1);
      var rest := Positions(data, next, room - 1);
      var tlvs := DecodeTlvs(data, at, room).value;
      var positions := Positions(data, at, room);
      assert tlvs[1..] == DecodeTlvs(data, next, room - 1).value;
      forall i | 0 <= i < |tlvs|
        ensures positions[i] + TLV_HEADER_SIZE <= positions[i + 1]
        ensures DecodeTlv(data, positions[i]) == Ok((tlvs[i].body, positions[i + 1])) && !tlvs[i].authenticated
      {
        if i > 0 {
          assert positions[i] == rest[i - 1] && tlvs[i] == tlvs[1..][i - 1];
        }
      }
    }
  }

  function TlvPositions(data: seq<u8>): seq<nat>
    requires |data| < 0x8000 && DecodeMessage(data).Ok?
  {
    Positions(data, DecodePayload(data[0] % 0x10, data, HEADER_SIZE).value.1, MAX_TLV_COUNT)
  }

  /**
   * A successful decode splits the bytes after the payload into consecutive
   * TLVs of at least four bytes; they end with the message, unless all 20 slots
   * were used first.
   */
  lemma MessageLayout(data: seq<u8>)
    requires |data| < 0x8000 && DecodeMessage(data).Ok?
    ensures var tlvs, positions := DecodeMessage(data).value.tlvs, TlvPositions(data);
            && IsLayout(data, tlvs, positions)
            && positions[0] == DecodePayload(data[0] % 0x10, data, HEADER_SIZE).value.1
            && positions[0] >= HEADER_SIZE + 10
            && (|tlvs| == MAX_TLV_COUNT || positions[|tlvs|] == |data|)
  {
    PositionsAreLayout(data, DecodePayload(data[0] % 0x10, data, HEADER_SIZE).value.1, MAX_TLV_COUNT);
  }

  lemma PositionsIncrease(data: seq<u8>, tlvs: seq<Tlv>, positions: seq<nat>, i: nat, j: nat)
    requires IsLayout(data, tlvs, positions) && i < j <= |tlvs|
    ensures positions[i] + TLV_HEADER_SIZE * (j - i) <= positions[j]
    decreases j - i
  {
    if i + 1 < j {
      PositionsIncrease(data, tlvs, positions, i + 1, j);
    }
  }

  /** The ICV of an authentication TLV fills the end of the TLV. */
  lemma IcvFillsTlv(data: seq<u8>, tlvs: seq<Tlv>, positions: seq<nat>, i: nat)
    requires IsLayout(data, tlvs, positions) && i < |tlvs| && tlvs[i].body.Authentication?
    ensures tlvs[i].body.icv == positions[i] + 10
    ensures tlvs[i].body.icv + tlvs[i].body.icvLength == positions[i + 1] <= |data|
  {}
}
