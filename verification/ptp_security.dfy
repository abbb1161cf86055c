/**
 * Sealing the authentication TLVs of an encoded message and checking them on a
 * received one. HMAC-SHA256 is an uninterpreted function with 32-byte results.
 */
module PtpSecurity {
  import opened Bytes
  import opened PtpMessage
  import opened PtpWire
  import opened PtpLayout
  import opened Wrappers
  import PtpSigned
  import DbCache

  const POLICY_NONE: u32 := 0
  const POLICY_PLAIN: u32 := 1
  const POLICY_HMAC_128: u32 := 2
  const SECRET_SIZE: nat := 64
  const HMAC_128_SIZE: nat := 16

  const EPERM: int := -1
  const EINVAL: int := -22
  const ENODATA: int := -61
  const EMSGSIZE: int := -90

  type Digest = s: seq<u8> | |s| == 32 witness seq(32, _ => 0)
  type Hmac = (DbCache.Secret, seq<u8>) -> Digest

  /** The outcome of a `db_get` for the message's port. */
  datatype Entry = Found(row: DbCache.Row) | Missing(code: int)

  function ErrorCode(e: Error): int {
    match e
    case MessageSize => EMSGSIZE
    case Invalid => EINVAL
  }

  // ---- Sealing

  /** The bytes stored at an ICV; the plain policy stores its whole field. */
  function IcvBytes(hmac: Hmac, row: DbCache.Row, covered: seq<u8>): Result<seq<u8>> {
    if row.policy == POLICY_NONE then Ok([0])
    else if row.policy == POLICY_PLAIN then Ok(row.secret + seq(SECRET_SIZE - |row.secret|, _ => 0))
    else if row.policy == POLICY_HMAC_128 then Ok(hmac(row.secret, covered)[..HMAC_128_SIZE])
    else Err(Invalid)
  }

  /** How many bytes completing a TLV stores at its ICV. */
  function StoredSize(entry: Entry): nat {
    if entry.Missing? then 0
    else if entry.row.policy == POLICY_NONE then 1
    else if entry.row.policy == POLICY_PLAIN then SECRET_SIZE
    else if entry.row.policy == POLICY_HMAC_128 then HMAC_128_SIZE
    else 0
  }

  /** What is stored stays inside the buffer. */
  predicate IcvRoom(entries: seq<Entry>, data: seq<u8>, tlvs: seq<Tlv>) {
    && |entries| == |tlvs|
    && forall i :: 0 <= i < |tlvs| && tlvs[i].body.Authentication? ==>
         tlvs[i].body.icv + StoredSize(entries[i]) <= |data|
  }

  /**
   * The buffer after the authentication TLVs among `tlvs` have been completed in
   * order; `entries` are the outcomes of the lookups, one for each TLV.
   */
  function Sealed(hmac: Hmac, entries: seq<Entry>, data: seq<u8>, tlvs: seq<Tlv>): (seq<u8>, int)
    requires IcvRoom(entries, data, tlvs)
    decreases |tlvs|
  {
    if tlvs == [] then (data, 0)
    else if !tlvs[0].body.Authentication? then Sealed(hmac, entries[1..], data, tlvs[1..])
    else if entries[0].Missing? then (data, entries[0].code)
    else
      var icv := tlvs[0].body.icv;
      var bytes := IcvBytes(hmac, entries[0].row, data[..icv]);
      if bytes.Err? then (data, ErrorCode(bytes.error))
      else Sealed(hmac, entries[1..], Put(data, icv, bytes.value), tlvs[1..])
  }

  // ---- Checking

  /** `memcmp` of the ICV with the digest and whatever lies behind it on the stack. */
  predicate CheckHmac128(hmac: Hmac, row: DbCache.Row, data: seq<u8>, body: TlvBody, scratch: seq<u8>)
    requires body.Authentication? && body.icv + body.icvLength <= |data|
    requires |scratch| >= 0x8000
  {
    data[body.icv..body.icv + body.icvLength] == (hmac(row.secret, data[..body.icv]) + scratch)[..body.icvLength]
  }

  /** `strncmp` of the ICV with a terminated secret of fewer than 64 bytes. */
  predicate CheckPlain(row: DbCache.Row, data: seq<u8>, body: TlvBody)
    requires body.Authentication? && body.icv + SECRET_SIZE <= |data|
  {
    data[body.icv..body.icv + |row.secret| + 1] == row.secret + [0]
  }

  predicate Checkable(data: seq<u8>, body: TlvBody) {
    body.Authentication? ==> body.icv + SECRET_SIZE <= |data| && body.icv + body.icvLength <= |data|
  }

  function CheckIcv(hmac: Hmac, row: DbCache.Row, data: seq<u8>, body: TlvBody, scratch: seq<u8>): int
    requires body.Authentication? && Checkable(data, body) && |scratch| >= 0x8000
  {
    if row.policy == POLICY_PLAIN then (if CheckPlain(row, data, body) then 0 else EPERM)
    else if row.policy == POLICY_HMAC_128 then (if CheckHmac128(hmac, row, data, body, scratch) then 0 else EPERM)
    else EINVAL
  }

  /** What makes `ptp_security_check_auth` accept an authentication TLV. */
  function AcceptCode(hmac: Hmac, row: DbCache.Row, data: seq<u8>, body: TlvBody, scratch: seq<u8>): int
    requires body.Authentication? && Checkable(data, body) && |scratch| >= 0x8000
  {
    if row.policy == POLICY_NONE then 0
    else if body.policy != row.policy then EINVAL
    else CheckIcv(hmac, row, data, body, scratch)
  }

  /** The first authentication TLV from `i` on, or the number of TLVs. */
  function NextAuthentication(tlvs: seq<Tlv>, i: nat): (j: nat)
    requires i <= |tlvs|
    ensures i <= j <= |tlvs| && (j < |tlvs| ==> tlvs[j].body.Authentication?)
    ensures forall k :: i <= k < j ==> !tlvs[k].body.Authentication?
    decreases |tlvs| - i
  {
    if i == |tlvs| || tlvs[i].body.Authentication? then i else NextAuthentication(tlvs, i + 1)
  }

  function MarkFirst(tlvs: seq<Tlv>, n: nat): seq<Tlv>
    requires n <= |tlvs|
  {
    seq(|tlvs|, i requires 0 <= i < |tlvs| => if i < n then tlvs[i].(authenticated := true) else tlvs[i])
  }

  /** One request to authenticate TLV `index`. */
  datatype Call = Call(index: nat, entry: Entry, scratch: seq<u8>)

  predicate ValidCall(message: Message, call: Call) {
    call.index < |message.tlvs| && |call.scratch| >= 0x8000
  }

  predicate AllCheckable(data: seq<u8>, message: Message) {
    forall i :: 0 <= i < |message.tlvs| ==> Checkable(data, message.tlvs[i].body)
  }

  /** The two messages differ at most in their marks. */
  predicate Remarked(before: Message, after: Message) {
    && after == before.(authenticated := after.authenticated, tlvs := after.tlvs)
    && |after.tlvs| == |before.tlvs|
    && forall i :: 0 <= i < |before.tlvs| ==> after.tlvs[i].body == before.tlvs[i].body
  }

  function Authenticate(hmac: Hmac, data: seq<u8>, message: Message, call: Call): (r: (Message, int))
    requires ValidCall(message, call) && AllCheckable(data, message)
    ensures Remarked(message, r.0)
  {
    if message.tlvs[call.index].authenticated then (message, 0)
    else if call.entry.Missing? then (message, call.entry.code)
    else
      var j := NextAuthentication(message.tlvs, call.index + 1);
      if j == |message.tlvs| then (message, ENODATA)
      else
        var code := AcceptCode(hmac, call.entry.row, data, message.tlvs[j].body, call.scratch);
        if code != 0 then (message, code)
        else (message.(authenticated := true, tlvs := MarkFirst(message.tlvs, j + 1)), 0)
  }

  // ---- In place

  class MessageInfo {
    const data: array<u8>
    var length: int
    var message: Message

    constructor (capacity: nat)
      ensures fresh(data) && data.Length == capacity + SECRET_SIZE && length == 0
    {
      data := new u8[capacity + SECRET_SIZE](_ => 0);
      length := 0;
      message := Message(0, false, 0, 0, NO_PORT, 0, 0, 0, 0, UnknownPayload(0), []);
    }

    method StoreIcv(at: nat, bytes: seq<u8>)
      requires at + |bytes| <= data.Length
      modifies data
      ensures data[..] == Put(old(data[..]), at, bytes)
    {
      for i := 0 to |bytes|
        invariant forall k :: 0 <= k < data.Length ==>
          data[k] == if at <= k < at + i then bytes[k - at] else old(data[k])
      {
        data[at + i] := bytes[i];
      }
    }

    /** Decodes the message again to find its ICVs and completes them in order. */
    method CompleteAuthTlvs(hmac: Hmac, entries: seq<Entry>) returns (ret: int)
      requires -0x8000 <= length < 0x8000 && length + SECRET_SIZE <= data.Length
      requires length >= 0 ==> PtpSigned.DecodeMessage(data[..length]).Some?
      requires |entries| == MAX_TLV_COUNT
      modifies this, data
      ensures length == old(length)
      ensures length < 0 ==> ret == EMSGSIZE && data[..] == old(data[..])
      ensures length >= 0 ==>
                match PtpSigned.DecodeMessage(old(data[..length])).value
                case Err(e) => ret == ErrorCode(e) && data[..] == old(data[..])
                case Ok(m) => && message == m && IcvRoom(entries[..|m.tlvs|], old(data[..]), m.tlvs)
                              && (data[..], ret) == Sealed(hmac, entries[..|m.tlvs|], old(data[..]), m.tlvs)
    {
      hide PtpSigned.DecodeMessage;
      var decoded := PtpSigned.DecodeInPlace(data, length);
      if decoded.value.Err? { return ErrorCode(decoded.value.error); }
      message := decoded.value.value;
      var tlvs := message.tlvs;
      SignedIcvsAreInside(data[..], length);
      ghost var before, used := data[..], entries[..|tlvs|];
      InsideIsRoom(used, before, tlvs);
      for i := 0 to |tlvs|
        invariant message.tlvs == tlvs && message == decoded.value.value && length == old(length)
        invariant IcvsInside(data[..], tlvs[i..]) && IcvRoom(used[i..], data[..], tlvs[i..])
        invariant Sealed(hmac, used, before, tlvs) == Sealed(hmac, used[i..], data[..], tlvs[i..])
      {
        assert tlvs[i..][0] == tlvs[i] && tlvs[i..][1..] == tlvs[i + 1..];
        assert used[i..][0] == entries[i] && used[i..][1..] == used[i + 1..];
        if tlvs[i].body.Authentication? {
          if entries[i].Missing? { return entries[i].code; }
          var icv := tlvs[i].body.icv;
          var bytes := IcvBytes(hmac, entries[i].row, data[..icv]);
          assert data[..icv] == data[..][..icv];
          if bytes.Err? { return ErrorCode(bytes.error); }
          StoreIcv(icv, bytes.value);
        }
        InsideIsRoom(used[i + 1..], data[..], tlvs[i + 1..]);
      }
      ret := 0;
    }

    /** The marking loop, backwards from TLV `j`. */
    method MarkUpTo(j: nat)
      requires j < |message.tlvs|
      modifies `message
      ensures message == old(message).(tlvs := MarkFirst(old(message).tlvs, j + 1))
    {
      ghost var tlvs := message.tlvs;
      var k := j;
      while k >= 0
        invariant -1 <= k <= j
        invariant message == old(message).(tlvs := message.tlvs) && |message.tlvs| == |tlvs|
        invariant forall i :: 0 <= i < |tlvs| ==>
          message.tlvs[i] == if k < i <= j then tlvs[i].(authenticated := true) else tlvs[i]
      {
        message := message.(tlvs := message.tlvs[k := message.tlvs[k].(authenticated := true)]);
        k := k - 1;
      }
      assert message.tlvs == MarkFirst(tlvs, j + 1);
    }

    method CheckAuth(hmac: Hmac, call: Call) returns (ret: int)
      requires ValidCall(message, call) && AllCheckable(data[..], message)
      modifies this
      ensures length == old(length)
      ensures (message, ret) == Authenticate(hmac, data[..], old(message), call)
    {
      if message.tlvs[call.index].authenticated { return 0; }
      if call.entry.Missing? { return call.entry.code; }
      var j := call.index + 1;
      while j < |message.tlvs| && !message.tlvs[j].body.Authentication?
        invariant call.index < j <= |message.tlvs|
        invariant NextAuthentication(message.tlvs, call.index + 1) == NextAuthentication(message.tlvs, j)
      {
        j := j + 1;
      }
      if j == |message.tlvs| { return ENODATA; }
      var code := AcceptCode(hmac, call.entry.row, data[..], message.tlvs[j].body, call.scratch);
      if code != 0 { return code; }
      MarkUpTo(j);
      message := message.(authenticated := true);
      ret := 0;
    }
  }

  ghost predicate IcvsInside(data: seq<u8>, tlvs: seq<Tlv>) {
    forall i :: 0 <= i < |tlvs| && tlvs[i].body.Authentication? ==> tlvs[i].body.icv + SECRET_SIZE <= |data|
  }

  lemma InsideIsRoom(entries: seq<Entry>, data: seq<u8>, tlvs: seq<Tlv>)
    requires IcvsInside(data, tlvs) && |entries| == |tlvs|
    ensures IcvRoom(entries, data, tlvs)
  {}

  /** The same for the service's decoder, even when it has gone backwards. */
  lemma SignedIcvsAreInside(data: seq<u8>, length: nat)
    requires length < 0x8000 && length + SECRET_SIZE <= |data|
    requires PtpSigned.DecodeMessage(data[..length]).Some? && PtpSigned.DecodeMessage(data[..length]).value.Ok?
    ensures var m := PtpSigned.DecodeMessage(data[..length]).value.value;
            IcvsInside(data, m.tlvs) && AllCheckable(data, m) && |m.tlvs| <= MAX_TLV_COUNT
    ensures forall i :: 0 <= i < |PtpSigned.DecodeMessage(data[..length]).value.value.tlvs| ==>
              !PtpSigned.DecodeMessage(data[..length]).value.value.tlvs[i].authenticated
  {
    hide PtpSigned.DecodeTlvs, DecodePayload;
    var d := data[..length];
    PtpSigned.IcvsAreInMessage(d, DecodePayload(d[0] % 0x10, d, HEADER_SIZE).value.1, MAX_TLV_COUNT);
  }

  lemma IcvsAreInside(data: seq<u8>, length: nat)
    requires length < 0x8000 && length + SECRET_SIZE <= |data| && DecodeMessage(data[..length]).Ok?
    ensures IcvsInside(data, DecodeMessage(data[..length]).value.tlvs)
    ensures AllCheckable(data, DecodeMessage(data[..length]).value)
  {
    MessageLayout(data[..length]);
    var tlvs, positions := DecodeMessage(data[..length]).value.tlvs, TlvPositions(data[..length]);
    forall i | 0 <= i < |tlvs| && tlvs[i].body.Authentication?
      ensures tlvs[i].body.icv + tlvs[i].body.icvLength <= length
    {
      IcvFillsTlv(data[..length], tlvs, positions, i);
    }
  }
}
