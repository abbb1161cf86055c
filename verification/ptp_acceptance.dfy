/**
 * When an authentication TLV is accepted, byte by byte: for each policy of the
 * port's row, what the TLV has to say and what has to stand at its ICV.
 */
module PtpAcceptance {
  import opened Bytes
  import opened PtpMessage
  import opened PtpSecurity
  import DbCache
  import PtpAuthentication

  /** The secret and a NUL stand at `at`. */
  predicate SpellsSecret(data: seq<u8>, at: nat, secret: DbCache.Secret) {
    && at + |secret| < |data|
    && (forall k: nat :: k < |secret| ==> data[at + k] == secret[k])
    && data[at + |secret|] == 0
  }

  /** Byte `k` of the 32 bytes of a digest and what lies behind it on the stack. */
  function DigestByte(digest: Digest, scratch: seq<u8>, k: nat): u8
    requires k < 32 + |scratch|
  {
    if k < 32 then digest[k] else scratch[k - 32]
  }

  /** The bytes at `at` are those of the digest and of the stack behind it. */
  predicate SpellsDigest(data: seq<u8>, at: nat, length: nat, digest: Digest, scratch: seq<u8>) {
    && at + length <= |data| && length <= 32 + |scratch|
    && forall k: nat :: k < length ==> data[at + k] == DigestByte(digest, scratch, k)
  }

  /**
   * A row with policy 0 accepts anything. Otherwise the TLV must name the row's
   * policy, and its ICV must be the secret (1) or as much of the HMAC of everything
   * in front of it as the TLV says (2). No other policy accepts.
   */
  ghost predicate Passes(hmac: Hmac, row: DbCache.Row, data: seq<u8>, body: TlvBody, scratch: seq<u8>)
    requires body.Authentication? && body.icv <= |data|
  {
    match row.policy
    case 0 => true
    case 1 => body.policy == 1 && SpellsSecret(data, body.icv, row.secret)
    case 2 => body.policy == 2
              && SpellsDigest(data, body.icv, body.icvLength, hmac(row.secret, data[..body.icv]), scratch)
    case _ => false
  }

  lemma PlainIffSpelled(row: DbCache.Row, data: seq<u8>, body: TlvBody)
    requires body.Authentication? && body.icv + SECRET_SIZE <= |data|
    ensures CheckPlain(row, data, body) <==> SpellsSecret(data, body.icv, row.secret)
  {
    var at, n := body.icv, |row.secret|;
    var found, wanted := data[at..at + n + 1], row.secret + [0];
    if found == wanted {
      assert forall k: nat :: k < n ==> data[at + k] == found[k] == wanted[k] == row.secret[k];
      assert data[at + n] == found[n] == wanted[n];
    }
  }

  lemma DigestIffSpelled(hmac: Hmac, row: DbCache.Row, data: seq<u8>, body: TlvBody, scratch: seq<u8>)
    requires body.Authentication? && Checkable(data, body) && |scratch| >= 0x8000
    ensures CheckHmac128(hmac, row, data, body, scratch)
       <==> SpellsDigest(data, body.icv, body.icvLength, hmac(row.secret, data[..body.icv]), scratch)
  {
    var at, length := body.icv, body.icvLength as int;
    var digest := hmac(row.secret, data[..at]);
    var found, wanted := data[at..at + length], (digest + scratch)[..length];
    forall k: nat | k < length
      ensures found[k] == data[at + k] && wanted[k] == DigestByte(digest, scratch, k)
    {
    }
    if SpellsDigest(data, at, length, digest, scratch) {
      assert forall k: nat :: k < length ==> wanted[k] == DigestByte(digest, scratch, k) == data[at + k] == found[k];
      assert found == wanted;
    }
  }

  /**
   * The check returns 0 exactly for what passes; otherwise -EPERM if the TLV names
   * the row's policy and that is one that can be checked, and -EINVAL if not.
   */
  lemma AcceptsIff(hmac: Hmac, row: DbCache.Row, data: seq<u8>, body: TlvBody, scratch: seq<u8>)
    requires body.Authentication? && Checkable(data, body) && |scratch| >= 0x8000
    ensures AcceptCode(hmac, row, data, body, scratch)
         == if Passes(hmac, row, data, body, scratch) then 0
            else if body.policy == row.policy && (row.policy == 1 || row.policy == 2) then -1
            else -22
  {
    hide CheckPlain, CheckHmac128, SpellsSecret, SpellsDigest;
    PlainIffSpelled(row, data, body);
    DigestIffSpelled(hmac, row, data, body, scratch);
  }

  /** Whatever is accepted by a row other than an open one names its policy. */
  lemma AcceptedNamesPolicy(hmac: Hmac, row: DbCache.Row, data: seq<u8>, body: TlvBody, scratch: seq<u8>)
    requires body.Authentication? && Checkable(data, body) && |scratch| >= 0x8000
    requires AcceptCode(hmac, row, data, body, scratch) == 0
    ensures row.policy != 0 ==> body.policy == row.policy && row.policy <= 2
  {
    AcceptsIff(hmac, row, data, body, scratch);
  }

  lemma SecretByte(data: seq<u8>, at: nat, s: DbCache.Secret, n: nat)
    requires SpellsSecret(data, at, s) && n <= |s|
    ensures at + n < |data| && (data[at + n] == 0 <==> n == |s|)
  {
    if n < |s| { assert data[at + n] == s[n]; }
  }

  lemma EndsWhereNulIs(data: seq<u8>, at: nat, a: DbCache.Secret, b: DbCache.Secret)
    requires SpellsSecret(data, at, a) && SpellsSecret(data, at, b)
    ensures |b| <= |a|
  {
    hide SpellsSecret;
    SecretByte(data, at, a, |a|);
    if |a| <= |b| { SecretByte(data, at, b, |a|); }
  }

  /** The bytes of a plain TLV determine the secret with which they are accepted. */
  lemma OneSecretIsAccepted(
    hmac: Hmac, a: DbCache.Row, b: DbCache.Row, data: seq<u8>, body: TlvBody, scratch: seq<u8>)
    requires body.Authentication? && Checkable(data, body) && |scratch| >= 0x8000 && a.policy == b.policy == 1
    requires AcceptCode(hmac, a, data, body, scratch) == 0 && AcceptCode(hmac, b, data, body, scratch) == 0
    ensures a.secret == b.secret
  {
    AcceptsIff(hmac, a, data, body, scratch);
    AcceptsIff(hmac, b, data, body, scratch);
    hide AcceptCode;
    var at := body.icv;
    EndsWhereNulIs(data, at, a.secret, b.secret);
    EndsWhereNulIs(data, at, b.secret, a.secret);
    assert forall k :: 0 <= k < |a.secret| ==> a.secret[k] == b.secret[k];
  }

  /** What completing a TLV stores: a NUL, the secret with NULs up to 64 bytes, or the first half of the digest. */
  lemma StoredIs(hmac: Hmac, row: DbCache.Row, covered: seq<u8>)
    ensures var stored, digest := IcvBytes(hmac, row, covered), hmac(row.secret, covered);
            match row.policy
            case 0 => stored == Ok([0])
            case 1 =>
              && stored.Ok? && |stored.value| == 64
              && forall k :: 0 <= k < 64 ==>
                   stored.value[k] == if k < |row.secret| then row.secret[k] else 0
            case 2 => stored.Ok? && |stored.value| == 16 && forall k :: 0 <= k < 16 ==> stored.value[k] == digest[k]
            case _ => stored.Err?
  {}

  /** What completing a TLV stores for a policy is accepted by the row with which it has been completed. */
  lemma CompletedIsAccepted(hmac: Hmac, row: DbCache.Row, data: seq<u8>, body: TlvBody, scratch: seq<u8>)
    requires body.Authentication? && Checkable(data, body) && |scratch| >= 0x8000
    requires row.policy <= 2 && body.policy == row.policy && body.icvLength <= HMAC_128_SIZE
    ensures var stored := IcvBytes(hmac, row, data[..body.icv]);
            && stored.Ok? && body.icv + |stored.value| <= |data|
            && AcceptCode(hmac, row, Put(data, body.icv, stored.value), body, scratch) == 0
  {
    var bytes := IcvBytes(hmac, row, data[..body.icv]).value;
    var completed := Put(data, body.icv, bytes);
    assert completed[..body.icv] == data[..body.icv];
    assert forall k: nat :: k < |bytes| ==> completed[body.icv + k] == bytes[k];
    AcceptsIff(hmac, row, completed, body, scratch);
    hide AcceptCode;
  }

  /** The first authentication TLV behind TLV `i`. */
  predicate IsNext(tlvs: seq<Tlv>, i: nat, j: nat) {
    && i < j < |tlvs| && tlvs[j].body.Authentication?
    && forall k :: i < k < j ==> !tlvs[k].body.Authentication?
  }

  lemma NextIs(tlvs: seq<Tlv>, i: nat, j: nat)
    requires i < |tlvs|
    ensures IsNext(tlvs, i, j) <==> j < |tlvs| && NextAuthentication(tlvs, i + 1) == j
  {
    var n := NextAuthentication(tlvs, i + 1);
    assert n < |tlvs| ==> tlvs[n].body.Authentication?;
  }

  /**
   * A TLV that has not been authenticated yet is authenticated if and only if the
   * port is found and the first authentication TLV behind it passes. Otherwise the
   * result is the error of the lookup, -ENODATA if no such TLV follows, and else
   * the result of the check.
   */
  lemma AuthenticatesIff(hmac: Hmac, data: seq<u8>, message: Message, call: Call)
    requires ValidCall(message, call) && AllCheckable(data, message) && !message.tlvs[call.index].authenticated
    ensures var code := Authenticate(hmac, data, message, call).1;
            if call.entry.Missing? then code == call.entry.code
            else if forall j :: call.index < j < |message.tlvs| ==> !message.tlvs[j].body.Authentication?
            then code == -61
            else
              exists j: nat :: IsNext(message.tlvs, call.index, j)
                && code == if Passes(hmac, call.entry.row, data, message.tlvs[j].body, call.scratch) then 0
                           else if message.tlvs[j].body.policy == call.entry.row.policy
                                && (call.entry.row.policy == 1 || call.entry.row.policy == 2) then -1
                           else -22
  {
    hide AcceptCode, Passes;
    if call.entry.Found? {
      var j := NextAuthentication(message.tlvs, call.index + 1);
      NextIs(message.tlvs, call.index, j);
      if j < |message.tlvs| {
        AcceptsIff(hmac, call.entry.row, data, message.tlvs[j].body, call.scratch);
      }
    }
  }
}
