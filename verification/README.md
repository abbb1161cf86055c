# Verified model of the PTP clock service

This project models the parts of the repository that carry its guarantees and
proves them. `dafny verify dfyconfig.toml` checks everything.

* **Wire codec** (`bytes`, `wrappers`, `ptp_message`, `ptp_wire`, `ptp_encoding`,
  `ptp_decoding`, `ptp_roundtrip`, `ptp_reencoding`, `ptp_layout`, `ptp_format`,
  `ptp_overrun`, `ptp_signed`). `PtpWire` specifies both directions on values. The encoder leaves
  reserved bytes, text padding and ICVs of the caller's buffer alone, so what it
  writes is a sequence of cells, each an octet or a gap; what a failed encoding
  leaves behind the buffer is a sequence of cells too. `PtpEncoding`,
  `PtpDecoding` and `PtpSigned` are the moving-pointer algorithms on arrays,
  proved against that specification. `PtpFormat` says in plain byte positions what is
  decoded and what is not. The remaining modules relate the directions, and the two
  copies of the decoder, for all messages.
* **Authentication** (`ptp_security`, `ptp_acceptance`, `ptp_authentication`,
  `ptp_coverage`). HMAC-SHA256 is an arbitrary function with 32-byte results.
  `PtpAcceptance` says byte by byte what an authentication TLV has to hold, and
  `PtpCoverage` which bytes an accepted ICV covers on a message that the service has
  decoded.
* **What the service answers** (`environment`, `leftovers`, `responses`,
  `reply_properties`). A `World` fixes beforehand what cannot be computed: clock
  readings, database faults, deletions by the cleanup, memory around buffers and
  the results of sends. `Leftovers` says what older messages have left in the
  struct of a request. With both, `Responses` is a function of a request's bytes
  and of the database; `ReplyProperties` proves what is authorized, which time is
  told and what happens to a reply that does not fit.
* **The running service** (`mempool`, `ring`, `response_buffers`, `service`,
  `service_properties`, `service_replies`, `service_unicast`, `service_errors`,
  `service_overrun`). `Service.Server` holds pools, rings,
  database and buffers, and its every method is proved to do exactly what
  `Responses` says. `exit(-1)` in `util_mempool_put` is an out-parameter that is
  shown to be false at every call. `ServiceProperties`, `ServiceReplies`,
  `ServiceUnicast` and `ServiceErrors` follow the answers onto the wire, field by
  field, without naming the functions that compute them; `ServiceOverrun` is a whole
  run with a reply that overruns.
* **Lock-free ring** (`ring_interleaving`). A state machine with one step for
  each atomic access.
* **Row cache** (`db_cache`). An abstract table, a direct-mapped cache, and an
  environment that deletes rows.
* **JSON library** (`json`, `json_parser`, `json_serializer`, `json_grammar`,
  `json_roundtrip`). `JsonGrammar` has a syntax tree for every text that is accepted.
* **Brainfuck transcoder** (`bf_machine`, `bf_encoder`, `bf_correctness`), against
  a machine on which every overflow is a fault.

Where code and documentation or expectation disagree, the model follows the code:

* `short length` lies right behind `data[1472]` (`service/src/common/common_types.h:26-29`),
  the TLV type is stored before its bounds check
  (`service/src/ptp/protocol/ptp_encoding.c:301`), and a failed encoding does not
  reset the length (`service/src/ptp/ptp_helper.h:61-64`). So "a message that does
  not fit keeps length 0 and is dropped" is false: `PtpOverrun.FailedLengthIsZeroIff`
  says exactly when it holds, `ReplyProperties.FailedReplyIsDroppedIff` for
  management responses, and `ServiceOverrun.Overrun` is a run in which 202 bytes
  arrive and 2432 leave. `Service.Serve` says what is sent in either case.
* The HMAC check compares as many bytes as the sender says, so an empty ICV is
  always accepted (`service/src/ptp/security/ptp_security.c:96`).
* A deleted row is still found while it is cached; `DbCache.TransparentIffBacked`
  says exactly when the cache is transparent.
* The service's decoder reads TLV lengths as signed
  (`service/src/ptp/protocol/ptp_decoding.c:280`); a pad with a length of 0x8000 or
  more sends it backwards. So "what is authenticated is covered by the ICV", which
  holds in the order of the TLVs, is false of their bytes, as
  `documentation/README.md:194-216` describes: `PtpCoverage.LoopIsNotCovered` gives
  the input. It holds whenever no such pad has been decoded
  (`PtpCoverage.MarkedBytesAreCovered`), which is if and only if the unsigned copy
  of the decoder accepts the message (`PtpCoverage.ConsecutiveIff`).
* A delay request carries no port, but it is answered in the name of one
  (`service/src/ptp/tasks/ptp_tasks.c:283`): the one that lies in its struct, where a
  message eight, sixteen or more arrivals earlier has left it.
  `Leftovers.AnsweredPort` says which, `Leftovers.NoPortIff` when it is (0, 0).
* The terminator of a secret of 64 bytes is stored over the policy of the next cache
  slot (`service/src/db/db.c:127`); `DbCache.TerminatorKeepsCoherentIff` says when
  this breaks the cache.
* GRANT flags are written with the flags mask and read with the type mask
  (`service/src/ptp/protocol/ptp_encoding.c:354`,
  `checker/src/protocol/ptp_decoding.c:334`), so they always arrive as 0.
* The alignment guard at `service/src/ptp/protocol/ptp_encoding.c:507` is never
  zero, so a pad TLV is always appended.
* FOLLOW_UP uses the 20-byte layout with a port identity on both sides.
* ALTERNATE_TIME_OFFSET_INDICATOR TLVs have odd lengths although IEEE 1588-2019
  asks for even ones; no parity is claimed for them.
* The JSON parser accepts a comma in front of a closing brace, but no whitespace
  between a value and what follows it.
* The grant in a signaling response names message type 0, whatever was requested.

## Model

| member | source | states |
|---|---|---|
| `PtpRoundTrip.MessageRoundTrip` | service/src/ptp/protocol/ptp_encoding.c:464-523 | Every message with at most 20 TLVs that the encoder accepts is decoded, from any buffer that fits the written bytes (reserved bytes, padding and ICVs may hold anything), to its wire-carried fields, its TLVs in order and the alignment pad; with exactly 20 TLVs the pad is missing. |
| `PtpRoundTrip.MessageUnchangedIff` | checker/src/protocol/ptp_decoding.c:432-477 | What is received equals what was encoded, pad aside, if and only if every field fits its wire format: 12-bit sdoId, one-byte enumerations, 48-bit next jump, 4-bit unicast types, GRANT flags 0, zeroed description tail, ICV pointer in place. |
| `PtpRoundTrip.TlvsUnchangedIff` | checker/src/protocol/ptp_decoding.c:465-474 | The same for a list of TLVs at any position. |
| `PtpRoundTrip.BodyUnchangedIff` | service/src/ptp/protocol/ptp_encoding.c:295-462 | The same for one TLV of any kind; in particular a GRANT TLV survives only with flags 0. |
| `PtpRoundTrip.TlvsRoundTrip` | checker/src/protocol/ptp_decoding.c:465-474 | Any list of encoded TLVs followed by a pad decodes in order into the free slots, the pad only if a slot is left. |
| `PtpRoundTrip.TlvRoundTrip` | checker/src/protocol/ptp_decoding.c:271-430 | One encoded TLV of any kind decodes to its wire form and the decoder stops right behind it. |
| `PtpRoundTrip.TimeOffsetRoundTrip` | service/src/ptp/protocol/ptp_encoding.c:387-421 | The 15-byte body with signed offsets, a 48-bit jump time and a nested name survives, for odd and even names. |
| `PtpRoundTrip.ManagementRoundTrip` | service/src/ptp/protocol/ptp_encoding.c:194-258 | User descriptions up to 128 bytes and TIME values survive; the tail of a shorter description arrives as zeros. |
| `PtpRoundTrip.ErrorStatusRoundTrip` | service/src/ptp/protocol/ptp_encoding.c:260-293 | Both 16-bit ids and the nested text survive behind four unwritten bytes. |
| `PtpRoundTrip.PayloadRoundTrip` | service/src/ptp/protocol/ptp_encoding.c:33-192 | All ten payload kinds survive, the announce priority split over two separate bytes included. |
| `PtpRoundTrip.HeaderRoundTrip` | service/src/ptp/protocol/ptp_encoding.c:474-490 | Every header field is read from where it was written; sdoId modulo 4096 is reassembled from two places. |
| `PtpRoundTrip.TimestampRoundTrip` | service/src/ptp/protocol/ptp_encoding.c:19-25 | Encoding and decoding a timestamp is the identity on all 2^64 values although the high seconds are reduced with a modulo. |
| `PtpRoundTrip.PortTimeIsStartPlusElapsed` | service/src/http/tasks/http_tasks.c:239 | A client decodes the requested start plus the nanoseconds elapsed since creation, modulo 2^64. |
| `PtpReencoding.DecodedReencodes` | checker/src/protocol/ptp_decoding.c:432-477 | Encode, decode, encode: with fewer than 20 TLVs the same bytes again except for a length field larger by 16 and one more pad TLV of 12 zeros; with 20 TLVs exactly the same bytes. |
| `PtpReencoding.ReencodingAppendsOnePad` | service/src/ptp/protocol/ptp_encoding.c:504-522 | For every buffer size: the second encoding fails with EMSGSIZE exactly if fewer than 16 more bytes are available, and is otherwise as above. |
| `PtpReencoding.FullMessageReencodes` | service/src/ptp/protocol/ptp_encoding.c:504-522 | A message received without its pad is encoded to the very same bytes. |
| `PtpReencoding.TlvsReencode` | service/src/ptp/protocol/ptp_encoding.c:354 | Received TLVs encode to the bytes they came from if and only if no GRANT TLV had its two low flag bits set: they are written with the flags mask and read with the type mask. |
| `PtpEncoding.EncodeMessage` | service/src/ptp/protocol/ptp_encoding.c:464-523 | The encoder in place. On success it returns the length and leaves exactly the message's cells in the buffer; on failure it reports the first error, and behind the buffer lies exactly the spill of the TLV that did not fit (`MessageSpill`), for which alone room is demanded. |
| `PtpEncoding.EncodeTlvs` | service/src/ptp/protocol/ptp_encoding.c:497-502 | The TLV loop writes the TLVs one behind the other and stops at the first that fails; behind the end lies exactly the spill of that one. |
| `PtpEncoding.EncodeTlv` | service/src/ptp/protocol/ptp_encoding.c:295-462 | Type, contents and the length patched afterwards; on failure exactly the part of the type, or of the pad, that was stored before the bounds check lies behind the end. |
| `PtpEncoding.EncodeManagementTlv` | service/src/ptp/protocol/ptp_encoding.c:194-258 | Writes id, length byte, text and parity padding, with the error order of the source. |
| `PtpEncoding.EncodePayload` | service/src/ptp/protocol/ptp_encoding.c:33-192 | Writes exactly the payload's cells and returns their end, or reports the error. |
| `PtpDecoding.DecodeMessage` | checker/src/protocol/ptp_decoding.c:432-477 | The decoder in place returns a function of the first `length` bytes only, although it reads up to three bytes more before its bounds checks. |
| `PtpDecoding.DecodeTlvList` | checker/src/protocol/ptp_decoding.c:465-474 | The TLV loop, against the recursive specification. |
| `PtpDecoding.DecodeTlv` | checker/src/protocol/ptp_decoding.c:271-430 | One TLV; header bytes behind the message never influence the result. |
| `PtpDecoding.DecodeManagementTlv` | checker/src/protocol/ptp_decoding.c:189-239 | Management TLV; the length byte is read before its bound check without influence. |
| `PtpDecoding.DecodeErrorStatusTlv` | checker/src/protocol/ptp_decoding.c:241-269 | Error status TLV; the text ends at its first NUL. |
| `PtpDecoding.DecodeTimeOffsetTlv` | checker/src/protocol/ptp_decoding.c:367-395 | Alternate time offset TLV with sign conversion of both 32-bit fields. |
| `PtpDecoding.DecodePayload` | checker/src/protocol/ptp_decoding.c:29-187 | Every payload kind, FOLLOW_UP with 20 bytes. |
| `PtpLayout.MessageLayout` | checker/src/protocol/ptp_decoding.c:465-474 | The TLVs of a decoded message occupy consecutive ranges of at least four bytes that end with the message, unless all 20 slots were used first. |
| `PtpLayout.PositionsIncrease` | checker/src/protocol/ptp_decoding.c:271-285 | TLVs never overlap, over any distance in the list. |
| `PtpLayout.IcvFillsTlv` | checker/src/protocol/ptp_decoding.c:403-427 | An ICV fills the rest of its TLV and lies inside the message. |
| `PtpWire.MessageCells` | service/src/ptp/protocol/ptp_encoding.c:504-522 | An encoded message is at least a header long, fits the buffer, and its length plus 42 bytes of network overhead is a multiple of 16. |
| `PtpFormat.DecodesIff` | checker/src/protocol/ptp_decoding.c:432-477 | Exactly what has the format is decoded, and as what: the header's fields at their bytes, the payload that the type names, and TLVs one behind the other, each with its type, its length and the fields of its kind at literal positions, up to the end or the 20th (sections 13.3 and 14.1 of IEEE 1588-2019). |
| `PtpFormat.EncodedHasFormat` | service/src/ptp/protocol/ptp_encoding.c:474-522 | An encoded message names version 0x12 and its own length, which plus 42 is a multiple of 16. |
| `PtpOverrun.FailedLengthIsZeroIff` | service/src/common/common_types.h:26-29 | The two bytes behind the 1472 are the length. A failed encoding leaves it 0 if and only if the first TLV that does not fit, the pad included, starts at 1470 or before; otherwise the length is the TLV type with its bytes swapped (1472) or its low byte (1471). |
| `PtpOverrun.SpilledLengthIs` | service/src/ptp/protocol/ptp_encoding.c:301 | How the bytes of a type that spills from any position become the length. |
| `PtpOverrun.MessageSpillsFrom` | service/src/ptp/protocol/ptp_encoding.c:464-523 | What a failed encoding leaves behind the buffer is the type of the first TLV that does not fit, from its position on, and otherwise zeros; never more than six bytes. |
| `PtpSigned.CopiesAgree` | service/src/ptp/protocol/ptp_decoding.c:271-285 | The service's decoder, which reads TLV lengths as signed, returns the same result as the unsigned copy, errors included, unless a TLV with a length of 0x8000 or more is reached; whatever the unsigned copy accepts it accepts identically. |
| `PtpSigned.CopiesDifferIff` | service/src/ptp/protocol/ptp_decoding.c:280-287 | Exactly when the two copies of the decoder return different results: behind the same TLVs both reach a TLV with a length of 0x8000 or more which is of unknown type, or a pad from which decoding goes on to anything but a size error. |
| `PtpSigned.LongTlvs` | service/src/ptp/protocol/ptp_decoding.c:280-283 | Of TLVs with such a length only pads are decoded, and the decoder then goes backwards; the unsigned copy rejects all of them. |
| `PtpSigned.IcvsAreInMessage` | service/src/ptp/protocol/ptp_decoding.c:403-427 | Even after going backwards every ICV lies inside the message. |
| `PtpSigned.DecodeInPlace` | service/src/ptp/protocol/ptp_decoding.c:432-477 | The service's decoder in place, against its specification. |
| `PtpAuthentication.SealsHold` | service/src/ptp/security/ptp_security.c:148-177 | Completing any number of HMAC TLVs seals each over its whole prefix as it finally is, later seals included, and changes no byte outside the ICVs. |
| `PtpAuthentication.SealedMessagePasses` | service/src/ptp/security/ptp_security.c:84-102 | After completion every 16-byte ICV passes the HMAC check and the message decodes as before. |
| `PtpAuthentication.EncodedSealedMessagePasses` | service/src/ptp/security/ptp_security.c:148-177 | From end to end, with one lookup for each TLV: encode, complete, decode, and every authentication TLV of the received message passes. |
| `PtpAuthentication.EncodedSealedDecodes` | service/src/ptp/security/ptp_security.c:50-68 | Completion with any policy but the plain one changes nothing that a receiver decodes. |
| `PtpAuthentication.SealedTlvsAuthenticate` | service/src/ptp/security/ptp_security.c:179-223 | A receiver with the same row accepts every TLV in front of an authentication TLV that names the HMAC policy. |
| `PtpAuthentication.SealedDecodes` | checker/src/protocol/ptp_decoding.c:403-427 | Decoding depends on no byte of any ICV. |
| `PtpAuthentication.SecretMattersIff` | service/src/ptp/security/ptp_security.c:84-102 | The sender says how much is compared. The verdict does not depend on the secret if and only if that is nothing, and then it is acceptance, or it is more than the 32 bytes of a digest and the rest differs from what lies behind it on the stack, and then it is rejection. The first is documented (`documentation/README.md:237-260`). |
| `PtpAuthentication.MarksAreAcceptedPrefix` | service/src/ptp/security/ptp_security.c:179-223 | Over any sequence of authentication calls the marked TLVs form a prefix that ends in an authentication TLV which one of the calls accepted. |
| `PtpAuthentication.CallExtendsMarks` | service/src/ptp/security/ptp_security.c:201-222 | One call leaves the marks alone or extends the prefix to a TLV that its row accepts. |
| `PtpCoverage.ConsecutiveIff` | service/src/ptp/protocol/ptp_decoding.c:277-287 | The TLVs of a message that the service accepts occupy consecutive ranges if and only if no decoded pad has a length of 0x8000 or more, and if and only if the unsigned copy of the decoder accepts the message too. |
| `PtpCoverage.GoesBackIff` | service/src/ptp/protocol/ptp_decoding.c:397-401 | The service's decoder leaves its buffer at the front only behind such a pad, and goes back in an accepted message if and only if it decodes one. |
| `PtpCoverage.MarkedBytesAreCovered` | service/src/ptp/security/ptp_security.c:179-223 | However the TLVs of a message that the service has decoded are authenticated, over any sequence of calls: the marked ones are a prefix that ends in an accepted authentication TLV, and every other one of them lies in front of that TLV's ICV, unless the decoder has gone back. |
| `PtpCoverage.LoopIsDecoded` | service/src/ptp/protocol/ptp_decoding.c:280-287 | 86 bytes in which a pad of length 0xffda follows an authentication TLV and a question for the description: the service decodes the same three TLVs over and over, 20 in all, and the unsigned copy rejects them. |
| `PtpCoverage.LoopIsNotCovered` | service/src/ptp/security/ptp_security.c:179-223 | If the ICV of these bytes is the HMAC of what stands in front of it, the question is authenticated by the second copy of that TLV although it lies behind everything the ICV covers, as the repository's documentation describes (`documentation/README.md:194-216`). |
| `PtpSecurity.MessageInfo.CompleteAuthTlvs` | service/src/ptp/security/ptp_security.c:148-177 | In place: decodes the buffer again with the service's own decoder and completes the TLVs in order, each with its own lookup, with the error codes of the source. |
| `PtpSecurity.MessageInfo.CheckAuth` | service/src/ptp/security/ptp_security.c:179-223 | In place: the scan for the next authentication TLV, its check, and the backward marking loop, as one state change. |
| `PtpAcceptance.AcceptsIff` | service/src/ptp/security/ptp_security.c:70-102 | When an authentication TLV is accepted, without naming the functions that check it: policy NONE takes any; otherwise the TLV names the row's policy and holds, byte by byte, the secret and a NUL (plain), or as much of the digest of what lies in front of it as it is long (HMAC). A wrong ICV is -EPERM, everything else -EINVAL. |
| `PtpAcceptance.AcceptedNamesPolicy` | service/src/ptp/security/ptp_security.c:198-214 | What is accepted names the row's policy, unless that is NONE. |
| `PtpAcceptance.OneSecretIsAccepted` | service/src/ptp/security/ptp_security.c:70-82 | Under the plain policy at most one secret is accepted for given bytes. |
| `PtpAcceptance.StoredIs` | service/src/ptp/security/ptp_security.c:17-68 | What completing a TLV stores at its ICV, byte by byte, for every policy. |
| `PtpAcceptance.CompletedIsAccepted` | service/src/ptp/security/ptp_security.c:50-102 | What completing a TLV stores is accepted with the same row, for every policy. |
| `PtpAcceptance.AuthenticatesIff` | service/src/ptp/security/ptp_security.c:179-223 | A TLV that is not marked is authenticated if and only if the port is found and the first authentication TLV behind it is accepted; otherwise which error it is. |
| `PtpSecurity.SignedIcvsAreInside` | service/src/ptp/security/ptp_security.c:32-48 | Whatever the service decodes, a plain secret or an HMAC at any of its ICVs stays inside a buffer with 64 bytes of room behind the message. |
| `Leftovers.StoredIsOverlaid` | service/src/ptp/protocol/ptp_decoded.h:123-173 | The payloads of a struct share memory: after any payload has been stored over any other, the place of an event's port holds exactly the numbers this lemma names, for each kind of message. |
| `Leftovers.EightArrivalsEarlier` | service/src/util/mempool.h:62-77 | A message is received over what the one eight arrivals earlier has left in its struct, and over nothing else; the first eight find what `malloc` has left. |
| `Leftovers.AnsweredPort` | service/src/ptp/tasks/ptp_tasks.c:282-283 | Which port a delay request is answered with: the event port of the last message, eight, sixteen and more arrivals earlier, that has stored into its place; failed arrivals and messages without a decodable payload store nothing. |
| `Leftovers.NoPortIff` | service/src/ptp/protocol/ptp_decoding.c:46-57 | Exactly after which message that port is (0, 0). |
| `Service.Serve` | service/src/udp/udp.c:85-98 | Any run from start-up of arrivals on both ports, registrations, inspections and page views, in any environment: between events the receive ring and the UDP pool are empty, each request holds what the arrivals have left in it, and the transmit ring equals the PTP pool's outstanding items in allocation order; and what was sent is aligned and as long as its header says if and only if its message fit the buffer, otherwise it has the length that the message's failure left, whose first unfitting TLV starts in the last two bytes. |
| `Service.Server.Poll` | service/src/udp/udp.c:85-98 | One event, exactly: the queue grows by the responses that `Reception` computes from the received bytes, from what older messages have left in the struct (`NextLeftover`), the database, the clock and the stale memory; then as many leave as `Drain` says, with those bytes, in allocation order; the rest stay queued unchanged. |
| `ServiceProperties.DrainStops` | service/src/udp/udp.c:95-97 | Sending stops behind the first response that is not finalized or that `sendto` refuses, and only there; until then one datagram leaves for each response, in order. |
| `ServiceProperties.ToldDescriptionsAreAuthorized` | service/src/ptp/tasks/ptp_tasks.c:150-185 | For every arrival and every response to it that fits its buffer: what a client decodes contains a user description only if the request is a GET for that port and, behind a TLV that asks for the description, has an authentication TLV that passes byte by byte with the port's last registered row while the request is handled, and whose ICV covers the bytes of the TLV that asks unless a pad has sent the decoder back; and then its length is that of the row's description, cut at 128, and its bytes are the description's, followed by zeros. |
| `ServiceProperties.ToldGrantsAreAuthorized` | service/src/ptp/tasks/ptp_tasks.c:207-244 | A signaling request is answered, as decoded by the client, with at most one grant for each TLV behind which the target's row accepts an authentication TLV while the request is handled; each of these covers the bytes of the TLV that asks unless a pad has sent the decoder back. |
| `ServiceReplies.ReplyIsSignedIff` | service/src/ptp/security/ptp_security.c:120-146 | The reply to a management request is signed if and only if its port is found, with another policy than the plain one, and there are fewer than 20 answers: its last TLV is then an authentication TLV of the row's policy with a 16-byte ICV behind the answers, of which none is one; and its header, addressee and action. |
| `ServiceReplies.SignedReplyIsAccepted` | service/src/ptp/tasks/ptp_tasks.c:385-388 | On the wire, for a port with policy HMAC: a client decodes exactly one authentication TLV, behind the answers and in front of the pad, and it passes byte by byte with the port's last registered row. |
| `ServiceReplies.CachedPortSigns` | service/src/ptp/tasks/ptp_tasks.c:385-388 | A cached port with policy HMAC is always found for that, so it signs every reply to a request with fewer than 20 TLVs. |
| `ServiceReplies.DescriptionRequestIsAnswered` | service/src/ptp/tasks/ptp_tasks.c:150-185 | On the wire, a GET that asks for the description only: the description that was registered last if the next authentication TLV passes, and otherwise "No such port" or "Access denied" with the reason; addressed to the requester in the name of the port, and signed in a way that the client accepts. |
| `ServiceReplies.TimeReplyIsSigned` | service/src/ptp/tasks/ptp_tasks.c:187-205 | The same for the time: the clock two steps after the arrival plus the last registered offset, or 0, in a reply that is signed and accepted. |
| `ServiceReplies.OtherActionIsRefused` | service/src/ptp/tasks/ptp_tasks.c:246-270 | A single question with another action than GET is refused with error 6, its id and the text of the source. |
| `ServiceUnicast.UnicastRequestIsTold` | service/src/ptp/tasks/ptp_tasks.c:207-244 | On the wire, for each REQUEST_UNICAST TLV up to a failure: at its place in the queue a client decodes a Sync with a reading of the clock from while the request was handled, or an Announce with the time, the clock id and the truncated seconds of the last registered offset, in the name of the target and with the sequence number of the request, and then the TLV behind it was accepted; or a denial, to the requester, and then the TLV behind it did not pass and the error says why, or the port was not cached. |
| `ServiceUnicast.ServedIff` | service/src/ptp/tasks/ptp_tasks.c:207-244 | Exactly when one such TLV does not fail: a buffer is left, and it is denied, or asks for a Sync, or for the Announce of a port that is found. |
| `ServiceUnicast.KnownIsServed` | service/src/ptp/tasks/ptp_tasks.c:318-336 | A request for Syncs, and for Announces of a cached port, does not fail as long as there are buffers for its messages. |
| `ServiceUnicast.GrantsAreTold` | service/src/ptp/tasks/ptp_tasks.c:299-344 | If nothing fails, a client decodes as many grants as messages behind the response that are no denials, each with message type, duration and flags 0, addressed to the requester in the name of the target. |
| `ServiceErrors.UnexpectedIsReported` | service/src/ptp/tasks/ptp_tasks.c:405-443 | On the wire: a message that cannot be decoded, arrives at the wrong port, or is of a type that nobody should send, leads to "General error", and to nothing else, for whom its header names, or without a full header older messages. |
| `ServiceErrors.IgnoredIsSilent` | service/src/ptp/tasks/ptp_tasks.c:412-418 | Syncs, delay responses and announcements lead to nothing. |
| `ServiceErrors.SignalingFailureIsReported` | service/src/ptp/tasks/ptp_tasks.c:299-344 | A signaling request that fails: an unfinalized response, the messages served before, and a general error if a buffer is left. |
| `ServiceProperties.TimeRequestIsAnswered` | service/src/ptp/tasks/ptp_tasks.c:187-205 | A GET of the TIME is answered with the clock reading two steps after the arrival plus the last registered offset, as decoded by the client, and with 0 if the lookup finds nothing; with the offset that a creation stores this is the start plus the time elapsed. |
| `ServiceProperties.DelayRequestIsAnswered` | service/src/ptp/tasks/ptp_tasks.c:272-297 | A delay request on the event port is answered with the clock reading at its arrival, the requester, its sequence number and the service's own header fields, as decoded by the client, and in the name of the port that older messages have left in its struct; from an empty queue it leaves at once and alone. |
| `ServiceProperties.ReplyIsSent` | service/src/udp/udp.c:14-53 | A single response that fits is decoded by whoever receives it as what was meant; from an empty queue it leaves at once and alone. |
| `ReplyProperties.DescriptionsAreAuthorized` | service/src/ptp/tasks/ptp_tasks.c:150-166 | The same, apart from coverage, on the side of the handlers, for every message type, also for responses that do not fit. |
| `ReplyProperties.GrantsAreAuthorized` | service/src/ptp/tasks/ptp_tasks.c:207-244 | A signaling response has at most one grant for each TLV behind which the target's last registered row accepts an authentication TLV while the request is handled. |
| `ReplyProperties.AuthorizedIsAccepted` | service/src/ptp/security/ptp_security.c:179-223 | `ptp_security_check_auth` succeeds for an unmarked TLV only if the row accepts the next authentication TLV, and the marks it leaves are justified in the same way. |
| `ReplyProperties.TimesAreTrue` | service/src/ptp/ptp_helper.h:110-120 | Whatever is asked, every TIME in the answers is a clock reading from while the request was handled plus the target's last registered offset, or 0. |
| `ReplyProperties.TimeIsAnswered` | service/src/ptp/tasks/ptp_tasks.c:187-205 | The only management TLV of a request is answered first, with RESPONSE as the action, addressed to the requester. |
| `ReplyProperties.FailedReplyIsDroppedIff` | service/src/ptp/ptp_helper.h:61-64 | A management response that does not fit is dropped if and only if the first TLV that does not fit starts anywhere but at the very end of the buffer; every answer and every authentication TLV has an even length. |
| `ReplyProperties.OverrunExample` | service/src/udp/udp.c:34-41 | A request with ten questions for the description and four for the time, for a cached port with policy NONE and a description of at least 128 bytes, has a response that does not fit and gets the length 2432. |
| `ServiceOverrun.OverrunRequestDecodes` | service/src/ptp/protocol/ptp_decoding.c:432-477 | 202 bytes that decode to such a request. |
| `ServiceOverrun.OverrunIsSent` | service/src/udp/udp.c:34-41 | With these bytes as the received message, from an empty queue: exactly one datagram leaves, it has 2432 bytes, and its header does not say so. |
| `ServiceOverrun.Overrun` | service/src/udp/udp.c:55-98 | A whole run from start-up to that datagram: the port is registered and inspected, and then the 202 bytes arrive. |
| `ReplyProperties.RepliesAreFinalizable` | service/src/ptp/tasks/ptp_tasks.c:346-396 | Whatever the request, its management response has at most 20 TLVs, all of known kinds, 16-byte ICVs, and is never completed with a plain secret. |
| `ReplyProperties.LookupsFind` | service/src/ptp/ptp_helper.h:68 | Once a port is cached, every lookup that completes a response finds its row. |
| `ReplyProperties.GrantsEncode` | service/src/ptp/tasks/ptp_tasks.c:339-341 | A signaling response with up to 20 grants always fits its buffer. |
| `ReplyProperties.ErrorEncodes` | service/src/ptp/tasks/ptp_tasks.c:134-140 | An error message always fits its buffer. |
| `ReplyProperties.AnnounceEncodes` | service/src/ptp/tasks/ptp_tasks.c:78-83 | An announce message always fits its buffer. |
| `ResponseBuffers.CompletedIsFinished` | service/src/ptp/ptp_helper.h:58-74 | Completing an encoded response keeps its length and what it says, and makes its authentication TLVs valid for the row that all lookups found. |
| `ResponseBuffers.EncodedIsDatagram` | service/src/ptp/protocol/ptp_encoding.c:517-522 | The header's length field of an encoded message is the length the encoder returns. |
| `ResponseBuffers.OverrunIsNoDatagram` | service/src/udp/udp.c:34-41 | The length that a failed encoding leaves is never one that the encoder could have returned. |
| `Service.Server.ReceiveMessage` | service/src/udp/udp.c:55-83 | Receiving never fails for lack of a buffer, always gives it back, takes the structs of the pool in turn, and queues exactly what `Reception` says. |
| `Service.Server.SendMessage` | service/src/udp/udp.c:14-53 | Sends the oldest response if its length is positive, drops it otherwise, and returns its buffer in order either way. |
| `Service.Server.Transmit` | service/src/udp/udp.c:29-52 | What is handed to the socket is as many bytes as the length says, also beyond the buffer. |
| `Service.Server.DequeueMessage` | service/src/ptp/ptp.c:80-91 | The ring yields the oldest outstanding response; only its time stamp changes. |
| `Service.Server.EnqueueMessage` | service/src/ptp/ptp.c:60-78 | The receive ring always has room; the request is answered with the clock reading at this point. |
| `Service.Server.HandleMessage` | service/src/ptp/tasks/ptp_tasks.c:398-448 | The request's buffer is returned on every path and is never out of order. |
| `Service.Server.Answer` | service/src/ptp/tasks/ptp_tasks.c:405-443 | Every received request is answered as `AnswerTo` says, which reports every failure with one general error if a buffer is left, addressed to the requester in the decoded header or, without a full header, to the one left in the struct. |
| `Service.Server.DecodeRequest` | service/src/ptp/tasks/ptp_tasks.c:407-410 | The request becomes what the service's own decoder finds in its bytes, with no TLV marked and with the port left in the struct if an event has none; a failed decoding stores the header and the payload as far as it gets. |
| `Service.Server.Dispatch` | service/src/ptp/tasks/ptp_tasks.c:410-437 | What each message type queues on each port, and the error code otherwise. |
| `Service.Server.HandleDelayRequest` | service/src/ptp/tasks/ptp_tasks.c:272-297 | Succeeds exactly on the event port with a buffer left, and then queues the answer with the request's own arrival time and the port found in its struct. |
| `Service.Server.HandleSignaling` | service/src/ptp/tasks/ptp_tasks.c:299-344 | Queues a signaling response, finalized with one grant for each granted TLV if all were served, and behind it the messages that were served; after a failure the response stays unfinalized. |
| `Service.Server.HandleUnicastTlvs` | service/src/ptp/tasks/ptp_tasks.c:318-336 | The loop over the TLVs: grants, messages, marks, lookups and the first failure. |
| `Service.Server.HandleRequestUnicast` | service/src/ptp/tasks/ptp_tasks.c:207-244 | A request that its own bytes do not authenticate is denied with an error message; a granted one adds a grant and queues the message it asked for; nothing queued earlier changes. |
| `Service.Server.HandleManagement` | service/src/ptp/tasks/ptp_tasks.c:346-396 | Queues one response that answers every management TLV in order, with an authentication TLV if the port's row asks for one, finalized on every path. |
| `Service.Server.HandleManagementTlvs` | service/src/ptp/tasks/ptp_tasks.c:365-383 | The loop over the TLVs: one answer for each, in order, with the marks and lookups that each leaves. |
| `Service.Server.HandleTlvManagement` | service/src/ptp/tasks/ptp_tasks.c:246-270 | The answer to one management TLV, for every id and action. |
| `Service.Server.HandleUserDescriptionGet` | service/src/ptp/tasks/ptp_tasks.c:150-185 | The description, "no such port" or "access denied", as the lookup and the check of the request's own bytes decide. |
| `Service.Server.HandleTimeGet` | service/src/ptp/tasks/ptp_tasks.c:187-205 | The port's time and a RESPONSE action. |
| `Service.Server.GetPortTime` | service/src/ptp/ptp_helper.h:110-120 | One lookup, then one clock reading, which is added to the offset found. |
| `Service.Server.CheckAuth` | service/src/ptp/security/ptp_security.c:179-223 | One lookup, and the check of the request's own bytes with its row; the marks are stored in the request. |
| `Service.Server.SendSync` | service/src/ptp/tasks/ptp_tasks.c:19-39 | Queues a message with the clock reading that follows the allocation; fails without a trace. |
| `Service.Server.SendAnnounce` | service/src/ptp/tasks/ptp_tasks.c:41-84 | Carries the port's time and, in truncated seconds, the offset of the row found first; leaves no trace if it fails. |
| `Service.Server.AddManagementErrorMessage` | service/src/ptp/tasks/ptp_tasks.c:116-148 | Succeeds exactly with a buffer left; the message carries the error, addressed to the requester. |
| `Service.Server.AddAuthTlv` | service/src/ptp/security/ptp_security.c:120-146 | Adds a TLV with a 16-byte ICV exactly if the port is found, its policy is not plain and a slot is left. |
| `Service.Server.GetAndInitResponse` | service/src/ptp/ptp_helper.h:22-56 | Fails exactly if the pool is exhausted, without a trace; otherwise the new item is no outstanding one and the transmit ring always takes it. |
| `Service.Server.FinalizeMessage` | service/src/ptp/ptp_helper.h:58-74 | Encodes in place and completes: the response then carries its message, with valid HMACs; one that does not fit keeps the length that the failed encoding left behind the buffer. |
| `Service.Server.FetchEntries` | service/src/ptp/security/ptp_security.c:157-178 | The lookups that complete a response, in order, until one of them fails. |
| `Service.Server.AddTlv` | service/src/ptp/ptp_helper.h:76-86 | Appends behind the other TLVs, up to 20. |
| `Service.Server.Register` | service/src/db/db.c:200-251 | A registration changes the database as `Insert` says and nothing else of the service. |
| `Service.Server.Inspect` | service/src/http/tasks/http_tasks.c:160 | An inspection over HTTP looks its port up, which may fill the cache, and changes nothing else. |
| `Service.Server.constructor` | service/src/ptp/ptp.c:15-37 | Rings and pools of size 8, all empty. |
| `MemPool.ItemsAreDisjoint` | service/src/util/mempool.h:28-54 | For every item length and count, items are pairwise disjoint, inside the allocation, and touch neither a descriptor nor the guard. |
| `MemPool.Mempool.Get` | service/src/util/mempool.h:62-77 | Fails exactly if all items but one are outstanding; otherwise it hands out the next item, round and round, which is no outstanding one. |
| `MemPool.Mempool.Put` | service/src/util/mempool.h:79-93 | Exits exactly if the item is not the one the tail reaches next, with or without outstanding items; the oldest outstanding one is free again. |
| `MemPool.Mempool.WriteDescriptors` | service/src/util/mempool.h:46-48 | The set-up loop stores the pool in exactly the descriptors that items are reached through. |
| `MemPool.Mempool.constructor` | service/src/util/mempool.h:28-54 | A fresh pool has nothing outstanding. |
| `MemPool.OutstandingAreItems` | service/src/util/mempool.h:62-93 | Outstanding items are pairwise different items of the pool. |
| `Ring.ItemRing.Put` | service/src/util/ring.h:56-70 | Appends unless length - 1 items are queued. |
| `Ring.ItemRing.Get` | service/src/util/ring.h:40-54 | Removes the oldest item; fails exactly if there is none. |
| `RingInterleaving.EveryScheduleIsSafe` | service/src/util/ring.h:40-70 | Under every interleaving of the single atomic steps of one producer and one consumer the popped values are a prefix of the pushed ones, and at most length - 1 are held. |
| `RingInterleaving.StepRefinesQueue` | service/src/util/ring.h:40-70 | Linearizability: each call takes effect in one step as on a bounded FIFO queue, and "full" and "empty" are right at that step. |
| `RingInterleaving.StepKeepsInvariant` | service/src/util/ring.h:40-70 | Every step of either thread keeps the index and slot invariant. |
| `RingInterleaving.WritesFreeSlot` | service/src/util/ring.h:66 | The producer never writes a slot that awaits its read. |
| `DbCache.RunKeepsCoherent` | service/src/db/db.c:79-251 | In every run of lookups, page loads, inserts (rejected ones too) and external deletions, each valid slot sits at its key's hash and holds the key's latest insert. |
| `DbCache.SuccessfulGetIsLatest` | service/src/db/db.c:79-142 | After any run a successful lookup returns the key's most recent successful insert, even if the row has been deleted since. |
| `DbCache.TransparentIffBacked` | service/src/db/db.c:79-142 | After any run the cache is transparent, so that every fault-free lookup answers what the table holds, if and only if every cached port is still in the table; without deletions it always is. |
| `DbCache.RunKeepsBacked` | service/src/db/db.c:144-251 | Lookups, page loads and inserts never cache a row that the table does not hold. |
| `DbCache.TerminatorKeepsCoherentIff` | service/src/db/db.c:127 | The terminator of a secret of 64 bytes is stored over the policy of the next slot; the cache stays coherent if and only if that slot holds no row or one whose policy has no low byte. |
| `DbCache.PageEntryIntactIff` | service/src/db/db.c:144-198 | An entry of a page is intact if and only if no later row of the page has the same sum of clock id and port, modulo 2^64 and 256: entries are pointers into the cache, so a colliding row overwrites an earlier one. |
| `DbCache.InsertSucceedsIff` | service/src/db/db.c:200-251 | Exactly when an insert succeeds: neither part of the port is all zeros or all ones, the description has at most 1500 bytes, and the table takes the row and has no such port. Then the row is found, and in any case every other stored row is found as before. |
| `DbCache.LookupCode` | service/src/db/db.c:79-142 | The code of every lookup, from the port, the one slot that it hashes to, the table and the fault. |
| `DbCache.DbState.Get` | service/src/db/db.c:79-142 | In place: invariant, result and the slot that the returned pointer names. |
| `DbCache.DbState.Set` | service/src/db/db.c:200-251 | In place: the slot is invalidated before the insert can fail, and the row becomes the latest only if it succeeds. |
| `DbCache.DbState.GetRecent` | service/src/db/db.c:144-198 | In place: fills the page until rows, page or SQLite run out; the entries are the slots of the loaded rows. |
| `JsonRoundTrip.ParseUndoesText` | service_hidden/src/json.c:260-333 | Parsing the text of any object, followed by anything, gives back the identical tree, with pair order and duplicate keys. |
| `JsonRoundTrip.TextOfParsedFits` | service_hidden/src/json.c:612-631 | Whatever is accepted is written back in no more bytes than it was read from, and that text parses to the same tree. |
| `JsonGrammar.ParsesIff` | service_hidden/src/json.c:63-333 | The language, in literal bytes: a text is accepted, as a given object, if and only if it begins with the text of a syntax tree that means this object. Any number of blanks (32) and newlines (10) may stand in front of the object and of every key and value at any nesting, and in front of a brace behind a comma or another brace, and no other byte is skipped; a backslash quotes any byte but NUL; numbers are taken modulo 2^64. |
| `JsonRoundTrip.ValueRoundTrip` | service_hidden/src/json.c:393-427 | Every nested value is read back up to its end; a number or a boolean needs a byte behind it that is no digit. |
| `JsonRoundTrip.ObjectFits` | service_hidden/src/json.c:260-333 | An accepted object is no shorter than its text. |
| `JsonRoundTrip.DigitsFit` | service_hidden/src/json.c:199-224 | A number read modulo 2^64 has no more digits than were read. |
| `Json.FindAfterPush` | service_hidden/src/json.c:765-779 | A pushed pair is found exactly if its key was absent: the first of several equal keys wins. |
| `JsonParser.JsonParse` | service_hidden/src/json.c:612-614 | The recursive-descent parser in place accepts exactly the specified language and builds the specified tree, although it may read one byte behind the input. |
| `JsonParser.ParseObjectAt` | service_hidden/src/json.c:260-333 | Objects, in place. |
| `JsonParser.ParsePairsAt` | service_hidden/src/json.c:276-323 | The pair loop pushes exactly the specified pairs into the object. |
| `JsonParser.ParseStringAt` | service_hidden/src/json.c:83-135 | Strings: agrees with the specification, or returns a string that ends one byte behind the input, which every caller rejects. |
| `JsonParser.ParseNumberAt` | service_hidden/src/json.c:199-224 | Numbers with 64-bit wrap-around. |
| `JsonParser.ParseBooleanAt` | service_hidden/src/json.c:226-258 | Literals, which need one more byte of input. |
| `JsonParser.SkipWhitespace` | service_hidden/src/json.c:63-81 | Blanks and newlines; the cursor stays put if nothing else is left. |
| `JsonParser.JsonObject.Push` | service_hidden/src/json.c:765-779 | Appends the pair. |
| `JsonParser.JsonObject.Get` | service_hidden/src/json.c:848-865 | Returns the first pair with the key. |
| `JsonSerializer.JsonSerialize` | service_hidden/src/json.c:616-631 | Succeeds if and only if size is at least the text's length plus 1; then leaves that text and a NUL; never writes outside the given range. |
| `JsonSerializer.SerializeObject` | service_hidden/src/json.c:496-543 | Objects, against the same specification of text and bounds. |
| `JsonSerializer.SerializeString` | service_hidden/src/json.c:137-173 | Strings: quotes and backslashes are escaped; a partial result stays inside the buffer. |
| `JsonSerializer.SerializeNumber` | service_hidden/src/json.c:433-472 | Numbers, reversed from a 20-byte scratch array. |
| `JsonSerializer.DigitsBackwards` | service_hidden/src/json.c:441-456 | Twenty digits suffice for every 64-bit number. |
| `JsonSerializer.ParsedTreeFits` | service_hidden/src/json.c:612-631 | A buffer one byte larger than the input always holds the text of the parsed tree, and the NUL behind it does not disturb parsing. |
| `BfCorrectness.EncodedTextPrints` | checker/src/bf.py:11-95 | For every Unicode text the long program terminates and prints exactly its UTF-8 bytes, on a machine where leaving the tape or a cell outside 0..255 is a fault. |
| `BfCorrectness.Utf8IsDecoded` | checker/src/bf.py:15 | The bytes that are printed are the UTF-8 of the text: a decoder of the shortest forms of RFC 3629 gives it back. |
| `BfCorrectness.NormalPrints` | checker/src/bf.py:11-95 | The same for every byte string up to 0xf4, framed by any characters that are no commands. |
| `BfCorrectness.RunLoop` | checker/src/bf.py:55-67 | The initialisation loop runs its factor's number of rounds and multiplies out every cell. |
| `BfCorrectness.ExecPrints` | checker/src/bf.py:69-93 | The print loop prints the text from whatever cells it starts with. |
| `BfCorrectness.LoopFactorAtMost16` | checker/src/bf.py:36-46 | The rounded root of the median never exceeds 16. |
| `BfCorrectness.SortedSorts` | checker/src/bf.py:38 | The sort behind the median is a permutation in ascending order. |
| `BfCorrectness.ReusableIsFirstMinimum` | checker/src/bf.py:21-25 | The planner reuses the first cell of minimal cost, and only one cheaper than counting up from zero. |
| `BfCorrectness.CodeIsPlanned` | checker/src/bf.py:17-33 | One round of the planner: the first of the cheapest cells is reused if and only if it costs less than counting up, in a loop or not; otherwise a cell is added. |
| `BfCorrectness.FactorIsNearest` | checker/src/bf.py:36-46 | The loop factor is the square root of the median of the targets, rounded to the nearest number, and at least 1. |
| `BfCorrectness.IncrementIsNearest` | checker/src/bf.py:48-53 | What the loop adds up to is as close to the target as any multiple of the factor, with halves rounded up. |
| `BfCorrectness.CheapestIsFirstMinimum` | checker/src/bf.py:72-76 | The cell chosen for a character is the first of minimal cost. |
| `BfCorrectness.SimplePrints` | checker/src/bf.py:97-110 | The short program prints its text. |
| `BfCorrectness.FlagRoundTrip` | checker/src/bf.py:118-137 | A flag survives storing and decoding unchanged if and only if its text is ASCII. |
| `BfMachine.OutputIsUnique` | checker/src/bf.py:112-113 | A program prints at most one text. |
| `BfEncoder.EncodeNormal` | checker/src/bf.py:11-95 | The encoder as it runs: planner, factor, initialisation loop and print loop. |
| `BfEncoder.PlanTargets` | checker/src/bf.py:17-33 | The planning loop, with reuse of the cheapest cell. |
| `BfEncoder.EncodePrints` | checker/src/bf.py:69-93 | The print loop, cell values updated as it goes. |
| `BfEncoder.EncodeSimple` | checker/src/bf.py:97-110 | The short encoder as it runs. |
| `BfEncoder.CheapestCell` | checker/src/bf.py:72-76 | The search loop of the print loop. |

## Left out

- PtpSigned.DecodeInPlace: when a pad with a negative length sends the decoder in front of its buffer, the specification returns nothing; what the service then decodes, TLVs whose ICVs can be checked or an error, is an input.
- PtpSecurity.MessageInfo.CompleteAuthTlvs: asks for a buffer in which no pad sends the decoder in front of it; the source calls it only on what it has just encoded, which is such a buffer (`Service.Server.EncodedDecodes`).
- PtpDecoding.DecodePayload: decodes as into a zeroed struct, so events that carry no port have port (0, 0); `Service.Server.DecodeRequest` puts the port in that is left in the struct.
- PtpSecurity.MessageInfo.CheckAuth: the scan looks at, and the marking loop writes to, one element outside the decoded TLVs at either end (`service/src/ptp/security/ptp_security.c:194`, `:216-218`); scanning and marking are restricted to decoded TLVs.
- Service.Server.DecodeRequest: of what older messages leave in a struct, the model keeps the requester, the sequence number and the payload, in a little-endian layout with 32-bit enumerations; texts and descriptions in requests, which nothing reads, are decoded as into zeroed ones.
- Negative `icv_length` fields, which no decoding and no handler produces.
- DbCache.RunKeepsCoherent: secrets have at most 63 bytes; of one with 64, which leaves no room for its terminator, only the effect on the next slot is modelled (`DbCache.TerminatorKeepsCoherentIff`).
- Service.Server.FinalizeMessage: the layout of `struct common_message_info` is that of a platform with 8-byte alignment, with six bytes between the length and the decoded message; the spill of a response never gets further.
- Service.Server.Transmit: a length beyond the block sends further memory, which is an input; so is the memory behind a received datagram, up to the 64 bytes that a plain secret may be compared with.
- PtpDecoding.DecodeMessage: needs three readable bytes behind the message.
- JsonParser.JsonParse: needs one readable byte behind the input.
- JSON values are immutable trees except for the object being filled; `malloc` failures, `json_free`, the constructors and the array code, which the build does not enable, are not part of the model.
- The slow `strncmp` and the self-modifying code beside the JSON library: they are about time.
- SQLite, its statements and locking: rows come from an abstract table, and faults are inputs; a failed prepare in `db_get_recent` and a negative stored description length are not modelled.
- Service.Server.Register: HTTP requests are reduced to their effect on the database.
- Service.Server.Poll: one event at a time, as the event loop delivers them; sockets and addresses are left out, a failed `sendto` counts as handed over.
- BfEncoder.EncodeNormal: the square roots and divisions are exact on integers instead of floating point.
- The Brainfuck interpreter package is not part of this model; a standard semantics stands for it, with printed cells as characters. `is_bf` and error reporting are left out, and zlib is any pair of functions that undo each other.
- Weak memory ordering in the ring: atomics are sequentially consistent steps.
- HTTP handlers, clients, checker scenarios, the web interface and deployment files.
