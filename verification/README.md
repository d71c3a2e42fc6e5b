# A verified model of the uTLS handshake, record layer and session code

uTLS is a fork of Go's `crypto/tls` that lets a client control every byte of its ClientHello. This project
models its most intricate parts in Dafny and proves what they promise. Cryptographic primitives, X.509 and
HPKE are function-valued parameters with the usual laws (opening undoes sealing, XOR is an involution, a MAC is
a function of its input); nothing is axiomatised. `dafny verify dfyconfig.toml` checks the whole project.

- **Encrypted Client Hello** (`Wire`, `ClientHello`, `HelloContents`, `Ech`, `EchRoundTrip`, `EchAccept`, `HelloTruncation`,
  `EchBinder`, `EchSeal`, `EchOuterTypes`, `EchServer`, `EchEndToEnd`). A hello parses exactly when it is made of
  distinct extensions that each encode a content of their type. The client compresses its inner hello by referring to
  outer extensions; the server expands it from the raw outer bytes with a cursor that only moves forward.
  Both ways the client lists its outer extensions give references in the outer order. The server accepts
  exactly the inner hellos that meet a condition on the client's data, what it rebuilds does not depend on
  the payload or the binder bytes, and so the binder fixed before sealing passes its check: from the bytes
  of the outer hello, through parsing and trial decryption, to the binder.
- **Handshake** (`Certificate`, `CertificateReader`, `Handshake`, `HandshakeAgree`, `HandshakeRun`, `HandshakeJoint`,
  `HandshakeComplete`, `HandshakeTamper`, `HandshakeAuth`). Client and server of TLS 1.3 as a joint transition
  system over two FIFO channels. The two programs are written separately, each with its own way of feeding the transcript:
  bytes as received, re-marshalled messages, a Finished computed before it arrives. In every interleaving
  they agree wherever a transcript is used, and every run in which no one has failed can be finished. Under
  an adversary who may replace either channel's contents at any time, a Finished that one side sent and the
  other took in still makes them agree, or is a MAC collision; and a client that does not resume gets to its
  application keys only over a signature that verifies.
- **Downgrade protection** (`Versions`). Version choice and canaries across both endpoints, by the configured ranges.
- **Record layer** (`Bits`, `Padding`, `Nonce`, `Record`, `RecordRun`, `Writer`, `Reader`, `ReaderRuns`,
  `Transfer`). Protection in all cipher shapes over runs with key changes, constant-time padding removal, nonce
  uniqueness, fragmentation, the reader with its retry budget, and application data from the writer's loop to the
  reader's.
- **Session state** (`SessionState`, `TicketKeys`, `LruCache`). Ticket codec, key rotation over time, session cache.
- **Concurrency** (`Quic`, `WriteClose`). The QUIC hand-off and the Write/Close interlock in every interleaving.
- **ClientHello surgery** (`Psk`, `PskPatch`, `Extensions`). The pre-shared-key extension, in-place patching of its
  binder, shuffling around pinned extensions, splicing in the cookie.

Where an expected property is false of the code, the project gives the exact condition under which it holds
and inputs on which it fails:

- The associated data of the server equals the client's unless the sealed payload also occurs earlier in the
  outer hello, because the server zeroes the first occurrence (`EchServer.AadAgrees`). A hello whose GREASE
  extension carries the payload's bytes is sealed to the server and yet not opened by it
  (`EchEndToEnd.SealedButMissed`).
- Re-marshalling a parsed Certificate gives the received bytes only for the extensions this library writes
  itself (`Certificate.RemarshalExact`, `Certificate.UnknownExtensionIsLost`).
- `FakePreSharedKeyExtension.Write` restores identities beyond 2^16 bytes only while its wrapping counter
  happens to hold (`Psk.WriteReadsBack`, `Psk.OversizedIsLost`).
- Mutual exclusion in the QUIC hand-off holds except for a client with session events, whose session loading
  drops the error of a cancelled wait (`Quic.ExclusionExactly`, `Quic.ResumingClientRaces`).
- A nil `Put` of an absent key inserts a nil entry, although its documentation says it removes
  (`LruCache.NilPutExactly`).
- `ticketKeys` leaves the Config of a GetConfigForClient callback read-locked when that Config disables
  tickets (`TicketKeys.Config.ClientKeys`).
- Where either side's maximum is below TLS 1.2 there is no downgrade protection: the client can be brought to
  any lower version both support (`Versions.DowngradeExactly`, `Versions.OldPeersCanDowngrade`).
- The encoded inner hello is padded to a multiple of 32 bytes only when the padding for the name is one, because that
  padding is counted and not written (`Ech.PaddingRoundsUp`, `Ech.ShortNameMisaligned`).
- Padding removal differs from its plain meaning on payloads of 2^31 bytes and more, when bit 31 of the data
  length is set (`Padding.MatchesPlainExactly`, `Padding.LongPayloadDiffers`).

## Model

| member | source | states |
|---|---|---|
| `ClientHello.ParseExtensions` | handshake_messages.go:1011-1229 | the one-pass loop gives each field the value in the extension that carries it, and fails exactly when a type repeats, an extension is malformed or pre_shared_key is not last; what malformed means, type by type, is HelloContents.ExtOkExactly |
| `ClientHello.Unmarshal` | handshake_messages.go:970-1232 | the imperative parser computes the declarative parse of the whole message; which bytes parse is HelloContents.ParsesExactly |
| `HelloContents.ExtOkExactly` | handshake_messages.go:1026-1226 | for any bytes: an extension is accepted exactly when it is the encoding of a content of its type: names with at most one host, status request, non-empty lists of 16-bit numbers, of protocols or of octets, a cookie, key shares, flags without data, identities and binders in the last place; other types carry anything |
| `HelloContents.ParsesExactly` | handshake_messages.go:970-1232 | for any bytes: a hello parses exactly when it is composed of a front with whole cipher suites and distinct extensions that each encode a content, the pre-shared key last |
| `HelloContents.FieldsExactly` | handshake_messages.go:1027-1223 | the fields then hold the contents of the extensions that carry them |
| `HelloContents.AbsentFields` | handshake_messages.go:977-1010 | and are empty when there is none |
| `Ech.BuildOuterList` | handshake_messages.go:155-199 | ech_outer_extensions is the compressible part of the outer types, in order |
| `Ech.ResolveLoop` | ech.go:353-377 | the forward-only scan over the outer extensions resolves a reference list |
| `Ech.ExpandLoop` | ech.go:340-384 | the loop over the inner extensions replaces the reference and copies everything else |
| `Ech.ExtractRawExtensions` | ech.go:257-281 | the outer hello's extensions as raw bytes, or failure |
| `Ech.ReconstructInner` | ech.go:291-390 | the bytes of the expanded inner hello |
| `Ech.DecodeInnerClientHello` | ech.go:291-406 | expansion, parse and the two ECH checks together |
| `Ech.PaddingRoundsUp` | ech.go:218-234 | encoding, then fewer than 32 zeros: with the name padding of the source the length rounds up to a multiple of 32, and without it exactly when that padding is a multiple of 32 |
| `Ech.ShortNameMisaligned` | ech.go:225-233 | a name one byte short of the longest leaves the encoding one byte short |
| `EchRoundTrip.ResolvePicks` | ech.go:353-377 | on any in-order subsequence of distinct outer types the cursor finds every listed extension, and in order |
| `EchRoundTrip.ReconstructionExact` | ech.go:218-234 | decoding what was encoded rebuilds exactly the inner front, outer session ID, marker, name, listed outer bytes, inline versions when 43 is not listed, and the pre-shared key last |
| `EchRoundTrip.RebuiltFields` | handshake_messages.go:127-257 | the fields the server reads off the expanded hello, in terms of the inner hello and the outer extensions |
| `EchAccept.ParsedWritten` | handshake_messages.go:970-1232 | a written hello parses exactly when its extensions do, to the values written |
| `EchAccept.InnerHelloAccepted` | ech.go:291-406 | the server accepts an encoded inner hello if and only if marker, name, pre-shared key and version list meet a condition on the client's data, and what it then holds |
| `HelloTruncation.TruncationExact` | handshake_messages.go:618-636 | every parsed hello with binders is its truncation followed by the binder list, byte for byte |
| `EchBinder.EncodingLength` | u_conn.go:626-709 | binders of the same lengths change neither encodability nor length |
| `EchBinder.ExpandedPrefix` | handshake_server_tls13.go:422-440 | the expansion up to the binder list does not depend on the binders |
| `EchSeal.PayloadDoesNotMatter` | ech.go:291-406 | the server's answer depends on the outer hello only through session ID, types and listed data, not on the ECH payload |
| `EchSeal.BindersLength` | handshake_messages.go:618-623 | the loop that sizes the binder list |
| `EchSeal.FixBinder` | u_conn.go:626-709 | the pre-seal fix: decode against the outer hello, recompute the binder, re-encode |
| `EchSeal.FixedIsAccepted` | u_conn.go:626-709 | the fixed binder is a fixed point: same length, still accepted, and it passes the server's check |
| `EchOuterTypes.ListedIsSubseq` | handshake_messages.go:155-199 | what the inner hello refers to keeps the order of the list it is drawn from |
| `EchOuterTypes.ExtensionsList` | u_conn.go:514-530 | the list is the first two bytes each extension writes, zero for one that writes nothing or does not fit the buffer, without supported_versions |
| `EchOuterTypes.SlotsInOrder` | u_conn.go:514-551 | that list, whatever is filtered out of it, refers to the written extensions in order, although ECH, padding, name and outer pre-shared key are rewritten in between |
| `EchOuterTypes.SlotsExactly` | u_conn.go:514-551 | and to exactly the extensions of a compressible type that fit the buffer, are not supported_versions and are not filtered out |
| `EchOuterTypes.ExtractExtensionTypes` | ech.go:467-509 | the offset-driven scan, with all its early exits |
| `EchOuterTypes.ScanAgrees` | ech.go:467-509 | on every hello with sound framing the scan finds the parser's extension types |
| `EchOuterTypes.ScannedInOrder` | ech.go:430-438 | the list scanned from the hello before its ECH extension is computed refers in order to the extensions of the hello that carries it |
| `EchServer.OuterEchExtParses` | ech.go:413-422 | parsing the outer ECH extension reads back every field written |
| `EchServer.ParseEchExactly` | ech.go:612-657 | for any bytes: inner, invalid or outer with given fields exactly when they are one byte 1, start with a byte above 1, or start with what the writer writes for those fields |
| `EchServer.AnswersWithoutPayload` | ech.go:669-700 | the answers that need no payload: inner kept, illegal_parameter, decode_error, no keys, an unusable key |
| `EchServer.AadAgrees` | ech.go:408-411 | both sides authenticate the same bytes if and only if the payload has no earlier occurrence or is all zero |
| `EchServer.ProcessEchClientHello` | ech.go:669-738 | the loop over the keys computes the server's answer: alerts for bad extensions, keys and inner hellos, the outer hello kept, or the inner hello used |
| `EchServer.KeysDecide` | ech.go:689-737 | the first key that opens the payload decides; when none does, the outer hello stands |
| `EchEndToEnd.EchFieldParses` | ech.go:612-657 | the server reads configuration, suite, encapsulated key and payload out of the marshalled bytes of the outer hello |
| `EchEndToEnd.BothAads` | ech.go:443-456 | on the marshalled hellos: the server authenticates what the client sealed against exactly when it finds the payload in its place |
| `EchEndToEnd.PayloadOpens` | ech.go:424-465 | the server that receives the hello with the sealed payload in place of the zeros, and finds it in its place, rebuilds the inner hello from exactly what was sealed |
| `EchEndToEnd.PayloadMissed` | ech.go:689-737 | if the payload's bytes occur earlier no key opens it and the outer hello stands |
| `EchEndToEnd.SealedButMissed` | ech.go:408-411 | for every encoding below 12288 bytes there are a hello the client can marshal and a key such that the sealed payload is not opened |
| `EchEndToEnd.ScannedOfferAnswered` | ech.go:424-465 | the client of ech.go, list scanned from its own hello: the server uses exactly the acceptable inner hellos and refuses every other with illegal_parameter |
| `EchEndToEnd.ServerAcceptsBinder` | u_conn.go:537-716 | a UConn that resumes: from the bytes it sends, the server parses the outer hello, opens the payload with its key when it finds it in its place, rebuilds the inner hello and finds the binder fixed before sealing correct |
| `Certificate.CertReadsBack` | handshake_messages.go:2046-2159 | reading a written certificate list gives it back exactly when no stapled item is present but empty, whatever follows it |
| `Certificate.CertMsgRemarshals` | handshake_messages.go:2027-2099 | the receiver's message is the sender's without what was not asked for, and marshals to the bytes received |
| `Certificate.RemarshalExact` | handshake_messages.go:2083-2159 | for bytes from any sender: marshalling the parsed message reproduces them if and only if header and extensions are canonical |
| `Certificate.UnknownExtensionIsLost` | handshake_messages.go:2148-2151 | a leaf with any unknown extension is accepted and re-marshals to other bytes |
| `Certificate.CertVerifyReadsBack` | handshake_messages.go:2416-2443 | CertificateVerify round trip |
| `Certificate.FinishedReadsBack` | handshake_messages.go:2259-2274 | Finished round trip |
| `CertificateReader.ReadScts` | handshake_messages.go:2139-2147 | the loop over timestamps |
| `CertificateReader.AbsorbExtension` | handshake_messages.go:2126-2155 | one leaf extension: staples replace, timestamps accumulate, others are ignored |
| `CertificateReader.ReadEntryExts` | handshake_messages.go:2114-2156 | the loop over an entry's extensions, looked into for the leaf only |
| `CertificateReader.UnmarshalCertificate` | handshake_messages.go:2101-2159 | the nested loops compute the declarative reading, failing when any part does |
| `HandshakeAgree.AtStable` | handshake_client_tls13.go:51-204 | every use of a transcript belongs to one point in the message order; later messages do not change it |
| `HandshakeRun.ClientSendKeeps` | handshake_client_tls13.go:963-1051 | the client's sends follow the message order and keep its invariant |
| `HandshakeRun.ClientTakeKeeps` | handshake_client_tls13.go:720-961 | taking in the next message keeps the client's transcript, keys and log right; the only failure in an honest run is a refused certificate; what is taken in from anyone is HandshakeAuth.ClientTakesExactly |
| `HandshakeRun.ServerSendKeeps` | handshake_server_tls13.go:546-940 | the same for the server's sends, with the client Finished rolled in ahead of time |
| `HandshakeRun.ServerTakeKeeps` | handshake_server_tls13.go:1036-1148 | the same for what the server receives |
| `HandshakeRun.PrecomputeKeeps` | handshake_server_tls13.go:961-972 | the Finished the server computes in advance is the one the message order will bring |
| `HandshakeJoint.RunInv` | handshake_client_tls13.go:51-204 | in every reachable state one side's messages are a prefix of the other's and the difference is in flight |
| `HandshakeJoint.TranscriptsAgree` | handshake_server_tls13.go:728-978 | in every run, transcripts used by both sides for the same purpose are equal, with or without retry, pre-shared key and client certificates |
| `HandshakeJoint.BinderInputsAgree` | handshake_client_tls13.go:383-402 | client and server compute binders over the same bytes, also after a HelloRetryRequest |
| `HandshakeJoint.OnlyCertificatesFail` | handshake_client_tls13.go:914-935 | no run fails on a Finished, a signature, a second retry or an unexpected message |
| `HandshakeJoint.RefusedIsEmptyStaple` | handshake_messages.go:2127-2147 | a certificate this library wrote is refused exactly when it staples an empty item |
| `HandshakeJoint.CompletionAgrees` | handshake_server_tls13.go:1125-1148 | when both are done they have the same messages, transcript and derivations |
| `HandshakeJoint.FinishedAcceptedExactly` | handshake_client_tls13.go:925-935 | in any state and for any bytes, each side accepts exactly the Finished for its own keys and transcript |
| `HandshakeComplete.CompletionLogsEqual` | handshake_server_tls13.go:1125-1148 | when both are done they have made the same uses of the same transcripts, exactly those the exchanged messages call for |
| `HandshakeComplete.EveryRunCanComplete` | handshake_client_tls13.go:51-204 | from every reachable state without failure or refused certificate, steps exist that finish the handshake on both sides, with or without retry, pre-shared key and client certificate |
| `HandshakeComplete.ResumptionCompletes` | handshake_server_tls13.go:66-105 | a resumption can be carried through to the end without any certificate |
| `HandshakeComplete.FullHandshakeCompletes` | handshake_server_tls13.go:66-105 | a handshake with HelloRetryRequest, server certificate and client certificate runs to its end, where both logs are equal and hold all seven uses |
| `HandshakeTamper.TamperedSound` | handshake_client_tls13.go:51-204 | whatever the channels are made to hold, each side's logged keys are its own and the Finished the server expects is the one for its own keys and transcript |
| `HandshakeTamper.RunSettles` | handshake_server_tls13.go:66-105 | under tampering too, what a side has derived up to the server's Finished is never derived again, and a finished side does not change |
| `HandshakeTamper.ServerFinishedBinds` | handshake_client_tls13.go:914-935 | in every run with an adversary on both channels: a client that took in a Finished its server sent agrees with it on the transcripts for handshake keys, Finished and application keys, or they are a MAC collision |
| `HandshakeTamper.ClientFinishedBinds` | handshake_server_tls13.go:1125-1148 | likewise for a server that took in its client's Finished: handshake keys, client Finished and resumption secret |
| `HandshakeAuth.ClientVerifyExactly` | handshake_client_tls13.go:876-909 | in any state and for any bytes: the client takes in a CertificateVerify exactly when it carries a server signature that verifies over its own transcript |
| `HandshakeAuth.ServerVerifyExactly` | handshake_server_tls13.go:1080-1114 | likewise the server with a client signature |
| `HandshakeAuth.ClientTakesExactly` | handshake_client_tls13.go:720-961 | in any state and for any bytes: what the client goes on with, by message type and what the message must prove, and that it fails on everything else |
| `HandshakeAuth.ServerTakesExactly` | handshake_server_tls13.go:1036-1148 | the same for the server |
| `HandshakeAuth.TamperedVerified` | handshake_client_tls13.go:901-907 | in every run with an adversary on both channels, a logged signature was taken in and verifies over the logged transcript, on either side |
| `HandshakeAuth.ClientAuthenticates` | handshake_client_tls13.go:797-961 | in every such run, a client with application keys that does not resume took in a server signature that verifies, and the Finished it accepted covers it |
| `HandshakeAuth.ServerAuthenticates` | handshake_server_tls13.go:1036-1148 | a server that is done and asked for a certificate was shown an empty one or verified the client's signature |
| `HandshakeAuth.RetryBindsFirstHello` | handshake_client_tls13.go:281-288 | the message_hash message is well formed, and transcripts after a HelloRetryRequest are equal only if the hashes of the first hellos are |
| `Versions.SupportedVersions` | common.go:1202-1233 | the list is exactly the versions in the configured range, highest first: a set minimum and maximum are kept, a client without a minimum starts at TLS 1.2, one with ECH at TLS 1.3 |
| `Versions.MaxSupportedVersion` | common.go:1235-1241 | the first of the list is the maximum of the supported versions |
| `Versions.MutualVersion` | common.go:1288-1298 | the first of the peer's versions that is supported |
| `Versions.SupportedVersionsFromMax` | common.go:1246-1255 | the known versions up to a legacy maximum |
| `Versions.ServerAnswer` | handshake_server.go:172-239 | version choice and in-place placement of the canary |
| `Versions.ClientAccepts` | handshake_client.go:377-391 | version check and canary check |
| `Versions.ListedExactly` | common.go:1202-1233 | the same of the list itself, on the fields of Config alone |
| `Versions.AnswersInRange` | handshake_server.go:172-181 | the server answers exactly when some offered version is in its range, with the first one; for a legacy client with the highest |
| `Versions.AcceptsInRange` | handshake_client.go:377-391 | the client settles on the named version or none, never out of its range, and without a canary exactly when it is in range |
| `Versions.SettledInBothRanges` | handshake_client.go:377-391 | what both settle on is in both ranges and was offered |
| `Versions.UntamperedSettles` | handshake_server.go:229-239 | an untouched offer ends at the highest version in both ranges, unless the random bytes happen to end like a canary |
| `Versions.NoDowngrade` | handshake_client.go:384-391 | with both maxima at least TLS 1.2 no change of the offered versions makes the client accept less than the lower maximum |
| `Versions.DowngradeExactly` | handshake_server.go:229-239 | a downgrade is possible if and only if a maximum is below TLS 1.2 and a common lower version exists |
| `Versions.OldPeersCanDowngrade` | common.go:1202-1233 | two peers limited to TLS 1.1 can be brought to TLS 1.0 |
| `Padding.ExtractPadding` | conn.go:284-329 | the branch-free loop computes its test on machine words and bytes |
| `Padding.MatchesPlainExactly` | conn.go:284-329 | it has the plain meaning for every payload below 2^31 bytes, and beyond exactly when bit 31 does not interfere |
| `Padding.LongPayloadDiffers` | conn.go:289-292 | a validly padded payload of 2^31 + 1 bytes that is refused |
| `Nonce.IncSeq` | conn.go:243-255 | the in-place loop is the big-endian successor and stops instead of wrapping |
| `Nonce.SuccessorAdds` | conn.go:243-255 | the successor adds one, or all bytes were 255 |
| `Nonce.Aead.Call` | cipher_suites.go:467-510 | Seal and Open restore the mask and hand over the combination with the original mask |
| `Nonce.CombinedInjective` | cipher_suites.go:467-510 | different sequence numbers give different nonces |
| `Nonce.Epoch.Record` | conn.go:488-539 | all nonces handed to the AEAD in an epoch are distinct, and the counter counts the records |
| `Record.OneRecord` | conn.go:343-566 | in every cipher shape the receiver gets the type and payload written and stays in step |
| `Record.CbcMacCheck` | conn.go:540-554 | the receiver's padding and MAC check undoes the sender's MAC-then-pad |
| `Record.StreamAcceptsExactly` | conn.go:436-460 | from any sender: a stream record is accepted exactly when it opens to a payload followed by its MAC |
| `Record.CbcAcceptsExactly` | conn.go:436-460 | from any sender: a CBC plaintext is accepted exactly when it is payload, MAC and valid padding, or starts with the MAC of an empty payload that valid padding runs into |
| `Record.UnwrapExactly` | conn.go:412-430 | a TLS 1.3 plaintext is accepted exactly as content, a non-zero type and zeros, or empty |
| `Record.AeadAcceptsExactly` | conn.go:363-388 | from any sender: an AEAD record is accepted exactly when its body opens under its nonce and additional data, and in TLS 1.3 is application data of bounded size with a content type |
| `Record.CbcIv` | conn.go:260-275 | the IV of a CBC record is fresh and explicit from TLS 1.1 on, and the last block before it in TLS 1.0 |
| `Record.AcceptedCounts` | conn.go:343-465 | the sequence number moves exactly with an accepted record that is not a TLS 1.3 change_cipher_spec |
| `RecordRun.RunDelivers` | conn.go:218-255 | over any run with key changes the receiver puts out exactly what was written and ends in step |
| `RecordRun.SequenceNumbersEqual` | conn.go:243-255 | in a protected epoch both sequence numbers are equal and count the records |
| `RecordRun.NoncesDistinct` | conn.go:483-539 | over any run of fewer than 2^64 records with any changes of cipher, no AEAD is called twice with the same nonce |
| `RecordRun.UnderlyingDistinct` | cipher_suites.go:467-510 | nor does the underlying cipher meet one twice, whether the number is mixed in or appended |
| `RecordRun.PlaintextCountersDiffer` | conn.go:484-486 | a plaintext record moves the reader's counter and not the writer's |
| `RecordRun.ChangeIsTransparent` | conn.go:350-352 | a change_cipher_spec record may stand anywhere in a TLS 1.3 run; state and all other output are as without it |
| `RecordRun.HalfConn.ChangeCipher` | conn.go:218-240 | a new cipher starts at sequence number zero |
| `RecordRun.HalfConn.EncryptRecord` | conn.go:483-566 | encrypt in the four shapes, with its padding loop, is the specified record and next state |
| `RecordRun.HalfConn.StripPadding` | conn.go:412-430 | the scan for the content type from the end |
| `RecordRun.HalfConn.OpenAead` | conn.go:363-388 | the AEAD branch: nonce, additional data, failure |
| `RecordRun.HalfConn.OpenCbc` | conn.go:389-407 | the CBC branch: length check, IV, padding and MAC |
| `RecordRun.HalfConn.DecryptRecord` | conn.go:343-465 | decrypt, with its error cases, is the specified result and next state |
| `Writer.OutConn.MaxPayloadSizeForWrite` | conn.go:896-941 | the payload limit for the next record and the record counter |
| `Writer.EncryptSize` | conn.go:483-566 | the size of a record and its length field, in every shape |
| `Writer.PassesPeerCheck` | conn.go:676-680 | no record of at most 16384 bytes payload is refused for its size |
| `Writer.DynamicSize` | conn.go:909-940 | the k-th dynamically sized record occupies at most (k+1)*1208 bytes in every shape |
| `Writer.FirstRecordFilled` | conn.go:909-934 | the first dynamically sized record is the largest that fits 1208 bytes, in every shape |
| `Writer.DynamicGrowth` | conn.go:928-940 | the k-th is k + 1 times the first, up to 16384 |
| `Writer.OutConn.WriteOne` | conn.go:1003-1034 | one round of the loop |
| `Writer.OutConn.WriteRecords` | conn.go:975-1036 | the loop ends; its parts concatenate to the data, are non-empty and within the limit, and full-sized but for the last where sizing is not dynamic; the records are those of a sender run, within the peer's limit and the dynamic allowance |
| `Writer.DataArrives` | conn.go:975-1036 | a receiver in step opens the records to the same parts |
| `Reader.InConn.CheckHeader` | conn.go:642-680 | a header is accepted exactly as Reader.HeaderOk says; in numbers that is ReaderRuns.HeaderRefused |
| `Reader.InConn.ReadRecordOrCCS` | conn.go:599-785 | the recursive call with all its retries ends in the state and with the error of the function Read, whose answers record by record are the ReaderRuns rows |
| `Reader.InConn.OpenRecord` | conn.go:688-782 | decryption and what follows, on one record, as a function of the state |
| `Reader.InConn.RetryReadRecord` | conn.go:789-796 | one retry less, or the error of too many ignored records |
| `Reader.InConn.Process` | conn.go:694-782 | everything after decryption, with the reset of the retry count |
| `Reader.InConn.Dispatch` | conn.go:708-782 | the switch over the record type |
| `Reader.InConn.ProcessData` | conn.go:763-775 | application data: input after the handshake, a retry when empty, else an error |
| `Reader.InConn.ProcessAlert` | conn.go:717-738 | alerts: end, error, or a retry for warnings |
| `Reader.InConn.ProcessChange` | conn.go:740-761 | change_cipher_spec: error, a retry in a TLS 1.3 handshake, or the cipher change |
| `Reader.InConn.ChangeCipherSpec` | conn.go:218-230 | it goes through exactly with a pending cipher outside TLS 1.3 |
| `ReaderRuns.HandshakeRead` | conn.go:777-782 | a handshake record of 1 to 16384 bytes is appended to hand, one arrival is taken, the retry count is zero and there is no error |
| `ReaderRuns.DataRead` | conn.go:763-775 | application data after the handshake becomes input |
| `ReaderRuns.ChangeRead` | conn.go:740-761 | an expected change_cipher_spec with a pending cipher puts it in force from sequence number zero |
| `ReaderRuns.UselessRead` | conn.go:787-796 | a useless record within the budget of 32 gives the answer of the records after it, beyond it an error |
| `ReaderRuns.UselessRun` | conn.go:787-796 | so does any run of them; one too many ends the connection |
| `ReaderRuns.AlertRead` | conn.go:717-738 | close_notify is the end of the stream, a fatal alert the peer's error |
| `ReaderRuns.OtherwiseStops` | conn.go:694-782 | every other record is an error that changes nothing else |
| `ReaderRuns.HeaderRefused` | conn.go:642-680 | on the five bytes in numbers: when a whole record is refused for its header, and that it is opened otherwise |
| `ReaderRuns.OneThingHappens` | conn.go:599-785 | whatever arrives, exactly one thing happens to hand, input and cipher or an error leaves them alone, and no more is taken than the budget left and one |
| `Transfer.HeaderPasses` | conn.go:642-680 | every written record passes the reader's header checks and has the length it claims |
| `Transfer.ReadOne` | conn.go:1394-1405 | one Read on a record of a sender's run hands out the part it was written for and stays in step |
| `Transfer.ReadParts` | conn.go:1381-1422 | reading a sender's run record by record hands out its parts in order |
| `Transfer.WriteThenRead` | conn.go:975-1036 | what one side's loop writes, the other's reads: the parts arrive in order and concatenate to the data, for any cipher shape and split |
| `SessionState.ParseUndoesBytes` | ticket.go:108-289 | parsing an encoded session gives its normal form exactly when it is decodable, although every chain is written without its leaf |
| `SessionState.RoundTripExactly` | ticket.go:108-289 | the whole state comes back if and only if chains start at the leaf, stapled data is absent or non-empty, and omitted fields are unset |
| `SessionState.ParsesExactly` | ticket.go:182-289 | for any bytes: they parse to a state exactly when they are its fields in order around a certificate list that reads as its certificates, and the format can carry it |
| `SessionState.ReadItems` | ticket.go:201-207 | the loop over extra values |
| `SessionState.ReadChainList` | ticket.go:238-261 | the nested loop over verified chains |
| `SessionState.ParseSessionState` | ticket.go:182-289 | the cursor-driven parser computes the declarative parse |
| `TicketKeys.RotationKeepsOrder` | common.go:1105-1120 | a rotation keeps keys newest first and at least 24 hours apart, with all clock readings separate |
| `TicketKeys.RunKeeps` | common.go:1069-1122 | in every run under a non-decreasing clock: order, spacing, at most seven keys, and no key younger than seven days is dropped |
| `TicketKeys.ReturnedKeysAreYoung` | common.go:1096-1121 | no returned key is eight days old |
| `TicketKeys.EncryptTicket` | ticket.go:320-346 | the buffer filled region by region is the sealed ticket |
| `TicketKeys.DecryptTicket` | ticket.go:365-395 | the first key whose MAC matches decides |
| `TicketKeys.OpenedExactly` | ticket.go:365-395 | for any bytes: a ticket opens exactly when one of the keys seals something to it, and then to that |
| `TicketKeys.TicketStaysDecryptable` | ticket.go:320-395 | a ticket opens to its session for its key's first seven days, absent a cross-key MAC match |
| `TicketKeys.Config.InitLegacy` | common.go:1032-1058 | the deprecated key field becomes random, or the one explicit key |
| `TicketKeys.Config.ClientKeys` | common.go:1072-1084 | the answer of a client-specific Config, and that its read lock is given back unless tickets are disabled |
| `TicketKeys.Config.OwnKeys` | common.go:1086-1121 | the keys returned, with the invariant kept and young keys kept |
| `TicketKeys.Config.Rotate` | common.go:1105-1120 | the section under the exclusive lock |
| `TicketKeys.Config.KeepYoung` | common.go:1113-1118 | the loop that drops expired keys |
| `LruCache.OperationsKeep` | common.go:1680-1722 | keys stay distinct and within capacity |
| `LruCache.NilPutExactly` | common.go:1678-1700 | a nil Put removes exactly when the key is present, and otherwise inserts a nil entry |
| `LruCache.Survives` | common.go:1680-1722 | an entry survives every run that uses fewer other keys than the capacity |
| `LruCache.UseRenews` | common.go:1680-1722 | finding or putting an entry renews this, whatever came before |
| `LruCache.Cache.constructor` | common.go:1665-1676 | an empty cache with the default capacity for values below one |
| `LruCache.Cache.Get` | common.go:1713-1722 | map and list agree, the entry moves to the front |
| `LruCache.Cache.Put` | common.go:1680-1709 | map and list refine the recency list in all four cases |
| `LruCache.Cache.Recycle` | common.go:1702-1708 | a full Put reuses exactly the least recently used element |
| `WriteClose.RunInv` | conn.go:1206-1217 | in every interleaving activeCall is twice the writers in flight plus the closed bit, as an int32 |
| `WriteClose.CounterExact` | conn.go:1206-1217 | exactly so below 2^30 calls |
| `WriteClose.OneClosePasses` | conn.go:1425-1436 | at most one Close passes |
| `WriteClose.NoWriteAfterClose` | conn.go:1206-1217 | after it no Write enters |
| `WriteClose.RefusedOnlyAfterClose` | conn.go:1206-1217 | a call is refused only after a Close has passed |
| `WriteClose.WriteEnds` | conn.go:1206-1217 | a Write left alone is refused exactly when the closed bit is set, and else gives back what it took |
| `WriteClose.CloseEnds` | conn.go:1425-1436 | a Close left alone is refused exactly when the bit is set, and else sets it |
| `WriteClose.FourStepsEnd` | conn.go:1206-1217 | from any state four operations of its own end a call |
| `WriteClose.NotifiesExactly` | conn.go:1437-1452 | closeNotify is attempted exactly when the handshake is complete and the writers in flight at the swap were a multiple of 2^31 |
| `WriteClose.NotifiesOnlyWhenIdle` | conn.go:1437-1452 | below 2^31 calls, exactly when it is complete and there were none |
| `Quic.BytesConserved` | quic.go:257-292 | in every interleaving hand and then readbuf hold exactly the bytes of the calls of HandleData that got through, read off the steps, in order; outside of a call all of them are in hand, also when the goroutine exits or is cancelled |
| `Quic.ExclusionExactly` | quic.go:375-500 | in every interleaving application and goroutine never share the fields, if and only if the connection is not a client with session events |
| `Quic.ResumingClientRaces` | handshake_client.go:539-542 | a run of such a client in which the dropped error lets both at the fields |
| `Quic.OnlyCancellationRaces` | quic.go:417-429 | even there only after a cancellation |
| `Quic.NoDeadlock` | conn.go:1594-1616 | whenever the application waits, the goroutine or a channel can move |
| `Quic.SignalGetsThrough` | quic.go:257-292 | a goroutine that waits for a signal runs on with the data brought to it, or with none when woken |
| `Quic.ExitedGetsThrough` | quic.go:257-292 | once it is gone a call still ends and its data reaches hand |
| `Psk.AppendAll` | u_pre_shared_key.go:240-271 | one list loop of the encoder |
| `Psk.ReadPskIntoBytes` | u_pre_shared_key.go:218-274 | the buffer starts with the extension and is otherwise unchanged, or nothing is written |
| `Psk.FakePreSharedKey.Write` | u_pre_shared_key.go:423-492 | what is appended on success and on failure, for every input; the loops end because input is consumed |
| `Psk.FakePreSharedKey.WriteIdentities` | u_pre_shared_key.go:432-462 | the identities loop with its wrapping counter |
| `Psk.FakePreSharedKey.WriteBinders` | u_pre_shared_key.go:469-489 | the binders loop |
| `Psk.IdentitiesReadBack` | u_pre_shared_key.go:432-462 | identities come back if and only if the wrapped counter holds |
| `Psk.FittingHolds` | u_pre_shared_key.go:432-462 | it holds for every list that fits its length field |
| `Psk.WriteReadsBack` | u_pre_shared_key.go:423-492 | Write restores what was encoded if and only if counter and binder lengths hold |
| `Psk.OversizedIsLost` | u_pre_shared_key.go:427-438 | an identity of 65536 bytes is lost |
| `Psk.AcceptedIsEncoding` | u_pre_shared_key.go:423-492 | every accepted input starts with the encoding of what Write keeps |
| `PskPatch.PatchBuiltHello` | u_pre_shared_key.go:287-335 | in place: length and every byte before the binder list are kept and the MAC of that prefix follows; nothing changes for an empty extension, one that skips patching, or a binder of another shape |
| `PskPatch.PatchedHelloPasses` | u_pre_shared_key.go:287-335 | the patched hello parses, differs only in the binder, and passes the server's check on its own truncation |
| `Extensions.ShufflePermutable` | u_parrots.go:3730-3750 | in place, for every sequence of swaps: the compacted movable extensions permuted and put back |
| `Extensions.ShuffleIsPinnedPermutation` | u_parrots.go:3705-3750 | the result is a permutation with every pinned extension in its slot |
| `Extensions.MovableOfRefill` | u_parrots.go:3736-3749 | the movable extensions end up in the swapped order |
| `Extensions.CookieSpliceRange` | u_parrots.go:4318-4338 | from the first movable extension to behind the last |
| `Extensions.RetryExtensions` | handshake_client_tls13.go:423-471 | error without key_share; an existing cookie is replaced, otherwise it is spliced in |
| `Extensions.CookieBetweenPinnedRuns` | handshake_client_tls13.go:462-470 | the others keep their order and the cookie stays between the leading and trailing pinned runs |
| `Extensions.ShuffleKeepsRange` | u_parrots.go:4318-4338 | a shuffle does not move the range |
| `Extensions.PskStaysLastExactly` | u_parrots.go:4318-4338 | pre_shared_key stays last exactly when it is not alone |

## Left out

- Cryptographic primitives, HPKE, ML-KEM, X.509 and certificate verification: parameters with laws, or a predicate for what parses.
- Sockets, deadlines, key logging, randomness: parameters, or arbitrary choices of a step.
- The parsed ClientHello keeps version, random, session ID, suites, compression methods, extension types, server name, supported versions, pre-shared keys and the ECH payload; the other fields are checked while parsing but not stored.
- ClientHello.ParseExtensions: the fields other than those named above are checked and not returned.
- ClientHello.Unmarshal: the same.
- Versions.UntamperedSettles: not for random bytes that end like a canary, which the client cannot tell from one.
- EchServer.ProcessEchClientHello: whether a key's config and private key parse, and HPKE, are parameters of the key; the check of a second hello after a HelloRetryRequest is not modelled.
- Encoding without a list of outer extensions, `marshalExpandedECH`, the mode with the pre-shared key in the outer hello only, and transcripts under ECH.
- HandshakeJoint.TranscriptsAgree: without ECH, ALPS and certificate compression; the endpoints are values rather than objects updated in place; the secret from key exchange and pre-shared key is taken as common to both; session tickets after the handshake and early data are not modelled.
- HandshakeRun.ClientTakeKeeps: verification of the certificate chain, of the chosen parameters and of the server's extensions has no counterpart.
- HandshakeRun.ServerTakeKeeps: verification of the client's certificate chain and of the second hello against the first (illegalClientHelloChange) has no counterpart.
- HandshakeJoint.OnlyCertificatesFail: of the failures modelled; illegalClientHelloChange, certificate verification and parameter negotiation can end a handshake too and are not modelled.
- HandshakeComplete.EveryRunCanComplete: in the same model; it does not say that peers with incompatible configurations complete.
- HandshakeAuth.ClientVerifyExactly: one predicate stands for the checks of the signature algorithm and of the signature itself.
- HandshakeAuth.ServerVerifyExactly: the same.
- HandshakeTamper.ServerFinishedBinds: agreement is on transcripts; that a Finished comes from the peer at all is the MAC's promise and not proved.
- HandshakeJoint.BinderInputsAgree: the binder value itself is covered by EchSeal and PskPatch; a retry with early data offered is not modelled.
- Certificate selection, ALPN, key agreement and all of the TLS 1.2 handshake: single checks around library calls.
- Record.OneRecord: sequence numbers are unbounded here; the panic at 2^64 is in Nonce.IncSeq.
- RecordRun.HalfConn.ChangeCipher: the refusal without a pending cipher and in TLS 1.3 is Reader.InConn.ChangeCipherSpec.
- RecordRun.HalfConn.EncryptRecord: the record is built as a value; overlap of input and output buffers and a failing random source are not captured.
- Writer.OutConn.WriteOne: the network accepts every write.
- Writer.OutConn.WriteRecords: the network accepts every write; the change of cipher after a change_cipher_spec record is RecordRun.HalfConn.ChangeCipher.
- Transfer.ReadOne: the caller's buffer takes a whole record; post-handshake messages and the look for a waiting alert are not modelled.
- Reader.InConn.ReadRecordOrCCS: input arrives as whole records or failed reads; alerts sent are not recorded; after a lasting error the retry count is not stated.
- TicketKeys.Config.OwnKeys: one call without interference between its two locked sections; interleavings of calls are the runs of TicketKeys.RunKeeps.
- LruCache.Cache: the linked list of the standard library is a sequence of shared elements.
- Quic: events are not modelled one by one; exclusive access to them is.
- Extensions: an extension is its kind and an identity; the contents of key_share and cookie are not modelled.
- Parrot tables, JSON import, string tables: data without a hard property.
