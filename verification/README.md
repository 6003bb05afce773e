# Verified model of rust-spdm

A Dafny model of the core of rust-spdm, an implementation of SPDM (DSP0274) and of secured messages over SPDM
(DSP0277), with proofs about whole runs, refinements, and round trips. Check everything with
`dafny verify dfyconfig.toml`.

A Rust panic (a slice out of range, arithmetic overflow, a failed `assert`) is the explicit outcome `Abort`; error
codes are `Err`. Classes update their fields as the source does, and each of their methods is proved equal to a step
of a pure state machine (`View()`); the theorems are about those machines. Sizes come from `spdmlib/etc/config.json`.
What the machines compute is tied to bytes, bits and numbers by lemmas that name none of their definitions: the layout of
messages and headers, the nonce, the info strings, the transcripts, the capacities.

Hash, HKDF and AEAD are function values. The AEAD is ideal: `Backend.log` records every encryption, and decryption
succeeds only on a logged one (`Aead`). That the keys of a session never repeat is proved in
`KeyDerivation`, from the label set of the key schedule and an HKDF without collisions.

## The parts

- Secured sessions: `Aead`, `SecuredMessage` (one message), `Session` (counters, key update), `Channel` and `Delivery`
  (all runs of two endpoints with an adversary on the wire), `KeyUpdate` and `Replay` (when rolling back is safe),
  `MalformedAck` (a run of the repository that is not), `Lockstep` (two endpoints with an empty channel), `Transport`
  (MCTP, PCI DOE), `SecuredContext` (end to end), `KeyDerivation`.
- Transcripts: `ManagedBuffer`, `Transcript` (both builds as state machines), `TranscriptRefinement` (the build with
  running digests refines the build with raw buffers), `TranscriptContext` (the methods), `HashCtx` (the handle table
  and the ownership of its entries).
- `SessionTable`: the session array as an allocator of session ids. `StaleHalfId`: which half ids may be set up.
- Parsers and printers: `Bytes`, `Codec`, `Cuts` and `CertChain` (the certificate-chain walker), `CertForm` (which
  chains it accepts), `CertSplit` (the second chain splitter), `EcdsaDer`, `Measurement`, `CertPortion`.

## Where a property does not hold as one would expect

Each is stated with the exact condition under which it does hold.

- Rolling a key update back is safe for the sender if and only if nothing was sent past the backup it restores
  (`KeyUpdate.RollBackSafeIff`): after a creation, nothing under the new keys; after an earlier rollback, nothing since
  it; after a creation that failed, nothing since the attempt. Otherwise sending repeats a nonce.
- It is safe for the receiver if and only if nothing was accepted past the backup (`Replay.ReceiveRollBackSafeIff`).
  The requester's own handling of a malformed KEY_UPDATE_ACK breaks this: the acknowledgement is accepted under the new
  keys before they are rolled back, and the same bytes are accepted again after the next attempt
  (`MalformedAck.MalformedAckReplays`, and the run `MalformedAck.MalformedAckRun` from the end of the handshake). In-order
  delivery is therefore proved over runs whose rollbacks keep to the condition.
- An encryption can be made and then lost to a panic, when the buffer has room for the cipher text but not for the tag
  (`SecuredMessage.AttemptedIff`). The runs record it, and end for that endpoint.
- An exchange keeps two endpoints in lockstep unless the sender counts an attempt that the receiver does not: the
  message gets as far as the cipher and encryption fails, or it goes out and is too long for the receiver's buffer
  (`Lockstep.ExchangeKeepsLockstepIff`).
- The two transcript builds part ways when a B message arrives after a C message that it does not commute with
  (`TranscriptRefinement.AppendBHashesRawIff`, and the run `TranscriptRefinement.BAfterC`), or GET_DIGESTS arrives with
  C not empty (`TranscriptRefinement.GetDigestsHashesRawIff`, and the run `TranscriptRefinement.GetDigestsAfterC`).
- A message that the hash backend refuses while a digest is being seeded leaves a digest without all of its seed, and
  the next message is accepted on top of it (the run `TranscriptRefinement.SeedLost`). The builds agree all along a run
  if and only if this does not happen in it (`TranscriptRefinement.RunSim`).
- The transcript buffer B has room for the headers of one GET_CERTIFICATE exchange. A chain fetched in more portions fits
  if and only if their headers fit what the chain and the digests leave (`Transcript.CertificatesFitIff`).
- Setting a session up with a half id obtained before a teardown can make two live ids equal
  (`SessionTable.StaleHalfIdDuplicates`). Live ids stay distinct over every continuation if and only if the half id is
  the free slot's own or one the allocator never hands out (`StaleHalfId.SetupSafeIff`).
- The certificate-chain walker panics if and only if, after accepted certificates, one comes with a bad header or a bad
  field after accepted ones (`CertChain.CheckCertChainFormat`, `CertChain.BadCertIff`). A header is bad when it has more
  than eight length octets, or announces an end beyond 2^64 - 1; an AlgorithmIdentifier also when its identifier is
  accepted and it announces more than is left. The three kinds are `CertChain.NineOctetsPanic`,
  `CertChain.EightOctetsPanic` and `CertChain.PastTheEndPanics`; no chain below ten octets panics.
- A DER signature is readable if and only if it is shorter than 130 bytes, since the encoder writes one length octet
  and checks it against 255 (`EcdsaDer.ReadBack`, `EcdsaDer.LongNumbersNotRead`). Every P-256 and P-384 signature is.
- The collecting responder refuses a chain of exactly the configured maximum of 4096 bytes, because the remainder
  check is strict; it collects exactly the non-empty shorter ones (`CertPortion.CollectIs`).

## Model

| member | source | states |
|---|---|---|
| `Bytes.FromLeOfLe` | codec/src/codec.rs:142-258 | reading back a little-endian integer of any width gives the value written |
| `Bytes.LeOfFromLe` | codec/src/codec.rs:142-258 | and writing what was read gives the same bytes; the value fits the width |
| `Bytes.LeAt` | codec/src/codec.rs:142-258 | byte `i` written is byte `i` of the value, least significant first |
| `Bytes.FromLeReversed` | spdmlib/src/crypto/x509v3.rs:200-204 | octets copied in reverse into a little-endian integer have their big-endian value |
| `Bytes.XorCancels` | spdmlib/src/common/session.rs:947-954 | XOR with the same byte twice gives the original, so XOR with a salt byte is injective |
| `Bytes.XorBitwise` | spdmlib/src/common/session.rs:947-954 | every bit of the result is the exclusive or of the two bits at its place |
| `Codec.Reader.Take` | codec/src/codec.rs:27-35 | succeeds exactly when enough bytes are left, returns exactly the next ones, and moves nothing on failure |
| `Codec.Reader.ReadLe` | codec/src/codec.rs:147-256 | a fixed-width read is the little-endian value of the next bytes, or nothing changes |
| `Codec.Reader.ReadU8` | codec/src/codec.rs:132-140 | the next byte, or nothing changes |
| `Codec.Writer.ExtendFromSlice` | codec/src/codec.rs:68-78 | writes all of the slice at the cursor and nothing else, or nothing at all when it does not fit |
| `Codec.Writer.Push` | codec/src/codec.rs:80-87 | one byte at the cursor, or nothing |
| `Codec.Writer.EncodeWhole` | codec/src/codec.rs:151-157 | `u16` and `u64` are written whole or not at all |
| `Codec.Writer.EncodePushed` | codec/src/codec.rs:186-215 | `u24` and `u32` are written byte by byte: a short buffer is left filled to its end with the first bytes |
| `Codec.ReadBack` | codec/src/codec.rs:142-220 | an integer is read back from any surrounding buffer |
| `Aead.Cipher.Decrypt` | spdmlib/src/crypto/mod.rs:409-422 | ideal decryption: whatever is accepted was encrypted with this key, nonce and associated data |
| `Aead.DecryptLogged` | spdmlib/src/crypto/mod.rs:394-422 | what was encrypted is decrypted to the same plain text |
| `Aead.Backend.Encrypt` | spdmlib/src/crypto/mod.rs:394-407 | encryption logs its query exactly when it succeeds |
| `SecuredMessage.IvInjective` | spdmlib/src/common/session.rs:945-954 | under one salt, different 64-bit counters give different nonces |
| `SecuredMessage.NonceMeans` | spdmlib/src/common/session.rs:945-954 | the nonce bit by bit: the counter XORed into the first eight bytes of the salt, the other four untouched |
| `SecuredMessage.WireMeans` | spdmlib/src/common/session.rs:908-970 | a sent message byte by byte: session id, counter bytes, length, cipher text and tag, and what was encrypted with which associated data |
| `SecuredMessage.EncodeSucceeds` | spdmlib/src/common/session.rs:895-973 | exactly when encoding a message succeeds, and how long it then is |
| `SecuredMessage.EncodeFails` | spdmlib/src/common/session.rs:895-973 | which failures are errors and which: an exhausted counter, a failing cipher |
| `SecuredMessage.AttemptedIff` | spdmlib/src/common/session.rs:905-970 | which attempts encrypt: the successful ones, and exactly those panics where the cipher text fits the buffer and the tag does not |
| `SecuredMessage.ParseOfWire` | spdmlib/src/common/session.rs:990-1019 | parsing undoes assembling, whatever bytes follow the message |
| `SecuredMessage.ParseMeans` | spdmlib/src/common/session.rs:990-1019 | which bytes are well formed before decryption, and which length panics |
| `SecuredMessage.PayloadMeans` | spdmlib/src/common/session.rs:1045-1052 | how any decrypted text is read: its own length, the error and the panic |
| `SecuredMessage.PlainReadsBack` | spdmlib/src/common/session.rs:1045-1052 | the length field inside the plain text gives the message back, or a panic when the caller's buffer is too small |
| `SecuredMessage.DecodeOfEncode` | spdmlib/src/common/session.rs:895-1053 | decoding what was encoded at the same counter returns exactly the message, whatever padding follows |
| `SecuredMessage.DecodeAuthentic` | spdmlib/src/common/session.rs:975-1053 | an accepted message is the payload of a logged encryption under this key and this counter's nonce |
| `SecuredMessage.DecodeMeans` | spdmlib/src/common/session.rs:975-1053 | the outcome of decoding any bytes, step by step |
| `SecuredMessage.DecodeMonotone` | spdmlib/src/common/session.rs:975-1053 | a message accepted once stays acceptable at its key and counter, whatever is encrypted later |
| `Session.SpdmSession.Nonce` | spdmlib/src/common/session.rs:945-954 | the salt with the counter XORed in, byte by byte |
| `Session.SpdmSession.WriteCounter` | spdmlib/src/common/session.rs:920-927 | the loop writes the low bytes of the counter in order |
| `Session.SpdmSession.WriteAad` | spdmlib/src/common/session.rs:908-932 | the associated data is session id, counter bytes and length |
| `Session.SpdmSession.EncodeMsg` | spdmlib/src/common/session.rs:895-973 | fills the caller's buffer with the encoded message, or fails as the pure encoder does; the encryption made is logged even when the attempt then panics |
| `Session.SpdmSession.ReadCounter` | spdmlib/src/common/session.rs:996-1005 | the loop accepts exactly the expected counter bytes |
| `Session.SpdmSession.ReadMessage` | spdmlib/src/common/session.rs:990-1019 | reads exactly the clear part: session id, counter bytes, and a length that must fit |
| `Session.SpdmSession.DecodeMsg` | spdmlib/src/common/session.rs:975-1053 | fills the caller's buffer with the decoded message, or fails as the pure decoder does |
| `Session.SpdmSession.EncodeSpdmSecuredMessage` | spdmlib/src/common/session.rs:795-843 | the whole new session, buffer and log: which secret is used in which state, which counter moves when, and what was encrypted, panics included |
| `Session.SpdmSession.DecodeSpdmSecuredMessage` | spdmlib/src/common/session.rs:845-893 | the same for decoding: the receive counter moves on every attempt, accepted or not |
| `Session.SpdmSession.CreateDataSecretUpdate` | spdmlib/src/common/session.rs:572-683 | backs up and replaces the chosen directions, counter at zero, and what a failed derivation leaves behind |
| `Session.SpdmSession.ActivateDataSecretUpdate` | spdmlib/src/common/session.rs:685-720 | restores or forgets the backup of the chosen directions |
| `Session.SpdmSession.SetSessionState` | spdmlib/src/common/session.rs:296-298 | changes the state and nothing else |
| `Session.StepsKeepValid` | spdmlib/src/common/session.rs:572-893 | every operation keeps the session well formed, failed ones included |
| `Session.IdleSession` | spdmlib/src/common/session.rs:795-893 | outside handshake and established state nothing is sent, accepted or counted |
| `Session.AttemptMoves` | spdmlib/src/common/session.rs:795-893 | which keys an attempt uses in which state, and that it moves one counter and nothing else |
| `Session.UpdateMoves` | spdmlib/src/common/session.rs:572-720 | an update of both directions: new secrets, keys and zero counters, the old ones kept for a rollback; a commit clears the backup |
| `Channel.AttemptKeepsInv` | spdmlib/src/common/session.rs:805-893 | a counted attempt keeps all recorded uses of a direction strictly behind the counters |
| `Channel.CreateKeepsInv` | spdmlib/src/common/session.rs:585-683 | a creation, successful or failed half-way, keeps every use behind the counters of the keys in use and of the backup |
| `Channel.RollBackKeepsInv` | spdmlib/src/common/session.rs:685-720 | rolling back to a backup nothing was used past restores a counter above every use |
| `Channel.ApplyKeepsInv` | spdmlib/src/common/session.rs:572-893 | every step of an endpoint that has not panicked, rollbacks past a use excepted, keeps: counters match the records, records are ordered, encryptions are those of their place |
| `Delivery.FindSender` | spdmlib/src/common/session.rs:895-1053 | an encryption under a key of one direction was made by that direction's sender, at that place |
| `Delivery.AcceptedWasSent` | spdmlib/src/common/session.rs:845-1053 | whatever an endpoint accepts, from any bytes, was sent by its peer at the receiver's current epoch and counter |
| `Delivery.StepKeepsInv` | spdmlib/src/common/session.rs:572-1053 | authenticity of both directions, and that accepted bytes are those of a logged encryption, are kept by every such step of either endpoint and by the adversary |
| `Delivery.OrderedDelivery` | spdmlib/src/common/session.rs:795-1053 | after every run with drops, replays, reorderings, forgeries and failed key creations, in which no endpoint rolls back past a message it sent or accepted, the accepted messages are an in-order, duplicate-free subsequence of the sent ones, in both directions and across key updates |
| `Delivery.NonceFreshness` | spdmlib/src/common/session.rs:585-720 | over every such run no key and nonce is used for two encryptions by either endpoint, those lost to a panic included |
| `KeyUpdate.ProperNeverReuses` | spdmlib/src/common/session.rs:585-720 | no continuation of an endpoint without rollbacks past a use, whatever it receives meanwhile, reuses a nonce |
| `KeyUpdate.UsedRollBackReuses` | spdmlib/src/common/session.rs:685-720 | from a rollback past a sent message there is a continuation that reuses its nonce |
| `KeyUpdate.RollBackSafeIff` | spdmlib/src/common/session.rs:585-720 | with a cipher that encrypts whatever it is given: for an endpoint whose backup holds keys of its sending direction (after a creation, a failed one, or an earlier rollback), a rollback is followed by no nonce reuse, whatever comes next, if and only if nothing was sent past the backup |
| `Replay.ReplayRun` | spdmlib/src/requester/key_update_req.rs:38-111 | after a rollback past an accepted message there is a run in which the same bytes are accepted again at the same place |
| `Replay.ReceiveRollBackSafeIff` | spdmlib/src/requester/key_update_req.rs:38-111 | for an endpoint whose backup holds keys of its receiving direction, every continuation of a rollback delivers in order and without duplicates if and only if nothing was accepted past the backup |
| `MalformedAck.MalformedAckReplays` | spdmlib/src/requester/key_update_req.rs:25-111 | from any state: KEY_UPDATE and creation, an answer accepted under the new keys, the rollback, KEY_UPDATE and creation again: the same bytes are accepted a second time, at the same place |
| `MalformedAck.MalformedAckRun` | spdmlib/src/responder/key_update_rsp.rs:48-75 | the whole run from the end of the handshake, the responder accepting, committing and answering: proper up to the accepted answer, and out of order after the rollback and the next attempt |
| `Lockstep.ExchangeDelivers` | spdmlib/src/common/session.rs:795-893 | from equal sessions, one exchange delivers exactly what was sent and leaves the sessions equal |
| `Lockstep.LockstepRun` | spdmlib/src/common/session.rs:572-893 | over every run of delivering exchanges, updates and state changes, both ends agree on every secret, key, salt, counter and backup, and every exchange delivers |
| `Lockstep.ExchangeKeepsLockstepIff` | spdmlib/src/common/session.rs:795-893 | exactly when an exchange keeps lockstep, by guards on state, counter, sizes and the cipher that hold before it |
| `Lockstep.LongMessageAborts` | spdmlib/src/common/session.rs:1051-1052 | a message longer than the receiver's buffer panics there |
| `Transport.DoeLengthRoundTrip` | pcidoe_transport/src/header.rs:45-82 | the 18-bit double-word length round trip, including the full-size object written as 0 |
| `Transport.DoeHeaderReads` | pcidoe_transport/src/header.rs:45-82 | the fields of a DOE header are read back in front of any bytes |
| `Transport.DecapOfEncap` | pcidoe_transport/src/header.rs:87-144 | decap after encap gives payload and flag back: exactly over MCTP, with the aligning bytes over DOE |
| `Transport.EncapFitsIff` | mctp_transport/src/header.rs:54-78 | exactly when a message can be encapsulated, over either binding, and its size |
| `Transport.EncapsulatesMeans` | pcidoe_transport/src/header.rs:45-114 | the bytes of an encapsulated message over either binding |
| `Transport.DecapMeans` | pcidoe_transport/src/header.rs:116-144 | exactly which bytes are decapsulated, to what, and that all others are refused |
| `Transport.AppHeaderMeans` | mctp_transport/src/header.rs:109-162 | the application header of either binding, written and read, and every refusal |
| `Transport.DecapAppOfEncapApp` | mctp_transport/src/header.rs:109-162 | the application header is removed again, and tells whose message it was |
| `Transport.MctpEncap` | mctp_transport/src/header.rs:54-78 | the type byte 5 or 6 and the payload, exactly when one byte more than the payload fits; the rest of the buffer is untouched |
| `Transport.MctpDecap` | mctp_transport/src/header.rs:80-107 | the payload and the flag, for exactly the message types 5 and 6; a refusal writes nothing |
| `Transport.MctpEncapApp` | mctp_transport/src/header.rs:109-135 | the application type byte 1 or 5 and the payload, exactly when they fit |
| `Transport.MctpDecapApp` | mctp_transport/src/header.rs:137-162 | the payload after a known application type byte, and whether it is the application's |
| `Transport.DoeWriteHeader` | pcidoe_transport/src/header.rs:45-60 | writes the header, or panics on an over-long object |
| `Transport.DoeEncap` | pcidoe_transport/src/header.rs:87-114 | header, payload and alignment, exactly when the aligned object fits the buffer and 2^20 bytes; the padding keeps whatever the buffer held |
| `Transport.DoeReadHeader` | pcidoe_transport/src/header.rs:62-82 | reads the vendor, type and payload size of a header exactly when it is complete and its length is not 1 |
| `Transport.DoeDecap` | pcidoe_transport/src/header.rs:116-144 | the aligned payload and the flag for exactly the objects of vendor 1 and types 1 and 2 that are complete and fit; a refusal writes nothing |
| `SecuredContext.EncodeSecuredSucceedsIff` | spdmlib/src/common/mod.rs:959-985 | exactly when a message gets through the session layer of the sender, and its size then |
| `SecuredContext.SendsIff` | spdmlib/src/common/mod.rs:959-985 | a message reaches the transport exactly under guards on state, counter, message size and transport size |
| `SecuredContext.SecuredPayloadMeans` | spdmlib/src/common/mod.rs:1003-1016 | exactly which transport messages reach a session, and with which bytes |
| `SecuredContext.EndToEnd` | spdmlib/src/common/mod.rs:959-1034 | decoding what the peer encoded, over either transport and with its padding, returns the original bytes and leaves the receiver in the sender's session state |
| `SecuredContext.Relay` | spdmlib/src/common/mod.rs:959-1034 | from context to context through the real buffers: whatever is sendable arrives unchanged and leaves both sessions in the same state |
| `SecuredContext.SpdmContext.GetSessionViaId` | spdmlib/src/common/mod.rs:199-209 | the first session with the id, or there is none |
| `SecuredContext.SpdmContext.EncodeSecuredMessage` | spdmlib/src/common/mod.rs:959-985 | the addressed session makes its step, its message reaches the transport buffer, no other session changes, the log grows by exactly what was encrypted, whatever the outcome, and it succeeds exactly when sendable |
| `SecuredContext.SpdmContext.DecodeSecuredMessage` | spdmlib/src/common/mod.rs:1003-1034 | the same for receiving, with every failure of transport, lookup and session |
| `KeyDerivation.Binconcat` | spdmlib/src/common/key_schedule.rs:418-449 | the buffer begins with the length, "spdm" and the two version digits, label and context in order, and nothing else changes; exactly when it is refused or panics |
| `KeyDerivation.InfoFits` | spdmlib/src/common/key_schedule.rs:12-23 | the fixed buffers hold every label with a context of up to the largest hash |
| `KeyDerivation.SecretLabels` | spdmlib/src/common/key_schedule.rs:14-23 | the labels of the secrets, as text |
| `KeyDerivation.OtherLabels` | spdmlib/src/common/key_schedule.rs:14-23 | the other labels, as text |
| `KeyDerivation.SecretsMean` | spdmlib/src/common/key_schedule.rs:92-416 | each secret is the expansion of its parent with its own label, transcript hash and length, written out |
| `KeyDerivation.KeyIvMeans` | spdmlib/src/common/key_schedule.rs:202-265 | key and IV are expansions of the secret with the labels "key" and "iv" and the lengths asked for |
| `KeyDerivation.LabelsPrefixFree` | spdmlib/src/common/key_schedule.rs:14-23 | any two of the ten labels differ at a place both have |
| `KeyDerivation.BinConcatInjective` | spdmlib/src/common/key_schedule.rs:418-449 | equal info strings come from equal length, version, label and context |
| `KeyDerivation.SecretsDistinct` | spdmlib/src/common/key_schedule.rs:92-416 | no two places of the derivation tree, at any depth of key updates, have the same secret |
| `KeyDerivation.DerivedKeysDistinct` | spdmlib/src/common/key_schedule.rs:92-416 | the handshake and data keys of both directions and all epochs are pairwise distinct, which the run theorems of the channel rest on |
| `KeyDerivation.DerivedRuns` | spdmlib/src/common/session.rs:572-1053 | with derived keys, every run without rollbacks past a use has in-order authentic delivery both ways and no repeated nonce, nothing being assumed of the keys themselves |
| `KeyDerivation.DerivedScheduleValid` | spdmlib/src/common/key_schedule.rs:202-265 | derived IVs have the AEAD's size |
| `HashCtx.HashCtxTable.InsertToTable` | spdmlib_crypto_mbedtls/src/hash_impl.rs:78-83 | the entry is stored under the address of its box |
| `HashCtx.HashCtxTable.Init` | spdmlib_crypto_mbedtls/src/hash_impl.rs:32-45 | a new empty context, only for the supported algorithms |
| `HashCtx.HashCtxTable.Update` | spdmlib_crypto_mbedtls/src/hash_impl.rs:47-55 | feeds exactly the entry of the handle |
| `HashCtx.HashCtxTable.Finalize` | spdmlib_crypto_mbedtls/src/hash_impl.rs:57-66 | removes exactly that entry and returns its digest |
| `HashCtx.HashCtxTable.Dup` | spdmlib_crypto_mbedtls/src/hash_impl.rs:68-76 | a second entry with the same bytes fed |
| `HashCtx.SpdmHashCtx.Finalize` | spdmlib/src/crypto/mod.rs:104-111 | the handle is cleared first, so the drop that follows removes nothing more |
| `HashCtx.SpdmHashCtx.Drop` | spdmlib/src/crypto/mod.rs:79-85 | a held entry is removed once; handle 0 removes nothing |
| `HashCtx.StepRefines` | spdmlib/src/crypto/mod.rs:70-119 | every operation on handles does what the machine without handles does, returns its digest, and panics exactly when a clone has no context to copy or the backend fails |
| `HashCtx.OwnershipRun` | spdmlib/src/crypto/mod.rs:70-119 | over any interleaving of init, default, update, clone, finalize and drop without a panic, live handles and entries are in bijection and each finalize returns the hash of exactly its lineage's bytes |
| `HashCtx.TranscriptHashLeavesTable` | spdmlib/src/common/mod.rs:830-868 | hashing a running transcript by clone and finalize leaves the context and the table as they were |
| `ManagedBuffer.Buffer.AppendMessage` | spdmlib/src/common/mod.rs:1118-1125 | appends exactly when the message fits, otherwise nothing changes |
| `ManagedBuffer.Buffer.ResetMessage` | spdmlib/src/common/mod.rs:1126-1128 | empties the buffer |
| `TranscriptContext.FindSession` | spdmlib/src/common/mod.rs:199-209 | the loop finds the first session with the id |
| `Transcript.TranscriptMeans` | spdmlib/src/common/mod.rs:651-790 | TH written out for both roles: whose chain in which slot is hashed where, and every failure |
| `Transcript.ResetMeans` | spdmlib/src/common/mod.rs:923-952 | what each request code empties, in both builds |
| `Transcript.AppendFitsIff` | spdmlib/src/common/mod.rs:1084-1103 | exactly how much each buffer takes |
| `Transcript.RefusalsMean` | spdmlib/src/common/mod.rs:292-634 | how each append is refused in either build |
| `Transcript.ExchangesFit` | spdmlib/src/common/mod.rs:1084-1103 | the largest messages of CHALLENGE, measurement, KEY_EXCHANGE and FINISH fit their buffers |
| `Transcript.CertificatesFitIff` | spdmlib/src/requester/get_certificate_req.rs:151-152 | exactly when the messages of a fetched chain fit B |
| `TranscriptContext.RawContext.AppendAt` | spdmlib/src/common/mod.rs:1118-1125 | one of the fixed buffers grows by the message exactly when it fits; the others, and it otherwise, are unchanged |
| `TranscriptContext.RawContext.AppendMessageB` | spdmlib/src/common/mod.rs:292-300 | the fixed buffer of B, in place: the transcripts after it are those of the state machine that the refinement theorems are about, and no other buffer is touched |
| `TranscriptContext.RawContext.AppendMessageC` | spdmlib/src/common/mod.rs:336-344 | the fixed buffer of C, in place: the transcripts after it are those of the state machine that the refinement theorems are about, and no other buffer is touched |
| `TranscriptContext.RawContext.AppendMessageM` | spdmlib/src/common/mod.rs:380-401 | the fixed buffer M of the context or of the session found by the loop, in place, as in the state machine; an unknown session is an error |
| `TranscriptContext.RawContext.AppendMessageK` | spdmlib/src/common/mod.rs:495-506 | the fixed buffer K of the session found, in place, as in the state machine; an unknown session panics |
| `TranscriptContext.RawContext.AppendMessageF` | spdmlib/src/common/mod.rs:554-569 | the fixed buffer F of the session found, in place, as in the state machine; an unknown session panics |
| `TranscriptContext.RawContext.ResetMessageM` | spdmlib/src/common/mod.rs:463-476 | empties M of the context or of the named session |
| `TranscriptContext.RawContext.ResetBufferViaRequestCode` | spdmlib/src/common/mod.rs:923-952 | which buffers each request code empties |
| `TranscriptContext.RawContext.CalcTranscriptData` | spdmlib/src/common/mod.rs:651-790 | from the buffers of a session: A, the hash of the responder's chain, K, the hash of the requester's chain and F in order, each chain taken from where this role holds it, or the error for a missing one; the buffer it is assembled in is never full |
| `TranscriptContext.PartsFit` | spdmlib/src/common/mod.rs:1084-1107 | a certificate hash fits the room reserved for a chain once that room is at least a hash |
| `TranscriptContext.HashedContext.Feed` | spdmlib/src/common/mod.rs:301-322 | making, seeding and feeding a digest call by call, up to the call of the backend that fails |
| `TranscriptContext.HashedContext.AppendMessageB` | spdmlib/src/common/mod.rs:301-322 | seeds a missing M1/M2 digest with A, then feeds the message; what is left when a call of the backend fails |
| `TranscriptContext.HashedContext.AppendMessageC` | spdmlib/src/common/mod.rs:345-366 | seeds a missing M1/M2 digest with A, then feeds the message; what is left when a call of the backend fails |
| `TranscriptContext.HashedContext.AppendMessageM` | spdmlib/src/common/mod.rs:402-461 | seeds a missing L1/L2 digest by version, then feeds the message; what is left when a call of the backend fails |
| `TranscriptContext.HashedContext.AppendMessageK` | spdmlib/src/common/mod.rs:507-538 | seeds a missing TH digest with A and the certificate hash, then feeds the message; what is left when a call of the backend fails |
| `TranscriptContext.HashedContext.AppendMessageF` | spdmlib/src/common/mod.rs:570-634 | feeds the requester's certificate hash once before the first message; what is left when a call of the backend fails |
| `TranscriptContext.HashedContext.ResetMessageM` | spdmlib/src/common/mod.rs:477-493 | drops the L1/L2 digest of the context or of the named session |
| `TranscriptContext.HashedContext.ResetBufferViaRequestCode` | spdmlib/src/common/mod.rs:923-952 | which digests each request code drops |
| `TranscriptRefinement.StepSim` | spdmlib/src/common/mod.rs:292-648 | an operation, accepted or refused by the hashed build and then skipped in the raw one, keeps each live digest equal to the hash of the raw concatenation if and only if it does not cut a seed short |
| `TranscriptRefinement.RunSim` | spdmlib/src/common/mod.rs:292-648 | over every run from empty transcripts whose accepted messages have room and come in order, with backend calls failing anywhere: the builds agree at every point if and only if no seed was cut short |
| `TranscriptRefinement.MessageTranscripts` | spdmlib/src/common/mod.rs:292-493 | after every run that cut no seed short the M1/M2 and L1/L2 digests, of the context and of every session, have seen exactly A, B and C, and exactly M, with A in front from version 1.2 on |
| `TranscriptRefinement.ThTranscripts` | spdmlib/src/common/mod.rs:495-868 | after every run that cut no seed short both builds return the same TH hash for every session |
| `TranscriptRefinement.ThFits` | spdmlib/src/common/mod.rs:1084-1107 | over every run K and F stay within their capacities and the TH transcript of every session fits its buffer |
| `TranscriptRefinement.AppendBHashesRawIff` | spdmlib/src/common/mod.rs:292-322 | a B message after C is hashed in its raw place if and only if it commutes with the C messages |
| `TranscriptRefinement.BAfterC` | spdmlib/src/common/mod.rs:292-366 | a run from empty transcripts after which the digest has seen other bytes than A, B and C |
| `TranscriptRefinement.GetDigestsHashesRawIff` | spdmlib/src/common/mod.rs:324-378 | after GET_DIGESTS and a B message the builds hash the same if and only if there was no C message |
| `TranscriptRefinement.GetDigestsAfterC` | spdmlib/src/common/mod.rs:923-952 | a run from empty transcripts after which the raw build keeps C and the other has no digest |
| `TranscriptRefinement.SeedLost` | spdmlib/src/common/mod.rs:301-322 | a run from empty transcripts in which a B message is refused while seeding and the next is accepted: the digest has not seen A |
| `TranscriptRefinement.MIsPerSession` | spdmlib/src/common/mod.rs:380-493 | appending to or resetting M of one session leaves all others alone, in both builds |
| `TranscriptRefinement.PeersAgreeOnTh` | spdmlib/src/common/mod.rs:650-790 | with mirrored certificate chains both peers assemble the same TH bytes in every case, or both fail |
| `TranscriptRefinement.PeersAgreeOnHashedF` | spdmlib/src/common/mod.rs:570-634 | the same F messages lead requester and responder from the same digest to the same digest, or fail on both sides |
| `SessionTable.ScansAgree` | spdmlib/src/common/mod.rs:211-240 | the half-id scan and the free-slot scan pick the same slot, or both find none |
| `SessionTable.FreeIffOwnHalfZero` | spdmlib/src/common/mod.rs:229-240 | a slot is free exactly when its own half id is 0 |
| `SessionTable.StepKeepsInv` | spdmlib/src/common/session.rs:192-213 | opening and closing keep the invariant and never panic; opening fails only on a full table |
| `SessionTable.AllocatorRun` | spdmlib/src/common/mod.rs:199-240 | over all runs: slot `i` carries half id 0xFFFD - i, live ids are pairwise distinct, each is found in its slot, no panic |
| `SessionTable.StaleHalfIdDuplicates` | spdmlib/src/common/mod.rs:211-240 | a half id from before a teardown leads to two live sessions with one id |
| `StaleHalfId.SetupSafeIff` | spdmlib/src/common/session.rs:196-204 | after setting any non-zero half id up in the free slot, live ids stay distinct over every continuation if and only if it is that slot's own or one the allocator never hands out |
| `SessionTable.Table.GetNextHalfSessionId` | spdmlib/src/common/mod.rs:229-240 | the loop returns the half id of the first slot whose own half is 0 |
| `SessionTable.Table.GetSessionViaId` | spdmlib/src/common/mod.rs:199-213 | the loop finds the first slot with the id |
| `SessionTable.Table.OpenSession` | spdmlib/src/common/session.rs:196-204 | the free slot taken and no other touched, the id returned with the own half 0xFFFD - i and the peer's; the only error is a full table |
| `SessionTable.Table.CloseSession` | spdmlib/src/common/session.rs:206-213 | the session's slot freed and no other touched; an unknown id is an error |
| `CertChain.CheckLength` | spdmlib/src/crypto/x509v3.rs:189-207 | the loop computes the big-endian DER length; exactly when it fails or panics |
| `CertChain.DerLengthMeans` | spdmlib/src/crypto/x509v3.rs:189-207 | the length forms, the errors and the panic, by the first octet |
| `CertChain.CertIsTlv` | spdmlib/src/crypto/x509v3.rs:62-87 | an accepted certificate is one complete SEQUENCE element; it is the leaf exactly when it fills the rest |
| `CertChain.CertificatesAreTlvs` | spdmlib/src/crypto/x509v3.rs:39-87 | an accepted chain is exactly that many consecutive SEQUENCE elements |
| `CertChain.Walk` | spdmlib/src/crypto/x509v3.rs:47-57 | the loop makes progress, never passes the end, decides whether the input can be cut at all, and fails as the check does where it is stuck |
| `CertChain.CheckCertChainFormat` | spdmlib/src/crypto/x509v3.rs:39-58 | accepts exactly the chains that can be cut into certificates, the identifier being looked for in the last and in no other, and returns their number; panics exactly when a bad certificate comes after accepted ones |
| `CertChain.BadFieldIff` | spdmlib/src/crypto/x509v3.rs:89-207 | checking a field or stepping past it panics exactly when its header, or a header inside it after accepted fields, is bad |
| `CertChain.BadCertIff` | spdmlib/src/crypto/x509v3.rs:62-174 | checking a certificate panics exactly when its header is bad, or a field of it after accepted ones |
| `CertChain.CertificatesUnique` | spdmlib/src/crypto/x509v3.rs:39-58 | there is only one way to cut a chain |
| `CertChain.LongLengthPanics` | spdmlib/src/crypto/x509v3.rs:196-205 | a certificate whose length takes more than eight octets panics the check |
| `CertChain.NineOctetsPanic` | spdmlib/src/crypto/x509v3.rs:196-205 | a chain whose length octets overrun the buffer for them |
| `CertChain.EightOctetsPanic` | spdmlib/src/crypto/x509v3.rs:69-72 | a chain of ten octets that announces an end beyond 2^64 - 1 |
| `CertChain.PastTheEndPanics` | spdmlib/src/crypto/x509v3.rs:117-132 | a chain whose AlgorithmIdentifier announces more than is left |
| `CertChain.ShortChainsDoNotPanic` | spdmlib/src/crypto/x509v3.rs:39-207 | no chain of fewer than ten octets panics the walker |
| `CertForm.CertificateAccepted` | spdmlib/src/crypto/x509v3.rs:62-174 | a certificate of the standard form, with any extensions, is accepted whole, whatever follows it |
| `CertForm.LeafOidExact` | spdmlib/src/crypto/x509v3.rs:89-174 | as the leaf, such a certificate is accepted exactly for the algorithm identifier it names |
| `CertForm.LeafMeans` | spdmlib/src/crypto/x509v3.rs:62-174 | any bytes accepted as the leaf begin with a TBSCertificate that begins with the version 3 field and a serial number, name the wanted identifier right after those, and name it again right after the TBSCertificate ends |
| `CertForm.CertMeans` | spdmlib/src/crypto/x509v3.rs:62-87 | an accepted certificate is exactly a SEQUENCE of a TBSCertificate, an AlgorithmIdentifier and a signature, with nothing after them |
| `CertForm.TbsFieldsMean` | spdmlib/src/crypto/x509v3.rs:89-147 | behind the TBSCertificate header come version, serial number and five SEQUENCEs |
| `CertForm.OidIff` | spdmlib/src/crypto/x509v3.rs:228-247 | exactly which bytes are an accepted object identifier |
| `CertForm.VersionMeans` | spdmlib/src/crypto/x509v3.rs:209-226 | exactly the explicit version 3 field is accepted |
| `CertForm.ChainAccepted` | spdmlib/src/crypto/x509v3.rs:39-174 | every chain of such certificates whose leaf names the wanted identifier is accepted and cut between them |
| `CertSplit.GetCertFromCertChain` | spdmlib_crypto_mbedtls/src/cert_operation_impl.rs:17-44 | certificate `k` exactly when `k + 1` frames parse, the last one exactly when all of the input parses, nothing below -1, never a panic |
| `CertSplit.SplitterFollowsWalker` | spdmlib_crypto_mbedtls/src/cert_operation_impl.rs:17-44 | on a chain the walker accepts, certificate `k` is found exactly when all certificates up to it have two-octet lengths, and then at the walker's bounds |
| `CertSplit.LeafFollowsWalker` | spdmlib_crypto_mbedtls/src/cert_operation_impl.rs:17-44 | the leaf is found exactly on a non-empty chain all of whose certificates have two-octet lengths |
| `EcdsaDer.EccSignatureBinToDer` | spdmlib_crypto_mbedtls/src/asym_verify_impl.rs:104-168 | the buffer after the in-place encoding, every refusal, and the panic on an odd length |
| `EcdsaDer.LeadingZeros` | spdmlib_crypto_mbedtls/src/asym_verify_impl.rs:108-126 | the scan stops at the first non-zero octet |
| `EcdsaDer.ContentMeans` | spdmlib_crypto_mbedtls/src/asym_verify_impl.rs:108-131 | stripping zeros and padding a high bit gives the shortest non-negative form of the same number |
| `EcdsaDer.DerMeans` | spdmlib_crypto_mbedtls/src/asym_verify_impl.rs:130-168 | the bytes written: a SEQUENCE of two INTEGERs with one-octet lengths, in shortest form, of the two numbers |
| `EcdsaDer.ReadBack` | spdmlib_crypto_mbedtls/src/asym_verify_impl.rs:130-168 | a DER reader that insists on shortest lengths and numbers gets r and s back exactly when the length fits one octet |
| `EcdsaDer.LongNumbersNotRead` | spdmlib_crypto_mbedtls/src/asym_verify_impl.rs:140-148 | two numbers of 62 octets are written with a length no DER reader accepts |
| `EcdsaDer.CallerBufferSuffices` | spdmlib_crypto_mbedtls/src/asym_verify_impl.rs:38-45 | the caller's 104 bytes hold every signature of up to 96 bytes, and it is read back |
| `Measurement.Verify` | spdmlib/src/common/spdm_codec.rs:80-102 | the verifier answers or panics; it never reports an error |
| `Measurement.ReadBlockIff` | spdmlib/src/common/spdm_codec.rs:206-319 | exactly which bytes are a block, and what it says |
| `Measurement.BlockLayout` | spdmlib/src/common/spdm_codec.rs:182-295 | the bytes of an encoded block |
| `Measurement.ReadRecordIff` | spdmlib/src/common/spdm_codec.rs:130-157 | exactly which bytes are a record |
| `Measurement.AcceptedIff` | spdmlib/src/common/spdm_codec.rs:80-102 | a record is accepted exactly when its data is that many readable blocks with strictly increasing non-zero indices and nothing left over |
| `Measurement.NeverAborts` | spdmlib/src/common/spdm_codec.rs:250-256 | only a missing measurement hash algorithm panics |
| `Measurement.SplitsUnique` | spdmlib/src/common/spdm_codec.rs:80-102 | data splits into blocks in at most one way |
| `Measurement.BlockReadsBack` | spdmlib/src/common/spdm_codec.rs:181-320 | a well-formed block is read back, whatever follows it |
| `Measurement.RecordReadsBack` | spdmlib/src/common/spdm_codec.rs:80-158 | well-formed blocks with increasing indices number below 256, are accepted as a record, and read back as the same blocks |
| `Measurement.ReadInto` | spdmlib/src/common/spdm_codec.rs:258-261 | the loop fills the buffer with the next bytes, exactly when enough are left |
| `Measurement.SpdmReadDmtf` | spdmlib/src/common/spdm_codec.rs:206-268 | reads what the pure reader reads and moves by its length |
| `Measurement.SpdmReadBlock` | spdmlib/src/common/spdm_codec.rs:296-319 | reads what the pure reader reads and moves by its length |
| `Measurement.VerifyMeasurementRecord` | spdmlib/src/common/spdm_codec.rs:80-102 | the loop over the reader gives the verdict of the recursive definition |
| `Measurement.SpdmReadRecord` | spdmlib/src/common/spdm_codec.rs:130-157 | reads a record exactly when it is in bounds and verified |
| `Measurement.SpdmEncodeBlock` | spdmlib/src/common/spdm_codec.rs:182-295 | a block is written whole exactly when it fits |
| `Measurement.SpdmEncodeRecord` | spdmlib/src/common/spdm_codec.rs:105-129 | a record is written whole exactly when it fits |
| `CertPortion.Answer` | spdmlib/src/requester/encap_certificate.rs:98-136 | offset, portion and remainder add up to the chain size, the portion is those bytes, and as long as it may be |
| `CertPortion.Serve` | spdmlib/src/requester/encap_certificate.rs:59-136 | the clamping steps give that answer and no `u16` sum overflows |
| `CertPortion.Fetch` | spdmlib/src/requester/encap_certificate.rs:98-136 | a client asking any non-zero lengths at its running offset terminates with exactly the chain |
| `CertPortion.ReceiveKeepsInv` | spdmlib/src/responder/encap_get_certificate.rs:59-147 | whatever the peer answers, the collected bytes stay within the announced size, nothing underflows, and completion means the announced size |
| `CertPortion.ReceiveOkIff` | spdmlib/src/responder/encap_get_certificate.rs:59-147 | exactly which answers are taken, by slot, sizes and announced total, and which error the others give |
| `CertPortion.CollectIs` | spdmlib/src/responder/encap_get_certificate.rs:26-147 | the outcome of the whole exchange for every chain and slot: the chain itself, or which error |
| `CertPortion.Collector.Request` | spdmlib/src/responder/encap_get_certificate.rs:26-57 | starts a collection and asks at the size collected so far |
| `CertPortion.Collector.Handle` | spdmlib/src/responder/encap_get_certificate.rs:59-147 | the in-place buffer and announced size after any answer |

## Left out

- Foreign code, primitives and I/O: AEAD, hash and HKDF implementations, FFI, RNG, clocks and devices are parameters or absent.
- `reset_message_k` and `reset_message_f`: the two builds do different things there, so they are not part of the refinement runs.
- The sequence-number setters of a session: they overwrite counters, and the run theorems are about runs without them.
- Rollbacks with nothing to roll back to: after a commit, or before any creation, the backup holds no keys of the session, and a rollback then puts the default lane in use. The runs do not contain it.
- Counters at 2^64 - 1: encoding and decoding refuse them, and the increment that would overflow is an abort, as with overflow checks on; wrap-around of builds without the checks is not modelled.
- KeyDerivation.Binconcat: the subtraction that underflows on a buffer below ten bytes is an abort, as with overflow checks on.
- CertChain.BadCertIff: an end beyond 2^64 - 1 is an abort, as with overflow checks on; wrap-around is not modelled.
- Messages that the raw build has no room for: it refuses them and the hashed build has no such limit; the refinement runs do not contain them.
- The rest of the key schedule: master and export secrets, finished keys and the HMACs over them; whether the roots come from a DHE secret or a pre-shared key is a parameter.
- Session set-up beyond the id: `generate_handshake_secret` and `generate_data_secret` are taken as having stored the derived keys.
- Stronger certificate checks: the walker does not bound the TBS fields by the TBS length or an algorithm identifier by its own, and nothing here states that it does. The table from algorithms to identifiers is a parameter.
- `verify_spdm_certificate_chain` and the requester's own collection loop: `CertPortion` ends with the complete chain.
- Message headers, capability and version checks around the certificate handlers: of the request only slot, offset and length are modelled, and slot 0 holds a chain.
- Other message codecs, opaque data, capability flags and the encoding of status codes: long, but each is easy.
- The tdisp crate: not part of this model.
- Digest contexts in `TranscriptContext.HashedContext` are values, not handles; that handles behave as values is `HashCtx.OwnershipRun`.
- Locking of the global hash table: its operations are atomic steps.
- Secrecy, zeroization and timing: not functional properties.
