# Chatix protocol, verified

A Dafny model of the Chatix wire protocol library: the packet codec with its sequence numbers and
session encryption, the role-aware connection state machine, the payload parsers and printers, and
the key agreement, end-to-end encryption, transcript and safety-number code. Each file models one
source file or states one group of results about it. Check it with `dafny verify dfyconfig.toml`.

## How it is modelled

* **Bytes.** A byte is `u8`, a machine integer is a bounded `int`, and an `as u32` cast is truncation
  (`Bytes.AsU32`), so no length bound is needed to call `write_packet`. `usize` is 64 bits wide. A
  Rust string is its UTF-8 bytes, and `Utf8.Valid` holds of exactly the encodings of sequences of
  scalar values.
* **Codec.** `Codec.PacketCodec` is the stateful object of `src/codec.rs`, over a `Reader` with a
  cursor and a `Writer` that may fail part-way. `Codec.Read` and `Codec.Write` are one call on values;
  the class is proved to compute them, and the theorems about runs are about them. A read that runs
  out of input takes what is left, as a cursor's `read_exact` does.
* **Cryptography.** AES-256-GCM, X25519, ML-KEM-768, ML-DSA-65, HKDF and SHA-256 are function values.
  Their laws (section 6.1 of RFC 7748, FIPS 203, FIPS 204, sections 5.2.1.1, 7.1 and 7.2 of
  NIST SP 800-38D) are predicates that a lemma takes as hypotheses only where it needs them, and
  `Primitives.ToyIsLawful` shows that they can hold together. Channel safety uses an ideal AEAD
  instead: a text opens if and only if it is in the log of what has been sealed so far. That a hash
  does not collide, or a signature is no forgery, is only ever assumed of the inputs at hand.
* **Randomness** is a parameter: generated secrets, nonces and encapsulation coins are inputs.

## Main results

* `Channel.ChannelSafety`: for every run of an honest sender and every byte string the network feeds
  the receiver, what the receiver returns in session is, at every moment, what the sender sealed with
  some packets left out. `Channel.HonestDelivery` shows the guarantee is not empty.
* `FrameParser.ReadAcceptsExactly`: `read_packet` accepts an input if and only if it starts with a
  deliverable frame. `Reorder.AcceptedAreRecords`: of genuine frames in any order, exactly the strict
  left-to-right maxima are accepted.
* `Stream.StreamRoundTrip`: a list of writes, rekeyed at any points, is read back exactly if and only
  if every payload fits. `Duplex.RunRefines` and `Duplex.NothingLost`: two codecs and two byte streams
  are two queues of packets, under every interleaving.
* `Nonces.NonceNeverReused`, `Nonces.SequenceSpace`: no nonce is sealed under twice, and the space of
  sequence numbers is exactly 1 to 2^64 - 2.
* `TraceLanguage.AcceptedIffInLanguage`: the exact language of each role. `TwoParty.NeverRefused`,
  `TwoParty.EstablishedAgreement`, `TwoParty.RunEnds`, `TwoParty.NeverStuck`: an honest client and
  server, either of which may give up at any point, never refuse each other's packets, agree on being
  Established, and cannot get stuck.
* `Handshake.HandshakeThenTraffic`, `Pipeline.DeliveredExactly`: the hybrid handshake through its wire
  form and then traffic; one message from `encrypt_and_sign` through a relay to `verify_and_decrypt`,
  with the exact sizes for which it arrives.
* `Auth.TranscriptUnambiguous`, `Auth.AcceptedResponseIsForThisSession`: the unseparated transcript
  determines both hellos, so an accepted proof of identity was made in this session;
  `Auth.AcceptedServerHelloIsForThisHello` is the same for the server's.
* `E2e.EncryptedIsBlob`, `E2e.DecryptedExactly`, `Handshake.RespondIs`, `KeyDerivation.DerivationsSeparate`:
  what every derived key depends on, and that keys of different uses differ unless HKDF collides.
* `WireFormat`: the codes, ceilings and field offsets as numbers.

## Where the code and its documentation differ

* README.md:77-78 says that Error and Close move to Closing "from any state". `advance` does so, but
  `validate_incoming` refuses Close during the handshake and refuses Error in AwaitingClientHello. The
  model follows the code (`TraceLanguage.Ends`).
* src/crypto/safety_number.rs:80-83 promises that both users see the same number. That fails when the
  two identifiers are equal and the keys are not: `SafetyNumber.SameIdentifierIsNotSymmetric` gives
  such a pair, and `SafetyNumber.SymmetricExactly` says exactly when it holds.

## Model

| member | source | states |
|---|---|---|
| `Codec.PacketCodec.constructor` | src/codec.rs:41-47 | a new codec has no watermark, counter 1 and no session |
| `Codec.PacketCodec.EstablishSession` | src/codec.rs:53-58 | replaces the session keys and nothing else: counters go on |
| `Codec.PacketCodec.ReadPacket` | src/codec.rs:60-133 | computes `Read` on the unread input: same result, state and bytes left, and never seals |
| `Codec.PacketCodec.WritePacket` | src/codec.rs:135-178 | computes `Write`; a failing writer gets a prefix of the frame; every seal call is logged and no logged nonce repeats, failing calls included |
| `Codec.PacketCodec.ValidateSequence` | src/codec.rs:180-188 | accepts exactly the numbers above the watermark, and then moves it |
| `Codec.WriteFrame` | src/codec.rs:171-177 | the writer gets header and payload, or as much as it has room for and an I/O error |
| `Codec.Reader.ReadExact` | src/codec.rs:64-107 | takes exactly n bytes, or all there are and fails |
| `Codec.NonceIsSequence` | src/codec.rs:197-205 | the 12 nonce bytes are the sequence number as one big-endian integer |
| `Codec.SeqNonceInjective` | src/codec.rs:201-205 | different sequence numbers give different nonces |
| `Codec.UniqueBelowExtends` | src/codec.rs:145-169 | the seal call of one more write keeps all nonces distinct |
| `Codec.SealCallsAreAll` | src/codec.rs:151-169 | a write depends on the AEAD's seal only through the logged call, so the log misses none |
| `FrameParser.ReadAcceptsExactly` | src/codec.rs:60-133 | a packet is returned iff the input starts with a frame that delivers it: known type, within its ceiling, above the watermark, encrypted iff in session and then opening under the inbound key; exactly that frame is consumed |
| `FrameParser.ReadOfFrame` | src/codec.rs:60-133 | a deliverable frame is read as its packet, whatever follows |
| `FrameParser.FrameOfRead` | src/codec.rs:60-133 | an accepted input starts with a printed frame that delivers the packet |
| `FrameParser.ReadOfStale` | src/codec.rs:102-107 | a genuine frame at or below the watermark is a SequenceViolation, its payload unread, the codec unchanged |
| `FrameParser.ReadOfOversize` | src/codec.rs:88-100 | a frame over its type's ceiling is PayloadTooLarge with its size, the codec unchanged |
| `FrameParser.DeliveredShape` | src/codec.rs:83-132 | every packet returned has a known type, its true plaintext length within that type's limit, ENCRYPTED iff in session, and consumed 24 bytes plus its wire length |
| `FrameParser.ReadFrames` | src/codec.rs:60-133 | every call: the watermark moves exactly on the header bytes `Moves` names (valid header, ENCRYPTED if in session, known code, length within the ceiling, number above the watermark), before the payload is read or opened and so also for an ENCRYPTED frame before any session; then the whole payload is consumed, Ok or not, or an I/O error if it is not all there; otherwise the header alone is consumed and the codec unchanged |
| `FrameParser.ChecksAreOnBytes` | src/header.rs:48-84 | the checks before the watermark pass for exactly the header bytes that `Moves` names, constants as literals |
| `FrameParser.ReadOutcome` | src/codec.rs:104-132 | what a call that took a whole payload returns, from the bytes: the payload, what it opens to under nonce and associated data taken from the header, or CryptoError |
| `FrameParser.RefusalReason` | src/codec.rs:67-107 | which error refuses a header: the first fault in the source's order, read off the bytes |
| `FrameParser.ReadKeeps` | src/codec.rs:60-133 | the watermark never falls, counter and session stay, and anything but an I/O error takes at least 24 bytes |
| `FrameParser.UnwrapDelivers` | src/codec.rs:109-132 | a payload that unwraps under a checked header is the one its frame delivers |
| `FrameParser.DrainEnds` | src/codec.rs:60-133 | reading until the input runs out ends within a 24th of its bytes |
| `FrameParser.DrainAscends` | src/codec.rs:180-188 | packets drained from any bytes at all have strictly increasing sequence numbers above the watermark |
| `Nonces.NonceNeverReused` | src/codec.rs:145-169 | across any run of writes and rekeyings, even to the same key, no two seals share a nonce |
| `Nonces.SequenceSpace` | src/codec.rs:145-149 | the n-th write takes number n for n up to 2^64 - 2; every later write fails and leaves the codec unchanged |
| `Nonces.CounterAfter` | src/codec.rs:145-149 | the counter after any run is one more than the writes made, up to its maximum |
| `Stream.FrameRoundTrip` | src/codec.rs:60-178 | a written frame that fits is read back with plaintext length and the sender's number |
| `Stream.MisfitIsLost` | src/codec.rs:60-178 | a frame over its type's limit, or marked ENCRYPTED with no session, is never read back as written, even when its length wraps |
| `Stream.StreamRoundTrip` | src/codec.rs:60-178 | any list of writes with rekeying at any points is read back exactly, with nothing left, iff every write fits |
| `Reorder.AcceptedAreRecords` | src/codec.rs:102-107 | of genuine frames in any order, with loss and repeats, exactly the strict left-to-right maxima are returned, intact; the others are SequenceViolation |
| `Reorder.WatermarkIsMaximum` | src/codec.rs:180-188 | the watermark is the greatest number seen |
| `Reorder.WrittenIsGenuine` | src/codec.rs:135-178 | what a paired sender writes is a genuine frame |
| `Channel.ChannelSafety` | src/codec.rs:60-189 | packets returned in session are an order-preserving, duplicate-free selection of those sealed, equal in every field and marked ENCRYPTED, for any network and an ideal AEAD |
| `Channel.DeliveredWasSent` | src/codec.rs:109-132 | whatever the bytes, a packet delivered in session is one the sender sealed |
| `Channel.StepKeepsInv` | src/codec.rs:53-178 | every step of sender, receiver or outsider keeps the channel's invariant |
| `Channel.HonestDelivery` | src/codec.rs:60-178 | what the sender writes in session and the network passes on is delivered |
| `Channel.SealedOpens` | src/codec.rs:201-226 | nonce and associated data tie a sealed text to one packet's plaintext |
| `Duplex.StepRefines` | src/codec.rs:60-178 | each write or read at either end does to the bytes what it does to the queues |
| `Duplex.RunRefines` | src/codec.rs:60-178 | under every interleaving each reader gets what two queues of packets would give it |
| `Duplex.NothingLost` | src/codec.rs:60-178 | what one side sent is what the other has read followed by what is still in flight |
| `Header.ToBytes` | src/header.rs:35-46 | the buffer holds the printed header |
| `Header.PrintFields` | src/header.rs:35-46 | every field stands at its documented offset, integers big-endian |
| `Header.FromPrint` | src/header.rs:35-62 | reading inverts printing for every header |
| `Header.PrintFrom` | src/header.rs:35-62 | printing inverts reading for every 24 bytes |
| `Header.ValidIffNew` | src/header.rs:22-84 | the buffers that validate are exactly those `new` prints with a length of at most 1 MiB |
| `PacketType.CodeRoundTrip` | src/packet_type.rs:56-100 | codes and types correspond one to one |
| `ConnectionState.RunConcat` | src/connection_state.rs:49-156 | a run on a trace is a run on its parts |
| `TraceLanguage.AcceptedIffInLanguage` | src/connection_state.rs:37-156 | a trace is accepted iff it is a prefix of the role's handshake and then data, with at most one last packet of the kinds allowed there; and it ends in the state that says |
| `TraceLanguage.OpenStep` | src/connection_state.rs:49-156 | one more packet is accepted exactly when it continues or ends the trace |
| `TraceLanguage.EstablishedStep` | src/connection_state.rs:92-122 | Established accepts exactly the types listed by name for the role, Close and Error |
| `TraceLanguage.EstablishedTakes` | src/packet_type.rs:184-223 | the types accepted once Established, by direction and state, are the ones listed by name for each role |
| `TraceLanguage.EstablishedMeansHandshake` | src/connection_state.rs:68-156 | Established only after the whole handshake, in order and first |
| `TraceLanguage.AcceptedPrefix` | src/connection_state.rs:49-156 | every prefix of an accepted trace is accepted |
| `TraceLanguage.StepClimbs` | src/connection_state.rs:68-156 | an accepted packet raises the rank unless it is data in Established; roles keep to their own states |
| `TraceLanguage.RunClimbs` | src/connection_state.rs:68-156 | along every accepted run the rank never falls, stays only for data, bounds the rest of the trace, and nothing follows Closing |
| `TwoParty.StepKeepsInv` | src/connection_state.rs:37-156 | each side's sent messages stay a trace its peer accepts, and each side has heard what its own messages presuppose |
| `TwoParty.NeverRefused` | README.md:61-81 | no interleaving makes either honest side refuse a packet |
| `TwoParty.EstablishedAgreement` | README.md:61-99 | an Established client has a server past AwaitingAuth, and both handshakes were sent in full |
| `TwoParty.StepProgresses` | README.md:61-81 | every step that is not data raises the progress, and data leaves it |
| `TwoParty.RunEnds` | README.md:61-81 | a run of any length makes at most 18 steps that are not data |
| `TwoParty.NeverStuck` | README.md:61-81 | until both sides are Established, Closing or have given up, a step that is progress is enabled |
| `Utf8.ValidExactly` | src/payloads/common.rs:35-37 | a string is valid iff it encodes some sequence of Unicode scalar values |
| `Common.AppendSizedString` | src/payloads/common.rs:2-13 | builds the length-prefixed string, or fails over 65535 bytes |
| `Common.StringRoundTrip` | src/payloads/common.rs:2-40 | a sized string is read back from the front of any input |
| `Common.StringCanonical` | src/payloads/common.rs:15-40 | what is read as a sized string is what it prints |
| `Common.StringUnambiguous` | src/payloads/common.rs:2-40 | a sized string determines where it ends |
| `Common.AppendSizedBytes` | src/payloads/common.rs:43-52 | builds length-prefixed bytes, or fails over 2^32 - 1 |
| `Common.BytesRoundTrip` | src/payloads/common.rs:43-70 | sized bytes are read back from the front of any input |
| `Common.BytesCanonical` | src/payloads/common.rs:55-70 | what is read as sized bytes is what they print |
| `Common.BytesUnambiguous` | src/payloads/common.rs:43-70 | sized bytes determine where they end |
| `HelloPayloads.WriteClientHello` | src/payloads/hello_payloads.rs:20-27 | appends the fields as the encoding says |
| `HelloPayloads.WriteServerHello` | src/payloads/hello_payloads.rs:81-89 | appends the fields as the encoding says |
| `HelloPayloads.ClientHelloRoundTrip` | src/payloads/hello_payloads.rs:20-54 | encodes iff the id is at most 65535 bytes, and decoding inverts encoding |
| `HelloPayloads.ClientHelloCanonical` | src/payloads/hello_payloads.rs:29-54 | bytes that decode are exactly what their value encodes to |
| `HelloPayloads.ClientHelloUnambiguous` | src/payloads/hello_payloads.rs:20-54 | no encoding is a proper prefix of another: value and remainder are determined |
| `HelloPayloads.ServerHelloRoundTrip` | src/payloads/hello_payloads.rs:81-122 | as for ClientHello |
| `HelloPayloads.ServerHelloCanonical` | src/payloads/hello_payloads.rs:91-122 | as for ClientHello |
| `HelloPayloads.ServerHelloUnambiguous` | src/payloads/hello_payloads.rs:81-122 | as for ClientHello |
| `MessagePayloads.WriteSendMessage` | src/payloads/message_payloads.rs:15-25 | appends the fields as the encoding says |
| `MessagePayloads.WriteDeliverMessage` | src/payloads/message_payloads.rs:72-82 | appends the fields as the encoding says |
| `MessagePayloads.WriteQueued` | src/payloads/queue_payloads.rs:37-47 | appends the fields as the encoding says |
| `MessagePayloads.SendMessageRoundTrip` | src/payloads/message_payloads.rs:15-60 | encodes iff both lengths fit their prefixes, to 14 bytes more than the fields, and decoding inverts encoding |
| `MessagePayloads.SendMessageCanonical` | src/payloads/message_payloads.rs:27-60 | bytes that decode are exactly what their value encodes to |
| `MessagePayloads.SendMessageUnambiguous` | src/payloads/message_payloads.rs:15-60 | value and remainder are determined |
| `MessagePayloads.DeliverMessageRoundTrip` | src/payloads/message_payloads.rs:72-117 | decoding inverts encoding |
| `MessagePayloads.DeliverMessageCanonical` | src/payloads/message_payloads.rs:84-117 | bytes that decode are exactly what their value encodes to |
| `MessagePayloads.DeliverMessageUnambiguous` | src/payloads/message_payloads.rs:72-117 | value and remainder are determined |
| `MessagePayloads.QueuedRoundTrip` | src/payloads/queue_payloads.rs:37-89 | encodes iff both lengths fit, to 22 bytes more than the fields, and decoding inverts encoding |
| `MessagePayloads.QueuedCanonical` | src/payloads/queue_payloads.rs:49-89 | bytes that decode are exactly what their value encodes to |
| `MessagePayloads.QueuedUnambiguous` | src/payloads/queue_payloads.rs:37-89 | value and remainder are determined |
| `MessagePayloads.StatusUpdateBijective` | src/payloads/message_payloads.rs:132-176 | a status update decodes from its encoding and from nothing else |
| `AuthPayloads.WriteAuthResponse` | src/payloads/auth_payloads.rs:50-57 | appends the fields as the encoding says |
| `AuthPayloads.AuthResponseRoundTrip` | src/payloads/auth_payloads.rs:50-84 | decoding inverts encoding |
| `AuthPayloads.AuthResponseCanonical` | src/payloads/auth_payloads.rs:59-84 | bytes that decode are exactly what their value encodes to |
| `AuthPayloads.AuthResponseUnambiguous` | src/payloads/auth_payloads.rs:50-84 | value and remainder are determined |
| `E2eKeyPayloads.AppendKey` | src/payloads/e2e_key_payloads.rs:13-17 | appends the three key fields |
| `E2eKeyPayloads.WriteKeyResponse` | src/payloads/e2e_key_payloads.rs:154-164 | appends name, status and, when found, the key |
| `E2eKeyPayloads.PublishBijective` | src/payloads/e2e_key_payloads.rs:61-71 | a bundle decodes from its encoding and from nothing else |
| `E2eKeyPayloads.KeyResponseRoundTrip` | src/payloads/e2e_key_payloads.rs:154-197 | decoding inverts encoding, with and without a key |
| `E2eKeyPayloads.KeyResponseCanonical` | src/payloads/e2e_key_payloads.rs:166-197 | bytes that decode are exactly what their value encodes to |
| `E2eKeyPayloads.KeyResponseUnambiguous` | src/payloads/e2e_key_payloads.rs:154-197 | value and remainder are determined: the status byte says whether a key follows |
| `KeyDerivation.InfoInjective` | src/crypto/session.rs:150-188 | the HKDF info determines both public keys, the ciphertext and the purpose; the three families are disjoint |
| `KeyDerivation.DerivationsSeparate` | src/crypto/e2e.rs:278-302 | two derivations, of either layer, give one key iff they are the same derivation, unless HKDF collides on their two inputs; the operations below are proved to return these keys |
| `KeyDerivation.DeriveIs` | src/crypto/session.rs:150-188 | what the code derives is HKDF of both secrets, with both public keys, the ciphertext and the label's literal bytes as info |
| `Handshake.ClientHandshakeState.constructor` | src/crypto/session.rs:53-73 | public material belongs to the secrets, and the decapsulation key is present |
| `Handshake.ClientHandshakeState.DeriveSessionKeys` | src/crypto/session.rs:76-96 | derives the client's keys and uses up the decapsulation key; without it, CryptoError |
| `Handshake.DerivedAreSessionKeys` | src/crypto/session.rs:166-196 | the two keys are the c2s and the s2c derivation from the same secrets and public material |
| `Handshake.RespondIs` | src/crypto/session.rs:111-144 | the server's answer: its public key, the ciphertext, and the two derivations from its own secrets; CryptoError for a bad encapsulation key |
| `Handshake.SessionKeysDiffer` | src/crypto/session.rs:162-196 | the two directions never share a key, unless HKDF collides on their two inputs |
| `Handshake.RoleKeys` | src/codec.rs:18-21 | the client sends under the client-to-server key, the server under the other; counters go on |
| `Handshake.HandshakeAgrees` | src/crypto/session.rs:53-196 | through the wire form of both hellos, client and server derive the same two keys |
| `Handshake.HandshakeThenTraffic` | src/codec.rs:18-58 | with the keys assigned by role, every interleaving in both directions behaves as two queues, and each side reads a prefix of what the other sent |
| `E2e.EncryptAndSign` | src/crypto/e2e.rs:149-199 | the blob, field by field: public key, ciphertext, nonce, the plaintext sealed under the content key of both secrets with no associated data, and a signature on all of it; CryptoError where a primitive fails |
| `E2e.VerifyAndDecrypt` | src/crypto/e2e.rs:206-270 | Ok exactly as `Opens` says of the bytes, otherwise CryptoError |
| `E2e.EncryptedIsBlob` | src/crypto/e2e.rs:155-198 | the content key is HKDF of both secrets with both public keys, the ciphertext and the literal label, and the text is the plaintext sealed under it |
| `E2e.DecryptedExactly` | src/crypto/e2e.rs:212-269 | a blob decrypts to a plaintext iff it is long enough, the signature on all but its last 3309 bytes verifies, and the text opens to it under that key |
| `E2e.ContentKeysSeparate` | src/crypto/e2e.rs:286-302 | different secrets or public material give different content keys, and no content key is a session key, unless HKDF collides |
| `E2e.BlobLayout` | src/crypto/e2e.rs:53-59 | slicing and assembling are inverse for every blob of at least the minimum length |
| `E2e.E2eRoundTrip` | src/crypto/e2e.rs:149-270 | with matching keys every plaintext is recovered, from a blob of the minimum length plus its own |
| `E2e.DecryptedShape` | src/crypto/e2e.rs:206-270 | what decrypts carries a verifying signature over all the rest and has the length the plaintext implies |
| `Auth.ComputeHandshakeTranscript` | src/crypto/auth.rs:52-63 | hashes the two byte strings one after the other |
| `Auth.TranscriptUnambiguous` | src/crypto/auth.rs:52-63 | the unseparated concatenation determines both hello messages |
| `Auth.SignedMessageBindsSession` | src/crypto/auth.rs:140-145 | equal signed messages mean equal hellos and nonce, unless SHA-256 collides on the two transcripts |
| `Auth.AcceptedResponseIsForThisSession` | src/crypto/auth.rs:120-138 | a server accepts an unforged proof only if the client signed in that very session: same hellos, same nonce |
| `Auth.AcceptedServerHelloIsForThisHello` | src/crypto/auth.rs:215-238 | a client accepts an unforged ServerHello only if the pinned key's owner signed this very client hello, key and ciphertext |
| `Auth.VerificationIsExact` | src/crypto/auth.rs:120-238 | both verifications accept iff the signature verifies on the message spelled out, and answer CryptoError otherwise |
| `Auth.MessageLayout` | src/crypto/auth.rs:140-145 | the signed message is the transcript digest and then the nonce |
| `Auth.ServerHelloMessageBinds` | src/crypto/auth.rs:159-173 | the server's signed message determines client hello, key and ciphertext, unless SHA-256 collides on the two hellos |
| `Auth.HonestSignaturesVerify` | src/crypto/auth.rs:96-238 | both sides' own signatures verify |
| `SafetyNumber.ComputeFingerprint` | src/crypto/safety_number.rs:52-75 | the loop computes 5200 rounds on the first digest |
| `SafetyNumber.FingerprintIsChainEnd` | src/crypto/safety_number.rs:52-75 | the fingerprint is the last of a chain of 5201 digests: of identifier and key fields, then of the digest before and the same bytes |
| `SafetyNumber.RoundInputInjective` | src/crypto/safety_number.rs:66-72 | what a round hashes determines digest, identifier and key |
| `SafetyNumber.TextReadsBack` | src/crypto/safety_number.rs:86-104 | 71 characters, twelve groups between spaces, which read back as the 40-bit chunks mod 100000 in identifier order |
| `SafetyNumber.FiveDigitsRoundTrip` | src/crypto/safety_number.rs:155-156 | a padded group reads back as its value |
| `SafetyNumber.AtMostTotalAndAntisymmetric` | src/crypto/safety_number.rs:95-99 | the order on identifiers is total and antisymmetric |
| `SafetyNumber.AtMostIsLexicographic` | src/crypto/safety_number.rs:95-99 | the order on identifiers is the dictionary order of their bytes |
| `SafetyNumber.SymmetricExactly` | src/crypto/safety_number.rs:80-104 | swapping the parties gives the same text iff the identifiers differ or the digits agree |
| `SafetyNumber.SameIdentifierIsNotSymmetric` | src/crypto/safety_number.rs:80-104 | for one identifier on both sides, two keys whose number depends on who is local |
| `Pipeline.DeliveredExactly` | src/crypto/e2e.rs:149-270 | for every plaintext of n bytes, the message arrives intact iff n + recipient id <= 61065 and n + sender id <= 61057 |
| `Pipeline.DeliveredOrTooLarge` | src/packet_type.rs:119-158 | when the sizes do not fit and the ids have a length prefix, some hop reports PayloadTooLarge |
| `Pipeline.UploadExactly` | src/payloads/message_payloads.rs:15-60 | the server decodes what the client sent iff the whole payload is at most 65536 bytes |
| `Pipeline.DownloadExactly` | src/payloads/queue_payloads.rs:37-89 | the recipient decodes the relayed message iff the whole payload is at most 65536 bytes |
| `Primitives.ToyIsLawful` | src/crypto/session.rs:76-144 | the laws assumed of the primitives hold together of some suite |
| `WireFormat.HandshakeCodes` | src/packet_type.rs:9-18 | the codes of the handshake and authentication types |
| `WireFormat.ControlCodes` | src/packet_type.rs:21-28 | the codes of the first control types |
| `WireFormat.FriendCodes` | src/packet_type.rs:29-35 | the codes of the friend and typing types |
| `WireFormat.MessagingCodes` | src/packet_type.rs:36-46 | the codes of the key-publishing and messaging types |
| `WireFormat.LastCodes` | src/packet_type.rs:47-52 | the codes of the status, receipt and teardown types |
| `WireFormat.FixedCeilings` | src/packet_type.rs:102-163 | ceilings of the short handshake, keepalive and teardown payloads |
| `WireFormat.AccountCeilings` | src/packet_type.rs:102-163 | ceilings of the account, key-publishing and acknowledgement payloads |
| `WireFormat.FriendCeilings` | src/packet_type.rs:102-163 | ceilings of the friend payloads |
| `WireFormat.HelloFits` | src/packet_type.rs:102-110 | a ClientHello fits iff its id is at most 82 bytes, a ServerHello iff at most 78 |
| `WireFormat.AuthAndKeysFit` | src/packet_type.rs:113-150 | an AuthResponse fits iff its attestation is at most 4096 bytes; a found key iff the name is at most 128; a published bundle fits exactly |
| `WireFormat.SendMessageFits` | src/packet_type.rs:119 | a SendMessage fits iff recipient and content have at most 65522 bytes together |
| `WireFormat.DeliverMessageFits` | src/packet_type.rs:119 | a DeliverMessage fits iff sender and content have at most 65522 bytes together |
| `WireFormat.QueuedFits` | src/packet_type.rs:151-158 | a queued delivery fits iff sender and content have at most 65514 bytes together; a status update fits exactly |
| `WireFormat.FrameLayout` | src/codec.rs:171-176 | the bytes of every frame: magic, version 1, type, flags, 24, the payload length mod 2^32, the number, four zeros, the payload |
| `WireFormat.SizedLayout` | src/payloads/common.rs:2-52 | a two-byte length and the string, a four-byte length and the bytes; InvalidInput beyond |
| `WireFormat.ClientHelloLayout` | src/payloads/hello_payloads.rs:20-27 | where each field stands |
| `WireFormat.ServerHelloLayout` | src/payloads/hello_payloads.rs:81-89 | where each field stands |
| `WireFormat.SendMessageLayout` | src/payloads/message_payloads.rs:15-25 | where each field stands |
| `WireFormat.QueuedLayout` | src/payloads/queue_payloads.rs:37-47 | the queue id, then the layout of a SendMessage |
| `WireFormat.StatusUpdateLayout` | src/payloads/message_payloads.rs:122-159 | the message id, then the status byte 0, 1 or 2 |
| `WireFormat.AuthResponseLayout` | src/payloads/auth_payloads.rs:50-57 | where each field stands |
| `WireFormat.KeyLayout` | src/payloads/e2e_key_payloads.rs:13-17 | where each field stands |
| `WireFormat.KeyResponseLayout` | src/payloads/e2e_key_payloads.rs:154-164 | the name, then 0 and the bundle or 1 alone |

## Left out

- The inside of AES-GCM, SHA-256, HKDF, X25519, ML-KEM-768 and ML-DSA-65: foreign libraries.
- Generation of keys and nonces, zeroization and `Drop`: randomness is an input, and memory hygiene computes nothing.
- Async readers and writers, wakers and flush: a synchronous cursor and a writer with bounded room stand for them.
- In-place buffers: `payload`, `blob` and `ciphertext` are sequence variables that the methods reassign, so sharing of a buffer with its caller is not captured.
- Decoders: they are functions on slices; copying into fixed local arrays is not modelled.
- Error texts, and the distinctions among `std::io::Error` kinds that no caller makes.
- Ping, close, error, registration, account and friend payloads, the key-publication result and fetch payloads, the one-byte and empty handshake payloads, acknowledgements and receipts: the same combinators and nothing new.
- `verify_key_unchanged`, `RawPacket`'s constructor and the enum tables on their own: one-branch facts.
- Server storage, queueing and key pinning: not in this library; the relay is one copying step.
- The client's first-contact check of a fetched key: a person's act.
- TwoParty: an honest side's own state changes only on what it receives, as `advance` does; a side that has given up counts as settled, because the code does not move its own state to Closing on sending.
- Channel: one direction, with everything else sealed under other keys as an outsider's step; it says nothing of packets returned before the receiver's session.
- Pipeline.DeliveredOrTooLarge: names the error only for plaintexts below 0x7000_0000 bytes, since beyond the 32-bit length field the header's length wraps and another error may come first.
