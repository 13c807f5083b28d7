# HESIA drone: verified session layer

A Dafny model of the drone side of HESIA: the AES-256-GCM secure channel with its anti-replay
window, the handshake and the chain of secure messages that follows it, the send queue and the
framed transport, the encrypted audit log, the join of the two vision streams, operator login,
and three small cores (CRC-32, the counter-mode KDF, the matrix pool).

Each class is modelled as a class with the same fields and methods. A method is specified by a
function on an immutable view of the object (`EncryptSpec`, `AcquireSpec`, ...); the laws over
several calls, over whole runs, and over two communicating objects are lemmas about these
functions.

| file | models |
|---|---|
| `Bytes.dfy` | big-endian numbers, `Option`/`Result`, choice from a set |
| `Crypto.dfy` | hash, MAC and AEAD as arbitrary functions with their lengths and inverse law |
| `ReplayWindow.dfy` | the 64-bit bitmap as a set of counters |
| `SecureChannel.dfy`, `ChannelRuns.dfy`, `ChannelContents.dfy` | the channel class; nonces, replay, two endpoints; what is sealed and accepted, to the byte |
| `Protocol.dfy`, `SessionCache.dfy`, `Handshake.dfy`, `HesiaDrone.dfy` | signed payloads, KEY_INIT freshness, the seven states, the drone object |
| `MessageText.dfy`, `MessageChain.dfy`, `SendQueue.dfy`, `Framing.dfy`, `WireOrder.dfy` | secure messages from producer to peer |
| `AuditLog.dfy`, `AuditContents.dfy` | record format, chain, recovery of the chain head; reading the events back |
| `FrameJoin.dfy` | pairing of YOLO and MiDaS results |
| `Totp.dfy`, `OperatorAuth.dfy`, `OperatorRuns.dfy` | one-time codes; provisioning, lockout, login |
| `Crc32.dfy`, `CounterKdf.dfy`, `MatPool.dfy` | the small cores |

Cryptography is a parameter. No hash is assumed injective and no value is assumed unreachable:
where a law needs collision resistance, the lemma concludes either the law or that two inputs
collide. The one exception is the "only if" half of `AuditRestart`, which assumes that no record
hashes to its own previous-hash field (`NoFixpoint`). AEAD decryption succeeds exactly on outputs of encryption under the same key, nonce
and additional data; everything else about it is arbitrary. Failures of the library, of the random
source, and of self-checks are the `fault`/`None` parameters. Clocks are `now` parameters, with
64-bit sums wrapping as in the code.

## Where the code differs from the simple story

- A counter is meant to be consumed only after authentication. In a build that decrypts through the
  FIPS module an authentication failure is reported as an empty plaintext, which a message with an
  empty ciphertext also yields; `ConsumedWithoutAuthentication` shows that this is the only exception, and
  `EmptyCiphertextIsConsumed` shows the message.
- An audit record is written before the export directory is created, and the chain head in memory is
  updated after it. If that creation fails the next record repeats its predecessor's previous-hash field.
  `AuditRestart` says exactly when chain and head stay intact, and `FailedExportBreaksChain` shows the failure.
- The scan at start-up takes the hash of a last record that was cut off after its 111th byte, although its signature
  or ciphertext is not complete: `ScanOnCutRecord`.
- A KEY_INIT without timestamp, or dated ahead of the clock, can pass the freshness check again after
  five minutes: `PassesAgainIffUndatedOrAhead`.
- Before the window has accepted anything it takes counters below 64 only. A peer that misses all of the
  first 64 messages of an epoch therefore refuses every later one: `LateStartDeliversNothing`.
- A rotation that fails while deriving the new keys has already moved the epoch and discarded the old keys.
  The self-check then refuses everything: `UnusableIsSilent`.
- The type of a secure message is not escaped. Messages of two types can have one text with two sequence
  numbers if and only if one type goes on, after the other, like a whole message up to its data
  (`ConfusableIffExtends`); such a type contains a quotation mark. The drone cannot show this: it sends the
  types PING, TELEMETRY and FLIGHT_DATA only (drone_network.cpp:1026, 1055, 1340), and `SentTypesAreSafe`.
- A secure message lost after it was produced ends the session: the peer refuses the next one
  (`LossEndsSession`). A full queue without video loses it in this way.

## Model

| member | source | states |
|---|---|---|
| ReplayWindow.TestBit | drone_source/secure_channel.cpp:213-228 | testing bit d is membership in the set of marked distances |
| ReplayWindow.SetBit | drone_source/secure_channel.cpp:253-287 | setting bit d adds exactly d to the set of marked distances |
| ReplayWindow.ShiftIn | drone_source/secure_channel.cpp:253-287 | shifting in a new top raises all distances, drops those of 64 or more, and marks 0, also for shifts of 64 and above |
| ReplayWindow.SeenAfterMark | drone_source/secure_channel.cpp:253-287 | marking one counter changes the verdict on no other |
| ReplayWindow.SeenAfterAdvance | drone_source/secure_channel.cpp:253-287 | bit e after an advance by s is bit e-s before it, and bit 0 is set |
| ReplayWindow.FirstRepresents | drone_source/secure_channel.cpp:253-287 | after the first counter the window stands for the set holding just it |
| ReplayWindow.AdvanceRepresents | drone_source/secure_channel.cpp:253-287 | a higher counter keeps (top, bitmap) equal to the set of accepted counters |
| ReplayWindow.FillRepresents | drone_source/secure_channel.cpp:253-287 | a late counter keeps (top, bitmap) equal to the set of accepted counters |
| SecureChannel.SecureChannel.BuildIv | drone_source/secure_channel.cpp:123-132 | the IV is the 8-byte prefix and the counter as 4 big-endian bytes |
| SecureChannel.SecureChannel.BuildEffectiveAad | drone_source/secure_channel.cpp:134-149 | the authenticated data are tag, epoch and the caller's data |
| SecureChannel.SecureChannel.DeriveDirectionalMaterial | drone_source/secure_channel.cpp:186-204 | keys, prefixes and backups are those of role and secret; a failure at any of the four derivations after the old keys are gone leaves no usable keys |
| SecureChannel.SecureChannel.ResetReplayWindow | drone_source/secure_channel.cpp:206-211 | the window stands for the empty set |
| SecureChannel.SecureChannel.CanAttemptDecryptForCounter | drone_source/secure_channel.cpp:213-228 | the pre-check decides freshness with respect to the set of accepted counters |
| SecureChannel.SecureChannel.ParseRxCounter | drone_source/secure_channel.cpp:230-251 | each error case, and otherwise the big-endian counter |
| SecureChannel.SecureChannel.AcceptReplayCounter | drone_source/secure_channel.cpp:253-287 | decides the same predicate as the pre-check and records exactly this counter |
| SecureChannel.SecureChannel.constructor | drone_source/secure_channel.cpp:305-322 | a new channel has epoch 0, counter 0 and an empty window |
| SecureChannel.SecureChannel.Open | drone_source/secure_channel.cpp:305-322 | short keys are refused, otherwise a fresh valid channel |
| SecureChannel.SecureChannel.VerifyKeyIntegrity | drone_source/secure_channel.cpp:158-184 | the self-check passes exactly when keys and backups are present and equal and no canary is upset |
| SecureChannel.SecureChannel.Encrypt | drone_source/secure_channel.cpp:347-446 | the sealed message under a counter that is spent also when the library fails; oversize or empty input and a failed self-check spend none |
| SecureChannel.SecureChannel.Decrypt | drone_source/secure_channel.cpp:448-555 | every error in the code's order; the set of accepted counters grows only on success; the second window test never fails |
| SecureChannel.SecureChannel.RotateKey | drone_source/secure_channel.cpp:571-606 | new secret, epoch plus one modulo 2^32, counter 0, empty window; refusals change nothing, and a failure after the epoch moved leaves counter and window as they were and the channel unusable |
| SecureChannel.SecureChannel.InstallSecret | drone_source/secure_channel.cpp:584-600 | the part of a rotation that starts by discarding the old keys |
| ChannelRuns.BuiltIvParsesBack | drone_source/secure_channel.cpp:364-371 | the IV of a message carries the counter that was taken, undamaged by the 32-bit cast |
| ChannelRuns.CounterOfIv | drone_source/secure_channel.cpp:230-251 | parsing a built IV returns its prefix and counter |
| ChannelRuns.NonceUniqueness | drone_source/secure_channel.cpp:364-371 | over every run with fewer than 2^32 rotations, failed encryptions and interrupted rotations included, no (epoch, IV) is taken twice |
| ChannelRuns.UnusableIsSilent | drone_source/secure_channel.cpp:584-600 | after an interrupted rotation nothing is sent, accepted or changed any more |
| ChannelRuns.NoCounterAcceptedTwice | drone_source/secure_channel.cpp:253-287 | over every run no (epoch, counter) is accepted twice |
| ChannelRuns.ConsumedWithoutAuthentication | drone_source/secure_channel.cpp:486-552 | a message that does not authenticate changes the window if and only if the build uses the FIPS module and the ciphertext is empty |
| ChannelRuns.EmptyCiphertextIsConsumed | drone_source/secure_channel.cpp:486-552 | the message that shows it: an empty ciphertext under counter 0 with a wrong tag |
| ChannelRuns.PeersMirrorKeys | drone_source/secure_channel.cpp:80-90 | each role sends under what the opposite role receives under |
| ChannelRuns.RunFollowsKeys | drone_source/secure_channel.cpp:571-606 | secret and epoch after any run depend on the keys of the rotations alone, and the channel stays usable if and only if none was interrupted |
| ChannelRuns.PeersStayInStep | drone_source/secure_channel.cpp:571-606 | two endpoints given the same rotation keys keep role, secret and epoch matched, whatever else they do |
| ChannelRuns.PeerDecrypts | drone_source/secure_channel.cpp:448-555 | the peer opens a sealed message, unless the counter is not fresh or the additional data exceed 1024 bytes |
| ChannelRuns.BatchIsEncrypted | drone_source/secure_channel.cpp:347-446 | successive calls produce the messages whose delivery is considered |
| ChannelRuns.ExactlyOnceDelivery | drone_source/secure_channel.cpp:448-555 | for every arrival order: each message is delivered once and each duplicate refused if and only if every first arrival is inside the window and the additional data are short; the window then holds exactly what arrived |
| ChannelRuns.ForgeriesChangeNothing | drone_source/secure_channel.cpp:482-552 | messages that do not authenticate, wherever they arrive, change neither the receiver nor what becomes of the genuine messages |
| ChannelRuns.DeliveryAmidForgeries | drone_source/secure_channel.cpp:448-555 | exactly-once delivery, under the same condition, in the presence of such messages |
| ChannelRuns.LateStartDeliversNothing | drone_source/secure_channel.cpp:253-261 | a receiver that has accepted nothing refuses every message from counter 64 on, and stays empty |
| ChannelRuns.FreshIsOnTime | drone_source/secure_channel.cpp:253-287 | freshness in the window is being new and not 64 or more behind |
| ChannelContents.EffectiveAadIsInjective | drone_source/secure_channel.cpp:134-149 | the authenticated bytes determine the epoch and the data of the caller |
| ChannelContents.SealedBytes | drone_source/secure_channel.cpp:364-446 | which key, nonce and authenticated bytes seal a message, for each role |
| ChannelContents.EncryptsExactly | drone_source/secure_channel.cpp:347-446 | encryption succeeds, and spends a counter, exactly under the stated conditions |
| ChannelContents.AcceptedExactly | drone_source/secure_channel.cpp:448-555 | a message is accepted as a plaintext if and only if it is in bounds, fresh, under the right prefix, and sealed by the peer for this epoch and these additional data - or empty in a FIPS build |
| ChannelContents.FaultsAcceptNothing | drone_source/secure_channel.cpp:448-555 | while the self-check or the library fails nothing is accepted or recorded, but for the empty message of a FIPS build |
| ChannelContents.OtherPlaceIsRefused | drone_source/secure_channel.cpp:486-552 | a message opened in another epoch or under other additional data is an authentic ciphertext of two different byte strings, which are returned |
| ChannelContents.RotationStartsAfresh | drone_source/secure_channel.cpp:571-606 | peers that rotate with one key are peers in the next epoch with nothing sent or accepted |
| Bytes.AppendU32 | drone_source/hesia_drone.cpp:960-966 | the shifts write the 4-byte big-endian form |
| Bytes.AppendU64 | drone_source/security_audit.cpp:67-71 | the loop writes the 8-byte big-endian form |
| Protocol.AppendLenPrefixed | drone_source/hesia_drone.cpp:968-978 | appends one field to an encoding of fields |
| Protocol.BuildSignedDroneAuthPayload | drone_source/hesia_drone.cpp:980-998 | the ten fields in order, each with its length |
| Protocol.BuildServerAuthPayload | drone_source/hesia_drone.cpp:1824-1831 | the five fields in order, each with its length |
| Protocol.LenPrefixedInjective | drone_source/hesia_drone.cpp:968-978 | the encoding of equally many fields below 2^32 bytes determines them |
| Protocol.FieldsReadBack | drone_source/hesia_drone.cpp:968-978 | taking the encoding apart returns the fields |
| Protocol.DroneAuthReadsBack | drone_source/hesia_drone.cpp:980-998 | the ten fields are found in their places |
| Protocol.ServerAuthReadsBack | drone_source/hesia_drone.cpp:1824-1831 | the five fields are found in their places |
| Protocol.DroneAuthPayloadInjective | drone_source/hesia_drone.cpp:980-998 | the signed payload determines all ten fields |
| Protocol.ServerAuthPayloadInjective | drone_source/hesia_drone.cpp:1824-1831 | the server's signed payload determines all five fields |
| SessionCache.SessionCache.PruneExpired | drone_source/hesia_drone.cpp:1467-1475 | in whatever order the map is visited, exactly the expired entries go |
| SessionCache.SessionCache.CheckFreshness | drone_source/hesia_drone.cpp:1439-1500 | verdict and new cache for every order of errors |
| SessionCache.CacheIsBounded | drone_source/hesia_drone.cpp:1483-1499 | over every run the cache holds at most 10000 entries |
| SessionCache.KnownUntilExpired | drone_source/hesia_drone.cpp:1483-1499 | an id that passed stays cached with its time until more than 300000 ms went by |
| SessionCache.ReuseOnlyAfterTtl | drone_source/hesia_drone.cpp:1483-1499 | one session id passes twice only more than 300000 ms apart |
| SessionCache.DatedKeyInitPassesOnce | drone_source/hesia_drone.cpp:1439-1500 | a KEY_INIT dated no later than the clock at its first pass never passes again |
| SessionCache.PassesExactly | drone_source/hesia_drone.cpp:1439-1500 | over every run a KEY_INIT passes if and only if its timestamp fits, its id is well-formed and did not pass in the last five minutes, and fewer than 10000 ids did |
| SessionCache.PassesAgainIffUndatedOrAhead | drone_source/hesia_drone.cpp:1443-1453 | a KEY_INIT that passed can pass again if and only if it is undated or dated ahead of the clock |
| HesiaDrone.HesiaDrone.BuildHello | drone_source/hesia_drone.cpp:1361-1390 | the HELLO transition, its feature bits and its errors |
| HesiaDrone.HesiaDrone.HandleHelloAck | drone_source/hesia_drone.cpp:1392-1427 | the HELLO_ACK transition and its errors |
| HesiaDrone.HesiaDrone.HandleKeyInit | drone_source/hesia_drone.cpp:1434-1638 | key, session id and response on success; the session id stays used when a later check fails |
| HesiaDrone.HesiaDrone.HandleKeyConfirm | drone_source/hesia_drone.cpp:1642-1717 | the transition happens only on a server signature over session id and transcript |
| HesiaDrone.HesiaDrone.BuildDroneAuth | drone_source/hesia_drone.cpp:1719-1808 | the block carries session, transcript, chain hash and a PUF response challenged with them; its payload is signed and attested and becomes the new chain hash; every error leaves the state alone |
| HesiaDrone.HesiaDrone.CheckServerAuth | drone_source/hesia_drone.cpp:1810-1844 | the checks of SERVER_AUTH in order |
| HesiaDrone.HesiaDrone.HandleServerAuth | drone_source/hesia_drone.cpp:1810-1855 | every error of the checks leaves state, channel and video key alone; success opens the channel, derives the video key, and seals the test message under the new chain hash |
| HesiaDrone.TestMessageOpens | drone_source/hesia_drone.cpp:1846-1854 | a server with the same session key opens the test message as "beta", and both ends are in step |
| HesiaDrone.HesiaDrone.FinalizeConfirmOk | drone_source/hesia_drone.cpp:1874-1883 | the session starts on the two bytes OK only |
| HesiaDrone.HesiaDrone.SendSecureMessage | drone_source/hesia_drone.cpp:1885-1918 | message under the old chain hash, then chain and sequence number advance; on failure at most the channel counter does |
| Handshake.StepAdvances | drone_source/hesia_drone.cpp:1361-1883 | no handler goes back or skips a state, whatever the order of calls |
| Handshake.HandshakeIsAuthentic | drone_source/hesia_drone.cpp:1361-1883 | over every run: HELLO_ACK answered the drone's random bytes, the key is derived from the KEY_INIT of this id and the TLS exporter, the server's key verifies the signatures over id and transcript and over the answer to the drone's signed block, policy hashes agree, and the last answer was OK |
| Handshake.HonestHandshakeSucceeds | drone_source/hesia_drone.cpp:1361-1883 | with a server that keeps to the protocol the seven calls establish the session under the common key |
| Handshake.SessionAgreement | drone_source/hesia_drone.cpp:1787-1844 | two sessions that accepted one server-signed payload agree on all ten signed fields, session id and transcript, or a hash collision is returned |
| MessageText.ConfusableIffExtends | drone_source/hesia_drone.cpp:1897-1900 | messages of two types can share a text under different sequence numbers if and only if one type extends the other by a whole middle part |
| MessageText.ExtensionMisleads | drone_source/hesia_drone.cpp:1897-1900 | the family of pairs that shows it |
| MessageText.SharedTextOfOneLength | drone_source/hesia_drone.cpp:1897-1900 | types of one length, with or without quotation marks, are told apart, and so are number and data |
| MessageText.RenderIsInjective | drone_source/hesia_drone.cpp:1897-1900 | for types without quotation marks the text determines type, sequence number and data |
| MessageText.SentTypesAreSafe | drone_source/drone_network.cpp:1026 | the types that the drone sends are never mistaken for one another |
| MessageText.RenderExample | drone_source/hesia_drone.cpp:1897-1900 | the bytes of one message in full |
| MessageText.DecimalIsInjective | drone_source/hesia_drone.cpp:1899 | decimal digits determine the number |
| MessageChain.SendKeepsChain | drone_source/hesia_drone.cpp:1885-1918 | each send keeps: message i is the text with sequence number start + i modulo 2^64, sealed under the fold of all earlier texts, with growing counters |
| MessageChain.RawParses | drone_source/secure_channel.hpp:24-45 | cutting the raw form returns IV, tag and ciphertext |
| MessageChain.AcceptNext | server_source/src/hesia_server_session.cpp:1541-1586 | a receiver in step takes the next message and stays in step |
| MessageChain.ReceiverFollowsChain | server_source/src/hesia_server_session.cpp:1541-1586 | a receiver folding what it decrypts accepts every message of a history if and only if its window is not empty or the first counter is below 64 |
| MessageChain.HeadsDiffer | drone_source/hesia_drone.cpp:1906-1911 | the chain head never returns to an earlier value unless two of its inputs collide or one hashes to the head at the start |
| MessageChain.SkippedIsRefused | server_source/src/hesia_server_session.cpp:1541-1586 | a receiver refuses every message but the next, unless that message is authentic for two byte strings or the chain repeats |
| Framing.Transport.TransportWriteAll | drone_source/drone_network.cpp:627-640 | for any split into partial writes all bytes go out in order while writes make progress; otherwise a prefix and an error |
| Framing.Transport.TransportReadAll | drone_source/drone_network.cpp:642-658 | for any split into partial reads exactly the next bytes are returned, if and only if there are enough |
| Framing.Transport.SendMessage | drone_source/drone_network.cpp:674-735 | success appends one frame; an oversize payload writes nothing; a failed write leaves a prefix of the frame |
| Framing.Transport.ReceiveMessage | drone_source/drone_network.cpp:830-866 | one receive is one step of deframing the stream |
| Framing.Transport.MarkTransportFailure | drone_source/drone_network.cpp:444-480 | the flags after a failure, all workers told to stop, TLS closed |
| Framing.Transport.SendLoop | drone_source/drone_network.cpp:789-818 | a queue goes out as the frames of exactly the messages within their limits, in order; if the connection breaks, as the beginning of these bytes |
| Framing.Transport.ReceiveLoop | drone_source/drone_network.cpp:830-866 | receiving until the first empty result takes the whole stream apart |
| Framing.DeframeFirst | drone_source/drone_network.cpp:830-860 | one frame in front of any stream comes back with that stream as the rest; an oversize one leaves its payload behind |
| Framing.FramingRoundTrip | drone_source/drone_network.cpp:704-714 | receiving returns exactly the sent payloads if and only if none is empty or oversize |
| Framing.TornFrameIsIgnored | drone_source/drone_network.cpp:830-866 | a stream that ends inside a frame gives the payloads before it |
| Framing.Exchange | drone_source/drone_network.cpp:674-866 | a queue sent by one side and received by the other arrives as the same payloads in the same order, for any split of writes and reads |
| SendQueue.SendQueue.constructor | drone_source/drone_network.cpp:340 | the bound is the policy's, at least 8 |
| SendQueue.SendQueue.EnqueueMessage | drone_source/drone_network.cpp:751-787 | new queue, result and both counters in every case |
| SendQueue.SendQueue.FindVideo | drone_source/drone_network.cpp:767-768 | the search finds the oldest video entry |
| SendQueue.SendQueue.TakeFront | drone_source/drone_network.cpp:789-805 | the send loop takes the oldest entry |
| SendQueue.SendQueue.MarkTransportFailure | drone_source/drone_network.cpp:444-480 | a failure clears the queue and keeps the counters |
| SendQueue.EnqueueKeepsTheRest | drone_source/drone_network.cpp:757-783 | eviction removes only video, keeps the order of the rest, and the bound |
| SendQueue.RefusedOnlyWithoutVideo | drone_source/drone_network.cpp:757-783 | control traffic is refused if and only if the queue is full of it |
| SendQueue.EnqueueOnVideo | drone_source/drone_network.cpp:757-783 | what is accepted, and that video is given up oldest first and only by a full queue for other traffic |
| WireOrder.NetInvariantHolds | drone_source/drone_network.cpp:737-818 | over every interleaving: written, taken, queued and pending messages together are the history in order, up to noted losses; the queue keeps its bound |
| WireOrder.WireOrderIsChainOrder | drone_source/drone_network.cpp:737-818 | over every interleaving secure messages are written in the order in which the chain advanced, and without losses they are a prefix of the history |
| WireOrder.PeerFollowsWire | server_source/src/hesia_server_session.cpp:1541-1586 | without a gap the peer accepts everything on the wire if and only if its window is not empty or the first counter is below 64, and text i it obtains is rendered with sequence number start + i |
| WireOrder.LossEndsSession | drone_source/drone_network.cpp:737-818 | with a gap on the wire the peer ends the session, unless a message is authentic for two byte strings or the chain repeats |
| WireOrder.SecurePartsOfWire | server_source/src/hesia_server_session.cpp:1539-1549 | sorting received payloads by their first byte returns the raw secure messages in order, whatever video lies between |
| WireOrder.VideoPartsOfWire | server_source/src/hesia_server_session.cpp:1539-1590 | sorting returns the video frames, whole and in order, as well |
| WireOrder.PeerFollowsBytes | drone_source/drone_network.cpp:627-735 | the same from the byte stream, also when it ends inside a frame: framing, sorting and decryption together |
| AuditLog.ReadU16 | drone_source/security_audit.cpp:92-95 | the big-endian value of two bytes |
| AuditLog.ReadU32 | drone_source/security_audit.cpp:97-102 | the big-endian value of four bytes |
| AuditLog.LoadLastHash | drone_source/security_audit.cpp:267-311 | on any file, also damaged or cut off, the loop is the record-by-record scan |
| AuditLog.HeaderLayout | drone_source/security_audit.cpp:436-477 | length and previous hash sit at fixed offsets of a 77-byte header |
| AuditLog.EncodeLayout | drone_source/security_audit.cpp:436-477 | each field the scan reads is where the writer put it, whatever follows |
| AuditLog.ScanSkips | drone_source/security_audit.cpp:267-311 | the scan steps over one written record and holds its hash |
| AuditLog.ScanFindsHead | drone_source/security_audit.cpp:267-311 | on every completely written log the scan finds the hash of the last record |
| AuditLog.ScanStopsAtDamage | drone_source/security_audit.cpp:267-311 | behind the records anything that does not start like a record ends the scan |
| AuditLog.ScanOnCutRecord | drone_source/security_audit.cpp:267-311 | a last record that was cut off counts if and only if 111 bytes of it are there |
| AuditLog.SecurityAudit.constructor | drone_source/security_audit.cpp:126-170 | at start-up the head in memory is the 32 bytes that the scan finds, unless the log is switched off |
| AuditLog.SecurityAudit.AppendEncryptedRecord | drone_source/security_audit.cpp:376-498 | the record written and the head kept, for every point of failure |
| AuditLog.RunInvariantHolds | drone_source/security_audit.cpp:376-498 | over every run of appends and restarts the file is the encoding of its records, and head and chain are as the list of operations says |
| AuditLog.AuditRestart | drone_source/security_audit.cpp:432-498 | the chain in the file is intact if and only if no write followed a failed export without a restart between; the scan returns the head in memory if and only if no failed export is pending ("only if" provided no record hashes to its own previous-hash field) |
| AuditLog.FailedExportBreaksChain | drone_source/security_audit.cpp:479-497 | the run that shows it: two appends of which the first fails in the export carry the same previous hash |
| AuditLog.HeadCommitsToLog | drone_source/security_audit.cpp:432-450 | logs of any lengths with one head have the same headers and ciphertexts, or a collision or a zero hash is returned |
| AuditLog.CommittedParts | drone_source/security_audit.cpp:436-450 | the hash input splits uniquely into header and ciphertext |
| AuditContents.RecordReadsBack | drone_source/security_audit.cpp:436-477 | a written record is read back field by field by its offsets, whatever follows it |
| AuditContents.HashFieldCovers | drone_source/security_audit.cpp:446-477 | the hash field is the hash of everything before it and the ciphertext |
| AuditContents.FileTellsEvents | drone_source/security_audit.cpp:376-498 | over every run of appends and restarts the file, read from its bytes, holds exactly the events that reached it, in order, decrypting to their texts, with their times |
| FrameJoin.FrameJoiner.FindOldest | drone_source/clean_pipeline.cpp:416-422 | the search finds the smallest cached id |
| FrameJoin.FrameJoiner.FillMissing | drone_source/clean_pipeline.cpp:396-412 | field by field the merge of the two results |
| FrameJoin.FrameJoiner.OnFrame | drone_source/clean_pipeline.cpp:391-446 | cache, emission and eviction for one arrival, and the pictures shown |
| FrameJoin.ArrivalsAreConserved | drone_source/clean_pipeline.cpp:366-425 | over every run arrivals = 2 * emitted + cached + evicted, and at most 30 are cached |
| FrameJoin.MergeCommutes | drone_source/clean_pipeline.cpp:396-412 | the order of two delivered results does not matter; taken alone the merge is independent of it if and only if no result has detections or a skeleton without its picture |
| FrameJoin.ShowCommutes | drone_source/clean_pipeline.cpp:427-446 | what is shown is independent of the order even then |
| FrameJoin.EmittedArePairs | drone_source/clean_pipeline.cpp:366-425 | over every run, evictions included, each emitted frame joins a YOLO and a MiDaS result of its id, no id is emitted twice, and nothing cached was emitted |
| FrameJoin.EmittedIsTogether | drone_source/clean_pipeline.cpp:391-425 | over every run an emitted frame has the YOLO fields of one arrival and the MiDaS fields of another, of its id |
| FrameJoin.ShownExactly | drone_source/clean_pipeline.cpp:427-446 | over every run the callback gets the YOLO picture, and the MiDaS picture brought to its size |
| FrameJoin.EvictsOldestWhenFull | drone_source/clean_pipeline.cpp:414-425 | eviction happens only in a cache of 30 and takes the smallest id |
| FrameJoin.EvictionNeedsFullCache | drone_source/clean_pipeline.cpp:414-425 | over every run with an eviction 30 frames were waiting at some time before |
| FrameJoin.JoinInvariantHolds | drone_source/clean_pipeline.cpp:366-425 | without eviction the cache holds exactly the unpaired, and each pair was emitted once |
| FrameJoin.JoinIsConfluent | drone_source/clean_pipeline.cpp:366-425 | two interleavings of the same results emit the same multiset of merged frames, at most one for each id |
| FrameJoin.PicturesAreConfluent | drone_source/clean_pipeline.cpp:366-446 | two interleavings give the callback the same pictures, equally often |
| OperatorAuth.FipsModule.Initialize | drone_source/fips_module.cpp:409-440 | the state machine of initialization |
| OperatorAuth.FipsModule.Shutdown | drone_source/fips_module.cpp:442-462 | everything is cleared |
| OperatorAuth.FipsModule.IsRoleConfigured | drone_source/fips_module.cpp:474-479 | true exactly when some entry has the role |
| OperatorAuth.FipsModule.ProvisionIdentity | drone_source/fips_module.cpp:489-559 | an entry is added exactly under the stated permissions; a library failure fails the module |
| OperatorAuth.FipsModule.FindCredential | drone_source/fips_module.cpp:577-583 | the first matching entry |
| OperatorAuth.FipsModule.CountFailure | drone_source/fips_module.cpp:585-588 | counts modulo 2^32 and locks from the limit on |
| OperatorAuth.FipsModule.Login | drone_source/fips_module.cpp:561-654 | granted exactly by verdict, and which refusals count |
| OperatorAuth.FipsModule.Logout | drone_source/fips_module.cpp:656-660 | nobody is logged in; counters stay |
| OperatorAuth.LockoutInvariantHolds | drone_source/fips_module.cpp:561-654 | over every run counter and lockout time follow from the history of failures |
| OperatorAuth.LockoutBound | drone_source/fips_module.cpp:561-654 | over every run the failures since the last success or shutdown are at most the limit plus the number of whole lockouts that passed |
| OperatorAuth.ProvenanceHolds | drone_source/fips_module.cpp:489-559 | over every run entries are unique, the first is a Crypto Officer, each later one was added by an officer entered before it, and whoever is logged in has an entry |
| OperatorRuns.GrantedExactly | drone_source/fips_module.cpp:561-654 | a login is granted if and only if the module is approved, not locked, and some entry of that role and identity fits the password and, where needed, the code |
| OperatorRuns.CountedExactly | drone_source/fips_module.cpp:572-642 | which refusals count as failures |
| OperatorRuns.BrokenKdfStopsModule | drone_source/fips_module.cpp:593-599 | a password hash that cannot be computed ends approved mode |
| OperatorRuns.InitializesExactly | drone_source/fips_module.cpp:409-440 | where an initialization leads from each state |
| OperatorRuns.EntriesWereProvisioned | drone_source/fips_module.cpp:489-559 | over every run each entry was provisioned under the policy since the last shutdown |
| OperatorRuns.GrantedWasEntitled | drone_source/fips_module.cpp:489-654 | over every run whoever is let in was provisioned, with a password of the same hash and a secret that takes the code |
| OperatorRuns.ApprovedWasInitialized | drone_source/fips_module.cpp:409-462 | approved mode goes back to an initialization in FIPS mode since the last shutdown |
| OperatorRuns.FirstOfficerGetsIn | drone_source/fips_module.cpp:409-654 | initialize, provision, log in: the first officer is logged in |
| OperatorRuns.OfficerAdds | drone_source/fips_module.cpp:489-559 | an officer adds exactly who is not there yet |
| OperatorRuns.LogoutTakesRights | drone_source/fips_module.cpp:656-660 | after a logout only a first officer can be added |
| Totp.CounterMessage | drone_source/fips_module.cpp:117-123 | the backwards loop fills the array with the big-endian counter |
| Totp.TruncateMac | drone_source/fips_module.cpp:162-170 | dynamic truncation, always in bounds and below 2^31 |
| Totp.TotpHmacSha256 | drone_source/fips_module.cpp:107-181 | the six-digit code of the time step |
| Totp.CodesAgree | drone_source/fips_module.cpp:172-180 | two codes are equal if and only if the truncated values agree modulo a million |
| Totp.TruncateExample | drone_source/fips_module.cpp:162-180 | the example of section 5.4 of RFC 4226 |
| Totp.TruncateBits | drone_source/fips_module.cpp:162-170 | which four bytes are read, and that the top bit is dropped |
| Totp.CodeShows | drone_source/fips_module.cpp:107-181 | the code read as a decimal number is the truncated HMAC of the eight-byte counter modulo a million |
| Totp.VerifyCode | drone_source/fips_module.cpp:625-637 | accepts exactly when some step of the drift loop has the code |
| Totp.WindowIsConsecutive | drone_source/fips_module.cpp:625-637 | the loop tries t/step - drift to t/step + drift if and only if this does not reach below time zero |
| Totp.AcceptsTheWindow | drone_source/fips_module.cpp:625-637 | the codes accepted are exactly those of the window's counters |
| Crc32.CalculateChecksum | drone_source/fault_injection_protection.cpp:190-202 | the nested loops compute the checksum function |
| Crc32.UnshiftUndoesShift | drone_source/fault_injection_protection.cpp:190-202 | one step of the register can be undone |
| Crc32.ShiftIsLinear | drone_source/fault_injection_protection.cpp:190-202 | one step is linear over exclusive or |
| Crc32.ShiftsAreInjective | drone_source/fault_injection_protection.cpp:190-202 | any number of steps keeps different registers different |
| Crc32.FeedIsTableUpdate | drone_source/fault_injection_protection.cpp:190-202 | eight steps are the table-driven update of section 8 of RFC 1952 |
| Crc32.CheckValue | drone_source/fault_injection_protection.cpp:190-202 | the checksum of the digits 1 to 9 is the check value of CRC-32 |
| Crc32.RegisterOfWord | drone_source/fault_injection_protection.cpp:190-202 | up to four bytes enter the register as one word |
| Crc32.PackIsInjective | drone_source/fault_injection_protection.cpp:190-202 | that word determines the bytes |
| Crc32.BurstsAreDetected | drone_source/fault_injection_protection.cpp:190-202 | buffers of one length that differ only inside a window of four bytes have different checksums |
| CounterKdf.BuildInput | drone_source/kdf_sp800_108.cpp:36-42 | counter, label, zero byte, context and length |
| CounterKdf.DeriveCounterMode | drone_source/kdf_sp800_108.cpp:18-84 | exactly the first bytes of the blocks 1, 2, ..., or the error of each refused request |
| CounterKdf.OutputByteByByte | drone_source/kdf_sp800_108.cpp:35-81 | an output is right if and only if byte k is byte k mod 32 of block k/32 + 1 |
| CounterKdf.InputIsInjective | drone_source/kdf_sp800_108.cpp:24-42 | the HMAC input determines counter, label, context and length |
| CounterKdf.InputLayout | drone_source/kdf_sp800_108.cpp:36-42 | counter, label, context and length are found in their places |
| CounterKdf.NulWouldConfuse | drone_source/kdf_sp800_108.cpp:24-26 | with a NUL in the label two requests share one input |
| CounterKdf.LengthFieldIsExact | drone_source/kdf_sp800_108.cpp:31-32 | the 32-bit length field is exact if and only if the output is below 2^29 bytes, and then the counter never runs out |
| MatPool.MatPool.constructor | drone_source/buffer_pool.hpp:142-156 | all buffers free, each once in the queue, at most the maximum |
| MatPool.MatPool.Acquire | drone_source/buffer_pool.hpp:158-179 | the oldest free buffer, a new one, or none |
| MatPool.MatPool.Release | drone_source/buffer_pool.hpp:181-197 | the buffer returns to the end of the queue; unknown and free ones are ignored |
| MatPool.AcquireKeepsWellFormed | drone_source/buffer_pool.hpp:158-179 | the free queue stays free of duplicates and exactly the numbers not lent; what is granted was not lent |
| MatPool.ReleaseKeepsWellFormed | drone_source/buffer_pool.hpp:181-197 | the same for a release |
| MatPool.RefusedOnlyWhenAllLent | drone_source/buffer_pool.hpp:158-179 | a request is refused if and only if as many buffers as allowed are lent |
| MatPool.GrowsOnlyWhenAllLent | drone_source/buffer_pool.hpp:158-179 | a new buffer is made if and only if all are lent and the pool may grow |
| MatPool.GrantedInOrder | drone_source/buffer_pool.hpp:158-197 | free buffers are granted in the order of the queue |
| MatPool.ReturnedComesLast | drone_source/buffer_pool.hpp:181-197 | a returned buffer waits until all that were free before it have been granted |
| MatPool.LentUntilReturned | drone_source/buffer_pool.hpp:158-197 | a lent buffer is granted again only after a return |
| MatPool.NoBufferLentTwice | drone_source/buffer_pool.hpp:158-197 | over every run there is a return between two grants of one buffer |

## Left out

- OpenSSL, liboqs, AES-GCM, HMAC, SHA, HKDF and PBKDF2 internals: arbitrary functions; the HKDF info labels are the cases of `Purpose`, so their texts are not modelled.
- SecureChannel.SecureChannel.VerifyKeyIntegrity: the switch for fault detection is taken as on, which nothing in the program changes.
- SecureChannel.SecureChannel.RotateKey: a refresh of the canaries that fails after all keys are derived is not a case.
- Integrity canaries of the channel: the canary comparison is a `fault` of the self-check; a derivation that fails in the constructor is not modelled.
- SessionCache: KnownUntilExpired, ReuseOnlyAfterTtl and the lemmas after them assume a clock that does not run backwards and stays 300000 ms clear of 2^64.
- OperatorAuth.FipsModule.Initialize: provider loading and self-tests are one outcome parameter.
- OperatorAuth.LockoutBound: assumes fewer than 2^32 counted failures and a clock that does not run backwards or overflow.
- Video packets, TEE calls, key storage, the signed CONFIRM: signatures and attestation are arbitrary functions of the payload, the video key of the session key.
- HesiaDrone.HesiaDrone.BuildDroneAuth: firmware hash and boot measurement are the evidence parameter, and the PUF is an arbitrary function of salt and info.
- The transcript hash over the first four messages: computed in the network layer and passed in as `expected`.
- Serialization of handshake messages: not part of this model.
- TLS itself: a channel that takes and delivers any number of bytes at a time; rekeying and statistics are not modelled.
- Framing.Transport.SendMessage: limits are assumed to fit an `int` with the four header bytes (`PolicyFits`), as the casts of the code demand.
- WireOrder.NetInvariantHolds: each section under a mutex is one step; reconnecting, which resets the flags, is not a step.
- Shifts of the replay bitmap by a run-time amount: written as that many one-bit shifts.
- AuditLog.SecurityAudit.constructor: the key is a parameter, so creating and loading its file are not modelled.
- AuditLog.SecurityAudit.AppendEncryptedRecord: the signature is part of the environment, so that it signs the record hash is not modelled.
- Rotation of the audit log, alerts and the contents of the export files; in runs of appends and restarts records are taken as completely written.
- AuditLog.RunInvariantHolds: plaintexts are below 2^32 bytes and times below 2^64, the widths of the header fields (`OpsFit`).
- Policy changes during a run: the authentication policy is a constant of the module.
- Waiting and time-outs: in `MatPool.Acquire` the part after the wait is modelled; handshake time-outs are not.
- The image operations: drawing and resizing are arbitrary functions; queues and workers before the join are not modelled.
- The server: only what its receive loop does with secure messages is modelled (`MessageChain.Accept`, `WireOrder.SecurePart`); rate limits, video and its side of the handshake are not.
- The template `BufferPool`, monitors, sandbox, telemetry, error handler and logging: easy members or foreign libraries.
