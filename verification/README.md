# A verified model of the WHAD client

WHAD (`whad-client`) drives radio hardware over a framed byte link and decodes several wireless protocols.
This project models its algorithmic cores in Dafny and proves what they are for:

* **Host/device transport.** A decoder that resynchronises on `AC BE` frames in a stream cut into arbitrary
  chunks; two message queues behind a mutable filter; a lockable connector that parks packets and flushes them
  later; and the copies of the decoder in the TCP and Unix socket servers. Each callback, thread step and queue
  operation is one atomic action, so the run-level theorems hold for every interleaving of the threads.
* **BLE.** Link-layer decryption that searches a window of packet counters over a lossy channel, the confirm value
  of legacy pairing with its key search, the scanner's device database, and the replay procedure tracker.
* **Bluetooth Mesh.** Encryption and obfuscation of network PDUs, the message cache, segmentation and reassembly,
  access messages from end to end, private beacons, and provisioning.
* **LoRaWAN and Zigbee.** The payload cipher and packet protection of LoRaWAN 1.0, and the Zigbee hash.
* **Match patterns.** Bit strings and the cropping of pattern and mask.

`dafny verify dfyconfig.toml` checks everything.

## How the model is built

| file | models |
|---|---|
| `ByteStrings.dfy`, `Ciphers.dfy` | bytes, integer packing, exclusive or; AES, CCM, CMAC and HMAC as unknown functions with stated laws |
| `Messages.dfy` | messages, filters, and the protocol hub as an abstract parse/serialise pair |
| `Framing.dfy`, `Parsing.dfy`, `Router.dfy`, `Device.dfy` | `whad/device/device.py`: the canonical decoder, a parser that may raise, the queues as a transition system, and the device object proved against them |
| `LockQueue.dfy`, `Endpoint.dfy`, `Connector.dfy` | `whad/device/connector.py`: the parking queue as a transition system, what a dispatched message does, and the connector object |
| `Relay.dfy`, `TcpSocket.dfy`, `UnixSocket.dfy` | `whad/device/tcp.py`, `whad/device/unix.py` |
| `LinkLayer.dfy`, `LinkLayerRuns.dfy`, `LegacyPairing.dfy` | `whad/ble/crypto.py` |
| `MeshNetwork.dfy`, `MeshProvisioning.dfy` | `whad/btmesh/crypto.py` and its callers in `whad/btmesh/stack` |
| `MeshTransport.dfy`, `MeshAccess.dfy` | `whad/btmesh/stack/lower_transport`, `whad/btmesh/stack/upper_transport`, and the access keys of `whad/btmesh/crypto.py` |
| `Lorawan.dfy`, `ZigbeeHash.dfy`, `Pattern.dfy`, `Scanning.dfy`, `Replay.dfy` | `whad/lorawan/crypto.py`, `whad/zigbee/crypto.py`, `whad/helpers.py`, `whad/ble/scanning.py`, `whad/ble/connector/replay.py` |

What the source takes from outside becomes a parameter: clock values, random values, private keys, the steps that
other threads take while a call is under way (`batches`), and the laws of the primitives (`Lawful`). Forgery is excluded
only for the packets of a run, by the hypotheses `Unforged` and `Genuine`, and a collision of two confirmations by
`NoCollision`. `AllGenuineIsPossible`, `GenuineIsPossible` and `NoCollisionIsPossible` show that these can be met: with
four-byte tags, by every run of packets in both directions whose counters stay below 2^31 - 1.

## Where the code differs from what it is described to do

* The link-layer decryptor keeps one manager for each key, with the IV and counters of the session in which it first
  decrypted something. A later session under that key is never decrypted (`OtherSessionIsMissed`).
* The decoder delivers an empty frame only when one more byte has arrived (`FramingRoundTrip`).
* `close` sends itself a NOP to wake up the message thread, but the message is dropped because the closing flag is
  already set (`ClosingDropsNop`).
* A command can be answered by a message that arrived before it: the previous filter stays installed, so late answers
  stay in the reply queue (`CommandAnswerIsFresh` says exactly when, `StaleAnswer` is such a run).
* When the queue filter is cleared, as the bridge, the Unix socket server and virtual devices do, while a reply is
  queued under it, a waiter that comes then loses that reply (`LosingRun`); nothing is ever lost as long as no one
  clears the filter (`LostOnlyAfterClearing`).
* `lock` leaves a window between setting the flag and clearing the queue, in which a packet is lost
  (`LostInsideLock`), and clears a backlog; `unlock` leaves one between seeing the queue empty and clearing the flag
  (`OvertakenInTheWindow`), and so does reading the flag before a packet is parked (`ParkedTooLate`). `FifoIffSafe` says
  exactly when order is kept, `QuietRunsKeepFifo` what a caller has to see to.
* The Unix copy of the decoder forwards by a method that passes the device an argument no device takes. So it raises on
  every complete frame, forwards nothing, and never gets past the first frame (`UnixSocketConnector.OnDataReceived`,
  `RaisesForGood`, `GoodFrameRaises`).
* The protocol hub raises on a payload that decodes to a message of no known kind, before the frame is removed; from
  then on the decoders of the device and of the TCP server are stuck (`TakeRunIs`, `BadFrameStaysFirst`). An empty frame
  is such a payload (`EmptyFrameBlocks`).
* `relay_packet` keeps the ciphertext of a mesh PDU although the TTL in its nonce has changed (`RelayedPduFailsMic`);
  its one caller passes an argument too many. A PDU enters the message cache before its MIC is checked, so a copy with
  another TTL keeps the genuine PDU out (`AlteredCopyShutsOut`).
* A reassembled mesh message is sent up with the context of the segment received first, whose sequence number is in
  the nonce; so it decrypts only if its first segment came first. The receiver also takes every MIC to be short, and
  cannot decrypt for virtual destinations (`AccessMessageArrivesIff`). Segments for group destinations are never sent
  (`OnAir`).
* Four sequence numbers are set aside for a mesh message, whatever its length (`SequenceNumbersDiffer`).
* A segment under the number of an unsegmented message is added to an older transaction (`SentUpIncreasing`,
  `StrayExample`); a sender that keeps these numbers apart is safe (`NumbersApartNoStray`).
* A mesh access PDU with an empty transport payload cannot be obfuscated (`NetworkRoundTrip`).
* Under the HMAC algorithm the confirmation key is derived before the layer sets an out-of-band authentication value,
  so the confirmations do not depend on that value, and two parties with different values complete provisioning
  (`MismatchExample`). `AcceptedIffSameValue` says when parties accept each other under either algorithm.
* LoRaWAN uplink decryption on port 0 does not put the payload back (`UplinkRoundTrip`), a downlink packet is never
  decrypted (`DownlinkNeverDecrypts`), and a join-accept header other than 0x20 is not restored (`JoinAcceptRoundTrip`).
* The Zigbee padding overwrites the last input byte when the last block holds 15 bytes (`PadInjective`).
* The replay tracker raises on a feature response with no request outstanding (`AnswerHeldBackIffPending`).

## Model

| member | source | states |
|---|---|---|
| `Framing.ChunkingIndependence` | whad/device/device.py:701-742 | however a stream is cut into calls, the run emits what one call on the whole stream emits, and the buffers stay equivalent |
| `Framing.EquivalentForever` | whad/device/device.py:714-742 | buffers equal after stripping behave alike on all later input |
| `Framing.DecodeAppend` | whad/device/device.py:713-742 | decoding is incremental: payloads and rest of a concatenation come from the rest of the first part |
| `Framing.FramingRoundTrip` | whad/device/device.py:647-742 | frames with noise between them decode to exactly the payloads sent, except a final empty frame |
| `Framing.ChunkedRoundTrip` | whad/device/device.py:647-742 | the same for every chunking, as an if-and-only-if |
| `Framing.SingleFrameRoundTrip` | whad/device/device.py:652-660 | a frame alone round-trips exactly for 1 to 65535 bytes |
| `Framing.FrameLayout` | whad/device/device.py:652-660 | a frame is AC BE, the length with its low byte first, and the payload |
| `Framing.PayloadsAreShort` | whad/device/device.py:719-721 | no payload is longer than the 16-bit length allows |
| `Framing.RestIsBounded` | whad/device/device.py:714-742 | the rest is stripped, incomplete, and at most 65538 bytes long |
| `Parsing.TakeRunIs` | whad/device/device.py:713-742 | with a parser that may raise, for every chunking: the messages of the payloads before the first bad one come out, and a call raises exactly if there is one so far |
| `Parsing.BadFrameStaysFirst` | whad/device/device.py:713-728 | a payload the parser raises on is met again by every later call, and nothing comes out |
| `Parsing.EmptyFrameBlocks` | whad/device/device.py:717-728 | an empty frame and one more byte block the decoder if the parser raises on no content |
| `Router.StepKeepsOrder` | whad/device/device.py:771-820 | every action keeps each queue equal to what was routed to it minus what left it, in order |
| `Router.RunKeepsOrder` | whad/device/device.py:584-820 | the same over every interleaving |
| `Router.Conservation` | whad/device/device.py:584-820 | every accepted message is in one queue, dispatched, returned, or lost, as multisets |
| `Router.LostOnlyWithoutFilter` | whad/device/device.py:606-617 | messages are lost exactly in runs where a waiter finds one with no filter set |
| `Router.LostOnlyAfterClearing` | whad/device/device.py:562-617 | nothing is lost in a run in which no one clears the filter |
| `Router.LosingRun` | whad/device/device.py:562-617 | a loss: filter set, reply queued, filter cleared, waiter |
| `Router.ConservationWithoutLoss` | whad/device/device.py:584-820 | then each accepted message is in one queue, dispatched or returned |
| `Router.BackgroundWaitsForConnector` | whad/device/device.py:806-809 | nothing leaves the background queue while no connector is set |
| `Router.RoutedByInstalledFilter` | whad/device/device.py:785-796 | from installing a filter to its next change, every arrival is routed by it |
| `Router.ClosingDropsNop` | whad/device/device.py:499-523 | the NOP of `close` enters no queue |
| `Router.WaitOutcome` | whad/device/device.py:606-627 | whatever the other threads do meanwhile, outcome and departures from the reply queue are the verdict on all replies queued or joining |
| `Router.VerdictIs` | whad/device/device.py:606-627 | the verdict: the first match is returned, all before it dispatched once, in order; a refused domain before it raises; no match, no reply |
| `Router.WaitAlone` | whad/device/device.py:606-627 | with no other thread at work, nothing else changes |
| `Router.WaitReturnsQueued` | whad/device/device.py:606-617 | the waiter returns the earliest match of the queue and has dispatched everything before it once, in order |
| `Router.WaitReturnsFirstArrival` | whad/device/device.py:606-627 | without a queued match it dispatches the queue, then returns the first matching arrival, and gives up exactly when there is none |
| `Router.WaitRaises` | whad/device/device.py:611-613 | a refused domain met before any match ends the wait with an exception |
| `Router.AnswerPasses` | whad/device/device.py:674-690 | what answers a command passes its filter; under the default one it is a command result, never another generic message |
| `Router.DefaultFilterAccepts` | whad/device/device.py:674-680 | and both kinds of command result do |
| `Router.CommandAnswerIsFresh` | whad/device/device.py:674-690 | a command's answer arrived after the command exactly when no older reply passes its filter |
| `Router.StaleAnswer` | whad/device/device.py:674-690 | a run in which a command is answered by a message from before it |
| `Router.WaitIsRun` | whad/device/device.py:606-627 | waiting is a run of takings and the steps of other threads, so conservation and order hold of it |
| `Router.AllAccepted` | whad/device/device.py:771-796 | while not closing, everything received is accepted in order |
| `Router.ProcessDrains` | whad/device/device.py:798-820 | once a connector is set, as many turns as there are messages dispatch the whole background queue, in order |
| `Device.LinkDeliversInOrder` | whad/device/device.py:647-820 | end to end: framed messages, any noise, chunking and interleaving, are all accepted once and in order |
| `Device.WhadDevice.OnDataReceived` | whad/device/device.py:701-742 | routes exactly the messages framed in buffer plus data, up to a payload the parser raises on; what is left in the buffer |
| `Device.WhadDevice.OnMessageReceived` | whad/device/device.py:771-796 | routes by the filter, drops while closing |
| `Device.WhadDevice.ProcessMessages` | whad/device/device.py:798-820 | dispatches the oldest background message if there is a connector |
| `Device.WhadDevice.DispatchMessage` | whad/device/device.py:745-769 | the callbacks that the connector gets, and when it raises |
| `Device.WhadDevice.WaitForMessage` | whad/device/device.py:584-627 | follows `Router.Wait`, with arrivals, processing and closing by other threads before each `get`; the connector saw exactly the messages dispatched by any thread |
| `Device.WhadDevice.SendMessage` | whad/device/device.py:631-660 | writes one frame, with the new filter in force before the first byte |
| `Device.WhadDevice.SendCommand` | whad/device/device.py:663-698 | follows `Router.Command`, with the default filter if none is given |
| `Device.WhadDevice.Close` | whad/device/device.py:493-523 | leaves both queues as they are |
| `Endpoint.HandOverAllDelivers` | whad/device/device.py:1074-1091 | a list of packet messages is delivered once each, in order, to the pending queue or the callback |
| `Endpoint.DispatchAllFeeds` | whad/device/device.py:1043-1062 | dispatching feeds exactly the packet messages, in order, to the lockable queue |
| `Endpoint.DispatchAllDelivers` | whad/device/device.py:1043-1091 | unlocked, exactly their packets reach the application, in order; locked, none |
| `Endpoint.DispatchAllTells` | whad/device/device.py:745-769 | over any list of messages, each of the callbacks for any, discovery, generic and domain messages gets exactly those meant for it, in order |
| `Endpoint.DispatchAllGivesEvents` | whad/device/device.py:1063-1072 | and `on_event` gets exactly the events |
| `LockQueue.FifoIffSafe` | whad/device/connector.py:268-319 | order is kept throughout a run exactly when no packet is handed over past a backlog and `lock` finds nothing to clear |
| `LockQueue.SafeStepKeepsFifo` | whad/device/connector.py:268-319 | each guarded step keeps handed over plus parked equal to the arrivals |
| `LockQueue.UnsafeStepBreaksFifo` | whad/device/connector.py:268-303 | an unguarded step breaks it |
| `LockQueue.QuietRunsKeepFifo` | whad/device/connector.py:268-319 | from a fresh connector, order is always kept if nothing is parked inside `lock` or in the window of `unlock`, no packet is about to be parked when the flag is cleared, and `lock` meets no backlog |
| `LockQueue.LostInsideLock` | whad/device/connector.py:273-277 | a packet between setting the flag and clearing the queue is lost |
| `LockQueue.LockIsRun` | whad/device/connector.py:268-277 | a call of `lock` is a run; it keeps the order exactly with no backlog and nothing in between |
| `LockQueue.ParkedTooLate` | whad/device/device.py:1056-1060 | a packet whose flag was read before `unlock` ended, and that is parked after, is overtaken |
| `LockQueue.UnlockIsRun` | whad/device/connector.py:279-303 | a call of `unlock` is a run of the queue; only a locked connector is left with something parked |
| `LockQueue.UnlockHandsOver` | whad/device/connector.py:279-303 | unlocking hands over what was parked and then what came in, in order, up to the window |
| `LockQueue.OvertakenInTheWindow` | whad/device/connector.py:288-303 | a packet in the window of `unlock` stays behind and is overtaken |
| `LockQueue.LockedHandsNothing` | whad/device/connector.py:268-319 | while locked and not unlocking, nothing is handed over |
| `Connectors.Connector.Lock` | whad/device/connector.py:268-277 | follows `LockQueue.Locked`: sets the flag, takes in what comes between, clears the queue |
| `Connectors.Connector.Unlock` | whad/device/connector.py:279-303 | follows `LockQueue.Unlocked`, locked or not; delivers exactly what that hands over, in order; what is left is what came in the window |
| `Connectors.Connector.WaitPacket` | whad/device/connector.py:252-266 | first in, first out, and only in synchronous mode |
| `Connectors.Connector.AddPendingPacket` | whad/device/connector.py:243-250 | queued only in synchronous mode |
| `Connectors.Connector.OnDomainPacket` | whad/device/device.py:1056-1062 | parked while locked, handed over otherwise |
| `TcpSocket.TcpSocketConnector.OnDataReceived` | whad/device/tcp.py:264-309 | forwards, framed again, exactly the messages that come out of buffer plus data, and stops at a payload the parser raises on |
| `TcpSocket.TcpSocketConnector.OnAnyMsg` | whad/device/tcp.py:368-393 | one frame to the client, if there is one |
| `UnixSocket.UnixSocketConnector.OnDataReceived` | whad/device/unix.py:523-565 | raises exactly when there is a complete frame; sends nothing, and keeps every frame |
| `UnixSocket.RaisesForGood` | whad/device/unix.py:528-565 | for every chunking, each call raises from the one that completes the first frame on |
| `UnixSocket.GoodFrameRaises` | whad/device/unix.py:542-554 | one frame with a message that parses is enough |
| `UnixSocket.UnixSocketConnector.OnAnyMsg` | whad/device/unix.py:626-651 | one frame to the client, if there is one |
| `Relay.RelayedStreamDecodes` | whad/device/tcp.py:285-298 | the relayed stream decodes to the messages forwarded and leaves nothing over |
| `Relay.RelayIsTransparent` | whad/device/tcp.py:264-309 | the device decodes from the relayed stream what it would have decoded from the original, up to a payload the parser raises on |
| `LinkLayerRuns.EncryptThenDecrypt` | whad/ble/crypto.py:258-303 | what `encrypt` returns decrypts to the payload, at its counter, exactly if the receiver's window reaches that counter |
| `LinkLayer.LinkLayerCryptoManager.Decrypt` | whad/ble/crypto.py:272-303 | the first counter in the window that verifies; on failure both counters are as before |
| `LinkLayer.SearchFindsFirst` | whad/ble/crypto.py:284-297 | the search gives the least counter that verifies, and nothing exactly when none does |
| `LinkLayer.LinkLayerDecryptor.AttemptToDecrypt` | whad/ble/crypto.py:429-473 | raises, skips, or does what the search over sessions and keys says; see `AttemptAllFinds`, `DecryptedIffFollowed` |
| `LinkLayer.AttemptAllFinds` | whad/ble/crypto.py:447-473 | the first pair of session and key, in this order, that opens the payload decides; nothing is decrypted exactly when no pair does |
| `LinkLayer.MaskHeaderIs` | whad/ble/crypto.py:262-276 | the mask takes out exactly bits 2 to 4 of the header |
| `LinkLayer.LinkLayerDecryptor.TryKey` | whad/ble/crypto.py:450-467 | a manager is stored once it has decrypted, and is untouched otherwise |
| `LinkLayerRuns.NonceInjective` | whad/ble/crypto.py:250-256 | direction, counter below 2^32 and IV determine the nonce |
| `LinkLayerRuns.TryOnAir` | whad/ble/crypto.py:258-292 | an attempt succeeds exactly at the right session, direction and counter, whatever bits 2 to 4 of the header on the air are, and then gives the body |
| `LinkLayerRuns.SealedUnderClear` | whad/ble/crypto.py:272-292 | what any peer sealed under a header with bits 2 to 4 zero opens under every header on the air that agrees in the other bits |
| `LinkLayerRuns.PlainIsOriginal` | whad/ble/crypto.py:469-472 | the packet given back is the original PDU up to those three bits, when the length on the air counts the MIC |
| `LinkLayerRuns.SessionLayout` | whad/ble/crypto.py:206-225 | order and byte order of key diversifiers and vectors in session key and IV |
| `LinkLayerRuns.NonceLayout` | whad/ble/crypto.py:250-256 | order and byte order of the nonce |
| `LinkLayerRuns.WindowExample` | whad/ble/crypto.py:272-284 | one lost packet in a row is made up for, two are not |
| `LinkLayerRuns.PacketLayout` | whad/ble/crypto.py:441-456 | where the payload is in a packet, and which packets are passed over |
| `LinkLayerRuns.AttemptTracks` | whad/ble/crypto.py:447-473 | with any list of keys holding the right one, one packet moves only its own counter |
| `LinkLayerRuns.DecryptorTracks` | whad/ble/crypto.py:429-473 | on every run of drops, repeats and reorderings the decryptor does what the counters predict |
| `LinkLayerRuns.LossyRunDecrypts` | whad/ble/crypto.py:272-473 | every delivered packet decrypts to its body, under the header of the air and the length without the MIC, exactly when losses stay below the tolerance; counters are then the sender's next |
| `LinkLayerRuns.DesynchronisedForever` | whad/ble/crypto.py:298-303 | past the tolerance a direction is never decrypted again |
| `LinkLayerRuns.DecryptedIffFollowed` | whad/ble/crypto.py:447-473 | with any managers, keys and sessions: a packet is decrypted exactly if some key has, or gets, a manager of its session whose counter is near enough |
| `LinkLayerRuns.OtherSessionIsMissed` | whad/ble/crypto.py:450-455 | a key that has decrypted something of one session never decrypts anything of another, whatever material is added; only a different key that gives the same session could |
| `LinkLayerRuns.AllGenuineIsPossible` | whad/ble/crypto.py:250-270 | every run with counters below 2^31 - 1, in both directions, can meet the hypotheses |
| `LegacyPairing.C1RoundTrip` | whad/ble/crypto.py:71-102 | `c1` and `c1m1` undo each other on 16-byte blocks |
| `LegacyPairing.C1Is` | whad/ble/crypto.py:71-85 | the confirm value written out |
| `LegacyPairing.ExplainsIs` | whad/ble/crypto.py:723-740 | when a passkey explains a capture, in the order of the air: inputs, and which random goes with which confirm value |
| `LegacyPairing.KeysOfIs` | whad/ble/crypto.py:738-745 | the short-term key found decrypts under the passkey to the low halves of the master's and the slave's random |
| `LegacyPairing.LegacyPairingCracking.ConfirmValue` | whad/ble/crypto.py:726-737 | the inline computation is `c1` on reversed inputs |
| `LegacyPairing.LegacyPairingCracking.Search` | whad/ble/crypto.py:723-745 | the least passkey that explains the capture; nothing exactly when there is none |
| `LegacyPairing.LegacyPairingCracking.Keys` | whad/ble/crypto.py:707-745 | a stored result is returned as it is; otherwise the least passkey that explains the capture and its short-term key, or nothing exactly when there is none |
| `MeshNetwork.NetworkRoundTrip` | whad/btmesh/crypto.py:558-698 | encrypt, obfuscate, deobfuscate, decrypt gives back header, destination and PDU with a valid MIC, for either credentials; sending fails exactly for an empty access PDU |
| `MeshNetwork.DeobfuscateObfuscated` | whad/btmesh/crypto.py:647-698 | deobfuscation recovers the six header bytes |
| `MeshNetwork.HeaderRoundTrip` | whad/btmesh/stack/network/__init__.py:237-254 | the receiver rebuilds the header from its bytes |
| `MeshNetwork.NonceInjective` | whad/btmesh/crypto.py:572-580 | header and IV index determine each other's network nonce: equal nonces, equal headers and equal indexes |
| `MeshNetwork.HeaderLayout` | whad/btmesh/crypto.py:572-580 | header bytes, nonce and MIC sizes of one header |
| `MeshNetwork.SendIs` | whad/btmesh/crypto.py:558-674 | what goes over the air, written out |
| `MeshNetwork.K2Is` | whad/btmesh/crypto.py:58-70 | three chained MACs as one number modulo 2^263 |
| `MeshNetwork.ManagerOfIs` | whad/btmesh/crypto.py:467-540 | NIDs, encryption, privacy and private beacon keys of a network key |
| `MeshNetwork.ByNidIs` | whad/btmesh/crypto.py:558-598 | which credentials a NID stands for |
| `MeshNetwork.AlteredPduFailsMic` | whad/btmesh/stack/network/__init__.py:236-270 | a PDU whose obfuscated header reads anything else than what was sent is read so and fails its MIC check |
| `MeshNetwork.RelayedPduFailsMic` | whad/btmesh/stack/network/__init__.py:179-216 | in particular what `relay_packet` makes |
| `MeshNetwork.BeaconRoundTrip` | whad/btmesh/crypto.py:733-798 | a private beacon comes back with its flags, IV index and a valid tag |
| `MeshNetwork.BeaconIsCcm` | whad/btmesh/crypto.py:733-768 | a private beacon is its data under the CCM of RFC 3610, put together from single AES blocks |
| `MeshNetwork.AdmittedIffFirst` | whad/btmesh/stack/network/__init__.py:218-270 | over any run, a PDU is admitted exactly if its MIC holds and none before shows its sequence number and source |
| `MeshNetwork.AlteredCopyShutsOut` | whad/btmesh/stack/network/__init__.py:150-166 | a copy with any other TTL that comes first keeps the genuine PDU out |
| `MeshNetwork.NetworkLayer.OnNetPduReceived` | whad/btmesh/stack/network/__init__.py:218-270 | follows the admission function |
| `MeshTransport.SeqAuthRecovered` | whad/btmesh/stack/utils.py:339-365 | a segment gives the SeqAuth of its message back exactly when it is less than 8192 numbers away |
| `MeshTransport.CalculateSeqAuthIs` | whad/btmesh/stack/utils.py:339-365 | for any 13 bits: the last number up to that of the PDU which ends in them |
| `MeshTransport.Split` | whad/btmesh/stack/lower_transport/__init__.py:120-130 | the fragments join to the message; one fragment exactly up to 15 bytes, at most 32 exactly up to 384 |
| `MeshTransport.SegmentCount` | whad/btmesh/stack/lower_transport/__init__.py:120-130 | how many segments there are |
| `MeshTransport.ChunkAt` | whad/btmesh/stack/lower_transport/__init__.py:120-130 | segment i carries the twelve bytes from 12 i on |
| `MeshTransport.PduLayout` | whad/btmesh/stack/lower_transport/__init__.py:120-130 | the fields of a PDU |
| `MeshTransport.SequenceNumbersDiffer` | whad/btmesh/stack/upper_transport/__init__.py:283-287 | no sequence number is used twice exactly if only the last message has more than four PDUs |
| `MeshTransport.Reassembly` | whad/btmesh/stack/lower_transport/__init__.py:451-608 | under any order, loss, repeats and older PDUs, a message is sent up exactly if all its segments arrive, once, with its bytes and the context of the first to arrive |
| `MeshTransport.OlderDiscarded` | whad/btmesh/stack/lower_transport/__init__.py:471-496 | after a newer PDU, older ones have no effect |
| `MeshTransport.TooLongNeverArrives` | whad/btmesh/stack/lower_transport/__init__.py:534-608 | among any PDUs with segments of at most 12 bytes, no message of more than 384 bytes is put together |
| `MeshTransport.SentUpIncreasing` | whad/btmesh/stack/lower_transport/__init__.py:451-608 | over any run, each message sent up is newer than all before exactly if no stray segment completes an older transaction |
| `MeshTransport.NumbersApartNoStray` | whad/btmesh/stack/lower_transport/__init__.py:499-508 | there is none if no segment shares its SeqAuth with an unsegmented PDU |
| `MeshTransport.StrayExample` | whad/btmesh/stack/lower_transport/__init__.py:499-508 | three PDUs that break that order |
| `MeshTransport.SourcesAreIndependent` | whad/btmesh/stack/lower_transport/__init__.py:451-532 | what is done for a source depends on its own PDUs alone |
| `MeshTransport.LowerTransportLayer.DispatchAccessRxPdu` | whad/btmesh/stack/lower_transport/__init__.py:451-532 | follows the transition of one source; when it raises |
| `MeshTransport.LowerTransportLayer.ProcessRxSegMessage` | whad/btmesh/stack/lower_transport/__init__.py:534-608 | adds a segment; the loop joins the fragments in the order of their offsets |
| `MeshAccess.NonceInjective` | whad/btmesh/crypto.py:854-862 | kind of key, MIC size, sequence number, addresses and IV index determine the nonce |
| `MeshAccess.NonceParts` | whad/btmesh/crypto.py:854-862 | where these are in the nonce |
| `MeshAccess.AccessSizes` | whad/btmesh/crypto.py:84-93 | `k4`, and the size of what is sent |
| `MeshAccess.AccessRoundTrip` | whad/btmesh/crypto.py:1099-1180 | decryption undoes encryption under application and device keys, with either MIC size |
| `MeshAccess.SendAccessIs` | whad/btmesh/stack/upper_transport/__init__.py:261-355 | when nothing is sent, and that the raw bytes decrypt to the message, for virtual destinations under the label |
| `MeshAccess.VirtualRoundTrip` | whad/btmesh/crypto.py:983-1045 | the message comes back with its label exactly if no other label verifies before it |
| `MeshAccess.MessageAcceptedIff` | whad/btmesh/stack/upper_transport/__init__.py:167-259 | a reassembled message decrypts exactly with a short MIC, the right sequence number, and its key where the receiver looks for it |
| `MeshAccess.FindsKeyIs` | whad/btmesh/stack/upper_transport/__init__.py:132-150 | an application key is found exactly if none before it has the same identifier |
| `MeshAccess.AccessMessageArrivesIff` | whad/btmesh/stack/upper_transport/__init__.py:167-355 | end to end over any arrival order: accepted once and unchanged, and exactly when |
| `MeshAccess.DirectlySentIsAccepted` | whad/btmesh/stack/lower_transport/__init__.py:639-927 | over a perfect link and from one end to the other: besides, exactly if it needs no segments or has a unicast destination |
| `MeshProvisioning.Provision` | whad/btmesh/stack/provisioning/__init__.py:205-710 | with any two authentication values: completes exactly if the parties accept each other; then all derived values agree and the data arrive authentic |
| `MeshProvisioning.DerivationsAre` | whad/btmesh/crypto.py:232-319 | every derivation written out; session key, nonce and device key are MACs of three labels under one key |
| `MeshProvisioning.ExchangeKeys` | whad/btmesh/stack/provisioning/__init__.py:205-223 | both parties hold the salt and key of one transcript |
| `MeshProvisioning.Confirm` | whad/btmesh/stack/provisioning/__init__.py:363-664 | the parties accept each other exactly under HMAC, or if the CMACs with either value agree for both randoms; exactly when the first check fails |
| `MeshProvisioning.AcceptedIffSameValue` | whad/btmesh/crypto.py:259-299 | short of a collision, exactly under HMAC or with the same value |
| `MeshProvisioning.MismatchExample` | whad/btmesh/crypto.py:259-299 | 1234 against 4321: HMAC accepts, CMAC refuses |
| `MeshProvisioning.SendData` | whad/btmesh/crypto.py:301-344 | session key and nonce agree, and the data decrypt as valid |
| `Lorawan.EncryptFrame` | whad/lorawan/crypto.py:115-156 | the loops give the pointwise keystream; more than 255 blocks raise |
| `Lorawan.EncryptFopts` | whad/lorawan/crypto.py:158-189 | the options under block 0; more than 16 bytes raise |
| `Lorawan.FrameXorTwice` | whad/lorawan/crypto.py:115-156 | encryption is its own inverse |
| `Lorawan.FrameXorPrefix` | whad/lorawan/crypto.py:150-153 | a prefix encrypts to the prefix |
| `Lorawan.ABlockInjective` | whad/lorawan/crypto.py:138-142 | direction, address, counter and index determine the block |
| `Lorawan.ABlockLayout` | whad/lorawan/crypto.py:138-142 | the block, written out |
| `Lorawan.KeystreamBlocksDiffer` | whad/lorawan/crypto.py:138-148 | no keystream block repeats |
| `Lorawan.UplinkRoundTrip` | whad/lorawan/crypto.py:228-248 | an uplink packet passes the MIC and is restored exactly off port 0 or under a zero keystream |
| `Lorawan.EncryptedDataIs` | whad/lorawan/crypto.py:318-362 | byte by byte: the payload goes under the network session key on port 0 and the application session key elsewhere, the options under block 0 of the latter, the MIC under the former |
| `Lorawan.DecryptedUplinkIs` | whad/lorawan/crypto.py:228-248 | exactly when decryption succeeds, and every byte it gives |
| `Lorawan.MissingKeys` | whad/lorawan/crypto.py:225-370 | which missing key is complained about |
| `Lorawan.JoinAcceptRoundTrip` | whad/lorawan/crypto.py:208-316 | a join-accept encrypts exactly when block-aligned and is restored exactly for header 0x20 |
| `Lorawan.EncryptedJoinAcceptIs` | whad/lorawan/crypto.py:300-316 | the forward cipher takes what is sent back to body and MIC |
| `Lorawan.DecryptedJoinAcceptIs` | whad/lorawan/crypto.py:208-226 | a join-accept is accepted exactly if the last four decrypted bytes are the MIC of header and the others, and comes out as these |
| `Lorawan.DownlinkNeverDecrypts` | whad/lorawan/crypto.py:255-370 | an encrypted downlink packet carries the right MIC and its keystreams restore it, yet decryption always fails |
| `Lorawan.EcbInverse` | whad/lorawan/crypto.py:213-214 | the block modes undo each other on whole blocks |
| `Lorawan.EncryptPacket` | whad/lorawan/crypto.py:284-370 | overwrites a data packet in place, builds a join-accept anew, raises as specified |
| `Lorawan.DecryptPacket` | whad/lorawan/crypto.py:191-282 | the same for decryption; a MIC mismatch changes no field |
| `ZigbeeHash.Hash` | whad/zigbee/crypto.py:20-35 | the loops compute the block-by-block hash of the padded input |
| `ZigbeeHash.HashKey` | whad/zigbee/crypto.py:37-48 | the keyed hash |
| `ZigbeeHash.Padded` | whad/zigbee/crypto.py:22-26 | the padding loop |
| `ZigbeeHash.PadShape` | whad/zigbee/crypto.py:22-26 | input, 80, the fewest zeros, length, when the last block holds at most 13 bytes |
| `ZigbeeHash.PadInjective` | whad/zigbee/crypto.py:22-26 | no other input has the same padding, exactly when the last block does not hold 15 bytes |
| `ZigbeeHash.KeyedHashPadsWell` | whad/zigbee/crypto.py:37-48 | with a 16-byte key, both inputs that the keyed hash makes pad well |
| `ZigbeeHash.KeyedHashIs` | whad/zigbee/crypto.py:12-48 | the keyed hash block by block, from the key and the input byte |
| `Pattern.BytesBitsRoundTrip` | whad/helpers.py:70-100 | bytes come back from their bits |
| `Pattern.BitsBytesRoundTrip` | whad/helpers.py:85-100 | bits come back filled up to whole bytes |
| `Pattern.BitExamples` | whad/helpers.py:70-100 | most significant bit first |
| `Pattern.Crop` | whad/helpers.py:188-203 | crops exactly the zero bytes at both ends of the mask |
| `Pattern.CropKeepsMatching` | whad/helpers.py:188-203 | the cropped pattern matches the same packets |
| `Pattern.AndBitsAgree` | whad/helpers.py:188-203 | to match under a mask is to agree in every bit set in it |
| `Pattern.CropIsMinimal` | whad/helpers.py:188-203 | no shorter window covers the mask |
| `Scanning.ReportedExactlyOnce` | whad/ble/scanning.py:285-378 | over any run no address is returned twice; returned means reported and scanned |
| `Scanning.CallReports` | whad/ble/scanning.py:285-378 | one call returns exactly the devices that become reported, and which those are |
| `Scanning.NothingDueIsMissed` | whad/ble/scanning.py:285-293 | every known device with a scan response or past the timeout has been returned |
| `Scanning.FirstScanRspKept` | whad/ble/scanning.py:231-240 | the first scan response is never overwritten |
| `Scanning.CallKnows` | whad/ble/scanning.py:296-378 | after a call a device is known exactly if it was before or the call advertised it, parsing and past the filter |
| `Scanning.CallRegisters` | whad/ble/scanning.py:311-353 | a new device carries what was advertised, and when |
| `Scanning.CallKeeps` | whad/ble/scanning.py:231-282 | a known one keeps that, whatever comes; when it was last seen, and which scan response it has |
| `Scanning.KnownIffAdvertised` | whad/ble/scanning.py:296-378 | over any run a device is known exactly if some call advertised it |
| `Scanning.FirstAdvertisementKept` | whad/ble/scanning.py:273-282 | and carries what its first advertisement said |
| `Scanning.ReturnedIffDue` | whad/ble/scanning.py:285-293 | after each call, returned are exactly those returned before and those due |
| `Scanning.AdvertisedIsReturned` | whad/ble/scanning.py:285-378 | an advertised device is returned once a call comes more than half a second later or brings its scan response |
| `Scanning.DueInOrder` | whad/ble/scanning.py:285-293 | devices due together are returned in the order in which they were found |
| `Scanning.AdvertisingDevicesDB.OnDeviceFound` | whad/ble/scanning.py:296-378 | the objects follow the database transition |
| `Scanning.AdvertisingDevicesDB.ApplyScanRspTimeout` | whad/ble/scanning.py:285-293 | the sweep yields the due devices in insertion order |
| `Scanning.AdvertisingDevicesDB.RegisterDevice` | whad/ble/scanning.py:273-282 | a new device is stored, a known one only marked as seen |
| `Replay.TrackerCounts` | whad/ble/connector/replay.py:75-133 | on every trace the active list is requests minus answers held back, and a version exchange is listed at most once |
| `Replay.AnswerHeldBackIffPending` | whad/ble/connector/replay.py:98-133 | an answer is held back exactly when its procedure is pending; otherwise sent, refused, or (features) raised |
| `Replay.OthersPass` | whad/ble/connector/replay.py:129-133 | what answers nothing is sent, or refused if it is a control PDU that cannot be injected |
| `Replay.AnswerAfterRequest` | whad/ble/connector/replay.py:75-127 | which PDU answers which request: once the request has come in, the captured answer is held back |
| `Replay.ControlKinds` | whad/ble/connector/replay.py:129-131 | which PDUs those are |
| `Replay.SentIsExpected` | whad/ble/connector/replay.py:135-174 | over any trace, exactly the central's packets that are neither held back, refused nor raised on go out, in order, and none when not emitter |
| `Replay.Replayer.SendPacket` | whad/ble/connector/replay.py:135-174 | which packets go out, and which are taken for the peer's |
| `Replay.Replayer.ShouldSendPdu` | whad/ble/connector/replay.py:98-133 | follows the decision table |
| `Replay.Replayer.AnalyzeIncomingPdu` | whad/ble/connector/replay.py:75-95 | follows the request table |

## Left out

* Sockets, serial ports, `select`, threads and locks as such: their effects are the atomic actions and the `batches`
  parameters. Two unlocked senders interleaving the header and payload of their frames are not modelled, nor two threads
  inside `on_domain_msg` at once, nor that an exception in a background thread ends it.
* Protobuf and scapy: `Hub` is an abstract pair of a serialiser and a parser that may also give nothing or raise;
  packets are records with an explicit serialiser. The hub does not change version during a run.
* AES, CMAC, CCM, HMAC and P-256 internals: unknown functions with the laws in `Lawful`.
* Timeouts: `batches` running out stands for the timeout, so the outcome `NoReply` covers both the exception of a
  command and the `None` of a plain wait; with no timeout it means still blocked.
* Packet monitors, error callbacks and the bridge; `on_disconnection`; `UnixSocketCallbacksConnector`;
  `wait_for_single_message`, which takes the first queued reply whatever it is; virtual devices.
* BLE: the traffic analyzers that collect keys and session material, and `add_key`.
* Mesh: control messages and acknowledgements of the lower transport layer (so a run of PDUs stands for whatever its
  retransmissions put on the air), secure network beacons, deriving virtual addresses, the address checks of the
  network layer, and static out-of-band values; an authentication value is given as the bytes `set_auth_value` makes.
* LoRaWAN: key derivation, and parsing a packet from its bytes (the options length field is carried along unchanged).
* Zigbee: `CryptoManager`, which works on scapy layers.
* Pattern building from scapy fields; matching asks for no packet bytes where the mask is zero, and a pattern shorter
  than its mask is not considered.
* Scanning: names and textual output, and address filters are taken as already in lower case.
* Replay: a PDU carries one procedure, and the connection itself is left out.
* All command-line tools, shells, installers, examples and configuration.
