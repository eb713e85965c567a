# Verified model of the VMC media paths

The VMC thin client plays audio and video that a host streams to it, over plain UDP or as
low-latency DASH. This project models the protocols and state machines both paths rest on and proves
what they guarantee over every input, every run and every interleaving.

Check everything with `dafny verify dfyconfig.toml`.

## How it is organised

Code that updates state in place is a class or a method with loops, proved equal to a function on
values; the theorems are about those functions, so they hold of the code. Concurrent code is a
relation over atomic steps, and its theorems range over all step sequences.

- **UDP path.** `NalUnits`, `NalRuns`, `NalCodes` (byte stream to access units), `Sender` (access units to
  datagrams), `Crc8`, `CrcPoly`, `Protocol` (the 17-byte header and its checksum), `JitterBuffer`, `JitterRuns`
  (reordering with wrapping sequence numbers), `Fragment` (reassembly), `Client` (receive and drain
  loops), `Reassembly`, `Lossy` (reassembly of what is left of a stream), `EndToEnd` (the composition),
  `ClientRuns` (arrivals and drains interleaved in any way).
- **Telemetry.** `Telemetry`, `TelemetryRuns`, `TelemetryLive`: any number of producers, one writer,
  byte-wise copies; what never goes wrong, and what the writer gets done.
- **DASH path.** `Progressive` (serving a file that is still growing), `Chunked` (transfer coding),
  `DashReader` (the client's windowed fetch loop).
- **Pools, pacing, statistics.** `SlotPool`, `Scanout`, `ScanoutSteps` (its races), `RingBuffer`, `Servo`, `TheilSen`, `ClockMap`.
- `Words` holds machine words, byte copies and counting.

The main results: `EndToEnd.StreamToClient`, `EndToEnd.Delivered`; `ClientRuns.StreamedInOrder`,
`ClientRuns.DeliveredUnderLoss`, `ClientRuns.NothingDamaged`, `ClientRuns.NotBehindIff`;
`TelemetryRuns.Safety`, `TelemetryRuns.InReservationOrder`, `TelemetryRuns.ReservationSafeIff`,
`TelemetryLive.WriterDrains`, `TelemetryLive.WaitingLineWritten`;
`NalRuns.CappedReadsDoNotMatter`, `NalRuns.GroupsOf`, `NalCodes.NalRoundTrip`; `Progressive.ClientGetsAllOrNothing`;
`Chunked.PrefixDecodes`, `Chunked.RoundTrip`; `Fragment.ReportedIffFrame`; `JitterRuns.DrainPlaysAll`,
`JitterRuns.PeekOutcome`, `JitterRuns.ForwardRunMonotone`, `JitterRuns.MonotoneIff`;
`CrcPoly.CrcIsRemainder`, `CrcPoly.RemainderUnique`; `Protocol.UndetectedIffCodeword` and the
detection theorems it gives, `Protocol.LengthChangeDetectedIff`; `Client.BufferKeptIff`;
`DashReader.DeliveredInSequence`, `DashReader.NoResetIff`, `DashReader.EndReachedIff`;
`SlotPool.DecodedInOrder`, `SlotPool.KeepsSequenceIff`; `Scanout.OnePlaceEach`, `Scanout.AvailableIff`,
`ScanoutSteps.TakenWasFree`; `RingBuffer.RunOps`; `TheilSen.BreakdownIff`, `TheilSen.Equivariant`;
`Servo.SettlesIff`.

## Where the code does less than its documentation says

The model follows the code; the lemmas named give a witness or the exact condition.

- Any refused keyframe packet, a mere duplicate included, empties the jitter buffer and sets its target
  delay to zero; the comment speaks of out-of-window keyframes only (apps/thinclient/main.c:3973-3982,
  src/transport/jitter_buffer.c:14-17). `Client.RefusedKeyframeWipes`; receiving keeps the buffer
  exactly in the other cases, `Client.BufferKeptIff`, and repetitions of other packets do no harm,
  `EndToEnd.Delivered`.
- A packet accepted behind the playout position makes playout go back (src/transport/jitter_buffer.c:97-102).
  `JitterRuns.LatePushRewinds`; of the buffer's own operations exactly such a push does,
  `JitterRuns.MonotoneIff`. The client goes back for one more reason: a keyframe packet too old to be
  accepted rebases the buffer on itself. Its exact condition is `ClientRuns.NotBehindIff`, and what is taken
  behind is played next, `ClientRuns.TakenBehindPlays`.
- A rebase skips everything buffered: the next drain plays the refused keyframe packet and nothing else,
  `ClientRuns.RebasePlaysAlone`.
- The sender packetises access units of up to 2 MB, the client's buffer takes 512 KB: larger ones are
  never delivered (tools/vmc_sim/main.c:297-351, src/video/fragment.c:22-74). `Reassembly.AuDelivered`.
- The 16-bit frame id comes round after 2^16 packets, and two access units that share one can be mixed
  (tools/vmc_sim/main.c:318, src/video/fragment.c:39-74). `Reassembly.SharedIdMixes`; it takes
  successive fragments more than 2^16 packets apart forward, or 2^16 - 1 or more backward,
  `Lossy.NearIsUnmistaken`, and 2^16 + 1 is enough, `Lossy.PeriodMixes`.
- Fragmented access units go to the decode queue while unfragmented ones are decoded inline at once
  (apps/thinclient/main.c:4026-4043). The order of `delivered` is the order in which access units leave
  reassembly; an unfragmented one can reach the decoder before an earlier fragmented one.
- The checksum covers as many bytes as the length field says: lowering that field can go undetected,
  raising it cannot. `Protocol.LengthChangeDetectedIff`.
- Frames are decoded in publication order only while each publication ranks behind the waiting ones, by
  deadline and then by slot index (apps/thinclient/main.c:918-924): `SlotPool.KeepsSequenceIff`. The UDP
  path publishes every frame with deadline 0 (apps/thinclient/main.c:4026-4028), `SlotPool.Reorders`.
- The test for the end of the content fires one segment early: the session can end with the last segment
  never asked for (apps/thinclient/main.c:3269-3270). `DashReader.EndReachedIff`, `DashReader.EndedEarly`;
  for audio it can also happen one segment later, `DashReader.AudioEndedEarlyIff`.
- A static manifest without availabilityStartTime counts its clock edge from 1970. Where the number read
  as an `int` is negative, as with half-second segments today, the end of the content is missed
  (apps/thinclient/main.c:2939-2983). `DashReader.EndMissed`. The comment calls the dropped start safe
  (apps/thinclient/main.c:2398-2402), but the switch from the live manifest to such a static one then fires
  the live-edge reset and delivers segments again, `DashReader.SwitchResets`. The reset fires exactly when
  the reader is past what clock and manifest reach, `DashReader.ResetIff`, and never in a run exactly when
  that does not fall, `DashReader.NoResetIff`.
- A reservation made while the telemetry ring is full can lose a line, its own or an older one, and stall
  the writer at the burnt slot (src/core/telemetry.c:98-104 and 184). `TelemetryRuns.ReservationSafeIff`.
  The repository's README calls this ring single-producer; the code serves many.
- A chunk size that brings the body beyond 2^63 bytes sends the client's decoder into an endless loop,
  whether or not the bytes ever come (apps/thinclient/main.c:2270-2272). `Chunked.Grow`,
  `Chunked.AnnouncedTooLong`.
- The server reads the tail of a segment once; a short read yields a truncated segment with a valid
  terminator (tools/vmc-dash-sim/main.c:536-548). `Progressive.ServesWholeSegment`.
- A flip given up leaves its buffer busy for good (apps/thinclient/main.c:813-829). `Scanout.LostForGood`.
- At the end of its stream the pipe source clears a flag but not the assembler's bytes, which come out
  again in front of the next access unit (tools/vmc_sim/main.c:768-775). `NalRuns.RestartCleanIff`.
- `is_pow2_or_zero` rejects zero (src/core/ringbuf.c:11-13). The two-turn loop of `vmc_jb_peek` always
  returns in its first turn (src/transport/jitter_buffer.c:96-122). The equal-times guard of
  `realtime_of` is never taken (tools/av_harness/av_report.py:283-284), see `ClockMap.Bracket`.
- A NAL unit too long for its buffer leaves its bare start code there, because code and body are appended
  one by one (tools/vmc_sim/main.c:221-222). `NalCodes.OversizedSlice`.
- Parameter sets that follow a slice stay with the access unit of that slice, not with the next one
  (tools/vmc_sim/main.c:223-231). `NalRuns.GroupsOf`.

## Model

| member | source | states |
|---|---|---|
| `EndToEnd.Delivered` | apps/thinclient/main.c:3960-4061 | for every list of access units of at most 256 datagrams, every first sequence number (so across the 32-bit wrap) and every arrival order without loss, packets other than keyframes' arriving any number of times, draining after the delay delivers exactly the sent access units, byte for byte and in order, and leaves the buffer empty |
| `EndToEnd.StreamToClient` | tools/vmc_sim/main.c:787-811 | the same from the encoder's byte stream: however it is cut into reads, while no NAL unit fills the input buffer, the client delivers exactly the access units of the whole stream |
| `EndToEnd.StreamAusBounded` | tools/vmc_sim/main.c:183-188 | no access unit cut from any stream exceeds the sender's buffer, so the sender's bound always holds |
| `EndToEnd.WireTransparent` | apps/thinclient/main.c:3964-3972 | a sent datagram is always accepted, and unless it is a refused keyframe packet it is exactly one push of what was sent |
| `EndToEnd.AllAccepted` | src/transport/jitter_buffer.c:33-81 | up to 256 datagrams in any order, with repetitions, are all accepted once into a fresh buffer, which then holds exactly them |
| `EndToEnd.DrainedInOrder` | apps/thinclient/main.c:3999-4061 | draining that buffer yields the packets exactly in the order they were sent |
| `EndToEnd.PlayedIsPrefix` | src/transport/jitter_buffer.c:83-132 | in a forward-only run without gaps the packets played are a prefix of the stream |
| `EndToEnd.RepetitionIgnored` | src/transport/jitter_buffer.c:43-47 | a repeated packet that is no keyframe's leaves everything buffered as it was |
| `ClientRuns.RunClient` | apps/thinclient/main.c:3955-4061 | the client's own methods, run on any arrivals and drains, go through exactly the states the theorems below are about |
| `ClientRuns.StreamedInOrder` | apps/thinclient/main.c:3955-4061 | in every client run that starts with the first packet, takes nothing behind the position, is never rebased and declares nothing lost, deliveries at every moment are a prefix of the sent access units that fit the client, for streams up to 2^32 - 256 datagrams |
| `ClientRuns.DeliveredUnderLoss` | apps/thinclient/main.c:3955-4061 | in every client run in which nothing is taken behind the position, with any loss, repetition, reordering, gaps and rebases, the client delivers a selection of the sent access units, whole, in order and none twice, for streams up to 2^31 datagrams in which no fragment is mistaken |
| `ClientRuns.NothingDamaged` | apps/thinclient/main.c:3955-4061 | over every client run against a stream of up to 2^32 datagrams, with any loss, duplication, reordering, rebases and rejected junk, everything delivered is one whole access unit that was sent, unless a fragment was mistaken for the next one of another |
| `ClientRuns.NotBehindIff` | apps/thinclient/main.c:3969-3983 | a datagram leaves nothing buffered behind the position if and only if it is neither accepted nor a keyframe packet, or is not behind it itself |
| `ClientRuns.TakenBehindPlays` | apps/thinclient/main.c:3969-3983 | a datagram taken behind the position, by acceptance or by a rebase, is the next thing played and moves playout back |
| `ClientRuns.RebasePlaysAlone` | apps/thinclient/main.c:3973-3982 | after a refused keyframe packet the next drain plays that packet and nothing else, whatever was buffered |
| `ClientRuns.ArrivalStands` | apps/thinclient/main.c:3960-3983 | an arrival not taken behind keeps every buffered item at the place in the stream its number says and never moves playout back |
| `ClientRuns.DrainStands` | apps/thinclient/main.c:3999-4061 | a drain plays packets of strictly rising stream numbers from the position on and counts exactly what it skips |
| `ClientRuns.OldReadsAhead` | src/transport/jitter_buffer.c:20-22 | beyond 2^31 packets an old packet compares as ahead, which is why the bound is needed |
| `Reassembly.AuDelivered` | src/video/fragment.c:39-74 | an access unit's packets in order deliver exactly it if it has at most 512 KB and nothing otherwise, and leave the assembler idle |
| `Reassembly.StreamDelivered` | apps/thinclient/main.c:4003-4044 | the packets of a stream in order deliver its fitting access units in order |
| `Reassembly.PiecesComplete` | tools/vmc_sim/main.c:318-350 | the fragments of an access unit form one complete frame whose chunks join to the access unit |
| `Reassembly.FrameIdsDiffer` | tools/vmc_sim/main.c:318-322 | in every stream of at most 2^16 + 1 packets the fragmented access units have different frame ids |
| `Reassembly.SameIdFar` | tools/vmc_sim/main.c:318-322 | access units that share a frame id are at least 2^16 packets apart |
| `Reassembly.PeriodApart` | tools/vmc_sim/main.c:318-322 | access units exactly 2^16 packets apart do share their frame id |
| `Reassembly.SharedIdMixes` | src/video/fragment.c:39-74 | for any two fragmented access units that share a frame id and any piece, the one up to there followed by the rest of the other is delivered as a mixture |
| `Lossy.DeliveredInOrder` | src/video/fragment.c:39-74 | whatever packets of a stream are lost, if the rest are played in order and no fragment is mistaken, what is delivered is a selection of the sent access units, whole, in order and none twice |
| `Lossy.FragmentFed` | src/video/fragment.c:39-74 | a fragment continues only its own access unit, and completes it only if all its pieces were fed |
| `Lossy.OnlyWholeAus` | src/video/fragment.c:39-74 | whatever packets of a stream are played, in any order and multiplicity, only whole access units of it come out unless a fragment is mistaken |
| `Lossy.DeliveredWhole` | src/video/fragment.c:39-74 | each access unit is delivered at the moment its last packet is played, whatever was played before |
| `Lossy.LookAlikes` | tools/vmc_sim/main.c:318-322 | a fragment that looks like the next one is it, or belongs to another access unit with the same frame id and is at least a period away |
| `Lossy.NearIsUnmistaken` | src/video/fragment.c:39-74 | nothing is mistaken while each fragment played is at most 2^16 packets after the previous one and fewer than 2^16 - 1 before it, however long the stream |
| `Lossy.DistinctIsUnmistaken` | src/video/fragment.c:39-74 | nothing is mistaken where the fragmented access units have different frame ids |
| `Lossy.PeriodMixes` | src/video/fragment.c:39-74 | for any two fragmented access units that start 2^16 packets apart, and any piece, fragments 2^16 + 1 apart are mistaken and a mixture delivered |
| `Sender.SendAu` | tools/vmc_sim/main.c:297-351 | the datagrams sent are those of the access unit's packets, numbered consecutively with wrap, and the sequence counter moves past them |
| `Sender.SendFragments` | tools/vmc_sim/main.c:318-350 | the fragment loop sends every fragment once, in order, with LAST on the final one alone |
| `Sender.EncodePacket` | tools/vmc_sim/main.c:297-317 | a packet's bytes on the wire are header, checksum and payload |
| `Sender.PieceInside` | tools/vmc_sim/main.c:326-332 | every fragment index lies inside the data, and exactly the last one reaches its end |
| `Sender.FragmentPacket` | tools/vmc_sim/main.c:329-347 | what one turn of the loop assembles is the specified packet |
| `Sender.SendFragment` | tools/vmc_sim/main.c:322-349 | one turn of the loop sends exactly that fragment of the access unit |
| `Sender.PacketFields` | tools/vmc_sim/main.c:297-351 | how many datagrams of 1400 bytes an access unit becomes, and the time, number, keyframe and fragment flags of each |
| `Client.ThinClient.constructor` | apps/thinclient/main.c:3864-3868 | the client starts with an empty buffer and an idle assembler |
| `Client.ThinClient.OnDatagram` | apps/thinclient/main.c:3960-3983 | one datagram changes the jitter buffer as specified: ignored when rejected or not video, pushed, or the buffer rebased on a refused keyframe |
| `Client.ThinClient.DrainPlayable` | apps/thinclient/main.c:3999-4061 | the loop ends and hands on exactly the drained items through reassembly |
| `Client.ThinClient.PlayOne` | apps/thinclient/main.c:4003-4060 | one item is handed on and its slot freed |
| `Client.ThinClient.DeliverSlot` | apps/thinclient/main.c:4005-4044 | a fragment is fed to the assembler, an unfragmented payload is delivered as it is |
| `Client.PushUnique` | src/transport/jitter_buffer.c:43-47 | a push never leaves a sequence number buffered twice |
| `Client.RefusedKeyframeWipes` | apps/thinclient/main.c:3973-3982 | any refused keyframe packet leaves only itself buffered and the target delay at zero |
| `Client.BufferKeptIff` | apps/thinclient/main.c:3969-3983 | a datagram leaves everything buffered and the target delay in place if and only if it is not a refused keyframe packet or there was nothing to lose |
| `Crc8.Update` | src/transport/protocol.c:29-42 | the nested loops compute the CRC of all bytes from any register |
| `Crc8.CrcInjective` | src/transport/protocol.c:29-42 | over the same bytes different registers stay different |
| `Crc8.CrcLinear` | src/transport/protocol.c:29-42 | the CRC of an exclusive-or is the exclusive-or of the CRCs |
| `Crc8.CrcParity` | src/transport/protocol.c:29-42 | the register's bit parity is the parity of everything fed to it |
| `Crc8.BurstNotCodeword` | src/transport/protocol.c:29-42 | no error confined to 8 consecutive bits across two bytes leaves the register at zero |
| `Crc8.CrcConcat` | src/transport/protocol.c:44-56 | the CRC may be continued over a second buffer |
| `Crc8.ByteStepOnto` | src/transport/protocol.c:29-42 | from any register some byte leads to any wanted register |
| `CrcPoly.CrcIsRemainder` | src/transport/protocol.c:29-42 | the checksum is the remainder of the message times x^8 by x^8 + x^2 + x + 1 over GF(2), with the quotient given |
| `CrcPoly.ChecksumIsRemainder` | src/transport/protocol.c:44-46 | the same for the bytes of a message and the checksum byte |
| `CrcPoly.RemainderUnique` | src/transport/protocol.c:29-42 | quotient and remainder are unique, so nothing else is the checksum |
| `CrcPoly.BinaryExpansion` | src/transport/protocol.c:29-42 | the polynomial of a byte is its binary expansion |
| `CrcPoly.CheckValue` | src/transport/protocol.c:29-42 | the nine ASCII digits give the catalogued check value 0xF4 |
| `Words.WordRoundTrip` | src/transport/protocol.c:8-27 | little-endian words survive reading and writing in both directions |
| `Words.CopyInto` | src/video/fragment.c:63-64 | a byte copy replaces exactly its range and keeps the rest |
| `Protocol.FrameCrc` | src/transport/protocol.c:49-56 | the checksum is that of prefix and payload joined |
| `Protocol.Encode` | src/transport/protocol.c:66-92 | the exact bytes written, which bytes stay, both error cases with nothing written, and when it succeeds |
| `Protocol.DecodeDatagram` | src/transport/protocol.c:94-133 | decoding with every error case in the code's order |
| `Protocol.DecodeOfEncoded` | src/transport/protocol.c:66-133 | decoding an encoded datagram, even with bytes after it, returns header and payload |
| `Protocol.EncodedOfDecoded` | src/transport/protocol.c:94-133 | whatever is accepted is, up to trailing bytes, the encoding of what was returned |
| `Protocol.UndetectedIffCodeword` | src/transport/protocol.c:116-133 | a change outside the length field is accepted if and only if the header stays valid and the error pattern's CRC equals the checksum's change |
| `Protocol.SingleByteDetected` | src/transport/protocol.c:116-133 | changing any one byte of a valid datagram of any length, bytes 6 and 7 apart, makes decoding fail |
| `Protocol.OddFlipsDetected` | src/transport/protocol.c:116-133 | flipping any odd number of bits outside the length field makes decoding fail |
| `Protocol.BurstDetected` | src/transport/protocol.c:116-133 | any error within 8 consecutive bits of two covered bytes makes decoding fail |
| `Protocol.RaisedLengthDetected` | src/transport/protocol.c:116-133 | a raised length field is rejected whatever the payload, for a datagram without trailing bytes |
| `Protocol.LoweredLengthAccepted` | src/transport/protocol.c:116-133 | for every header, payload but its last byte and lowered length some last byte makes the truncated datagram acceptable |
| `Protocol.LengthChangeDetectedIff` | src/transport/protocol.c:116-133 | a change of the length field is detected for all payloads if and only if it does not lower the length |
| `Protocol.FrameBytes` | src/transport/protocol.c:66-92 | the place and byte order of every header field, the checksum and the payload |
| `Protocol.DecodeBytes` | src/transport/protocol.c:94-133 | exactly which bytes are accepted, which fields they give, and with which error the others are rejected |
| `Fragment.UnpackOfPacked` | src/video/fragment.c:7-20 | unpacking a packed fragment header returns frame id, index and LAST |
| `Fragment.InitAssembler` | src/video/fragment.c:22-30 | succeeds exactly for capacities from 1 to the access-unit maximum, and then starts idle |
| `Fragment.Assembler.constructor` | src/video/fragment.c:22-30 | an accepted buffer gives an idle assembler |
| `Fragment.Assembler.Reset` | src/video/fragment.c:32-37 | forgets the frame in progress |
| `Fragment.Assembler.FeedPiece` | src/video/fragment.c:39-74 | new state, status and reported bytes of one feed, never filling beyond the capacity |
| `Fragment.ReportedIsFrame` | src/video/fragment.c:39-74 | whatever is reported is the concatenation of the immediately preceding consecutive feeds, indices 0 to n of one frame, LAST on the final one only |
| `Fragment.FrameReported` | src/video/fragment.c:39-74 | a whole frame fed in order from where it may start is reported at its last piece and leaves the assembler idle |
| `Fragment.ReportedIffFrame` | src/video/fragment.c:39-74 | for every history of feeds an access unit is reported if and only if the feeds end in a complete non-empty frame that fits |
| `Fragment.HeaderBytes` | src/video/fragment.c:7-20 | the four header bytes, least significant first, with the top bit of the index as LAST |
| `Fragment.FeedOutcome` | src/video/fragment.c:39-74 | exactly when a feed is accepted, out of sync or too large, and that a refused one leaves the assembler idle |
| `JitterBuffer.Jitter.constructor` | src/transport/jitter_buffer.c:7-12 | empty, with the given delay |
| `JitterBuffer.Jitter.Reset` | src/transport/jitter_buffer.c:14-17 | empty from the given sequence number, the target delay zero |
| `JitterBuffer.Jitter.FindSlot` | src/transport/jitter_buffer.c:24-31 | the lowest slot holding the sequence number, or none |
| `JitterBuffer.FindSeq` | src/transport/jitter_buffer.c:24-31 | the slot found holds the number and no earlier one does |
| `JitterBuffer.FindFree` | src/transport/jitter_buffer.c:56-59 | the slot found is free and no earlier one is |
| `JitterBuffer.Jitter.PushItem` | src/transport/jitter_buffer.c:33-81 | whole new state and status, for duplicate, out-of-window, full and accepted pushes |
| `JitterBuffer.Jitter.PeekItem` | src/transport/jitter_buffer.c:83-124 | the item due if any, and how position and gap count move |
| `JitterBuffer.Jitter.ConsumeItem` | src/transport/jitter_buffer.c:126-132 | frees the slot at the position and moves on by one, or does nothing |
| `JitterBuffer.PlayedIsHeld` | src/transport/jitter_buffer.c:83-124 | an item is handed out only if buffered and held at least the target delay, and the position then stands at it |
| `JitterBuffer.ItemsAdded` | src/transport/jitter_buffer.c:56-80 | a push into a free slot adds exactly its item |
| `JitterBuffer.ItemsRemoved` | src/transport/jitter_buffer.c:126-132 | consuming removes exactly one item |
| `JitterBuffer.LeastIsBuffered` | src/transport/jitter_buffer.c:86-94 | the scans find an item exactly when there is one, and it is a buffered one |
| `JitterRuns.LeastIsFirst` | src/transport/jitter_buffer.c:20-22 | with the live numbers in one half circle the scan finds the serially first item |
| `JitterRuns.DrainPlaysAll` | apps/thinclient/main.c:3999-4061 | once all slots have aged the peek and consume loop plays every buffered item exactly once, in serial order, and ends empty |
| `JitterRuns.RunBalanced` | src/transport/jitter_buffer.c:33-132 | over every run pushed = played + buffered and position = base + played + gaps - rewound modulo 2^32 |
| `JitterRuns.ForwardRunMonotone` | src/transport/jitter_buffer.c:33-132 | if no push is accepted behind the position, every sequence number passed is played once or counted lost once, in strictly increasing order, and nothing is rewound |
| `JitterRuns.LatePushRewinds` | src/transport/jitter_buffer.c:97-102 | a push accepted behind the position is, once aged, the next thing played and moves the position back |
| `JitterRuns.MonotoneIff` | src/transport/jitter_buffer.c:33-132 | after a push, playout passes each number once and in order however it goes on, if and only if the push was refused or not behind the position |
| `JitterRuns.PushOutcome` | src/transport/jitter_buffer.c:33-81 | exactly when a push is a duplicate, out of sync, without room or accepted, by what is buffered; which counter it raises, and that the first 1408 bytes are kept |
| `JitterRuns.PeekOutcome` | src/transport/jitter_buffer.c:83-124 | the serially first item is played if and only if it has been held for the delay and, where numbers before it are missing, so has everything buffered; position and gap count move exactly then |
| `JitterRuns.DeclaredLostIff` | src/transport/jitter_buffer.c:104-116 | with everything buffered ahead of the position, numbers are declared lost if and only if all of it has been held for the target delay, and then exactly those before the first item |
| `JitterRuns.EveryPushCounted` | src/transport/jitter_buffer.c:33-81 | over every run each push is counted once, as pushed, late or duplicate |
| `NalUnits.FindStartCode` | tools/vmc_sim/main.c:236-249 | the first start code from a position on and its length, three or four bytes |
| `NalUnits.FindStart` | tools/vmc_sim/main.c:236-249 | the position found is a start code and none lies before it |
| `NalUnits.FirstNal` | tools/vmc_sim/main.c:260-266 | a NAL unit runs from its start code to the next one |
| `NalUnits.AuAssembler.constructor` | tools/vmc_sim/main.c:170-182 | starts with nothing held |
| `NalUnits.AuAssembler.AppendTo` | tools/vmc_sim/main.c:183-188 | appends all of the data or none of it |
| `NalUnits.AuAssembler.FeedNal` | tools/vmc_sim/main.c:190-234 | new assembler state and the access unit closed, for every NAL unit |
| `NalUnits.AuAssembler.ProcessNalus` | tools/vmc_sim/main.c:251-273 | new state, bytes consumed and access unit returned by one call |
| `NalRuns.ExtractAll` | tools/vmc_sim/main.c:787-811 | calling until no access unit comes back equals feeding every complete NAL unit once |
| `NalRuns.ProcessIsExtract` | tools/vmc_sim/main.c:251-273 | stopping at an access unit and calling again continues where an uninterrupted pass would be |
| `NalRuns.ClosingProgress` | tools/vmc_sim/main.c:579-618 | a call that returns an access unit consumed input or emptied the assembler, so the caller's loop ends |
| `NalRuns.SplitAnywhere` | tools/vmc_sim/main.c:787-811 | extracting after two reads equals extracting once after both |
| `NalRuns.ReadsDoNotMatter` | tools/vmc_sim/main.c:787-811 | state, remainder and access units do not depend on how the stream is cut into reads |
| `NalRuns.StreamIsNals` | tools/vmc_sim/main.c:251-273 | from its first start code on the stream is exactly its NAL units followed by the remainder |
| `NalRuns.ExtractIsFeedList` | tools/vmc_sim/main.c:251-273 | extraction feeds exactly the NAL units of the buffer, in order |
| `NalRuns.GroupsOf` | tools/vmc_sim/main.c:190-234 | while the buffers do not overflow, the access units given out plus what is held are all non-empty NAL units fed, in order, each access unit with exactly one slice and its key flag right, and every one after the first beginning with its slice |
| `NalRuns.FeedGroups` | tools/vmc_sim/main.c:203-233 | one feed moves the NAL unit into the open group, closing it first if this is a second slice |
| `NalRuns.OutputsBounded` | tools/vmc_sim/main.c:183-188 | no access unit exceeds the buffer, whatever is fed |
| `NalRuns.CappedReadsDoNotMatter` | tools/vmc_sim/main.c:579-618 | for both sources, with the 4 MB input buffer, the access units of a stream that never fills it do not depend on how it is cut into reads |
| `NalRuns.RestartCleanIff` | tools/vmc_sim/main.c:768-775 | after the end of its stream the pipe source gives out the next stream's access units unchanged if and only if its assembler was empty |
| `NalCodes.FindStartBytes` | tools/vmc_sim/main.c:236-249 | a start code is found if and only if the bytes 0, 0, 1 stand somewhere; the first such triple ends it, and a zero before that belongs to it |
| `NalCodes.NoCodeInside` | tools/vmc_sim/main.c:251-273 | no extracted NAL unit contains a start code |
| `NalCodes.NalRoundTrip` | tools/vmc_sim/main.c:236-273 | well-formed NAL units written one after the other with three- or four-byte start codes are extracted exactly, and the rest is left |
| `NalCodes.NalKinds` | tools/vmc_sim/main.c:202-203 | which nal_unit_type values are slices and which is a key slice |
| `NalCodes.OversizedSlice` | tools/vmc_sim/main.c:183-222 | a slice too long for the 2 MB buffer leaves its bare start code, any other the whole NAL unit |
| `NalCodes.OversizedParameters` | tools/vmc_sim/main.c:183-231 | the same for what precedes the first slice, in 64 KB |
| `Telemetry.InitSafe` | src/core/telemetry.c:46-51 | the initial ring satisfies the invariant |
| `Telemetry.SafeStep` | src/core/telemetry.c:97-210 | every atomic step of a producer or the writer keeps ownership, slot contents, accounting and counters consistent |
| `Telemetry.IdxWraps` | src/core/telemetry.c:99 | the 32-bit cursor selects the same slot as the unbounded reservation number |
| `TelemetryRuns.RunSafe` | src/core/telemetry.c:97-210 | the invariant holds after every interleaving |
| `TelemetryRuns.Conserved` | src/core/telemetry.c:97-113 | reservations = in flight + dropped + buffered + written |
| `TelemetryRuns.Safety` | src/core/telemetry.c:97-210 | with no assumption on load: claimed slots have one owner each, every line in the sink is one reservation's complete line and none is written twice, reservations are conserved, and reported plus pending drops are all drops |
| `TelemetryRuns.FindsEmpty` | src/core/telemetry.c:101-110 | while never overfull, a call that has not claimed its slot finds it empty |
| `TelemetryRuns.InReservationOrder` | src/core/telemetry.c:98-189 | if every reservation finds fewer than a ring of unreleased lines ahead, nothing is dropped and the sink is a prefix of the lines in reservation order, for any number of producers |
| `TelemetryRuns.FullRingLoses` | src/core/telemetry.c:98-110 | after any run without overfilling, a reservation at a full ring has a continuation that loses a line |
| `TelemetryRuns.ReservationSafeIff` | src/core/telemetry.c:98-189 | after any run without overfilling, the next reservation loses nothing whatever the calls in flight and the writer do, if and only if it finds fewer than a ring of unreleased lines ahead |
| `TelemetryRuns.Filling` | src/core/telemetry.c:98 | a full ring is reached without overfilling |
| `TelemetryLive.WriterStep` | src/core/telemetry.c:177-210 | in every reachable state the writer has exactly one step, so it is never stuck |
| `TelemetryLive.Closer` | src/core/telemetry.c:180-189 | each writer step brings a complete line waiting at the tail closer, until it is put out as it was given |
| `TelemetryLive.WaitingLineWritten` | src/core/telemetry.c:180-189 | with no assumption on load, a complete line waiting at the tail is put out, whole, within 390 steps of the writer |
| `TelemetryLive.LessWork` | src/core/telemetry.c:177-189 | with no call in flight and lines left, each writer step lowers a bound on the steps still needed |
| `TelemetryLive.WriterRuns` | src/core/telemetry.c:177-210 | from every reachable state the writer alone can take any number of steps |
| `TelemetryLive.WriterDrains` | src/core/telemetry.c:177-189 | after any run without overfilling and with no call in flight, once the writer alone has taken enough steps the sink is exactly the lines reserved |
| `TelemetryLive.DropsReported` | src/core/telemetry.c:197-210 | from every reachable state some steps of the writer alone report every drop there has been |
| `Progressive.InvStep` | tools/vmc-dash-sim/main.c:470-556 | every append, rename and server step keeps the payloads sent equal to the served prefix of the file |
| `Progressive.ServesWholeSegment` | tools/vmc-dash-sim/main.c:470-556 | in every interleaving the payloads are a prefix of the segment, and once the server is done the whole final segment if and only if its one read of the tail was not short |
| `Progressive.ClientGetsAllOrNothing` | tools/vmc-dash-sim/main.c:470-556 | from any part of the response the client's decoder fails or returns all that was sent, which is the final segment if and only if the read of the tail was not short |
| `Progressive.ServerFinishes` | tools/vmc-dash-sim/main.c:506-555 | after the rename every step brings the server closer to its end |
| `Progressive.ServerNotStuck` | tools/vmc-dash-sim/main.c:470-556 | until it is done the server always has a step |
| `Chunked.DecodeBody` | apps/thinclient/main.c:2234-2296 | the decoding loop computes the specified outcome on every input: the body, a failure, or never returning |
| `Chunked.ReadSize` | apps/thinclient/main.c:2246-2260 | the hexadecimal digits, at most 31, and the position after the line |
| `Chunked.SkipBlank` | apps/thinclient/main.c:2238-2239 | skips carriage returns and line feeds |
| `Chunked.SkipLine` | apps/thinclient/main.c:2258-2260 | moves past the next line feed |
| `Chunked.SkipByte` | apps/thinclient/main.c:2293-2295 | skips the byte if it is there |
| `Chunked.HexDigits` | tools/vmc-dash-sim/main.c:503-555 | parsing a printed size returns the size |
| `Chunked.ChunkTaken` | apps/thinclient/main.c:2237-2296 | a whole chunk is taken off the front and its bytes appended, as long as there can be room |
| `Chunked.ChunkCut` | apps/thinclient/main.c:2237-2296 | a chunk cut short anywhere is an error |
| `Chunked.PrefixDecodes` | apps/thinclient/main.c:2234-2296 | any prefix of what the server prints, for bodies of at most 2^63 bytes, fails until the terminator's zero has arrived and from then on gives the whole body, never a shorter one |
| `Chunked.RoundTrip` | tools/vmc-dash-sim/main.c:503-555 | decoding everything the server prints returns the concatenated chunks if and only if they are at most 2^63 bytes |
| `Chunked.Grow` | apps/thinclient/main.c:2270-2272 | the doubling loop ends with enough room if and only if at most 2^63 bytes are needed |
| `Chunked.AnnouncedTooLong` | apps/thinclient/main.c:2262-2272 | after any chunk of two bytes or more, a line announcing the largest size never returns, whatever follows |
| `Chunked.DigitTable` | apps/thinclient/main.c:2249-2254 | the digits printed are those of lower-case hexadecimal by value, and capitals are read as well |
| `Chunked.OnlyDigits` | apps/thinclient/main.c:2249-2254 | exactly the 22 hexadecimal characters count as digits |
| `Chunked.BlankSkipped` | apps/thinclient/main.c:2238-2239 | line ends before a size line change nothing |
| `Chunked.ExtensionSkipped` | apps/thinclient/main.c:2258-2260 | a chunk extension of any content is tolerated |
| `Chunked.ZerosAccepted` | apps/thinclient/main.c:2246-2257 | a size may have leading zeros, up to 31 digits in all |
| `Chunked.HugeSizeFails` | apps/thinclient/main.c:2262-2287 | a first size beyond a `long` saturates and fails |
| `DashReader.SegmentReader.constructor` | apps/thinclient/main.c:2843-2866 | starts with no segment delivered |
| `DashReader.FetchRange` | apps/thinclient/main.c:3114-3262 | asks for consecutive segments up to the first failure, and for nothing else |
| `DashReader.FetchTo` | apps/thinclient/main.c:3114-3262 | everything before the end succeeded and the end, if within range, failed |
| `DashReader.SegmentReader.FetchAudio` | apps/thinclient/main.c:3004-3085 | the audio requests of a pass and the new last audio segment |
| `DashReader.SegmentReader.OnePass` | apps/thinclient/main.c:2939-3292 | requests, new state, reset and end of stream of one pass of the loop |
| `DashReader.RequestsInWindow` | apps/thinclient/main.c:2939-2983 | every request lies from startNumber to the live edge plus one, audio to the live edge, and within the total once static |
| `DashReader.DeliveredInSequence` | apps/thinclient/main.c:3114-3262 | in every run in which what the passes reach never falls below what an earlier one reached, no live-edge reset fires, and deliveries continue right after the last one or jump to startNumber |
| `DashReader.AudioForward` | apps/thinclient/main.c:3004-3085 | audio never asks for a segment at or below one already delivered, and takes up right after it or at startNumber |
| `DashReader.NeverTwice` | apps/thinclient/main.c:3004-3262 | over such a run deliveries strictly increase, video and audio alike |
| `DashReader.EndReachedIff` | apps/thinclient/main.c:3269-3292 | with every fetch succeeding the end-of-content test fires if and only if the live edge stands at the last segment but two or later, the last segment is delivered if and only if it stands at the last but one or later, and so the session ends without it exactly at the last but two |
| `DashReader.EndReached` | apps/thinclient/main.c:3269-3292 | with the clock past the end and its segment number within `int` one pass is enough and delivers the last segment |
| `DashReader.EndMissed` | apps/thinclient/main.c:2939-2983 | a concrete static manifest whose clock edge overflows, so that the end is missed |
| `DashReader.WindowFilled` | apps/thinclient/main.c:3114-3262 | with every fetch succeeding one pass delivers video up to the end of its window, also after a reset |
| `DashReader.EndedEarlyIff` | apps/thinclient/main.c:3269-3292 | whatever the fetches do, the session ends without the last segment if and only if everything before it is there and it lies beyond the window or cannot be fetched |
| `DashReader.EndedEarly` | apps/thinclient/main.c:3269-3270 | ten segments, the clock at eight: the session ends and segment ten was never asked for |
| `DashReader.AudioEndedEarlyIff` | apps/thinclient/main.c:3004-3085 | with every fetch succeeding the session ends without the last audio segment if and only if the live edge stands one or two before the last |
| `DashReader.WrappedEdgeResets` | apps/thinclient/main.c:2955-2958 | when the clock edge wraps to at most startNumber, on a live or a static manifest, the reset fires for every reader more than one segment past it and delivered segments are asked for again |
| `DashReader.ResetIff` | apps/thinclient/main.c:3114-3150 | the live-edge reset fires if and only if the reader is past one more than the clock edge as the cast leaves it, cut at the total |
| `DashReader.PassInReach` | apps/thinclient/main.c:3114-3262 | a pass within reach does not reset, stays within reach, and takes up right after the last delivered segment or at startNumber |
| `DashReader.NoResetIff` | apps/thinclient/main.c:3114-3262 | over a presentation whose segments can all be fetched no reset ever fires if and only if what the passes reach never falls below what an earlier one reached |
| `DashReader.MonotoneIsSteady` | apps/thinclient/main.c:2939-2983 | under a monotone clock and manifest, the switch to a static one without availabilityStartTime included, what the passes reach never falls, as long as the clock edge fits an `int` |
| `DashReader.SwitchResets` | apps/thinclient/main.c:2398-2406 | twenty half-second segments delivered live, then the static manifest without availabilityStartTime: the reset fires, segments 1 and 2 are delivered again and the end is missed |
| `DashReader.FirstPassStarts` | apps/thinclient/main.c:2960-2983 | a reader that has delivered nothing starts, for video and audio, as far behind the live edge as its buffer target asks, not a whole segment further, and no nearer unless the window begins there |
| `DashReader.EdgeIsComplete` | apps/thinclient/main.c:2945-2958 | the clock stands at segment n or later if and only if segment n is complete |
| `DashReader.TotalCovers` | apps/thinclient/main.c:2939-2943 | n segments are all of a static presentation if and only if they last its duration |
| `DashReader.CastIs` | apps/thinclient/main.c:2957-2958 | the cast to `int` gives the number in range that differs by a multiple of 2^32 |
| `DashReader.AudioFilled` | apps/thinclient/main.c:3004-3085 | with every fetch succeeding one pass delivers audio up to the live edge |
| `SlotPool.FramePool.constructor` | apps/thinclient/main.c:484-507 | 512 free slots |
| `SlotPool.FramePool.TakeWrite` | apps/thinclient/main.c:515-545 | takes the lowest free slot for writing, or waits and changes nothing |
| `SlotPool.FramePool.Publish` | apps/thinclient/main.c:547-560 | makes the slot ready with its deadline and frame, others unchanged |
| `SlotPool.FramePool.Pick` | apps/thinclient/main.c:914-928 | the ready slot of earliest deadline, lowest index on ties, or none exactly when no ready slot has a deadline below the largest |
| `SlotPool.FramePool.MarkDecoding` | apps/thinclient/main.c:932-934 | marks that slot alone |
| `SlotPool.FramePool.Release` | apps/thinclient/main.c:562-567 | frees that slot alone |
| `SlotPool.FramePool.Resync` | apps/thinclient/main.c:2766-2774 | shifts the deadline of every slot in use, clamped at zero |
| `SlotPool.InvStep` | apps/thinclient/main.c:515-567 | every ordered step keeps the ready slots holding exactly the undecoded frames in publication order |
| `SlotPool.PickIsOldest` | apps/thinclient/main.c:914-928 | the pick is the oldest frame not yet decoded |
| `SlotPool.DecodedInOrder` | apps/thinclient/main.c:914-934 | in every interleaving of ordered steps frames are decoded in publication order, none skipped or twice, and no slot is both written and decoded |
| `SlotPool.IncreasingRun` | apps/thinclient/main.c:547-560 | publications with strictly increasing deadlines and shifts that are not clamped are always ordered |
| `SlotPool.KeepsSequenceIff` | apps/thinclient/main.c:914-934 | from any state in order, a publication or shift keeps decoding in sequence, whatever the worker does next, if and only if it ranks behind every waiting frame, or clamps none out of slot order |
| `SlotPool.Reorders` | apps/thinclient/main.c:4026-4028 | for all deadlines with the third not later than the second, a run of one writer that decodes frame 2 before frame 1 |
| `Scanout.Drm.constructor` | src/video/drm_scanout.c:109-182 | buffer 0 on screen, nothing pending |
| `Scanout.Drm.NextIdx` | src/video/drm_scanout.c:190-212 | hands out the first available buffer around from the cursor, or nothing exactly when none is available |
| `Scanout.Drm.Submitted` | src/video/drm_scanout.c:229-240 | the bookkeeping of an accepted flip, history overflow included |
| `Scanout.Drm.FlipHandler` | src/video/drm_scanout.c:23-59 | the bookkeeping of a completion event, the stray one included |
| `Scanout.InvStep` | src/video/drm_scanout.c:23-256 | every step keeps each buffer in its one place and history and kernel in agreement |
| `Scanout.OnePlaceEach` | src/video/drm_scanout.c:23-256 | in every run each buffer is in exactly one of free, held, pending, on screen and given up, and the history has one record exactly when a flip is pending |
| `Scanout.HandedOutWasFree` | src/video/drm_scanout.c:190-212 | a buffer handed out was not on screen, pending or held |
| `Scanout.LostForGood` | apps/thinclient/main.c:813-829 | every flip the present worker gives up costs one buffer for good |
| `Scanout.AvailableIff` | src/video/drm_scanout.c:190-212 | in every run there is a buffer to hand out if and only if those held, given up, pending and on screen are fewer than all |
| `Scanout.EventShows` | src/video/drm_scanout.c:23-59 | a completion event shows the accepted flip, releases the buffer shown before and no other, reports the new one and counts one flip |
| `Scanout.HandOutMoves` | src/video/drm_scanout.c:190-203 | handing out marks one buffer and moves the cursor past it |
| `ScanoutSteps.InvStep` | src/video/drm_scanout.c:23-256 | every single read and write of the decode and present workers and every kernel completion keeps ownership, busy flags, history and the buffer really shown consistent |
| `ScanoutSteps.TakenWasFree` | src/video/drm_scanout.c:190-212 | in every interleaving a buffer taken by the decode worker is not on screen, pending, waiting for its event, handed out or given up, without any lock |
| `ScanoutSteps.ShownIsSafe` | src/video/drm_scanout.c:23-59 | in every interleaving the buffer really on screen and the one about to be are not handed out, even while events wait |
| `RingBuffer.Init` | src/core/ringbuf.c:15-25 | succeeds exactly for powers of two, and then the ring is empty |
| `RingBuffer.Ring.constructor` | src/core/ringbuf.c:15-25 | an accepted storage gives an empty ring |
| `RingBuffer.Ring.Reset` | src/core/ringbuf.c:27-31 | empties the ring |
| `RingBuffer.Ring.Write` | src/core/ringbuf.c:39-55 | accepts exactly the smaller of length and free space and appends it |
| `RingBuffer.StoreAround` | src/core/ringbuf.c:44-52 | the two copies store the bytes around the end of the storage |
| `RingBuffer.Ring.CopyOut` | src/core/ringbuf.c:62-70 | the two copies read the oldest bytes |
| `RingBuffer.Ring.Read` | src/core/ringbuf.c:57-74 | takes the oldest bytes off |
| `RingBuffer.Ring.Peek` | src/core/ringbuf.c:76-89 | returns what the next read would and changes nothing |
| `RingBuffer.Ring.Discard` | src/core/ringbuf.c:91-98 | drops the oldest bytes |
| `RingBuffer.Advance` | src/core/ringbuf.c:7-9 | advancing a cursor moves its slot around the ring, also across the 64-bit wrap |
| `RingBuffer.Steps` | src/core/ringbuf.c:39-98 | a byte queue of bounded capacity gives out a prefix of what it accepts: the specification `RunOps` meets |
| `RingBuffer.RunOps` | src/core/ringbuf.c:39-98 | any sequence of operations on the ring, from any cursor positions, accepts, gives out, shows and keeps exactly what the bounded byte queue does, so bytes out are a prefix of bytes accepted |
| `RingBuffer.RunOp` | src/core/ringbuf.c:39-98 | one operation on the ring does to it what it does to the bounded byte queue |
| `TheilSen.AppendRow` | tools/av_harness/av_report.py:151-154 | the inner loop appends the slopes of one point |
| `TheilSen.TheilSenSlope` | tools/av_harness/av_report.py:140-156 | the loops compute the median of all pairwise slopes, or nothing below five points |
| `TheilSen.SortSorts` | tools/av_harness/av_report.py:135 | sorting orders the values and keeps how many equal any given one |
| `TheilSen.MajorityIsMedian` | tools/av_harness/av_report.py:132-137 | a value held by more than half is the median |
| `TheilSen.MajorityOfPairs` | tools/av_harness/av_report.py:140-156 | if the pairs among points on a line are more than half of all pairs the estimate is exactly its slope |
| `TheilSen.OneOutlierIgnored` | tools/av_harness/av_report.py:140-156 | with five or more distinct abscissae and one outlier the estimate is exactly the slope |
| `TheilSen.FourPointsAreTooFew` | tools/av_harness/av_report.py:147-148 | with four points one outlier can move the median of slopes off every line, so the cutoff is the right one |
| `TheilSen.MinorityMoves` | tools/av_harness/av_report.py:140-156 | if the pairs among points on a line are at most half of all pairs the other points can move the estimate, for every line and number of points |
| `TheilSen.BreakdownIff` | tools/av_harness/av_report.py:140-156 | with g of n points on a line the estimate is its slope wherever the others are, if and only if the pairs among the g are more than half of all pairs |
| `TheilSen.Equivariant` | tools/av_harness/av_report.py:132-156 | mirrored data give the mirrored estimate and data tilted by a line the estimate plus its slope, for even and odd numbers of slopes |
| `TheilSen.MedianMirrored` | tools/av_harness/av_report.py:132-137 | the median of mirrored values is the mirrored median |
| `TheilSen.NoEstimateIff` | tools/av_harness/av_report.py:146-156 | there is no estimate if and only if there are fewer than five points or all have one abscissa |
| `ClockMap.Bracket` | tools/av_harness/av_report.py:275-281 | the search brackets the time between neighbours, strictly on the right, for records in any order |
| `ClockMap.RealtimeOf` | tools/av_harness/av_report.py:263-285 | on increasing records the result is the piecewise linear mapping, and nothing exactly without records |
| `ClockMap.ExactAtRecords` | tools/av_harness/av_report.py:263-285 | the mapping passes through every record |
| `ClockMap.OrderKeptIff` | tools/av_harness/av_report.py:263-285 | events keep their order on the wall clock if and only if the wall clock never stepped back between records |
| `ClockMap.EqualSteps` | tools/av_harness/av_report.py:263-285 | between two records equal steps of monotonic time are equal steps of wall time |
| `ClockMap.OutsideRecords` | tools/av_harness/av_report.py:271-274 | before the first and after the last record a microsecond is a microsecond |
| `Servo.SyncServo.constructor` | apps/thinclient/main.c:732 | no shift at first |
| `Servo.SyncServo.OnFlip` | apps/thinclient/main.c:847-856 | the new shift after one measured offset |
| `Servo.Converges` | apps/thinclient/main.c:847-856 | for a bias within the limit the offset never changes sign, its size strictly falls while above 7 us and then stays, and the clamp never engages |
| `Servo.SettlesIff` | apps/thinclient/main.c:847-856 | the offset settles within 7 us for good if and only if the bias is at most 200007 us |
| `Servo.OneUpdate` | apps/thinclient/main.c:847-856 | an offset of half a second or more is ignored, below that a truncated eighth is taken off, within a fifth of a second |

## Left out

- NalRuns.GroupsOf: conservation is stated while no append overflows, because the code drops what does not fit.
- NalRuns.CappedReadsDoNotMatter: stated while the input buffer never fills, because a full one restarts the source and drops its bytes.
- Memory ordering: concurrent steps are sequentially consistent. In `Scanout` each call is one step; `ScanoutSteps` splits them into single accesses, with a history ring that does not overflow.
- 64-bit wrap of statistics counters, which are natural numbers here; null arguments and failed allocations.
- `vmc_jb_flush_before` and the jitter estimate, which the modelled paths do not call.
- Random loss in the sender, which is the network's loss here; audio packets; the file source's rewind at the end of its file.
- The hand-over of the assembler's buffer to the next frame slot at publication: the client keeps one buffer and records what it delivers.
- I/O failures and time-outs in progressive serving, and deletion of a file while it is served; a negative chunk size, which the digits cannot express.
- HTTP header and manifest parsing, buffer growth of the DASH reader, and the live-buffer sizes, which are inputs; the cast of the total segment count.
- Flip retries, invalid indices and timestamps in `vmc_drm_scanout_present`; the present queue; slot release on the first DRM frame.
- Floating-point rounding in the report tool, which computes over the reals; masking by `cap - 1`, which is the remainder for powers of two.
- Sessions, input batches, mixing, histograms, logging, report verdicts and shutdown: finite tables, plumbing or short code without a hard property.
