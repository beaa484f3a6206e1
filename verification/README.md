# A model of oldsmbproxy

oldsmbproxy relays SMB connections. An accept thread puts each client into a free slot, and the
slot's thread connects to the server and runs a loop that reads each side's byte stream in
arbitrary pieces, cuts it into frames at a 4-byte direct-TCP header ([MS-SMB2] section 2.1),
keeps the current frame in a ring, optionally inspects it, and forwards it. This project models
that relay and the algorithms under it, and proves what they keep, over every run.

Each operation exists twice: as a function on values, whose laws are lemmas, and, where the
program updates memory or fields in place, as a method over arrays or class fields that is proved
equal to the function. What the network and the thread library answer is a parameter, so a
theorem about all parameters is a theorem about all environments.

| file | what it holds |
|---|---|
| `Bytes.dfy` | octets, header words, memory moves |
| `RingSpec.dfy`, `IoRing.dfy` | the I/O ring: laws, and in place |
| `Tcp.dfy` | one read, the write loop |
| `RelaySpec.dfy` | one direction of the relay loop, runs of it, conservation |
| `Framing.dfy` | what is forwarded, against the frames of the stream received |
| `Progress.dfy` | what goes through: lengths, frames and streams that are not refused |
| `BothWays.dfy`, `Relay.dfy` | both directions in one loop: laws, and in place |
| `Smb2.dfy`, `Inspected.dfy` | the SMB2 compound walk, and the relay that inspects with it |
| `Slots.dfy`, `Proxy.dfy` | the hand-over of slots in every interleaving, and one call in place |
| `Lives.dfy` | what becomes of a connection in a slot, from the hand-over to its end |
| `Served.dfy` | the relay loop of a slot: from the hand-over into the rings and back |
| `Base64.dfy`, `Utf8.dfy`, `Url.dfy` | the codecs |
| `Base64Forms.dfy`, `UrlForms.dfy` | their texts written out: characters, names, ports and what is refused |

`dafny verify dfyconfig.toml` checks everything.

## The main results

- The ring refines an unbounded byte queue under any sequence of uses inside its windows
  (`RingRefinesQueue`), and normalizing in place is a rotation of the whole memory.
- Both directions of a connection conserve bytes at every moment, whatever the reads
  (`LinkConservation`).
- The frames forwarded are the complete frames of the stream received, however it was cut
  (`ForwardsTheFramesReceived`, `ChunkingIndependence`), as long as every header is read right.
  That condition is exact: a misread header makes the relay give up an admissible frame, or one more
  turn makes it forward a wrong one (`FramesExactlyWhenIntact`). For one header it is spelled out in
  its bytes and the cut (`HeaderCutExactly`).
- Traffic that gives no reason to stop goes through: a stream of frames the ring can hold is forwarded
  whole, in any pieces and with any idle polls between them, if headers are read right and inspection is
  off or lets the frames through (`StreamGoesThrough`); in the ring of main.cc that is every length from 1
  to 0x20004, with 0x1FFFFF the last one a header may announce (`FrameGoesThrough`).
- Inspection only decides where the stream is cut (`InspectionIsTransparent`), provided that leftover
  memory has no say in its verdicts on the frames up to the first refused one. For SMB2 that holds
  of packets whose own bytes settle the walk (`SelfContainedRun`), and of no others
  (`ObeysExactlyWhenSettled`); and it cannot be dropped (`LeftoverDecides`). Pass for pass the two modes
  agree without any condition, even when headers are misread (`InspectionLockstep`), and well-formed
  SMB2 traffic passes unchanged (`CompoundStreamPasses`).
- In every interleaving the accept thread touches a slot's rings only while its relay thread is
  outside the loop (`SlotExclusion`), so that the loop finds empty rings (`Serve`), and every
  connection is in exactly one place and closed at most once (`ConnectionConservation`,
  `ServerConservation`). A client that was handed over is relayed if the server answers
  (`ClientIsRelayed`), and otherwise closed and its slot freed (`FailedConnectFreesSlot`), whatever the
  other threads do in between; so is one whose loop ends (`LoopEndFreesSlot`).
- Base64, UTF-8 and URL pasting round trip, each with the exact bound or class for which it does.

## Where the code departs from its intent

The model follows the code. Each departure has a lemma that shows it and one that says exactly
when the intended law holds.

- A header is decoded from where the last read was stored, not from the start of the ring
  (smbgw.c:143), which can lose a frame (`SplitHeaderLosesAFrame`) or forward a wrong one
  (`SplitHeaderForwardsAWrongFrame`). A header in one read is always read right
  (`WholeHeadersAreIntact`); one of a nonempty frame cut after its first byte never yields its length
  (`HeaderCutAfterOneByte`); `HeaderCutExactly` says when a cut does no harm.
- An empty frame is handled only in a turn that finds nothing to read (`EmptyFrameNeedsSilence`).
- The header check allows lengths up to 0x1FFFFF, but the ring refuses more than 0x20004
  (`AdmissionBound`).
- Normalizing a full wrapped ring through scratch memory leaves `head` one past the end
  (`FastPathAgrees`), and then taking bytes opens no write window (`FastPathStallsAFullRing`).
- The mode of a connection is written after its socket, so its relay may start in the old mode
  (`StaleModeHappens`, `StaleModeExactly`); a proxy that uses one mode for all never relays
  uninspected what it was to inspect (`OneModeForAll`).
- A failed `pthread_create` loses the connection (`LossHappens`), and nothing else does (`LosesExactly`).
- The SMB2 walk does not check that the next header lies in the packet, so what an earlier frame
  left in the ring can decide (`LeftoverVerdicts`, `LeftoverDecidesSmb2`); it cannot exactly when
  the packet's own bytes settle the walk (`VerdictIsOwnExactly`).
- SMB2 headers may overlap, and then `byte_count` wraps (`OverlappingHeadersUnderflow`) or misses
  bytes (`OverlappingHeadersMiscount`); `ByteCountExactly` and `CoversWhatFollows` say exactly when.
- The command of an SMB2 header is handed on with 8 of its 16 bits; `CommandIsNarrowed` says when that
  is the command.
- The `outsize` of the Base64 encoder is no bound when it is below 4 (`SmallOutsizeStopsNothing`) or
  with escapes (`ShortestOvershoot`, `EscapedOvershoot`), that of the decoder in general
  (`DecoderOvershoots`, `OutsizeBoundsNoDecoding`). It is exactly when `EncoderRespectsOutsize` and
  `DecoderRespectsOutsize` say.
- A truncated two-byte UTF-8 code reports (size_t)-1, a longer one 0 (`CutCodeIsTruncated`,
  `TruncatedExactly`), and the marks of tail bytes are not looked at (`MarksAreIgnored`, `FirstMarks`).
- Pasting port 0 prints a port that parsing never defaults to (`DefaultPortIsInverted`), while any
  other port comes back (`RoundTrip`); `sip`,
  `sips`, `smb` and `file` do not come back (`RoundTripExactly`, `ParsePasteParse`); a URL without a
  scheme loses what stands before a doubled slash (`ServerIsLost`), and is read right exactly without
  one (`SchemelessReadRightExactly`); a registered scheme may be hidden
  by an earlier prefix (`UserRoundTripExactly`).
- An empty path is stored as "/" without a look at the buffer, which matters exactly when it has room
  for one character (`AcceptedFits`, `EmptyPathIsStoredUnchecked`).

## Model

| member | source | states |
|---|---|---|
| `RingSpec.NormalizeKeepsContents` | butil.c:44-107 | normalizing keeps the queue and its count and lays it out from offset 0 |
| `RingSpec.StraightRing` | smbgw.c:161-167 | a ring that starts at 0 is its own normal form and its read window is the whole queue, as the relay relies on |
| `RingSpec.FastPathAgrees` | butil.c:68-106 | scratch and in-place paths agree on tail, count, queue and first count bytes; heads differ exactly for a full wrapped ring, size against 0 |
| `RingSpec.FastPathStallsAFullRing` | butil.c:73-74 | after the scratch path a full ring offers no write window when bytes are taken, after the in-place path it offers as many |
| `RingSpec.WriteWindowIsFree` | butil.c:120-143 | the write window holds no queued byte, ends where one begins or at the end of memory, and is empty only when the ring is full |
| `RingSpec.ReadWindowIsFront` | butil.c:145-163 | the read window is the front of the queue, all of it unless the memory ends first, and is empty only when the queue is |
| `RingSpec.EmptiedStartsOver` | butil.c:109-118 | a ring emptied by the last byte taken or by a reset starts at 0, with all its memory to write to |
| `RingSpec.StoredAppends` | smbgw.c:120-125 | storing in the write window and committing appends exactly those bytes |
| `RingSpec.ConsumedDrops` | smbgw.c:190-202 | committing what was sent drops exactly that many bytes from the front |
| `RingSpec.Apply` | butil.c:44-163 | every use of the ring keeps it valid and keeps its size |
| `RingSpec.StepRefinesQueue` | butil.c:44-163 | each use changes the queue, and hands out bytes, as an unbounded byte queue would |
| `RingSpec.RingRefinesQueue` | butil.c:44-163 | over any sequence of uses inside the windows the ring hands out and holds what the queue does |
| `RingSpec.FirstInFirstOut` | butil.c:44-163 | without resets, bytes out followed by bytes held are bytes held at first followed by bytes in |
| `IoRing.IoRing.constructor` | smbgw.c:381-399 | a new ring is valid and empty |
| `IoRing.IoRing.Reset` | butil.c:109-118 | the indices go to 0, the memory stays |
| `IoRing.IoRing.ContiguousWrite` | butil.c:120-143 | returns the write window of the ring, which lies in the memory |
| `IoRing.IoRing.ContiguousRead` | butil.c:145-163 | returns the read window of the ring, which lies in the memory |
| `IoRing.IoRing.Commit` | smbgw.c:120-125 | advances count and head as the commit function does |
| `IoRing.IoRing.Consume` | smbgw.c:190-201 | advances count and tail and resets an emptied ring as the consume function does |
| `IoRing.IoRing.Normalize` | butil.c:44-107 | both forms leave exactly the normal forms whose laws are above |
| `IoRing.IoRing.JoinWith` | butil.c:68-76 | the scratch path of a wrapped ring |
| `IoRing.IoRing.RotateInPlace` | butil.c:77-106 | the in-place path of a wrapped ring rotates the whole memory left by tail |
| `IoRing.IoRing.RotateFours` | butil.c:77-94 | the first loop rotates by the multiple of four below tail, and head follows around the end |
| `IoRing.IoRing.RotateOnes` | butil.c:95-106 | the second loop completes the rotation down to tail 0 |
| `IoRing.RotateFour` | butil.c:79-87 | four bytes go from the front of the memory to its end |
| `IoRing.RotateOne` | butil.c:97-99 | one byte goes from the front of the memory to its end |
| `IoRing.JoinThrough` | butil.c:70-72 | what the three copies leave in memory |
| `Tcp.Taken` | gwtcp.c:307 | recv copies no more than was asked for |
| `Tcp.ReadResult` | gwtcp.c:296-330 | a positive result is the number of bytes taken, and nothing is taken otherwise; when it is 0 and when negative, see Progress.IdlePass and Progress.ReadFailsExactly |
| `Tcp.WriteLoop` | gwtcp.c:242-281 | a failed write stops strictly before the end |
| `Tcp.WriteLoopMeaning` | gwtcp.c:233-282 | the loop delivers everything if and only if the network takes that much before it refuses, and otherwise exactly what it took |
| `Tcp.Read` | gwtcp.c:284-331 | result, buffer and stream of one read |
| `Tcp.Write` | gwtcp.c:233-282 | the partial-send loop delivers the buffer, or the part before the refusal |
| `RelaySpec.Pass` | smbgw.c:106-213 | one pass over one direction keeps the loop-head facts: tail 0, at most the frame in the ring, no body byte of a frame too large |
| `RelaySpec.ForwardBalanced` | smbgw.c:158-212 | a complete frame is kept when it is refused, sent whole, or sent up to where the network stopped |
| `RelaySpec.ContinueBalanced` | smbgw.c:136-212 | so is what was read when the packet is not complete or its header is decoded |
| `RelaySpec.PassBalanced` | smbgw.c:106-213 | what the ring held and what arrived is what was sent and what the ring holds |
| `RelaySpec.RunConserves` | smbgw.c:102-326 | received bytes are the forwarded frames and the ring; after a failed send the start of the next frame was delivered too |
| `RelaySpec.ByteConservation` | smbgw.c:102-326 | while running, delivered followed by ring is received; after any failure delivered is a prefix of received |
| `Framing.WholeHeaderIsIntact` | smbgw.c:143-154 | a header that comes in one read is read right |
| `Framing.WholeHeadersAreIntact` | smbgw.c:143-154 | a run in which each read for a header brings all of it or nothing reads every header right |
| `Framing.DecodeTracks` | smbgw.c:143-154 | decoding where the last read was stored agrees with the header exactly when the word there admits the same length |
| `Framing.SplitHeader` | smbgw.c:143-154 | which word is decoded for a split header of any value: the header shifted and filled up; it is read right exactly when that changes nothing or both are refused |
| `Framing.HeaderCutAfterOneByte` | smbgw.c:143-154 | a header of a nonempty frame cut after its first byte always yields another length, which goes unnoticed exactly when neither is admissible |
| `Framing.StepTracks` | smbgw.c:136-157 | a pass keeps the packet state in step with the header sent if and only if it reads the header right |
| `Framing.TracksExactlyWhenIntact` | smbgw.c:96-213 | the packet state agrees with the headers received throughout a run if and only if every header is read right |
| `Framing.FramesExactlyWhenIntact` | smbgw.c:96-213 | every header is read right if and only if after each turn, and whatever the next brings to a body, the frames forwarded and in hand are those of the stream and none was given up |
| `Framing.HeaderRightExactly` | smbgw.c:136-213 | the same for one header, with those before it read right |
| `Framing.HeaderCutExactly` | smbgw.c:136-213 | in terms of the cut: if and only if the header shifted and filled up is the same, or both are refused |
| `Framing.MisreadShows` | smbgw.c:136-213 | after a misread header the relay gives up an admissible frame, or one more turn makes it forward a wrong one |
| `Framing.ForwardsTheFramesReceived` | smbgw.c:96-213 | the complete frames of the stream received are those forwarded, in order, and at most one in hand |
| `Framing.RunJudged` | smbgw.c:169-177 | every frame an inspecting run sent was let through by inspection, and it stopped only over one that was not |
| `Framing.InspectedRun` | smbgw.c:169-211 | if inspection follows a rule on the frames of the stream up to the first one refused, whatever is left over behind them, an inspecting run forwards exactly those |
| `Framing.PassthroughRun` | smbgw.c:169-211 | a passthrough run forwards all of them |
| `Framing.ChunkingIndependence` | smbgw.c:96-213 | two runs over the same stream deliver the same, whatever the segmentation; whatever the leftover memory too, without inspection or when inspection follows a rule on the stream's frames |
| `Framing.LeftoverDecides` | smbgw.c:169-177 | that condition is needed: a frame on which leftover memory decides makes two inspecting runs over one stream deliver different bytes |
| `Framing.InspectionIsTransparent` | smbgw.c:169-211 | under the same condition inspecting delivers what passthrough does, cut before the first refused frame |
| `Framing.PassAlongside` | smbgw.c:169-177 | an inspecting pass is the passthrough pass unless it refuses its frame, and then it sends nothing |
| `Framing.InspectionLockstep` | smbgw.c:169-211 | on the same events the two runs agree pass for pass until a refusal, headers misread or not |
| `Framing.AdmissionBound` | smbgw.c:106-115 | in every run, headers misread or not, a direction stops over a size exactly when the length accepted and the header exceed the ring, before any body byte is read; 0x20004 for the ring of main.cc |
| `Framing.AdmissionBoundOfHeader` | smbgw.c:106-115 | when headers are read right that length is the one sent |
| `Framing.SplitHeaderLosesAFrame` | smbgw.c:143-154 | a concrete split header after which the relay gives up an admissible frame, whatever comes |
| `Framing.SplitHeaderForwardsAWrongFrame` | smbgw.c:143-154 | the same header in a larger ring: a frame of 260 bytes is forwarded where the stream's first one has five |
| `Framing.EmptyFrameNeedsSilence` | smbgw.c:107-134 | a pass over a waiting empty frame ends in a read failure exactly when something is readable |
| `Progress.IdlePass` | gwtcp.c:302-306 | a poll that finds nothing while bytes are wanted leaves the direction as it is, running |
| `Progress.ReadFailsExactly` | gwtcp.c:296-330 | such a pass ends in a read failure if and only if the poll breaks, the read fails, or the peer has closed |
| `Progress.TakesTheFront` | gwtcp.c:307 | a read takes the front of what is there, as much as is wanted |
| `Progress.HeaderDecides` | smbgw.c:136-157 | a header in one read opens a body of the length it says, or ends the run beyond 0x1FFFFF |
| `Progress.BodyGoesOut` | smbgw.c:158-212 | the body completes the frame, and header and body are delivered |
| `Progress.FrameGoesThrough` | smbgw.c:106-213 | in a ring of 0x20008 bytes: which lengths are opened, which refused, and that up to 0x20004 the frame is delivered |
| `Progress.FramesOfDirect` | smbgw.c:136-157 | the frames of a concatenation of such frames are those |
| `Progress.HealthyPass` | smbgw.c:106-213 | a pass goes on when bytes arrive or none do, the network takes what is sent, and lengths and inspection give no reason to stop |
| `Progress.StreamGoesThrough` | smbgw.c:96-213 | a stream of frames the ring can hold, met by such turns only, is forwarded in order, all of it when all has arrived |
| `BothWays.Cycle` | smbgw.c:102-326 | the loop body keeps both directions able to go on |
| `BothWays.DirectionsAreIndependent` | smbgw.c:102-326 | each direction of a link runs as it would alone for the turns it got: the client's turn first, and after a failure in it the server's is skipped |
| `BothWays.LinkConservation` | smbgw.c:102-326 | conservation in both directions at once |
| `BothWays.LinkForwardsTheFramesReceived` | smbgw.c:102-326 | framing in both directions at once |
| `Relay.Direction.Pass` | smbgw.c:106-213 | the pass in place equals the pass on values: packet state, ring, both streams, result |
| `Relay.Direction.Fill` | smbgw.c:116-128 | read and commit in place |
| `Relay.Direction.Continue` | smbgw.c:136-157 | header decoding in place |
| `Relay.Direction.Forward` | smbgw.c:158-212 | normalize, inspect, send and consume in place |
| `Relay.Direction.Inspect` | smbgw.c:169-177 | inspection by the walker over the ring's own memory, from the packet to the end of the ring |
| `Relay.Direction.Send` | smbgw.c:179-211 | the frame goes out and the ring is empty, or the send fails and keeps it |
| `Relay.Direction.Advance` | smbgw.c:106-213 | a pass in place is a step of the run |
| `Relay.Connection.Both` | smbgw.c:102-326 | the loop body in place, with both sockets' streams |
| `Relay.Connection.Relay` | smbgw.c:92-326 | the relay loop in place is a run from empty rings, and its result is 0 only while both directions are up |
| `Smb2.V2Packet` | smbproto.c:432-489 | the loop in place visits the headers of the walk in order, each with its command byte and wrapped byte count, and ends with the walk's verdict |
| `Smb2.NextIsAt20` | smbproto.c:480-484 | the offset of the next header is the little-endian word at byte 20 |
| `Smb2.CommandIsNarrowed` | smbproto.c:280-283 | the handler is told the 16-bit command of the header if and only if it is below 256, else its low byte |
| `Smb2.VisitHeader` | smbproto.c:477-479 | one more header is counted off and handed on |
| `Smb2.WalkFollowsChain` | smbproto.c:455-488 | on a contained chain each header is visited once in order up to the first bad magic, and the packet is accepted if and only if all magics are good |
| `Smb2.WalkSpread` | smbproto.c:481-486 | header k starts at 64 k or later, so there are no more than fit |
| `Smb2.ByteCountExactly` | smbproto.c:452-479 | for any packet no byte_count wraps if and only if the headers visited would fit side by side |
| `Smb2.CoversWhatFollows` | smbproto.c:477-479 | byte_count is at least what follows header k exactly when that header starts at 64 k or later, counted with the wraps, and equal exactly when it starts there |
| `Smb2.ByteCountBounds` | smbproto.c:452-479 | on a contained packet: at most bytes/64 visits; byte_count never wraps, is at least what follows the header, and equal if and only if headers are adjacent |
| `Smb2.WalkIsLocal` | smbproto.c:455-488 | a walk that stays in the packet does not depend on what lies after it |
| `Smb2.VerdictIsOwnExactly` | smbproto.c:455-488 | the verdict does not depend on what lies behind the packet, over memories of any length, if and only if the packet's bytes settle the walk: a magic wrong as far as it is inside, or a last NextCommand inside |
| `Smb2.OpenWalk` | smbproto.c:455-488 | when they do not, one memory behind the packet makes it accepted and another refused |
| `Smb2.LeftoverVerdicts` | smbproto.c:481-484 | such a packet of 64 bytes, with two memories and two verdicts |
| `Smb2.OverlappingHeadersUnderflow` | smbproto.c:477-484 | with overlapping headers in 68 bytes the packet is accepted and byte_count wraps |
| `Smb2.OverlappingHeadersMiscount` | smbproto.c:477-484 | in 128 bytes or more it does not wrap, but misses bytes after the second header |
| `Smb2.OverlappingHeadersExist` | smbproto.c:477-484 | such a packet |
| `Smb2.InspectionIsLocal` | smbproto.c:491-508 | a packet too short for SMB2, one whose walk stays inside, and with room for a header behind it one whose bytes settle the walk, is judged by its own bytes alone |
| `Smb2.InspectionOfCompound` | smbproto.c:491-508 | a contained SMB2 packet is accepted exactly when every magic is good, whatever lies behind it |
| `Smb2.OthersAreAsked` | smbproto.c:491-508 | a packet that starts with 0xFF gets the version 1 verdict whatever its length; another below 64 bytes is refused |
| `Smb2.Packet` | smbproto.c:491-508 | the dispatch over the memory at the packet comes to the verdict the relay's theorems are about, and visits exactly the headers of the walk, none for a packet that is not walked |
| `Inspected.SelfContainedObeys` | smbproto.c:455-508 | on a frame whose walk stays inside, or is settled and has room for a header behind it, inspection follows a rule on the frame alone |
| `Inspected.ObeysExactlyWhenSettled` | smbproto.c:455-508 | in every ring with such room an SMB2 frame is judged by itself if and only if its bytes settle the walk |
| `Inspected.OpenObeysNoRule` | smbproto.c:481-484 | if they do not, in some ring inspection follows no rule on the frame |
| `Inspected.SelfContainedRun` | smbgw.c:169-211 | so for a stream of such frames what the inspecting relay delivers is a function of the stream |
| `Inspected.CompoundStreamPasses` | smbgw.c:169-211 | a stream of well-formed SMB2 frames is delivered unchanged by an inspecting relay |
| `Inspected.LeftoverDecidesSmb2` | smbproto.c:481-484 | one SMB2 frame and two contents of the ring, over which it is delivered and refused |
| `Inspected.CompoundStreamGoesThrough` | smbgw.c:169-211 | such a stream goes through to the end as long as the network is up |
| `Inspected.Version1Decides` | smbproto.c:500-502 | a completed frame of version 1 is delivered if and only if the version 1 walk accepts the ring behind the header, else the run ends |
| `Inspected.EmptyFrameRefused` | smbproto.c:493-496 | an inspecting relay delivers no empty frame |
| `Slots.StepKeepsOwned` | smbgw.c:56-86 | every step of either thread keeps who may touch a slot, its rings and its sockets |
| `Slots.RelayKeepsOwned` | smbgw.c:60-340 | the same for the relay thread |
| `Slots.AcceptKeepsOwned` | smbgw.c:442-474 | the same for the accept thread |
| `Slots.SlotExclusion` | smbgw.c:442-463 | rings are reset and slots handed over only while the relay thread serves no client, and the loop starts with empty rings |
| `Slots.RelayTouches` | smbgw.c:60-340 | what any relay step may do to sockets |
| `Slots.AcceptReleases` | smbgw.c:442-474 | what any accept step may do to sockets |
| `Slots.RelayKeepsAccounted` | smbgw.c:60-340 | relay steps keep every token accounted for |
| `Slots.AcceptKeepsAccounted` | smbgw.c:428-474 | accept steps keep every token accounted for |
| `Slots.ConnectionConservation` | smbgw.c:428-474 | each accepted connection is in exactly one place, in one slot at most, closed at most once |
| `Slots.ServerConservation` | smbgw.c:330-340 | each server connection is open in one slot or closed once, and none is left when the thread waits |
| `Slots.OneThreadPerSlot` | smbgw.c:446-454 | each slot gets at most one thread |
| `Slots.EndsCloseOnce` | smbgw.c:72-86 | teardown, failed connect and a full table close the connection for the first and last time |
| `Slots.NothingElseIsLost` | smbgw.c:448-453 | only a failed pthread_create loses a connection |
| `Slots.LosesExactly` | smbgw.c:446-453 | a step loses a connection if and only if it asks for its thread and gets none; it is then neither held nor served nor closed |
| `Slots.LossHappens` | smbgw.c:446-453 | a run of three steps that loses one |
| `Slots.StaleModeExactly` | smbgw.c:459-460 | a slot's mode differs from its client's exactly between the two writes and when the mode last written to the slot is the other one |
| `Slots.ModeIsLastMode` | smbgw.c:460 | a slot's mode is the one last written to it, false before the first |
| `Slots.OneModeForAll` | smbgw.c:428-460 | when all connections ask for one mode, as main.cc has them, a slot has that mode or the initial one, so a proxy started to inspect never relays uninspected |
| `Slots.StaleModeHappens` | smbgw.c:459-460 | a run in which the relay loop starts in that gap, for either mode: also a client to be inspected that starts uninspected |
| `Lives.OthersLeaveAlone` | smbgw.c:56-474 | no step of another thread moves a relay thread, its server socket, or a client that is there |
| `Lives.ClientIsRelayed` | smbgw.c:60-102 | in any interleaving, six steps of its thread after the hand-over a client whose server answers is in the relay loop, with empty rings |
| `Lives.FailedConnectFreesSlot` | smbgw.c:71-78 | in any interleaving, a failed connect closes the client once and frees the slot two steps later |
| `Lives.LoopEndFreesSlot` | smbgw.c:330-340 | in any interleaving, a loop that ends closes both sockets once and has the thread waiting again |
| `Served.Serve` | smbgw.c:92-326 | the relay loop of a slot in any interleaving finds the empty rings it needs, is a run from them, and leaves in the slot's rings what the slots step to |
| `Served.Loops` | smbgw.c:92-326 | the steps that enter the loop and leave contents in the rings change nothing else of the slot |
| `Proxy.FirstFree` | smbgw.c:442-444 | the scan finds the first slot without a client |
| `Proxy.Proxy.constructor` | smbgw.c:373-400 | all slots start free, with empty rings and no thread |
| `Proxy.Proxy.Start` | smbgw.c:428-474 | one uninterrupted call in place: which slot changes and how, result, closed socket |
| `Proxy.StartIsTheSteps` | smbgw.c:428-474 | that call is the accept thread's steps one after another |
| `Base64.SymbolIsInTable` | butil.c:438-441 | the character of a value is the one the program's table holds there |
| `Base64.SplitIsTheBits` | butil.c:453-457 | the values are the base-64 digits of the number the bytes write in base 256, shifted by the bits that fill the last value (RFC 4648 section 4) |
| `Base64.RoundTrip` | butil.c:309-390 | decoding an encoding gives the bytes, for both alphabets, padded or not |
| `Base64.HexTextDecodes` | butil.c:392-420 | percent-decoding the escaped text gives the padded encoding in the chosen alphabet |
| `Base64.HexRoundTrip` | butil.c:459-497 | and decoding that gives the bytes |
| `Base64.TextLength` | butil.c:498-519 | the exact lengths of padded and unpadded text |
| `Base64.TextAppend` | butil.c:451-521 | the text of whole groups and of the rest is the text of all |
| `Base64.EncoderBound` | butil.c:451-523 | success if and only if the padded text and terminator fit, or outsize is below 4 |
| `Base64.StopsShort` | butil.c:451-523 | with or without escapes, the loop reaches the end exactly when the count before the last group passes the guard |
| `Base64.EncoderFits` | butil.c:451-523 | text and terminator stay inside outsize |
| `Base64.EscapesFit` | butil.c:459-497 | escaped text is at most twelve characters for each group |
| `Base64.EncoderRespectsOutsize` | butil.c:451-523 | text and terminator stay within outsize if and only if every group whose count passes the guard fits with what comes before it |
| `Base64.StoredByGroups` | butil.c:451-523 | what is stored is the count before the last group and that group |
| `Base64.SmallOutsizeStopsNothing` | butil.c:451 | with outsize below 4 everything is stored |
| `Base64.EscapedOvershoot` | butil.c:451-497 | from outsize 4 on, escaped text and terminator go past outsize by at most 8 |
| `Base64.EscapedOvershootIsTight` | butil.c:451-497 | inputs of any length that go past it by 8 |
| `Base64.ShortestOvershoot` | butil.c:451-497 | three bytes with outsize 5 store 12 characters and a terminator |
| `Base64.HexEncodeByte` | butil.c:392-420 | stores the escape of one character and reports its length |
| `Base64.Emit` | butil.c:459-497 | one character, escaped or plain, extends the text |
| `Base64.Pick` | butil.c:453-457 | the characters of a group from its 24 bits |
| `Base64.WriteGroup` | butil.c:453-519 | one round of the loop extends the text by its group |
| `Base64.EncodeGroups` | butil.c:451-521 | the loop stores the text of the groups it gets to |
| `Base64.Base64Encode` | butil.c:422-524 | buffer and result of the encoder: the text of the groups it got to, terminated, and nothing else touched |
| `Base64.DecodeSymbols` | butil.c:318-364 | the accumulator loop stores whole groups and keeps the rest |
| `Base64.TakeSymbol` | butil.c:349-363 | one more value in the accumulator, and the fourth stores the group |
| `Base64.StoreTail` | butil.c:365-388 | one or two bytes of a tail, and the terminator |
| `Base64.Base64Decode` | butil.c:309-390 | buffer and result of the decoder |
| `Base64.DecoderRespectsOutsize` | butil.c:318-389 | bytes and terminator stay within outsize if and only if three quarters of the leading symbols are fewer, or outsize is 1 to 3 |
| `Base64.OutsizeBoundsNoDecoding` | butil.c:318-389 | from 4 on outsize changes nothing: what was encoded is stored, all of it |
| `Base64.DecoderOvershoots` | butil.c:318-389 | eight symbols with outsize 4 store six bytes and a terminator |
| `Base64Forms.ReadExactly` | butil.c:325-348 | the decoder reads a character as a value if and only if it stands for it in one of the two alphabets |
| `Base64Forms.SymbolsInOrder` | butil.c:438-441 | where the letters and the digits begin, and the two marks of each alphabet |
| `Base64Forms.EscapeForms` | butil.c:392-420 | '+', '/' and '=' become %2B, %2F and %3D, and only these are escaped |
| `Base64Forms.EscapedIsSafe` | butil.c:392-420 | no '+', '/' or '=' is left in an escaped text |
| `Base64Forms.UrlTextIsSafe` | butil.c:498-519 | the plain text in the URL alphabet needs no escapes; in the other there is a '=' exactly for a length that is no multiple of three |
| `Base64Forms.PlainForms` | butil.c:498-519 | the plain text ends in "==", "=" or nothing, in the URL alphabet always in nothing |
| `Base64Forms.EscapedForms` | butil.c:459-497 | the escaped text ends in the escapes of that padding, in both alphabets |
| `Base64Forms.StopsAtOther` | butil.c:345-348 | decoding stops at the first character in neither alphabet |
| `Base64Forms.DecodingSymbols` | butil.c:318-389 | what is stored and when it fails: with one value left over, or with outsize below 4 and a text that is not empty |
| `Base64Forms.JoinIsTheBits` | butil.c:349-384 | the bytes are the bits of the values one after another, without those of an incomplete byte |
| `Utf8.AnnouncedRanges` | butil.c:236-243 | how many bytes each first byte announces |
| `Utf8.TruncatedExactly` | butil.c:244-299 | a code is reported as truncated if and only if fewer bytes are there than announced, and as what |
| `Utf8.CodeForms` | butil.c:236-306 | the code is the number the carried bits write, in forms of any length |
| `Utf8.MarksAreIgnored` | butil.c:244-306 | of the bytes after the first only the low six bits are read |
| `Utf8.FirstMarks` | butil.c:236-243 | a first byte is read the same without its bit 0x40, in four bytes also without its bit 8 |
| `Utf8.Utf8Encode` | butil.c:195-225 | the buffer holds the encoding and a terminator, and the result is its length |
| `Utf8.Utf8Decode` | butil.c:227-307 | result and code, or the report of a truncated one with the code left alone; with nutf 0 the code is read from whatever is there |
| `Utf8.DecodeEncode` | butil.c:195-307 | decoding reads back one code whatever follows |
| `Utf8.StreamRoundTrip` | butil.c:195-307 | decoding a concatenation of encodings returns the codes and consumes every byte |
| `Utf8.CutCodeIsTruncated` | butil.c:244-299 | every strict prefix of a multibyte encoding is reported as truncated |
| `Utf8.CutStream` | butil.c:244-299 | a stream cut inside a code yields the codes before it |
| `Utf8.FirstDifference` | butil.c:204-222 | where two encodings first differ, the larger code has the larger byte |
| `Utf8.OrderPreserved` | butil.c:204-222 | bytewise order of encodings is numeric order of codes |
| `Utf8.PrefixFree` | butil.c:204-222 | no encoding is a prefix of another code's |
| `Utf8.EncodeDecode` | butil.c:227-307 | encoding what was decoded gives the bytes back exactly when they were a shortest form |
| `Url.SchemeTable.Register` | butil.c:535-553 | the first free place takes the name, cut to what fits, and nothing else changes |
| `Url.SchemeTable.Find` | butil.c:586-658 | the lookup in place |
| `Url.RegisteredNameFound` | butil.c:645-656 | a registered name is found exactly when no built-in name equals it and no earlier one is its prefix |
| `Url.NameFound` | butil.c:555-658 | the nine schemes of both tables are found under the names printed for them |
| `Url.ScanHost` | butil.c:770-781 | the host ends at the first colon or slash |
| `Url.PortAndPath` | butil.c:792-832 | a printed port and a path after the host are read back |
| `Url.ParseUrl` | butil.c:660-833 | scheme, port, result, and the host and path buffers, after success and after each failure, with nothing else in them touched |
| `Url.StorePath` | butil.c:815-831 | the path or "/" goes to the buffer with a terminator, unless it is too long |
| `Url.AcceptedParts` | butil.c:660-833 | after success the buffers hold the parts of the URL |
| `Url.AcceptedFits` | butil.c:781-831 | an accepted host fits nhost, and an accepted path with its terminator fits npath if and only if npath is not 1 |
| `Url.EmptyPathIsStoredUnchecked` | butil.c:815-831 | a URL without a path is accepted with npath 1 and "/" stored |
| `Url.PasteUrl` | butil.c:863-925 | the caller's buffer holds the text, or what fits of it, and the call succeeds exactly when all of it fits |
| `Url.StrtoulDecimal` | butil.c:793-804 | a printed port is read back, with its length |
| `Url.RoundTrip` | butil.c:660-925 | parsing what was pasted gives scheme, host, port, and the path with one leading slash |
| `Url.RoundTripExactly` | butil.c:555-658 | among built-in schemes exactly the nine come back |
| `Url.UserRoundTripExactly` | butil.c:586-658 | a registered scheme without "://" in its name comes back exactly when no built-in name equals it and no earlier one is its prefix |
| `Url.ParsedParts` | butil.c:767-832 | what the parts of an accepted URL look like |
| `Url.ParsePasteParse` | butil.c:660-925 | pasting the parts of an accepted URL and parsing again gives them back if and only if the scheme's printed name is found again and the port is not 0 |
| `Url.DefaultPortIsInverted` | butil.c:905-908 | the port pasted for 0 is never the one parsing defaults to |
| `Url.SchemelessIsHttp` | butil.c:707-722 | a URL without a scheme is http for what follows its first double slash |
| `Url.SchemelessReadRightExactly` | butil.c:707-722 | a URL without a scheme is read as with "http://" in front if and only if it has no "//" |
| `Url.HostBeforeDoubledSlashIsLost` | butil.c:711-715 | what stands before the first "//" is lost |
| `Url.ServerIsLost` | butil.c:711-715 | "server/a//b" is taken for the host b |
| `UrlForms.Recognized` | butil.c:586-644 | the eleven names and their schemes |
| `UrlForms.Printed` | butil.c:555-583 | the names printed: "????" for smb, sip and sips though they are not recognized |
| `UrlForms.CaseDoesNotMatter` | butil.c:586-658 | names that differ in the case of letters stand for the same |
| `UrlForms.PrefixFound` | butil.c:645-656 | a registered name stands for the names that begin with it and are not built in, and for no others |
| `UrlForms.FourPlaces` | butil.c:526-533 | at most four names are registered, of at most seven characters |
| `UrlForms.CutIsFront` | butil.c:548 | what is kept of a name that is too long is its front |
| `UrlForms.FilledBuffer` | butil.c:780-831 | a buffer holds the string and a terminator, and behind them what it held before |
| `UrlForms.NumbersRead` | butil.c:795 | digits are read up to their end, a value too large as the largest of 64 bits |
| `UrlForms.SignedNumbersRead` | butil.c:795 | a sign counts as one more character, and a minus turns the value around modulo 2^64 |
| `UrlForms.SpacesSkipped` | butil.c:795 | white space before a number counts too |
| `UrlForms.HostAndPath` | butil.c:730-832 | a URL without a port is accepted with the port of its scheme (21, 23, 443, 25, else 80) and its path, or "/" |
| `UrlForms.HostAndPort` | butil.c:792-832 | up to five digits are the port, reduced to 16 bits, and more are refused |
| `UrlForms.RefusedAfterHost` | butil.c:781-831 | a host or a path too long for its buffer, and text between port and path, are refused |
| `UrlForms.RefusedName` | butil.c:723-742 | a name of eight characters or more, or one that is not recognized, is refused |
| `UrlForms.FileForm` | butil.c:767-832 | a file URL has no host and port 80, and what follows "://" is its path |
| `UrlForms.RefusedLeaves` | butil.c:660-833 | a refused URL leaves no path, and of scheme, host and port what was known by then |
| `UrlForms.PastedForm` | butil.c:880-918 | the text pasted: name, "://", host, ':', the port in decimal without leading zeros, and the path with one slash in front |

## Left out

- RelaySpec.Pass: asks for a ring of at least 7 bytes, because the copy of a split header reads up to 3 bytes above its end and smaller rings would be overrun; the program allocates 0x20008.
- Relay.Connection.Relay: the loop is cut off after a given number of rounds, for every number, because the program's loop need not end.
- Smb2.V2Packet: a walk that leaves the memory given ends there, because what the program would read is undefined; Smb2.Inspection leaves the verdict on such a walk open, as a parameter.
- Inspected.ObeysExactlyWhenSettled: the ring that tells an open walk apart may be larger than 16 MB, because an open NextCommand may be that large.
- Inspected.SelfContainedObeys: only for packets that are not version 1, whose walk is a parameter.
- Base64.Base64Encode: asks for room for what is stored, which Base64.EncoderRespectsOutsize compares with `outsize`.
- Base64.Base64Decode: asks for room for all the decoded bytes, which Base64.DecoderRespectsOutsize compares with `outsize`.
- Utf8.Utf8Decode: asks that the bytes of the code are there when nutf is 0, because the program then reads them unchecked.
- Url.ParseUrl: callers want every part, so null output pointers are not modelled; asks for a host buffer of one character and a path buffer of two, because the program empties the host and stores "/" without a check of the size.
- Url.ParsePasteParse: asks for a path buffer of at least two characters, because with one the path that was stored did not fit.
- Served.Serve: the steps of one loop on its rings are taken as one; the slot model allows any number of them.
- The version 1 packet walk and its AndX chain: an uninterpreted predicate of the memory and the length.
- Bit operations of the codecs are written as arithmetic on natural numbers within the widths the code uses.
- Slots: steps are atomic and sequentially consistent, and tokens are never reused, unlike descriptor numbers; a failed pthread_create leaves the thread field empty. Sockets that a failing connect opens and closes by itself are not tokens. Clearing s_exit_threads, which nothing sets, is not modelled.
- main.cc ends the program when a call to smbgw_proxy_start fails; the slot model goes on.
- Sockets, select timeouts, name lookup, sleeping, logging and argument parsing: input and output.
- Allocation failures in smbgw_proxy_init: the model starts from the initialized slots.
- Dates, MIME types, command names, address formatting and host information: lookups and library calls.
