# ExaNIC userspace driver: a verified model

The ExaNIC library drives a network card from user space. It sends frames through a ring buffer that
driver and card share, receives them from a ring that the card overwrites without asking, checksums
payloads, converts hardware clock cycles, and compiles firewall rules to byte masks. This project models
that logic and proves what it keeps over whole runs.

| file | what it models |
|---|---|
| `Words.dfy`, `Bits.dfy` | fixed-width arithmetic, powers of two, `round_down_pow2` |
| `TxMachine.dfy` | the transmit ring as a state machine over unbounded sequence numbers: safety, conservation, progress |
| `TxRing.dfy` | the driver's own fields, 16-bit counters, table and wait loops, each method tied to steps of that machine |
| `RxStream.dfy`, `RxScan.dfy`, `RxFrame.dfy` | positions, laps and generations; the recovery scan; what one receive call promises |
| `RxRing.dfy` | the reader's methods while the card writes between any two of their steps |
| `RxRuns.dfy`, `RxRecovery.dfy` | whole runs of receive calls, and exactly when a recovery can move the reader back |
| `Checksum.dfy` | RFC 1071: portable loop, carry-chain fast path, packing |
| `Clock.dfy` | torn counter reads, time stamp expansion, exact conversions |
| `FilterRule.dfy`, `FilterLimits.dfy` | rules, their meaning and their compiled form; where a rule does not do what its words suggest |
| `FilterPacket.dfy` | packets as records of named fields, the frames they are written out to, and which of them a rule selects |
| `FilterParser.dfy`, `FilterGrammar.dfy`, `FilterCompiler.dfy` | the parser, the grammar it reads, and the parser as it runs, in place |
| `Firewall.dfy` | the register bank that filters are installed in |

`dafny verify dfyconfig.toml` checks the whole project. Source files named below without a directory are in
`libs/exanic`, `parser.c` in `libs/exanic/filter`.

## How concurrency is modelled

The card is part of the model. On the transmit side it is passed offsets, in order; number, slot, length and
whether to report are what it finds in memory there, and it writes the number to the slot if asked to. A
turn of a wait loop lets it service at least one command if there is any (turns in which nothing happens are
left out, since they change nothing). On the receive side the card may, before every header the reader
fetches and before every single byte it copies, complete any number of chunks and leave the next payload
partly written. Memory operations are taken to become visible in program order.

Three outcomes stand for calls that do not return: `WaitsForever` and `Hung` for a wait that can never end,
and `Waiting` for a receive call that is still inside a frame after a given number of polls.

## Findings

1. The transmit ring commits a wrap-around before it checks the size (fifo_tx.c:277-293). A request that is
   refused as too large can therefore leave the ring in a dead end, from which a later acceptable request
   waits for a feedback nobody asked for; `TxMachine.OversizeRequestLocksUp` is such a run.
   `TxRing.Tx.Prepare` and `TxMachine.WaitSucceedsIff` say exactly when: if and only if no chunk was sent
   since the wrap and the last requested one ended below the size now asked for. Without oversize requests
   it never happens (`TxMachine.RunMakesProgress`), as the comment at fifo_tx.c:239-249 intends.
2. `exanic_receive_chunk_recheck` looks at the header only. When the card is exactly one lap ahead it may be
   writing the payload while the recheck still answers yes (`RxRing.RecheckMissesTornPayload`), although
   fifo_rx.h:311 promises that the chunk is valid. A caller who wants that promise asks about the chunk before:
   the payload is valid if and only if the recheck of the previous chunk says yes
   (`RxRing.Rx.RecheckOfPrevious`). For the header the answer is exact (`RxRing.Rx.RecheckIsExact`).
3. A truncated frame moves the position but not the sentinel (fifo_rx.c:368-369). The next call then checks
   an older sentinel than necessary, and a recovery that follows can even move the reader back to frames it
   has already passed, if the card writes a whole lap during the scan without ending a frame;
   `RxRecovery.TruncatingRunMovesBack` is such a run. `RxRecovery.MovesBackIffAtRisk` says exactly when, for
   every reader at most 255 laps behind: if and only if one of the frames truncated since the sentinel ended
   in an earlier lap of the ring than the last one and will still be in the ring when the next frame is
   complete. A reader whose buffer holds every frame is never in that state (`RxRuns.SteadyWithoutTruncation`).
4. A `net` clause whose address has bits below the prefix is accepted and then matches no frame
   (parser.c:308-309). A rule matches some frame if and only if no clause is like that
   (`FilterLimits.MatchesSomeFrameIff`).
5. The VLAN "ID" is compared with the whole tag including priority bits (parser.c:123-124):
   `FilterLimits.VlanMissesPriority` gives, for every identifier, a frame of that VLAN which is not matched, and
   `FilterLimits.VlanAgreesIff` the frames for which it makes no difference. Of several `type` clauses the last
   one counts (parser.c:426-427); a rule asks for all of its clauses if and only if its types are all the same
   (`FilterLimits.AsksForAllIff`).
6. The lap test is exact up to 255 laps (`RxStream.LapDetectionIsExact`) and wrong one chunk later
   (`RxStream.LapDetectionIsSharp`); beyond that it is right if and only if the lap now in the slot is neither a
   multiple of 256 laps later nor one less (`RxStream.TestIsRightIff`).
7. pcie_if.h:1151-1152 says that a filter uses the first 80 bytes of its chunk; the code writes 88
   (pcie_if.h:54, firewall.c:48). The model follows the code.

## Assumptions

- The transmit buffer is a multiple of 4096 bytes (fifo_tx.c:138) and at most 2 MiB (pcie_if.h:50-51).
- The caller of `exanic_end_transmit_frame` does not use more than was prepared (fifo_tx.h:157-159).
- Payload lengths in receive chunks are at most 120, and a ring starts with one uniform generation and
  non-zero lengths (fifo_rx.c:287-288).
- The control registers of a firewall are all zero when the model starts.

## Model

| member | source | states |
|---|---|---|
| `Bits.RoundDownPow2IsLargest` | libs/exanic/fifo_tx.c:29-37 | for every non-zero 32-bit number the shift-and-or cascade yields a power of two that is at most the number and more than half of it |
| `TxMachine.InitialInv` | libs/exanic/fifo_tx.c:168-192 | a freshly acquired buffer satisfies the whole invariant |
| `TxMachine.FreeSpaceIsDisjoint` | libs/exanic/fifo_tx.c:253-287 | space offered for a chunk lies in the buffer and overlaps no chunk sent after the last known feedback, hence none the device still has to read |
| `TxMachine.InFlightDisjoint` | libs/exanic/fifo_tx.c:253-353 | chunks the device may still read never overlap each other, across any number of wraps |
| `TxMachine.StepKeepsInv` | libs/exanic/fifo_tx.c:218-353 | every step (device services, driver polls, reserves, caller fills, driver sends) keeps order and distances of the sequence numbers, the layout of the chunks, the feedback policy and the contents of everything in flight |
| `TxMachine.ReserveFindsPlace` | libs/exanic/fifo_tx.c:267-298 | the decision makes room exactly if there is a place, told from offsets alone, and then there: behind the last chunk if it fits, at the start of the buffer only if the buffer ends too early |
| `TxMachine.RunIsSafe` | libs/exanic/fifo_tx.c:253-353 | after any run from a fresh ring, offered space is inside the buffer and disjoint from every chunk not yet serviced, and those are pairwise disjoint |
| `TxMachine.ServiceConserves` | libs/exanic/fifo_tx.c:340-344 | what the device reads for the next chunk is the oldest pending chunk, byte for byte |
| `TxMachine.StepConserves` | libs/exanic/fifo_tx.c:326-353 | in one step, pending chunks plus chunks sent equal chunks read by the device plus chunks still pending, bytes included |
| `TxMachine.WireIsWhatWasSent` | libs/exanic/fifo_tx.c:326-353 | over a whole run the device reads exactly the bytes that were sent, each chunk once, in order, none overwritten before it was read |
| `TxMachine.DistancesAreExact` | libs/exanic/fifo_tx.c:165-185 | every 16-bit difference of sequence numbers is the true difference, with the bounds queue length, half of it plus one, and buffer size over 64 |
| `TxMachine.RequestBehind` | libs/exanic/fifo_tx.c:304-314 | within a lap the subtraction of the request offset never underflows |
| `TxMachine.RefusedOnlyInDeadEnd` | libs/exanic/fifo_tx.c:264-295 | with every requested feedback received, an acceptable size is granted if and only if the ring is not in a dead end |
| `TxMachine.WaitsOnlyForRequestedFeedback` | libs/exanic/fifo_tx.c:237-251 | if no oversize chunk was ever asked for, the driver waits only while a feedback it did request is outstanding |
| `TxMachine.DeadEndIsForever` | libs/exanic/fifo_tx.c:256-300 | in a dead end no number of device steps, polls and retries ever makes room |
| `TxMachine.Drain` | libs/exanic/fifo_tx.c:218-235 | the device can always finish what it was given, after which the feedback slot holds the last requested number |
| `TxMachine.WaitSucceedsIff` | libs/exanic/fifo_tx.c:256-300 | waiting for an acceptable size can succeed if and only if it does not start in a dead end |
| `TxMachine.RunMakesProgress` | libs/exanic/fifo_tx.c:237-314 | after any run that asked only for acceptable sizes the driver never waits for an unrequested feedback, and the device alone can end every wait |
| `TxMachine.StepKeepsSpaced` | libs/exanic/fifo_tx.c:300-314 | one step keeps the distance between chunks of one lap that ask for feedback |
| `TxMachine.FeedbackIsSpaced` | libs/exanic/fifo_tx.c:300-314 | over a whole run two chunks of one lap that both ask for feedback are more than half a queue of numbers or more than 512 bytes apart, and no stretch without a request is longer than that |
| `TxMachine.RefusedRequestCommitsWrap` | libs/exanic/fifo_tx.c:277-293 | the wrap is committed before the size check: a refused oversize request leaves a dead end for exactly the sizes above the end of the last requested chunk |
| `TxMachine.OversizeRequestLocksUp` | libs/exanic/fifo_tx.c:277-293 | a concrete run in which a refused request makes a following 128-byte request wait for ever on an idle device |
| `TxRing.CacheAlign` | libs/exanic/fifo_tx.c:256-258 | the smallest multiple of the cache line that is not below the size |
| `TxRing.AlignedBelow` | libs/exanic/fifo_tx.c:256-258 | rounding a size up stays below a limit of whole cache lines if and only if the size does |
| `TxRing.MtuIsExact` | libs/exanic/fifo_tx.c:355-361 | a frame is within the MTU if and only if its chunk, rounded up, is within the largest size the driver waits for |
| `TxRing.ChunkDecodes` | libs/exanic/fifo_if.h:107-146 | a chunk byte by byte: number, slot index, top bit of byte 3 for no report, length, type 1, no flags, two bytes of padding, frame; the device reads the same fields back |
| `TxRing.FillCompletesHeader` | libs/exanic/fifo_tx.c:337-340 | storing number and slot field completes a header from which the device reads number, slot, whether to report and a length inside the chunk |
| `TxRing.DecidedOnce` | libs/exanic/fifo_tx.c:260-298 | place or refusal follow from what the driver knows once it has a number; what fits behind the last chunk goes there at once |
| `TxRing.TableLookup` | libs/exanic/fifo_tx.c:259-260 | a lookup by masked 16-bit sequence number finds the end of the intended chunk |
| `TxRing.TableAppend` | libs/exanic/fifo_tx.c:346-349 | overwriting the oldest table entry keeps every lookup right that can still be made |
| `TxRing.OldestCommand` | libs/exanic/fifo_tx.c:340-344 | the oldest offset passed to the device is where the oldest unserviced chunk lies as it was sent, and the header there tells number, slot, whether to report, and length |
| `TxRing.IdleMeansDeadEnd` | libs/exanic/fifo_tx.c:283-300 | if nothing is left to service, the last report was read and there is no room for an acceptable size, the ring is in a dead end |
| `TxRing.Tx.constructor` | libs/exanic/fifo_tx.c:168-192 | the object starts as the initial machine state, its queue length rounded down to a power of two |
| `TxRing.Tx.Fetch` | libs/exanic/fifo_if.h:107-146 | from nothing but an offset the device finds the number and slot to report to, whether to report, and the bytes to send |
| `TxRing.Tx.DeviceServices` | libs/exanic/fifo_tx.c:337-345 | the device takes number, slot, report flag and length from the bytes at the offset it was given; it finds the chunk as it was sent and the driver finds the report it expects |
| `TxRing.Tx.UpdateFeedback` | libs/exanic/fifo_tx.c:218-235 | for any content of the feedback slot: accepted exactly when it is at most a queue length behind, otherwise both driver and slot are set to the previous number |
| `TxRing.Tx.SpinOnFeedback` | libs/exanic/fifo_tx.c:218-235 | with a conforming device the invalid-feedback branch is never taken, and the driver learns the true number |
| `TxRing.Tx.WaitForSequenceNumber` | libs/exanic/fifo_tx.c:262-267 | the first wait loop always ends, with a sequence number to spare and nothing else changed; it does not wait at all if there was one |
| `TxRing.Tx.TryRoom` | libs/exanic/fifo_tx.c:271-287 | one pass of the second loop reports room exactly if there is a place for the size, and then next_offset is that place |
| `TxRing.Tx.WaitForRoom` | libs/exanic/fifo_tx.c:269-300 | the second wait loop ends with room, with a refusal of an oversize chunk, or, exactly from a dead end, never; if there is a place at once it is taken, whatever the size, and only then |
| `TxRing.Tx.DecideFeedback` | libs/exanic/fifo_tx.c:302-318 | the three 16-bit tests ask for feedback exactly when the unbounded policy does |
| `TxRing.Tx.Prepare` | libs/exanic/fifo_tx.c:253-321 | safety, place, refusal and hanging of a call: the offered space is clear of everything in flight; a chunk that fits behind the last one goes there, whatever its size; oversize without a place is refused; the call hangs if and only if it starts in a dead end with an acceptable size; acceptable sizes only means room always |
| `TxRing.Tx.Store` | libs/exanic/fifo_tx.c:394-400 | a store into the reserved space is the machine step that fills it, and keeps everything in flight intact |
| `TxRing.CommitMatches` | libs/exanic/fifo_tx.c:346-352 | table, command FIFO and recorded headers after a send are right in terms of the masked 16-bit sequence number |
| `TxRing.Tx.Commit` | libs/exanic/fifo_tx.c:338-352 | offset, table, request and sequence number after a send are those of the machine, the offset joins the FIFO, and the chunk has its header |
| `TxRing.Tx.SendChunk` | libs/exanic/fifo_tx.c:332-353 | the chunk gets its number and feedback flag in place, as the device needs them, and is sent with its size rounded up |
| `TxRing.Tx.FillAndSend` | libs/exanic/fifo_tx.c:394-401 | header, padding and frame are in memory as one contiguous chunk when it is sent, and the chunk takes the frame rounded up to cache lines from next_offset on |
| `TxRing.Tx.TransmitFrame` | libs/exanic/fifo_tx.c:363-403 | a transmitted frame is, header and bytes, what the device will read next after everything sent before, from the place the search for room gives; refused exactly as that search says, or inside a prepared frame; hangs exactly in a dead end; a warm call sends and writes nothing |
| `TxRing.Tx.StartFrame` | libs/exanic/fifo_tx.c:431-439 | header and padding are in place in the space that was found, and the caller is told where to write |
| `TxRing.Tx.BeginTransmit` | libs/exanic/fifo_tx.c:415-440 | returns where the caller may write, inside the buffer, or fails or hangs under exactly the stated conditions; nothing sent before changes |
| `TxRing.Tx.WritePayload` | libs/exanic/fifo_tx.c:415-440 | what the caller writes into a prepared frame touches neither chunks in flight nor the header written before |
| `TxRing.Tx.StoreLength` | libs/exanic/fifo_tx.c:446-452 | a shorter length replaces the one stored at the beginning and leaves type, flags, padding and payload |
| `TxRing.Tx.EndTransmit` | libs/exanic/fifo_tx.c:442-460 | what is sent is the header with the final length followed by the bytes the caller left in the buffer; next_offset moves on by that length rounded up, not by what was prepared; the frame is no longer prepared |
| `TxRing.Tx.Abort` | libs/exanic/fifo_tx.c:556-561 | an aborted frame leaves the ring as it is and a new frame may begin |
| `RxStream.LatestStep` | libs/exanic/fifo_if.h:47-51 | publishing one chunk changes what one slot holds and no other |
| `RxStream.LapDetectionIsExact` | libs/exanic/fifo_rx.c:346-430 | with the writer at most 255 laps ahead the generation test says data, none or lapped if and only if the slot holds that position, is not yet written there, or was overwritten |
| `RxStream.TestIsRightIff` | libs/exanic/fifo_rx.c:346-430 | wherever the writer is, the generation test is right if and only if the position was not overwritten or the lap now in its slot is neither a multiple of 256 laps later nor one less |
| `RxStream.LapDetectionIsSharp` | libs/exanic/fifo_rx.c:419-424 | one chunk beyond 255 laps an overwritten position is taken for an unwritten one |
| `RxStream.FrameUnique` | libs/exanic/fifo_if.h:35-39 | at most one frame starts at a position |
| `RxStream.Body` | libs/exanic/fifo_if.h:35-39 | chunks that are not the last are full: 120 bytes each |
| `RxScan.BeginScan` | libs/exanic/fifo_rx.c:252-266 | the scan starts with its invariant |
| `RxScan.ScanWhileWriting` | libs/exanic/fifo_rx.c:268-271 | the invariant of the backward scan survives anything the device writes in between |
| `RxScan.LookKeepsInv` | libs/exanic/fifo_rx.c:269-310 | each header the scan looks at keeps the invariant: break and end-of-frame candidates stand for positions in the right order |
| `RxScan.ScanFinishes` | libs/exanic/fifo_rx.c:312-327 | when the scan ends, no end of frame that stayed in the ring all the while lies after the chosen position, and if there was one the chosen position is an end of frame |
| `RxScan.LookKeepsLeads` | libs/exanic/fifo_rx.c:269-310 | a frame end that led the ring when the scan began is not missed even if it is overwritten before the scan comes to it |
| `RxScan.WholeScanRecovers` | libs/exanic/fifo_rx.c:252-334 | every run of the scan, whatever the device writes between two looks, ends as specified |
| `RxScan.RecoveredAtRest` | libs/exanic/fifo_rx.c:252-334 | with the device idle the chosen position is the most recent end of frame in the ring, or the last chunk written if the ring holds none |
| `RxFrame.SeenExpected` | libs/exanic/fifo_rx.c:346-346 | a header with the expected generation belongs to the expected position, or to one at least 256 laps past any earlier position one compares with |
| `RxFrame.SentinelCheck` | libs/exanic/fifo_rx.c:379-385 | within 256 laps the sentinel generation is unchanged if and only if its header was not overwritten |
| `RxFrame.ReadingContinues` | libs/exanic/fifo_rx.c:397-416 | a full chunk extends what was collected by its 120 bytes, even if the device interferes |
| `RxFrame.ReadingEnds` | libs/exanic/fifo_rx.c:365-395 | the last chunk completes exactly one frame as written |
| `RxFrame.NotLappedIsDetermined` | libs/exanic/fifo_rx.c:336-431 | while the sentinel is not overwritten, every call that completes a frame reports exactly what the next frame amounts to: result, size, time stamp and bytes; and there is no overflow |
| `RxFrame.CompleteFrameIsDelivered` | libs/exanic/fifo_rx.c:336-431 | a frame that is complete when the call begins is delivered if the call may look once for each of its chunks: result, bytes, position and sentinel are those of the frame, or the device lapped the sentinel and an overflow is reported |
| `RxFrame.CompleteFrameIsDeliveredEx` | src/main.c:274-341 | the same for the capture reader: size, time stamp, error bits and position of the frame, its bytes while the chunk before it is in the ring |
| `RxFrame.CompleteFrameIsCollected` | libs/exanic/fifo_rx.c:433-507 | a caller reading chunk by chunk reaches the end of a complete frame that fits, with one attempt for each chunk |
| `RxFrame.CompleteFrameIsSkipped` | libs/exanic/fifo_rx.h:352-388 | skipping ends just after a frame whose end was there when the call began, with one look for each chunk |
| `RxFrame.CollectingContinues` | libs/exanic/fifo_rx.c:479-493 | reading a chunk that is not the last extends the collected frame |
| `RxFrame.CollectingEnds` | libs/exanic/fifo_rx.c:461-478 | the last of the chunks read one by one delivers what one call of the frame reader delivers, with the same final state |
| `RxFrame.CollectingLapped` | libs/exanic/fifo_rx.c:454-471 | a lap noticed while reading chunk by chunk is a software overflow of the frame reader |
| `RxFrame.AbortEndsTheFrame` | libs/exanic/fifo_rx.h:352-388 | skipping the rest after any number of chunks reaches the position after the same frame |
| `RxFrame.ReceivedStatus` | libs/exanic/fifo_rx.c:392-395 | with any filter region in the high bits, a frame is delivered as good if and only if its code is 0, and a bad one is reported with its code |
| `RxFrame.ExpectedStatus` | libs/exanic/fifo_if.h:78-100 | what a complete frame amounts to for each code |
| `RxFrame.ReceivedStatusEx` | src/main.c:305-311 | the capture reader reports exactly the code |
| `RxFrame.ChunkStatus` | libs/exanic/fifo_rx.c:470-478 | chunk by chunk, copied or in place, the last chunk is good if and only if its code is 0, and otherwise reported with it |
| `RxFrame.SkippedStatus` | libs/exanic/fifo_rx.h:368-379 | skipping reports the code of the frame skipped |
| `RxRing.ShowsTorn` | libs/exanic/fifo_if.h:35-51 | a partly written payload of the next chunk disturbs nothing that a reader may still rely on |
| `RxRing.ShowsPublished` | libs/exanic/fifo_if.h:35-51 | completing a chunk makes the ring show the longer stream |
| `RxRing.Rx.constructor` | libs/exanic/fifo_rx.c:252-334 | a new reader starts after a recovery scan, wherever the device is |
| `RxRing.Rx.DevicePublishes` | libs/exanic/fifo_if.h:47-51 | the device adds one chunk to the stream, payload before header, generation bumped at the wrap |
| `RxRing.Rx.CopyPayload` | libs/exanic/fifo_rx.c:371-371 | a byte-wise copy during which the device keeps writing delivers the bytes of its position if the device has not come back to the slot, and touches nothing outside the target range |
| `RxRing.Rx.Catchup` | libs/exanic/fifo_rx.c:252-334 | the scan with device writes between any two reads leaves the reader after a recovered end of frame, sentinel on it |
| `RxRing.Rx.ContinueAfter` | libs/exanic/fifo_rx.c:312-333 | position and generation after a given chunk, including the wrap to slot 0 |
| `RxRing.Rx.SpinOnNext` | libs/exanic/fifo_rx.c:405-408 | the next header is fetched; if the chunk was there already, the first look finds it |
| `RxRing.Rx.TakeFullChunk` | libs/exanic/fifo_rx.c:397-408 | copying a full chunk if it fits, counting it in any case, and fetching the next header with one look if the chunk is there |
| `RxRing.Rx.MoveSentinel` | libs/exanic/fifo_rx.c:373-385 | the sentinel moves to the chunk copied; an unchanged old sentinel was not overwritten, a changed one leads to a recovery |
| `RxRing.Rx.FinishFrame` | libs/exanic/fifo_rx.c:365-396 | truncation, sentinel check, error status or delivery of the last chunk, as specified for the whole call |
| `RxRing.Rx.ReceiveFrame` | libs/exanic/fifo_rx.c:336-431 | with the device writing between any two steps a positive result is exactly one frame as written and its time stamp; otherwise nothing new, truncated, bad with its code, or overflow with the reader recovered; still waiting only for a chunk that was missing when the call began, or after fewer looks than chunks; bytes beyond the size returned are untouched |
| `RxRing.Rx.FinishFrameEx` | src/main.c:295-311 | the last chunk of the capture reader, without a sentinel check |
| `RxRing.Rx.ReceiveFrameEx` | src/main.c:274-341 | reassembly and truncation of the capture reader: position, size and status always those of the written frame, bytes too if the chunk before the frame was not overwritten; still waiting under the same conditions only |
| `RxRing.Rx.TakeChunk` | libs/exanic/fifo_rx.c:442-494 | copying, sentinel check and result for a chunk that is there |
| `RxRing.Rx.ReceiveChunk` | libs/exanic/fifo_rx.c:433-507 | one chunk as written, whether more follow, error code, nothing new or overflow, with the sentinel on the chunk |
| `RxRing.Rx.ReceiveFrameByChunks` | libs/exanic/fifo_rx.c:433-507 | repeating chunk reads meets the specification of one call of the frame reader in every completed case: same bytes, final position and sentinel at the end of a frame, nothing new if the first chunk is not there, bad frame or overflow; it stops short only for want of room or attempts or at a chunk that was missing when it began, with what was collected so far |
| `RxRing.Rx.ReceiveChunkInplace` | libs/exanic/fifo_rx.h:166-224 | the slot and packed id of the chunk at the position, and its size, status and whether more follow while the device is less than 256 laps past the position, wherever the sentinel is; the sentinel does not move |
| `RxRing.Rx.RecheckIsExact` | libs/exanic/fifo_rx.h:313-320 | within 256 laps the recheck says yes if and only if the header of the chunk was not overwritten |
| `RxRing.ShowsPayload` | libs/exanic/fifo_rx.h:303-320 | the payload of a chunk is in memory until the device reaches its slot again |
| `RxRing.PayloadSettledIff` | libs/exanic/fifo_rx.h:303-320 | the payload of a chunk is certain, whatever the device has written since, if and only if the device is less than one lap ahead |
| `RxRing.PayloadSettledHereIff` | libs/exanic/fifo_rx.h:303-320 | the same for the chunks and headers really in the ring: all memories that show them agree on the payload if and only if the device is less than one lap ahead |
| `RxRing.Rx.RecheckOfPrevious` | libs/exanic/fifo_rx.h:303-320 | the payload of a chunk is valid if and only if the recheck of the chunk before it says yes; so the promise of the recheck holds for the chunk after the one asked about |
| `RxRing.RecheckMissesTornPayload` | libs/exanic/fifo_rx.h:303-320 | exactly one lap ahead the recheck says yes although the payload may already be partly overwritten |
| `RxRing.ChunkIdUnpacks` | libs/exanic/fifo_rx.h:186-187 | slot and generation can be read back from the packed chunk id |
| `RxRing.Rx.Abort` | libs/exanic/fifo_rx.h:352-388 | skips to just after the frame, or recovers, or is still waiting for a chunk that was missing when the call began or for want of looks |
| `RxRing.FreshRingShows` | libs/exanic/fifo_rx.c:287-288 | a fresh ring of one generation with non-zero lengths is one the reader understands, and recovery puts it at the first chunk to come |
| `RxRing.NextPlace` | libs/exanic/fifo_rx.c:356-362 | the position after a chunk, as slot and 8-bit generation |
| `RxRuns.NothingIsSkipped` | libs/exanic/fifo_rx.c:336-431 | over a run without overflow the ends of the frames consumed are exactly the ends of frames written between first and last position, in order |
| `RxRuns.DeliveredFrame` | libs/exanic/fifo_rx.c:336-431 | a delivered frame follows immediately after the previous end of frame and is complete |
| `RxRuns.OverflowMovesForward` | libs/exanic/fifo_rx.c:379-385 | recovery never moves the position back, unless the reader was at risk when the call began |
| `RxRuns.OverflowResynchronizes` | libs/exanic/fifo_rx.c:252-334 | if any end of frame stays in the ring during recovery, the reader continues after an end of frame not older than it |
| `RxRuns.ShortFramesResynchronize` | libs/exanic/fifo_rx.c:252-334 | with frames of at most k chunks and a device that writes less than the rest of the ring meanwhile, recovery ends at a frame start less than k chunks behind the device |
| `RxRuns.RunKeepsAligned` | libs/exanic/fifo_rx.c:365-396 | between calls the reader stands just after its sentinel or just after a frame end |
| `RxRuns.SteadyWithoutTruncation` | libs/exanic/fifo_rx.c:373-377 | a reader whose buffer is large enough for every frame is never at risk |
| `RxRuns.PositionNeverMovesBack` | libs/exanic/fifo_rx.c:336-431 | over every run in which no overflow finds the reader at risk the position never decreases, through recoveries too |
| `RxRuns.OnlyOverflowSkips` | libs/exanic/fifo_rx.c:336-431 | an end of frame that a run passes is either consumed or skipped by a call that reports overflow |
| `RxRuns.ConsumedInOrder` | libs/exanic/fifo_rx.c:336-431 | frames are consumed in written order, each at most once |
| `RxRecovery.FirstPart` | libs/exanic/fifo_rx.c:269-310 | until the device moves on the scan settles for a frame end of the old lap |
| `RxRecovery.SecondPart` | libs/exanic/fifo_rx.c:287-309 | if the device then laps the ring without ending a frame the scan keeps that frame end |
| `RxRecovery.CanMoveBack` | libs/exanic/fifo_rx.c:379-385 | for every reader at risk at most 255 laps behind, a way for the device to write that makes the sentinel check fail and the scan land before the position |
| `RxRecovery.RecoveryMovesForward` | libs/exanic/fifo_rx.c:252-334 | a recovery of an aligned reader that is not at risk never lands before its position |
| `RxRecovery.MovesBackIffAtRisk` | libs/exanic/fifo_rx.c:252-334 | for every aligned reader at most 255 laps behind: a recovery can move the position back if and only if a frame truncated since the sentinel ended in an earlier lap than the last one and will still be in the ring when the next frame is complete |
| `RxRecovery.CallMovesBack` | libs/exanic/fifo_rx.c:336-431 | every reader at risk has a call of the frame reader, made of a real recovery scan, that reports an overflow and leaves it before where it was |
| `RxRecovery.TruncatedCallIsForced` | libs/exanic/fifo_rx.c:367-369 | a call without a buffer on a ring at rest can do nothing but truncate the next frame |
| `RxRecovery.TruncatingRunMovesBack` | libs/exanic/fifo_rx.c:336-431 | a run from an aligned reader: two calls without a buffer that must truncate, on either side of the end of the ring, then an overflow whose recovery scan is given and moves the position back |
| `Checksum.CsumPartPortable` | libs/exanic/checksum.h:13-29 | for every buffer and initial sum the portable loop adds up the little-endian words, an odd last byte as it is, modulo 2^64; for buffers that fit in memory and sums below 2^63 nothing wraps |
| `Checksum.WordSumIsLittleEndian` | libs/exanic/checksum.h:13-29 | the word sum has the one's complement value of the whole string read as a little-endian number |
| `Checksum.PackSame` | libs/exanic/checksum.h:33-41 | four folds give a 16-bit value congruent to the sum modulo 65535 that is zero only for the sum zero, and the last cast loses nothing |
| `Checksum.PackDetermined` | libs/exanic/checksum.h:33-41 | sums with the same one's complement value pack to the same checksum |
| `Checksum.Adc` | libs/exanic/checksum_amd64.h:18-22 | add with carry is exact |
| `Checksum.AddEndAround` | libs/exanic/checksum_amd64.h:48-53 | add and add-carry keep the value and never lose a carry |
| `Checksum.AddLane` | libs/exanic/checksum_amd64.h:18-22 | a lane of four words and its final carry keep the value; the last carry is never lost |
| `Checksum.SumBlocks` | libs/exanic/checksum_amd64.h:9-60 | the block loop and the combination give a sum of at most 33 bits with the value of all whole blocks |
| `Checksum.TailLength` | libs/exanic/checksum_amd64.h:62-110 | the tests of the length bits decompose the rest exactly |
| `Checksum.AddTailWords` | libs/exanic/checksum_amd64.h:62-98 | 32-bit words of the tail are added, modulo 2^64 |
| `Checksum.TailSumIsWords` | libs/exanic/checksum_amd64.h:62-110 | what the tail adds has the value of the words it covers and is at most 2^32 a byte |
| `Checksum.AddTail` | libs/exanic/checksum_amd64.h:62-112 | the tail adds the remaining bytes, modulo 2^64 |
| `Checksum.ShortIffFits` | libs/exanic/checksum_amd64.h:62-112 | a buffer without blocks gets the right value if and only if the initial sum leaves room for the tail, as every sum up to 2^63 does |
| `Checksum.CsumPartAmd64` | libs/exanic/checksum_amd64.h:4-113 | for every buffer and initial sum: the result has the value of the initial sum plus the words if and only if the buffer has a block or the sum leaves room for the tail |
| `Checksum.Csum` | libs/exanic/checksum.h:51-55 | either route gives the same 16 bits for every byte string in memory and every initial sum below 2^63; beyond, each route is described exactly |
| `Checksum.ByteOrderIndependence` | libs/exanic/fifo_tx.c:487-487 | swapping the bytes of the little-endian checksum gives the big-endian checksum, for even and odd lengths (property B of section 2 of RFC 1071) |
| `Checksum.ChecksumOfParts` | libs/exanic/checksum.h:13-55 | summing an even-length prefix and then the rest gives the checksum of the whole |
| `Checksum.ZeroOnlyForZeros` | libs/exanic/checksum.h:33-55 | the checksum is zero if and only if every byte is |
| `Clock.TornReadIsSafe` | libs/exanic/time.c:15-29 | three register reads less than 2^31 ticks apart give the counter at the low-word read |
| `Clock.ExpandRecoversIff` | libs/exanic/time.c:45-48 | expansion returns a time from its low half if and only if it lies in the half-open window of 2^31 ticks around the reference |
| `Clock.TimestampRecovered` | libs/exanic/time.c:31-49 | the same through the whole call on every card: around the time on the info page, or around the running counter if no page is mapped or it shows 0 and the high word can be read |
| `Clock.PageDecides` | libs/exanic/time.c:38-43 | a page that shows 0 counts as none while the high word can be read; any other page decides alone, with or without the high word; without a tick rate the result is 0 |
| `Clock.PicosecondsAreExact` | libs/exanic/time.c:51-62 | seconds and picoseconds are exact floors, below 10^12, and neither 64-bit product overflows |
| `Clock.ErfFractionIsExact` | src/main.c:223-226 | the binary fraction is the exact floor of ps*2^32/10^12 and the shift does not overflow |
| `Clock.ErfWithinOneUnit` | src/main.c:223-226 | the two conversions together are at most one unit below the direct one and never above |
| `Clock.ErfTimeIsMonotone` | src/main.c:221-226 | later cycles never give an earlier ERF time |
| `Clock.NanosecondsAreExact` | libs/exanic/time.c:64-77 | seconds and nanoseconds combine to the exact nanosecond count when it fits 64 bits |
| `Clock.NanosecondsIsFloor` | libs/exanic/time.c:64-77 | that count is the floor of cycles * 10^9 / rate |
| `Clock.CounterIsFloor` | libs/exanic/time.c:101-105 | for every rate and every 64-bit counter the result is the floor of counter * rate / 10^9, modulo 2^32 |
| `Clock.CounterRoundTrip` | libs/exanic/time.c:64-105 | for frequencies up to 10^9, converting cycles to nanoseconds and back gives the same tick if the nanoseconds are whole, and exactly one tick less otherwise, modulo 2^32 |
| `Clock.WholeNanosecondsRoundTrip` | libs/exanic/time.c:64-105 | the same tick whenever the frequency divides 10^9 |
| `Clock.TimestampCounterRoundTrip` | libs/exanic/time.c:91-105 | the two deprecated calls are inverse up to the same single tick |
| `FilterRule.HeaderMeaning` | libs/exanic/filter/parser.c:117-191 | the header bytes match if and only if VLAN tag and protocol are those of the rule |
| `FilterRule.PrefixMeaning` | libs/exanic/filter/parser.c:300-309 | masking with the netmask gives the address if and only if the prefixes agree and the address has no host bits |
| `FilterRule.ClauseMeaning` | libs/exanic/filter/parser.c:312-428 | the bytes of a clause match if and only if its meaning holds and it is free of host bits |
| `FilterRule.FieldsAreSeparate` | libs/exanic/filter/parser.c:117-191 | fields of different clauses and the header never share a byte, and all lie below 44 |
| `FilterRule.FieldInside` | libs/exanic/filter/parser.c:50-51 | every field written lies inside the 44 bytes |
| `FilterRule.HeaderStaysInside` | libs/exanic/filter/parser.c:117-191 | every header byte written lies inside the 44 bytes |
| `FilterRule.CompilationPreservesMeaning` | libs/exanic/pcie_if.h:1139-1141 | for every accepted rule and every frame: masking yields the pattern if and only if the rule means the frame and no address has host bits |
| `FilterRule.OrderDoesNotMatter` | libs/exanic/filter/parser.c:193-431 | rules with the same clauses in any order compile to the same bytes |
| `FilterPacket.NetmaskLeads` | libs/exanic/filter/parser.c:303-309 | the netmask of a prefix length has exactly that many leading ones |
| `FilterPacket.NetworkIsPrefix` | libs/exanic/filter/parser.c:303-309 | an address without host bits matches exactly the addresses that begin with the same bits |
| `FilterPacket.VlanSelected` | libs/exanic/filter/parser.c:117-134 | the VLAN part of a rule means the frame if and only if the packet is tagged as the rule asks |
| `FilterPacket.ProtocolSelected` | libs/exanic/filter/parser.c:136-191 | the protocol part means the frame if and only if the named fields say so: tagged like the rule, ARP for Ethernet and IPv4, or IPv4 with five header words (any number for IGMP) and protocol 6, 17, 1 or 2 |
| `FilterPacket.ClauseFields` | libs/exanic/filter/parser.c:312-428 | ports, addresses, ICMP type and ARP sender lie in the frame where clauses look for them |
| `FilterPacket.ClauseSelected` | libs/exanic/filter/parser.c:312-428 | a clause means the frame if and only if the field it names has the value, or lies in the network |
| `FilterPacket.ApplicableIffPresent` | libs/exanic/filter/parser.c:239-250 | a clause can be given for a protocol if and only if every packet of that protocol has the field, the ARP target excepted |
| `FilterPacket.MatchesIffSelects` | libs/exanic/pcie_if.h:1139-1141 | for every accepted rule and every packet written out field by field: the compiled rule matches the frame if and only if the rule selects the packet by its named fields and no address in it has host bits |
| `FilterLimits.MatchesSomeFrameIff` | libs/exanic/filter/parser.c:300-309 | an accepted rule matches some frame if and only if none of its networks has host bits |
| `FilterLimits.VlanAgreesIff` | libs/exanic/filter/parser.c:123-124 | for an identifier n, the test for vlan n agrees with a comparison of the low 12 bits if and only if the frame is untagged, its tag has nothing above the identifier, or the identifiers differ |
| `FilterLimits.NoSuchVlan` | libs/exanic/filter/parser.c:81-84 | a number above 4095 is accepted and is the identifier of no frame |
| `FilterLimits.VlanMissesPriority` | libs/exanic/filter/parser.c:123-124 | for every identifier there is a frame of that VLAN which the rule does not match |
| `FilterLimits.AsksForAllIff` | libs/exanic/filter/parser.c:401-428 | a rule without host bits asks for all of its clauses if and only if its ICMP types are all the same |
| `FilterParser.ParsedIsAccepted` | libs/exanic/filter/parser.c:50-433 | what the parser accepts has applicable clauses and one clause per field, except ICMP types |
| `FilterParser.RenderedIsParsed` | libs/exanic/filter/parser.c:53-431 | every acceptable rule can be written down so that it is read back unchanged |
| `FilterGrammar.ParsesIffWritten` | libs/exanic/filter/parser.c:53-431 | a token sequence is accepted as a rule if and only if it writes that rule, told by a grammar without a parser |
| `FilterGrammar.WrittenIsRead` | libs/exanic/filter/parser.c:53-431 | every writing of a rule is read back: with or without the keyword of IP, hosts or networks, numbers of any size |
| `FilterGrammar.ReadWasWritten` | libs/exanic/filter/parser.c:53-431 | whatever is accepted is a writing of the rule that comes out |
| `FilterGrammar.WritingIsUnambiguous` | libs/exanic/filter/parser.c:53-431 | no token sequence writes two rules |
| `FilterGrammar.NumbersWrap` | libs/exanic/filter/parser.c:258-267 | numbers too large for their field are cut to the remainder |
| `FilterGrammar.Resumes` | libs/exanic/filter/parser.c:193-431 | after clauses that are accepted the parser goes on with the rest as if they had been given before |
| `FilterGrammar.UndefinedIffShifts` | libs/exanic/filter/parser.c:300-309 | the 32-bit number is shifted by 32 if and only if the tokens up to some point write a rule and go on with a network of prefix length 0; everything that neither writes a rule nor is like that is rejected |
| `FilterCompiler.UnsetFieldIsUnmasked` | libs/exanic/filter/parser.c:319-391 | the mask of a field is zero if and only if no clause about it was given |
| `FilterCompiler.CompiledStep` | libs/exanic/filter/parser.c:312-428 | adding a clause changes the bytes of its field and no others |
| `FilterCompiler.WriteHeader` | libs/exanic/filter/parser.c:117-191 | writing header bytes in place compiles the rule without clauses |
| `FilterCompiler.WriteClause` | libs/exanic/filter/parser.c:312-399 | writing a clause in place compiles the rule with that clause |
| `FilterCompiler.Conflicts` | libs/exanic/filter/parser.c:319-395 | the conflict test is true if and only if the field was given before |
| `FilterCompiler.ReadPrefix` | libs/exanic/filter/parser.c:53-115 | action, VLAN tag and protocol are read as specified, errors included |
| `FilterCompiler.AddressOrPort` | libs/exanic/filter/parser.c:212-400 | one dst or src clause is read, checked and written as specified |
| `FilterCompiler.ParseFilter` | libs/exanic/filter/parser.c:50-434 | accepts exactly the token sequences that read as a rule, and then leaves its compiled form in the two arrays |
| `FilterCompiler.ParsedFilterMeaning` | libs/exanic/filter/parser.c:50-434 | from tokens to frames: the bytes left by the parser match exactly the frames the rule means, provided no address has host bits |
| `Firewall.ClearLaneLanes` | libs/exanic/firewall.c:43-45 | clearing a control byte leaves the other three of its register |
| `Firewall.OrLaneLanes` | libs/exanic/firewall.c:57-59 | setting a cleared control byte leaves the other three of its register |
| `Firewall.InterleavedLanes` | libs/exanic/pcie_if.h:1143-1148 | the four bytes of a filter word are mask, pattern, mask, pattern from the lowest up |
| `Firewall.DisabledConsistent` | libs/exanic/firewall.c:43-45 | switching a slot off keeps the bank consistent and touches no other slot |
| `Firewall.LoadedConsistent` | libs/exanic/firewall.c:47-55 | loading a word of a switched-off slot keeps the bank consistent and touches no other slot |
| `Firewall.LoadedDecodes` | libs/exanic/firewall.c:47-55 | after each word the slot decodes to two more bytes of mask and pattern |
| `Firewall.SwitchedConsistent` | libs/exanic/firewall.c:57-59 | switching on a loaded slot keeps the bank consistent and touches no other slot |
| `Firewall.InstalledRuleDecides` | libs/exanic/pcie_if.h:1139-1141 | at every moment an enabled slot hits exactly the frames its rule means, if it is free of host bits, and its allow bit is that of the rule |
| `Firewall.EmptySlotIsSilent` | libs/exanic/firewall.c:43-45 | a slot with nothing installed hits no frame |
| `Firewall.DeviceReadsBank` | libs/exanic/pcie_if.h:1136-1174 | reading control bytes and filter words from the registers by bit and byte position gives what the bank says of a slot |
| `Firewall.InstalledRuleSelects` | libs/exanic/pcie_if.h:1383-1384 | at every moment the registers of an installed slot hit the frame of a packet if and only if the rule selects the packet; bit 1 tells allow from drop |
| `Firewall.Driver.constructor` | libs/exanic/pcie_if.h:828-834 | a card with all control registers zero has nothing installed |
| `Firewall.Driver.SetRaw` | libs/exanic/firewall.c:33-62 | after every single register write the bank is consistent and no other slot differs; at the end the slot holds the given bytes and control |
| `Firewall.Driver.SetFilter` | libs/exanic/firewall.c:93-109 | installs the rule that the tokens read as, or fails under exactly the stated conditions and writes no register |
| `Firewall.Driver.RegistersDecide` | libs/exanic/firewall.c:93-109 | for every packet: the registers of a slot hit its frame if and only if the slot has a rule, the rule selects the packet by its fields and has no host bits; allow or drop as the rule says |
| `Firewall.Driver.ClearFilter` | libs/exanic/firewall.c:121-133 | takes the rule away and leaves mask and pattern all zeros, or fails and writes no register |
| `Firewall.Driver.ClearAll` | libs/exanic/firewall.c:135-152 | takes every rule away and leaves all masks and patterns zero, even if storing that fails |

## Left out

- TxRing.Tx.WaitForRoom: a wait that cannot end is the outcome `WaitsForever` instead of a loop, recognised when no command is left and the slot was read.
- TxRing.Tx.TransmitFrame: the 16-bit length field holds the frame length modulo 2^16, as in the code; no bound on the frame length is claimed. Sizes near 2^64, where the addition in the alignment macro would wrap, are not modelled.
- RxRing.Rx.ReceiveFrame: the spin on the next chunk is bounded by a number of polls, after which the call is `Waiting`; bytes are promised while the card is less than 256 laps past the sentinel, or has not come back to the chunk before the frame; the frame's extent while it is less than 256 laps past that chunk.
- RxRing.Rx.ReceiveFrameEx: no integrity is claimed when the chunk before the frame was overwritten, because this reader has no sentinel check.
- RxRing.Rx.Abort: bounded by a number of polls in the same way; like the readers it needs one for each chunk that is there (`RxFrame.CompleteFrameIsSkipped`).
- RxScan.RecoveredAtRest: while the card writes during the scan, only ends of frames that stay in the ring are accounted for (`RxScan.ScanFinishes`).
- RxRuns.PositionNeverMovesBack: for runs in which no overflow finds the reader at risk, the condition of finding 3, and in which the card stays less than 256 laps past the chunk before each frame read and, at the end of a recovery, at most 255 laps past the sentinel or 254 past the frame.
- RxRuns.DeliveredFrame: the bytes only while the card is at most 256 laps past the sentinel, beyond which the sentinel check can be deceived.
- RxRecovery.MovesBackIffAtRisk: for a device at most 255 laps past the sentinel when the call begins and at most 254 laps of writing during one scan, beyond which generation numbers come back.
- Checksum.Csum: the two routes are shown to agree for buffers of at most 2^47 bytes, more than an amd64 process can hold.
- Clock.CounterRoundTrip: only while the nanosecond count fits 64 bits.
- Clock.ErfTimeIsMonotone: the seconds are compared before they are cut to the 32-bit record field.
- FilterParser.RenderedIsParsed: rules without a protocol cannot carry clauses in this syntax.
- FilterCompiler.ParseFilter: tokens carry what the C library makes of them (keyword, number, address, network); splitting the string, its length limit and the number syntax are not modelled. Prefix length 0 shifts a 32-bit number by 32 and is reported as its own outcome, `ShiftBy32`.
- Firewall.Driver.SetFilter: whether the filter string could be stored is a parameter.
- TxRing.Tx.Commit: the offset passed to the card is counted from the start of this buffer; the source adds the fixed position of the buffer in the card's memory.
- TxMachine.FeedbackIsSpaced: for runs that send each chunk with the size it was prepared for; a frame cut short after it was prepared can ask for feedback earlier.
- FilterPacket.MatchesIffSelects: the first four bytes behind a five-word IP header count as ports for protocols 6 and 17, also in a later fragment of a datagram, because the filter reads them so.
- `exanic_transmit_payload` and its begin and end variants: the same ring operations around a different header.
- `exanic_receive_chunk_ex`, `exanic_receive_chunk_inplace_ex` and the chunk time stamp getter: the same steps as the variants modelled, with the header copied out.
- `exanic_cycles_to_ps` and its overflow flag, negative cycle counts, and a tick rate of zero in the conversions.
- Opening devices, `mmap`, `ioctl`, sockets, allocation of buffers and slots by the kernel, configuration and port registers, filter string files.
- Capture files, printing, options and signals of the capture tool.
- The POWER checksum, prefetching, memory fences and caches.
