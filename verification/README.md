# noissh protocol core, modelled and proved in Dafny

noissh is a remote shell in the spirit of Mosh. Its protocol layers do no I/O: each is a state
machine that takes frames in, gives frames out, and must cope with a network that loses,
duplicates and reorders datagrams. This project models those layers and proves what they
promise, over every run.

Verify everything with `dafny verify dfyconfig.toml` (Dafny 4.11).

## How the model is organised

Each mutable component is a class whose methods keep the loops, branches and constants of the
original, and each method is proved against a function on values. The theorems are about those
functions: invariants over all runs, round trips, refinement and bounded progress.

| layer | files |
|---|---|
| shared vocabulary | `Common.dfy`, `Screen.dfy`, `Iteration.dfy` |
| frame codec, and all formats byte by byte | `Wire.dfy`, `Format.dfy` |
| reliable streams: reassembly, one endpoint's functions, the two-party protocol | `Reassembly.dfy`, `StreamSpec.dfy`, `StreamProtocol.dfy` |
| reliable streams: safety, what a poll sends, retirement, timers, congestion, flow control, progress | `StreamSafety.dfy`, `StreamSending.dfy`, `StreamRetirement.dfy`, `StreamTimers.dfy`, `StreamCongestion.dfy`, `StreamFlow.dfy`, `StreamProgress.dfy` |
| reliable streams: the stateful classes | `StreamState.dfy`, `StreamMux.dfy` |
| replay window, sealed sessions, keystrokes | `Replay.dfy`, `Session.dfy`, `Keystrokes.dfy` |
| terminal grid (values, their meaning cell by cell, then the in-place class) | `Terminal.dfy`, `TerminalMeaning.dfy`, `Grid.dfy` |
| screen diffs, screen synchronisation, recovery from being out of step | `Diff.dfy`, `ScreenSync.dfy`, `ScreenRecovery.dfy` |
| predictive echo, host patterns | `Predict.dfy`, `Glob.dfy` |

**The network.** A protocol state holds both ends and the log of every frame ever sent. A
delivery event hands over any logged frame, at any time, any number of times; a frame that is
never delivered is lost. Ghost components record what the application wrote, typed or read, and
which screen each sequence number stands for.

**Streams.** `StreamProtocol.Link` is one stream seen from both ends, from the moment both know it.
`StreamProtocol.Act` is one step of an end (write, close, reset, read, poll, take in a frame).
`StreamSafety.Reachable` is every state that some run reaches; all stream theorems are about it.
A round of `StreamProgress` is: both ends poll, exactly the fresh frames are delivered in both
directions, and the receiver reads.

**Screens.** The terminal's output and resizes appear as "the screen becomes any well-formed
screen". A reattach is a new client over a new transport session, so frames of the old session
are gone; what numbers stand for is recorded per session.

**Integers** are unbounded. The width of a field is explicit where the code depends on it: varints
hold 64 bits, `u16`, `u32` and `i32` fields are truncated on decoding, bitmap shifts drop high bits,
window and tick arithmetic saturates where the code saturates, and stream offsets are checked
against 2^64 where the code checks them. Section numbers below are those of RFC 6298 (timers) and
RFC 5681 (congestion control).

## What the proofs found

* **Screens can stay behind after a stale full snapshot.** Full snapshots apply unconditionally
  (crates/proto/src/shell.rs:186), so a retransmitted snapshot that arrives after a newer screen was
  acknowledged takes the client back. `ScreenSync.CatchesUpIff` gives the exact condition for catching
  up, `ScreenRecovery.SetBackIsReached` a family of runs, with no datagram arriving twice, that violate
  it, and `ScreenRecovery.SetBackStep` exactly the events that end it: a screen of another size, a diff
  still under way that leads to the acknowledged number or beyond, a late acknowledgement of a screen of
  another size, or a new attachment.
* **Reattaching can fail in three ways.** `ScreenRecovery.ReattachDelivered` and
  `ScreenRecovery.ReattachLost` say exactly when both ends settle after `rebind_to_new_client`
  (crates/proto/src/shell.rs:49-58), with the snapshot delivered and with it lost.
  If the screen is blank and numbers are in use, the snapshot reuses the old number, for which the
  cleared history has no entry, so its acknowledgement is ignored for good (`OrphanIsReached`).
  The forced snapshot is sent once (crates/proto/src/shell.rs:117-118): if it is lost and the new client
  has another size, all later deltas start from a blank base of the wrong size (`StrandIsReached`).
  If the screen is blank and was never numbered, nothing is sent, whatever the client's size
  (`SilenceIsReached`). `ScreenRecovery.StuckRun` shows that the first two last over every run without
  the events that `OrphanStep` and `StrandedStep` name.
* **The glob matcher is exact precisely for aliases without `*`** (`Glob.ExactIffStarFree`): it compares
  literally before it looks for a star.

## Model

| member | source | states |
|---|---|---|
| `StreamSafety.EndToEnd` | crates/transport/src/stream.rs:255-296 | in every reachable state, under any loss, duplication and reordering, each side has read a prefix of what the other wrote, base <= receiver's ack point <= high <= next = total written, and the send buffer is exactly the unacknowledged tail, so no byte leaves it before the receiver holds it contiguously |
| `StreamProtocol.StepInv` | crates/transport/src/stream.rs:535-605 | every step of either end (write, close, reset, read, poll, delivery of any logged frame) keeps the two-way protocol invariant: logged data frames carry stretches of what was written, the receiver holds only written bytes at their offsets, logged acknowledgements never exceed the receiver's ack point |
| `StreamProtocol.SenderStep` | crates/transport/src/stream.rs:250-427 | whatever the sending end does, its direction of the invariant is kept |
| `StreamProtocol.ReceiverStep` | crates/transport/src/stream.rs:548-571 | whatever the receiving end does, its direction of the invariant is kept |
| `StreamProtocol.ChunksCarry` | crates/transport/src/stream.rs:344-362 | each chunk cut from a range carries exactly the written bytes at its offset, stays inside the range, and is flagged FIN only at the end of all written bytes of a closed sender |
| `StreamProtocol.DrainAckPoint` | crates/transport/src/stream.rs:115-135 | reading leaves the acknowledged offset where it was, so acknowledgements never go backwards |
| `StreamSafety.FinIsTheEnd` | crates/transport/src/stream.rs:519-570 | if the peer never writes after closing, a recorded FIN offset is its total written length, and end of input on a live stream means everything was read |
| `StreamRetirement.RetirementLosesNothing` | crates/transport/src/stream.rs:230-248 | in every run, a side that was given up without an abort and before the grace ran out, nobody having written after closing, leaves the peer holding all it wrote and has read all the peer wrote |
| `StreamRetirement.GivenUpOnlyWhenDone` | crates/transport/src/stream.rs:230-248 | in every run, a side that was not aborted is given up only after it closed, and with its FIN acknowledged and everything up to the peer's FIN read, or the grace of 100 ticks over |
| `StreamRetirement.PollGivesUp` | crates/transport/src/stream.rs:607-628 | conversely, the next poll gives up a side that was aborted, with a reset frame, or has closed with both directions done or the grace over |
| `StreamRetirement.GraceCounts` | crates/transport/src/stream.rs:438-444 | the grace counts the polls that find us closed, the peer's close seen and its FIN missing, and nothing else |
| `StreamRetirement.ReadAllIsFinished` | crates/transport/src/stream.rs:519-527 | a side that knows the peer's FIN and has read all the peer wrote reports end of input |
| `StreamSending.WindowsExact` | crates/transport/src/stream.rs:382-396 | in every run, a poll puts a never-sent byte on the network if and only if it is written and lies below base + cwnd and below base + the peer's window |
| `StreamSending.RepeatExact` | crates/transport/src/stream.rs:397-404 | a poll repeats a sent byte if and only if nothing new can go, the byte is unacknowledged and the timer has run out |
| `StreamSending.FirstBurst` | crates/transport/src/stream.rs:29-35 | the first poll of a new stream sends exactly the first ten segments of what was written (section 2 of RFC 6928) |
| `StreamSending.FramesOfPoll` | crates/transport/src/stream.rs:344-362 | in every run, a data frame of a poll has at most 1024 bytes, and FIN exactly on the end of a closed stream whose FIN is not acknowledged |
| `StreamSending.EmptyFin` | crates/transport/src/stream.rs:406-417 | with everything acknowledged a closed stream sends an empty FIN at once, and again exactly when the timer runs out |
| `StreamSending.Advertises` | crates/transport/src/stream.rs:419-427 | every poll advertises the ack point and room up to 256 KiB past what was read |
| `StreamSending.RepeatsClose` | crates/transport/src/stream.rs:428-437 | a poll sends the close, with its status, if and only if there is one and our FIN is not acknowledged |
| `StreamSending.CloseCarriesStatus` | crates/transport/src/stream.rs:496-501 | after a close, over every run short of another one, every close that goes out carries the status given |
| `StreamSending.OpensFirst` | crates/transport/src/stream.rs:370-377 | the open is the first frame of the first poll and in no later one |
| `StreamSending.FinIsBacked` | crates/transport/src/stream.rs:287-295 | in every run a FIN counts as sent exactly if a frame with FIN was put on the network, and as acknowledged only then |
| `StreamSending.DataTakenExact` | crates/transport/src/stream.rs:548-571 | from any peer, data more than a window past what was read or beyond 64-bit offsets changes nothing, and any other is held byte for byte, its FIN offset recorded if it is the first |
| `StreamSending.FirstFinStands` | crates/transport/src/stream.rs:563-570 | whatever else a peer sends, the first FIN offset stands |
| `StreamSending.WildAckIgnored` | crates/transport/src/stream.rs:256-261 | an acknowledgement of bytes never written changes nothing |
| `StreamSending.StartsFresh` | crates/transport/src/stream.rs:198-227 | the state of a new stream, constants included |
| `StreamSending.EndsRemembered` | crates/transport/src/stream.rs:581-603 | closing ends our direction and keeps the status; a peer's close and reset are remembered, and nothing else changes |
| `StreamTimers.TimersHold` | crates/transport/src/stream.rs:263-340 | in every reachable state MIN_RTO <= rto <= MAX_RTO, MSS <= cwnd <= MAX_CWND, ssthresh >= 2 MSS, outstanding data has a running timer, and an open round-trip probe covers a byte transmitted exactly once, at the tick it records (sections 2 and 5 of RFC 6298, section 3.1 of RFC 5681) |
| `StreamTimers.SamplesAreKarn` | crates/transport/src/stream.rs:279-286 | any step of a reachable state leaves the round-trip estimate alone, or takes in an acknowledgement that covers the probed byte and folds in the time since that byte's one and only transmission in the log (section 3 of RFC 6298) |
| `StreamTimers.EstimateStays` | crates/transport/src/stream.rs:300-311 | once a round-trip estimate exists, no further run returns it to the value that means "no sample" |
| `StreamTimers.RetransmitsOnlyWhenDue` | crates/transport/src/stream.rs:384-404 | a byte sent before is sent again only when rto ticks have passed since the timer was last set |
| `StreamTimers.ChunksOnce` | crates/transport/src/stream.rs:344-362 | one emission of a range transmits each of its bytes exactly once and no other byte |
| `StreamCongestion.SlowStartDoubles` | crates/transport/src/stream.rs:324-331 | below ssthresh every acknowledged segment adds one segment, so a full window of them doubles the window (section 3.1 of RFC 5681) |
| `StreamCongestion.SlowStartRate` | crates/transport/src/stream.rs:324-331 | each acknowledgement below ssthresh adds what it acknowledges, up to one segment, and the window never exceeds 256 KiB |
| `StreamCongestion.SlowStartOnAcks` | crates/transport/src/stream.rs:255-278 | the same on acknowledgements: each that covers a segment or more opens the sender's window by one segment |
| `StreamCongestion.AvoidanceAddsOneSegment` | crates/transport/src/stream.rs:324-331 | above ssthresh one window's worth of acknowledged segments adds at most one segment and never shrinks the window |
| `StreamCongestion.AvoidanceRate` | crates/transport/src/stream.rs:324-331 | and each acknowledgement adds exactly a segment's share of a segment, rounded down |
| `StreamCongestion.AckExact` | crates/transport/src/stream.rs:255-296 | an acknowledgement moves the base to it, drops exactly those bytes, takes the window, and on progress grows the congestion window and restarts or stops the timer; FIN is acknowledged exactly if it was sent and all bytes are |
| `StreamCongestion.SampleWeights` | crates/transport/src/stream.rs:279-311 | a covered probe is closed and folded in: the first sample is the estimate and half of it the variance, later ones weigh one eighth and one quarter, rounded down (section 2 of RFC 6298) |
| `StreamCongestion.TimeoutAfterAck` | crates/transport/src/stream.rs:313-319 | after progress or a sample the timeout covers the estimate and four variances up to the cap, is above the estimate unless capped, and is no more than that asks for |
| `StreamCongestion.TimeoutCovers` | crates/transport/src/stream.rs:300-340 | in every run the timeout covers the estimate and four variances up to the cap, whatever was backed off |
| `StreamCongestion.NewDataEffects` | crates/transport/src/stream.rs:384-396 | sending new data moves the high mark just past it, opens a probe on it if none is open, starts the timer if it stands, and changes no window or timeout |
| `StreamCongestion.TimeoutEffects` | crates/transport/src/stream.rs:397-404 | a retransmission collapses the window to one segment, halves the threshold, doubles the timeout, drops the probe and restarts the timer |
| `StreamCongestion.EstimateBetween` | crates/transport/src/stream.rs:300-311 | the smoothed round-trip time never leaves the range of the samples it was made of |
| `StreamCongestion.TimeoutsBackOff` | crates/transport/src/stream.rs:335-340 | timeouts in a row double the rto each time up to MAX_RTO, keep the window at one segment and drop the probe (section 5 of RFC 6298) |
| `StreamFlow.BufferBounded` | crates/transport/src/stream.rs:548-571 | whatever frames a peer sends, in any order with any reads between, a stream holds at most one window plus the largest payload |
| `StreamFlow.WindowRespected` | crates/transport/src/stream.rs:382-427 | with acknowledgements taken in the order sent (any lost or repeated), unread data never exceeds the window and no data frame an honest sender ever logged is dropped as out of window |
| `StreamProgress.AdvancesWithin` | crates/transport/src/stream.rs:366-427 | from any reachable state of an open stream with unacknowledged bytes, MAX_RTO + 5 loss-free rounds advance the acknowledged prefix, whatever was lost before |
| `StreamProgress.DeliversAll` | crates/transport/src/stream.rs:335-427 | hence after a bounded number of such rounds the peer has read exactly everything written |
| `StreamProgress.RankStep` | crates/transport/src/stream.rs:384-404 | each settled round advances the acknowledged prefix or lowers the count of ticks until the retransmission timer fires |
| `StreamProgress.RoundReachable` | crates/transport/src/stream.rs:607-628 | a round is made of ordinary protocol steps, so every state it leads to is reachable |
| `StreamProgress.NewStreamIsOngoing` | crates/transport/src/stream.rs:480-494 | any bytes written to a new stream give a reachable state of the kind the progress theorems speak of |
| `Reassembly.Reassembler.Insert` | crates/transport/src/stream.rs:75-112 | the interval merge refines overlaying the new bytes, from the delivered offset on, over the map from offsets to bytes |
| `Reassembly.Reassembler.Read` | crates/transport/src/stream.rs:115-122 | returns the longest contiguous run from the delivered offset and forgets exactly it |
| `Reassembly.Reassembler.AckPoint` | crates/transport/src/stream.rs:125-130 | is the first offset from the delivered one on that is not held |
| `Reassembly.Reassembler.GetHull` | crates/transport/src/stream.rs:93-99 | the loop over touching segments finds the hull of them and the new range |
| `Reassembly.Reassembler.Merge` | crates/transport/src/stream.rs:100-110 | the copied buffer has the old bytes of every merged segment and the new data over them |
| `Reassembly.MergeRepresents` | crates/transport/src/stream.rs:85-111 | after a merge the segments stand for the overlaid map byte for byte, none missing and none added |
| `Reassembly.MergeCoalesced` | crates/transport/src/stream.rs:85-111 | after a merge the segments are non-empty, disjoint, non-adjacent and at or above the delivered offset |
| `Reassembly.CoalescedUnique` | crates/transport/src/stream.rs:67-72 | a map from offsets to bytes has only one coalesced segmentation, so the segment map is determined by the bytes held |
| `Reassembly.RunOfSegments` | crates/transport/src/stream.rs:115-130 | the segment at the delivered offset is exactly the longest contiguous run there, and its absence means there is none |
| `Reassembly.TotalIsHeld` | crates/transport/src/stream.rs:67-72 | the lengths of all segments add up to the number of bytes held: one byte of memory per byte |
| `StreamState.StreamState.Write` | crates/transport/src/stream.rs:250-253 | appends to the send buffer and moves the end of data; nothing else changes |
| `StreamState.StreamState.OnAck` | crates/transport/src/stream.rs:255-296 | the whole new state after an acknowledgement: the sender function over which the run theorems are proved |
| `StreamState.StreamState.UpdateRtt` | crates/transport/src/stream.rs:300-311 | folds a sample into srtt, rttvar and rto as Jacobson and Karels do, the first sample included |
| `StreamState.StreamState.RecomputeRto` | crates/transport/src/stream.rs:313-319 | the clamped rto of the estimate, or the initial value without one |
| `StreamState.StreamState.GrowCwnd` | crates/transport/src/stream.rs:324-331 | slow start below ssthresh, congestion avoidance above, capped |
| `StreamState.StreamState.OnRto` | crates/transport/src/stream.rs:335-340 | halved threshold, one-segment window, doubled rto, probe dropped |
| `StreamState.StreamState.EmitRange` | crates/transport/src/stream.rs:344-362 | the chunking loop appends exactly the chunks of the range and records whether a FIN went out |
| `StreamState.StreamState.SendData` | crates/transport/src/stream.rs:382-417 | new data first, retransmission only when due, an empty FIN otherwise: frames and new state of the sender function |
| `StreamState.StreamState.Transmit` | crates/transport/src/stream.rs:366-445 | the frames of one poll in order (open, data, acknowledgement with window, close) and the whole new stream state |
| `StreamState.StreamState.OnFrame` | crates/transport/src/stream.rs:535-605 | the new stream state for every frame kind, out-of-window and overflowing data dropped, the first FIN offset kept |
| `StreamState.StreamState.FullyDone` | crates/transport/src/stream.rs:230-248 | true exactly on the primary path or the close grace, with our side closed |
| `StreamState.StreamState.Read` | crates/transport/src/stream.rs:511-516 | hands over the contiguous bytes and drains exactly those |
| `StreamMux.StreamMux.Open` | crates/transport/src/stream.rs:480-486 | a new stream under the next local id of our parity; the others stay |
| `StreamMux.StreamMux.Write` | crates/transport/src/stream.rs:489-493 | appends to that stream only; an unknown id changes nothing |
| `StreamMux.StreamMux.Close` | crates/transport/src/stream.rs:496-501 | marks that stream's send side closed with its status; an unknown id changes nothing |
| `StreamMux.StreamMux.Reset` | crates/transport/src/stream.rs:504-508 | marks that stream for abort; an unknown id changes nothing |
| `StreamMux.StreamMux.Read` | crates/transport/src/stream.rs:511-516 | returns and drains that stream's contiguous bytes; an unknown id gives none |
| `StreamMux.StreamMux.OnFrame` | crates/transport/src/stream.rs:535-605 | peer-opened streams need the other parity, a free id and room in the table; other frames change only their own stream; the events raised are exactly those due, and none for a frame that no stream takes |
| `StreamMux.StreamMux.PollTransmit` | crates/transport/src/stream.rs:607-628 | one tick: every stream polled once in id order, frames concatenated in that order, exactly the reset and fully done streams removed, all others in their polled state |
| `StreamMux.StreamMux.IsRecvFinished` | crates/transport/src/stream.rs:519-527 | a stream that is gone counts as finished; a live one exactly when its FIN offset is known and everything was read |
| `StreamMux.EventsMean` | crates/transport/src/stream.rs:571-603 | a close is reported once, a reset always, data exactly when it makes more bytes readable, acknowledgements never |
| `Wire.PutVarint` | crates/wire/src/lib.rs:132-144 | the shifting loop appends the LEB128 form of the value |
| `Wire.GetVarint` | crates/wire/src/lib.rs:147-162 | the shift-and-or loop computes the recursive meaning of a varint, overflow and end-of-input errors included |
| `Wire.VarintRoundTrip` | crates/wire/src/lib.rs:132-162 | wherever the encoding of a u64 stands in a buffer, decoding there returns it and steps over it |
| `Wire.ParsedVarintFitsU64` | crates/wire/src/lib.rs:153-155 | whatever the bytes, an accepted varint fits 64 bits |
| `Wire.ZigzagBijective` | crates/wire/src/lib.rs:320-326 | zig-zag and its inverse undo each other both ways, and a status fits 32 bits |
| `Format.VarintBytes` | docs/PROTOCOL.md:8-9 | LEB128: byte i holds the seven bits of weight 128^i, and the high bit exactly if more bytes follow |
| `Format.VarintShortest` | crates/wire/src/lib.rs:132-144 | and there are no more bytes than the value needs |
| `Format.ZigzagCounts` | crates/wire/src/lib.rs:320-322 | zig-zag counts 0, -1, 1, -2, 2 and so on |
| `Format.BigEndianBytes` | docs/PROTOCOL.md:8-9 | header integers have their most significant byte first |
| `Format.InteractiveFrames` | docs/PROTOCOL.md:108-115 | the bytes of the interactive frames are the documented type and fields in order |
| `Format.StreamFrames` | docs/PROTOCOL.md:117-121 | the bytes of the stream and control frames are the documented type and fields in order |
| `Format.OpenFrame` | docs/PROTOCOL.md:116-124 | so are those of a stream open, with the documented kind byte |
| `Format.PacketBytes` | docs/PROTOCOL.md:20-37 | the outer headers of both packet types are the documented ones |
| `Format.CellBytes` | crates/term/src/diff.rs:35-74 | the bytes of a cell and of its colours |
| `Format.DiffBytes` | crates/term/src/diff.rs:84-118 | the bytes of a full snapshot and of a delta, header included |
| `Format.CodePoints` | crates/term/src/diff.rs:76-77 | a code that is no Unicode scalar value after truncation becomes the replacement character, any other stands for itself |
| `Format.BlankGrid` | crates/term/src/grid.rs:35-55 | a new grid is blank, with the cursor home and shown |
| `Format.UnknownTypeRefused` | docs/PROTOCOL.md:126-127 | a type byte outside the documented ones is refused, whatever follows |
| `Format.TruncatedRefused` | docs/PROTOCOL.md:126-127 | a frame cut short anywhere is refused |
| `Wire.FieldRoundTrip` | crates/wire/src/lib.rs:164-184 | length-prefixed bytes, flags, kinds and numbers decode to what was encoded, anywhere in a buffer |
| `Wire.FrameRoundTrip` | crates/wire/src/lib.rs:187-317 | wherever a frame's encoding stands, decoding there returns that frame and steps over it, for all twelve kinds |
| `Wire.DecodeEncode` | crates/wire/src/lib.rs:329-345 | a payload decodes to exactly the list of frames it was built from |
| `Wire.EncodeFrames` | crates/wire/src/lib.rs:329-335 | the loop concatenates the frames' encodings |
| `Wire.DecodeFrames` | crates/wire/src/lib.rs:338-345 | the loop computes the decoding function on any input, stopping at the first fault |
| `Wire.Decode` | crates/wire/src/lib.rs:338-345 | decoding any bytes terminates, and every accepted frame took at least one byte |
| `Replay.WindowFilter.CheckAndSet` | crates/transport/src/replay.rs:25-55 | true exactly when the nonce was never accepted and is less than 64 behind every accepted one; the bitmap then stands for the enlarged set |
| `Replay.AtMostOnce` | crates/transport/src/replay.rs:25-55 | over every run no nonce is let through twice |
| `Session.ParseBuilt` | crates/transport/src/lib.rs:80-117 | built transport and handshake packets parse back to session id, nonce and body |
| `Session.Session.Seal` | crates/transport/src/lib.rs:154-165 | takes the next nonce whether or not encryption succeeds, and builds the packet of the frames under it |
| `Session.Session.SealMany` | crates/transport/src/lib.rs:170-192 | on success the frames are split into consecutive non-empty groups that concatenate back to the list, each within the budget or a single frame and closed only when the next frame did not fit, sealed under consecutive nonces |
| `Session.PackedAt` | crates/transport/src/lib.rs:170-192 | what the packing says of every group and every pair of neighbours |
| `Session.EncodedSize` | crates/transport/src/lib.rs:178-186 | the running sum of frame sizes is the size of the group's payload |
| `Session.Session.Open` | crates/transport/src/lib.rs:196-216 | errors in the code's order; decrypt, then replay check, then the peer address moves, then decoding |
| `Session.OpenedOnce` | crates/transport/src/lib.rs:196-216 | over every sequence of arrivals, forged and replayed ones included, what is opened is what the peer sealed under that packet's own nonce, and no two openings have the same nonce |
| `Session.RoamsOnlyWhenAuthentic` | crates/transport/src/lib.rs:196-216 | the session changes only on an authentic packet with a fresh nonce, and then moves to its source |
| `Session.SealedOpens` | crates/transport/src/lib.rs:154-216 | what one end seals the other opens to the same frames, if the cipher undoes itself and the nonce is fresh |
| `Keystrokes.InputSender.Pending` | crates/transport/src/input.rs:33-41 | the frame to send is the whole unacknowledged suffix at its offset, or nothing |
| `Keystrokes.InputSender.OnAck` | crates/transport/src/input.rs:49-57 | drops exactly the newly acknowledged prefix; old and excessive acknowledgements are harmless |
| `Keystrokes.AnyAck` | crates/transport/src/input.rs:49-57 | of any acknowledgement, the base never goes back nor past the total, and what is kept is the rest of what was kept |
| `Keystrokes.InputReceiver.Ingest` | crates/transport/src/input.rs:74-87 | returns exactly the part of a frame that extends the bytes received; old frames and gaps give nothing |
| `Keystrokes.HandsOnPrefix` | crates/transport/src/input.rs:27-92 | under any loss, duplication and reordering, bytes handed on are a prefix of bytes typed and base <= received <= total |
| `Keystrokes.OneExchangeEmpties` | crates/transport/src/input.rs:27-92 | from any reachable state, one delivered pending frame and one delivered acknowledgement empty the sender with every byte typed handed on |
| `Diff.CellFound` | crates/term/src/diff.rs:35-82 | wherever the encoding of a cell stands, decoding there returns the cell and steps over it |
| `Diff.HeaderFound` | crates/term/src/diff.rs:84-90 | the same for the header of a diff |
| `Diff.ChangesExact` | crates/term/src/diff.rs:109-116 | a delta names exactly the cells that differ, each with its new contents |
| `Diff.EncodeDiff` | crates/term/src/diff.rs:93-118 | the encoder's bytes: a full snapshot without a base of the same size, otherwise the changes |
| `Diff.IsFullExact` | crates/term/src/diff.rs:121-123 | an encoded diff counts as full exactly when it had no base of the target's size |
| `Diff.ApplyDiff` | crates/term/src/diff.rs:126-170 | the decoder on a grid computes the applying function, faults and partial writes included, and leaves the grid valid (buffers, cursor, scroll region) whatever the bytes |
| `Diff.ApplyKeepsWellFormed` | crates/term/src/diff.rs:126-170 | on arbitrary bytes the screen stays well formed even when the diff fails half-way |
| `Diff.DeltaResult` | crates/term/src/diff.rs:148-163 | on any grid of the right size a delta puts in its changes and nothing else |
| `Diff.DiffExact` | crates/term/src/diff.rs:93-170 | applying the encoded diff succeeds and shows the target if and only if the target is within MAX_CELLS and the diff is full, or the grid has the target's size and agrees with the base on the unchanged cells |
| `Diff.DiffRoundTrip` | crates/term/src/diff.rs:93-170 | from the base, and again from the target, the diff shows the target, so re-application is harmless |
| `Diff.Rejected` | crates/term/src/diff.rs:137-151 | a diff over MAX_CELLS, or a delta for another size, is refused and leaves the screen alone |
| `Diff.HeaderDecides` | crates/term/src/diff.rs:126-170 | of any readable header, sizes of zero or over 2^20 cells are refused, and on success size, visibility and the nearest cursor are the header's |
| `Diff.LastChangeWins` | crates/term/src/diff.rs:153-160 | of any list of changes the last one for a place wins |
| `ScreenSync.NeverTorn` | crates/proto/src/shell.rs:82-193 | for every interleaving of output, resizes, polls, lost, repeated and reordered diffs and acknowledgements, and reattaching, a client that has applied a diff shows exactly the screen recorded under its number |
| `ScreenSync.DeliverExact` | crates/proto/src/shell.rs:183-193 | a delivered diff leaves the client alone or makes it show the screen of the diff's number, nothing in between |
| `ScreenSync.AnyFrame` | crates/proto/src/shell.rs:183-193 | of any frame whatever, the number moves only with a successful decoding, of a full diff or of one from the client's number to a newer |
| `ScreenSync.PollRecords` | crates/proto/src/shell.rs:104-131 | a diff that is sent carries the number under which the present screen is recorded |
| `ScreenSync.ScreensStay` | crates/proto/src/shell.rs:104-131 | what a number stands for never changes while a client stays attached |
| `ScreenSync.StepAttached` | crates/proto/src/shell.rs:82-131 | with one client from the start, every step keeps the history at exactly the numbers from the acknowledged one to the last, and the client's number at most the last |
| `ScreenSync.Converges` | crates/proto/src/shell.rs:82-193 | from any state reached without delivering a stale full snapshot, the history is exact, one acknowledgement and one diff bring the client to the present screen, and one more acknowledgement makes the server fall silent |
| `ScreenSync.ConvergesWithoutResize` | crates/proto/src/shell.rs:82-193 | without a resize no full snapshot exists and the same holds under any loss, repetition and reordering |
| `ScreenSync.CatchesUpIff` | crates/proto/src/shell.rs:82-193 | one acknowledgement and one diff catch the client up if and only if it is not behind what it has acknowledged, or the screen has another size than the acknowledged one |
| `ScreenSync.ThenQuiet` | crates/proto/src/shell.rs:104-113 | once caught up, the acknowledgement silences the server |
| `ScreenSync.DiffArrivesExact` | crates/proto/src/shell.rs:104-193 | from any state, the diff of the next poll is taken exactly if one is sent and it is full, or starts from the client's number and fits its size |
| `ScreenSync.SettlesIff` | crates/proto/src/shell.rs:49-193 | from any state, reattached clients included, an acknowledgement, a diff and an acknowledgement settle both ends if and only if the present screen has or gets a number in the history, and the client's number is the base with a fitting size or something is sent in full |
| `ScreenRecovery.ReattachDelivered` | crates/proto/src/shell.rs:49-58 | after a reattach whose snapshot arrives, both ends settle if and only if the screen is not blank, or is blank, was never numbered and has the client's size |
| `ScreenRecovery.ReattachLost` | crates/proto/src/shell.rs:116-118 | after a reattach whose first snapshot is lost, both ends settle if and only if the client has the screen's size, and the screen is not blank or was never numbered |
| `ScreenRecovery.ReattachOrphansIff` | crates/proto/src/shell.rs:49-58 | the snapshot leaves the client with a number outside the history if and only if the screen is blank and numbers are in use |
| `ScreenRecovery.ReattachStrandsIff` | crates/proto/src/shell.rs:116-118 | losing the snapshot strands the client if and only if the sizes differ and one was sent |
| `ScreenRecovery.OrphanStep` | crates/proto/src/shell.rs:82-193 | over every event, an orphan stays one if and only if the event is not a screen of another size, a snapshot with a number in the history, or a new attachment; until then its screen never changes |
| `ScreenRecovery.StrandedStep` | crates/proto/src/shell.rs:82-193 | over every event, a stranded client stays so if and only if the event is not a screen of another size, the arrival of a snapshot, or a new attachment; until then it stays blank |
| `ScreenRecovery.StaleFullSetsBack` | crates/proto/src/shell.rs:183-193 | a full snapshot older than the acknowledged screen sets the client back |
| `ScreenRecovery.SetBackStep` | crates/proto/src/shell.rs:82-193 | over every event, a client that was set back stays behind if and only if the event is not a screen of another size, a diff under way to the acknowledged number or beyond, a late acknowledgement of a screen of another size, or a new attachment |
| `ScreenRecovery.StuckRun` | crates/proto/src/shell.rs:82-193 | over every run without such an event, a stuck client and its server never settle |
| `ScreenRecovery.ResizeFrees` | crates/proto/src/shell.rs:104-131 | once the screen takes another size, the next exchange settles a stuck client |
| `ScreenRecovery.OrphanIsReached` | crates/proto/src/shell.rs:49-58 | runs from the start that orphan the client, for every size and every first screen that is not blank |
| `ScreenRecovery.StrandIsReached` | crates/proto/src/shell.rs:116-118 | runs from the start that strand the client, for every screen that is not blank and every new client of another size |
| `ScreenRecovery.SilenceIsReached` | crates/proto/src/shell.rs:111-113 | runs from the start after which a reattached client of another size is sent nothing |
| `ScreenRecovery.SetBackIsReached` | crates/proto/src/shell.rs:183-193 | runs from the start, with every diff delivered at most once, that set the client back, for every starting size and any two different screens of another size |
| `ScreenSync.ServerShell.OnStateAck` | crates/proto/src/shell.rs:82-88 | a known newer number becomes the base and older history is pruned; anything else is ignored |
| `ScreenSync.ServerShell.PollDiff` | crates/proto/src/shell.rs:104-131 | a changed screen gets the next number, nothing is sent when caught up, one full snapshot is forced after a reattach, otherwise the diff from the acknowledged screen |
| `ScreenSync.ServerShell.RebindToNewClient` | crates/proto/src/shell.rs:49-58 | progress and history are forgotten, the screen kept, a full snapshot forced |
| `ScreenSync.ClientShell.ApplyStateDiff` | crates/proto/src/shell.rs:183-193 | full snapshots always, deltas only from the current number to a newer one; the number moves only if decoding succeeded |
| `Terminal.Run` | crates/term/src/grid.rs:104-334 | every run of actions keeps buffers of rows x cols cells, the cursor and the scroll region in bounds and ordered, and the kept-aside buffer exactly on the alternate screen; no index leaves its buffer |
| `Terminal.TwoColumnsSuffice` | crates/term/src/grid.rs:104-170 | with two columns or more every sequence of actions whose resizes keep two columns is such a run |
| `Terminal.Placed` | crates/term/src/grid.rs:119-137 | a pending wrap is carried out, as a line feed from column 0, before anything else; a wide glyph is placed where both its columns exist; otherwise nothing moves |
| `Terminal.ScrollsRowsUp` | crates/term/src/grid.rs:188-202 | scrolling up moves whole rows of the region, blanks those that come in, and touches no other row |
| `Terminal.ScrollsRowsDown` | crates/term/src/grid.rs:204-218 | the same downwards |
| `Terminal.DeletesColumns` | crates/term/src/grid.rs:283-294 | deleting characters moves the rest of the cursor's row left, blanks its end, and touches nothing else |
| `Terminal.InsertsColumns` | crates/term/src/grid.rs:270-281 | inserting blanks moves the rest of the cursor's row right and touches nothing else |
| `Terminal.ScrollBack` | crates/term/src/grid.rs:188-218 | scrolling down undoes scrolling up for the rows that stayed in the region |
| `TerminalMeaning.ErasesLine` | crates/term/src/grid.rs:249-268 | mode 0 blanks the cursor's row from the cursor on, mode 1 through the cursor, any other the whole row, and nothing else |
| `TerminalMeaning.ErasesDisplay` | crates/term/src/grid.rs:226-247 | the same for the display in reading order |
| `TerminalMeaning.Scrolls` | crates/term/src/grid.rs:564-565 | the scroll actions move the rows of the region in their direction |
| `TerminalMeaning.MovesLines` | crates/term/src/grid.rs:296-314 | inserting lines pushes rows down from the cursor's row, deleting pulls them up, inside the region and only if the cursor is in it |
| `TerminalMeaning.MovesChars` | crates/term/src/grid.rs:270-294 | inserting characters pushes the rest of the row right, deleting pulls it left |
| `TerminalMeaning.FeedsLine` | crates/term/src/grid.rs:172-178 | a line feed goes down one row, scrolls the region up by one at its bottom, and stops at the last row |
| `TerminalMeaning.FeedsBack` | crates/term/src/grid.rs:180-186 | a reverse index goes up one row, scrolls the region down by one at its top, and stops at the first row |
| `TerminalMeaning.StepsVertically` | crates/term/src/grid.rs:523-532 | up and down move the row in their direction and stop at the edge |
| `TerminalMeaning.StepsHorizontally` | crates/term/src/grid.rs:533-542 | left and right move the column in their direction and stop at the edge |
| `TerminalMeaning.PlacesCursor` | crates/term/src/grid.rs:220-224 | absolute movement goes to the place named or the nearest on the screen |
| `TerminalMeaning.PlacesOneWay` | crates/term/src/grid.rs:543-552 | so does movement to a row or to a column |
| `TerminalMeaning.ReturnsAndBacks` | crates/term/src/grid.rs:502-511 | carriage return goes to the first column, backspace one to the left |
| `TerminalMeaning.Tabs` | crates/term/src/grid.rs:512-515 | a tab goes to the next multiple of eight, or to the last column if there is none |
| `TerminalMeaning.PlacesGlyph` | crates/term/src/grid.rs:119-137 | a glyph goes to the cursor, after a pending wrap; a wide one in the last column wraps too, or is pulled left if wrapping is off |
| `TerminalMeaning.Prints` | crates/term/src/grid.rs:139-152 | the glyph is written there with the pen, a spacer beside a wide one, and no other cell changes |
| `TerminalMeaning.AdvancesCursor` | crates/term/src/grid.rs:154-169 | then the cursor moves past the glyph; at the edge it waits to wrap, or stays in the last column if wrapping is off |
| `TerminalMeaning.SetsRegion` | crates/term/src/grid.rs:566-574 | a scroll region is taken exactly if it is ordered and on the screen, and sends the cursor home |
| `TerminalMeaning.SetsModes` | crates/term/src/grid.rs:637-650 | the pen, wrapping and cursor visibility are set, and nothing else |
| `TerminalMeaning.EntersAndResizes` | crates/term/src/grid.rs:316-455 | the alternate screen starts blank with the cursor home; a resize keeps the overlap, the nearest cursor and the whole region |
| `TerminalMeaning.Leaves` | crates/term/src/grid.rs:316-334 | leaving the alternate screen shows the cells kept aside and changes nothing else; entering it again, or leaving the main screen, changes nothing |
| `TerminalMeaning.StartsBlank` | crates/term/src/grid.rs:35-55 | the state of a new or reset terminal |
| `TerminalMeaning.RestoresSaved` | crates/term/src/grid.rs:619-626 | whatever happens between saving and restoring, short of another save, a reset or a resize, the cursor and the pen come back |
| `Terminal.ResizedAt` | crates/term/src/grid.rs:428-437 | every cell of the overlap keeps its row and column, all others are blank |
| `Terminal.AltIsTransparent` | crates/term/src/grid.rs:316-455 | whatever is done on the alternate screen short of a reset, leaving it shows the main cells as if only the resizes had happened, and on the main screen |
| `Terminal.AltRestoresExactly` | crates/term/src/grid.rs:316-334 | without a resize the main cells come back exactly |
| `Grid.PullRows` | crates/term/src/grid.rs:188-202 | the in-place row loop equals the functional shift up |
| `Grid.PushRows` | crates/term/src/grid.rs:204-218 | the reverse in-place row loop equals the functional shift down |
| `Grid.DeleteCells` | crates/term/src/grid.rs:283-294 | the in-place column loop equals the functional shift left |
| `Grid.InsertCells` | crates/term/src/grid.rs:270-281 | the reverse in-place column loop equals the functional shift right |
| `Grid.CopyOverlap` | crates/term/src/grid.rs:428-447 | the nested copy loop computes the resized buffer |
| `Grid.EraseRange` | crates/term/src/grid.rs:226-268 | the erasing loops blank exactly their range |
| `Grid.Grid.ScrollUp` | crates/term/src/grid.rs:188-202 | the whole new grid state: the region shifted by at most its height, all else kept |
| `Grid.Grid.ScrollDown` | crates/term/src/grid.rs:204-218 | the same downwards |
| `Grid.Grid.InsertLines` | crates/term/src/grid.rs:296-304 | outside the region nothing; inside, a downward scroll from the cursor's row with the region put back |
| `Grid.Grid.DeleteLines` | crates/term/src/grid.rs:306-314 | outside the region nothing; inside, an upward scroll from the cursor's row with the region put back |
| `Grid.Grid.InsertBlankChars` | crates/term/src/grid.rs:270-281 | the whole new grid state: the cursor's row shifted right from the cursor, by at most what is left of it |
| `Grid.Grid.DeleteChars` | crates/term/src/grid.rs:283-294 | the whole new grid state: the cursor's row shifted left onto the cursor, by at most what is left of it |
| `Grid.Grid.EraseInDisplay` | crates/term/src/grid.rs:226-247 | blanks from the cursor to the end, from the start through the cursor, or everything |
| `Grid.Grid.EraseInLine` | crates/term/src/grid.rs:249-268 | the same within the cursor's row |
| `Grid.Grid.PutChar` | crates/term/src/grid.rs:104-170 | zero-width glyphs change nothing; others wrap if due, are written with the pen, a wide one with its spacer, and advance or wait to wrap |
| `Grid.Grid.LineFeed` | crates/term/src/grid.rs:172-178 | scrolls at the bottom of the region, else moves down within the screen |
| `Grid.Grid.ReverseIndex` | crates/term/src/grid.rs:180-186 | scrolls at the top of the region, else moves up within the screen |
| `Grid.Grid.EnterAltScreen` | crates/term/src/grid.rs:316-325 | the main cells are kept aside, the screen is blank, the cursor home; a second entry changes nothing |
| `Grid.Grid.LeaveAltScreen` | crates/term/src/grid.rs:327-334 | the kept cells are shown again; on the main screen nothing changes |
| `Grid.Grid.Resize` | crates/term/src/grid.rs:428-455 | both buffers resized, region reset, cursor clamped |
| `Grid.Grid.Perform` | crates/term/src/grid.rs:494-650 | every parsed action leaves the grid in the state its meaning gives, and valid |
| `Predict.Predictor.PredictInput` | crates/predict/src/lib.rs:98-140 | the byte loop computes the typing function: printable bytes predicted unless the screen is full, backspaces undo, anything else gives up |
| `Predict.Predictor.Reconcile` | crates/predict/src/lib.rs:165-202 | the whole new state after an authoritative screen: misses clear and suspend, hits confirm, predictions not yet reached are kept |
| `Predict.Predictor.ShowOverlay` | crates/predict/src/lib.rs:143-162 | the painting loop computes the overlay |
| `Predict.Sift` | crates/predict/src/lib.rs:165-182 | the loop parts predictions into kept, confirmed and missed |
| `Predict.RunInv` | crates/predict/src/lib.rs:74-202 | in every run with fixed size, outstanding predictions occupy consecutive reading-order cells ending just before the predicted cursor, none before the authoritative cursor |
| `Predict.OverlaySound` | crates/predict/src/lib.rs:143-162 | in every such run the overlay differs from the real screen only in those cells, where it shows the predictions |
| `Predict.BackspacesUndo` | crates/predict/src/lib.rs:98-130 | as many backspaces as printable characters were accepted restore the state exactly |
| `Predict.PrintableAdds` | crates/predict/src/lib.rs:101-115 | a printable byte adds one prediction, of itself at the predicted cursor, which moves one cell on; on the last cell of the screen it changes nothing |
| `Predict.BackspaceTakesBack` | crates/predict/src/lib.rs:122-132 | a backspace takes the last prediction back and puts the predicted cursor on its cell; without one it does nothing |
| `Predict.OtherKeysGiveUp` | crates/predict/src/lib.rs:116-137 | Enter and every other byte give all predictions up and return the cursor to the authoritative one, whatever was typed before |
| `Predict.MissGivesUp` | crates/predict/src/lib.rs:169-186 | one passed cell that shows another character gives all predictions up and suspends display |
| `Predict.EchoConfirms` | crates/predict/src/lib.rs:169-202 | if every passed cell shows its character and one is passed, display is trusted and exactly the cells not passed stay predicted |
| `Predict.NothingPassed` | crates/predict/src/lib.rs:169-202 | a screen whose cursor has passed no prediction changes nothing but the screen |
| `Predict.ModesDecide` | crates/predict/src/lib.rs:47-80 | the fixed modes show predictions always, or never; a new predictor is adaptive, predicts nothing and trusts nothing |
| `Predict.ConfirmedIff` | crates/predict/src/lib.rs:165-190 | echo counts as confirmed exactly when some screen of the run confirmed a prediction and refuted none |
| `Predict.AdaptiveExact` | crates/predict/src/lib.rs:74-190 | in adaptive mode predictions are shown exactly while the last screen that decided about one confirmed it and refuted none |
| `Predict.AdaptiveWaits` | crates/predict/src/lib.rs:74-80 | so nothing predicted is shown until some prediction has been confirmed |
| `Glob.GlobMatch` | src/sshconfig.rs:109-136 | the two-pointer loop terminates and computes the search, and for aliases without a star the recursive meaning of the pattern |
| `Glob.GreedyIsExact` | src/sshconfig.rs:109-136 | remembering only the last star misses no match and invents none, for every pattern and every star-free alias |
| `Glob.GoalNewStar` | src/sshconfig.rs:118-121 | forgetting the earlier star at a later one loses no match |
| `Glob.MatchesMeans` | src/sshconfig.rs:108-109 | a pattern matches exactly if the text falls into one piece per pattern character: any for a star, one character for `?`, itself for any other |
| `Glob.ExactIffStarFree` | src/sshconfig.rs:109-136 | the aliases on which the matcher is right whatever the pattern are exactly those without a star |
| `Glob.HostPatternsMatch` | src/sshconfig.rs:94-106 | a Host line selects an alias exactly when some positive pattern matches and no negated one does |

## Left out

- Sockets, poll loops, ptys, exec, forwarding, file transfer, SSH bootstrap, configuration files, argument parsing and raw-mode rendering: calls into the system and plumbing.
- Noise cryptography and the handshake: the cipher is a pair of arbitrary functions; authenticity and invertibility are hypotheses of the lemmas that need them.
- The vte parser and Unicode width tables: actions arrive parsed, with a display width.
- SGR parameters (crates/term/src/grid.rs:336-426): a change of the pen is one action that sets any pen; query replies (DSR, DA) are not modelled.
- The server's session table, TOFU and authorized keys: mostly settled by reading one branch.
- Delivery of StreamOpen under loss: it is emitted once, so stream claims start when both ends know the stream.
- That an acknowledged FIN was seen by the peer, and loss under the close-grace reclaim: acknowledgements carry only the data end.
- Overflow of total stream lengths beyond 2^64 on the sending side, and tick differences beyond 32 bits: those counters are unbounded here.
- One proof over two whole muxes: the two-party protocol is about one stream; the mux polls each of its streams by the very functions the protocol polls with, and dispatches frames by the very functions it receives with.
- Screens over MAX_CELLS in the claims about catching up: the decoder refuses them (`Diff.Rejected`), so no diff brings a client to one.
- Double-width glyphs on a one-column screen: the spacer's cell does not exist there, so `Terminal.Possible` excludes that one step.
- `split_whitespace` on a Host line and the rest of `resolve`: patterns arrive as a list of tokens.
- Prediction state across a change of screen size: modelled by `Predict.Reconciled`, but the run theorems assume a fixed size.
- The other fields of a client's grid (pen, region, saved cursor): a diff leaves them alone or replaces them by a new grid's, and no claim but validity is made of them.
