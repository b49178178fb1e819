# andri: verified model of the measurement core

andri measures TCP throughput, UDP throughput with loss and jitter, and file-transfer
speed between two hosts. This project models the parts of it whose answers must be right
over runs of any length, and proves that they are.

- `UdpTrace.dfy` defines loss, span and jitter over a whole trace of arrivals: sets of
  sequence numbers for loss, a weighted sum of delays for jitter.
- `UdpReceiver.dfy` is the fixed-size accumulator and the receive loop; its class
  invariant says that the fields are what the trace definitions call for.
- `UdpSender.dfy` is the pacing and stamping loop, and the comparison of the receiver's
  warm-up threshold with what the pacer emits. `Datagram.dfy` is the 16-byte header.
- `UdpEndToEnd.dfy` composes sender, an arbitrary channel and receiver; `UdpSeries.dfy`
  says what the per-second UDP samples add up to.
- `SplitMix.dfy` is the payload generator and the per-stream seeds.
- `Meter.dfy` is the shared counters, scans of them that are not atomic, and the sampler;
  `TcpServe.dfy` is the warm-up and final scans. `Series.dfy` is the interval accounting
  that the three samplers share.
- `Session.dfy` is each side of the control session, as a machine over events and as
  code that follows it; `SessionPair.dfy` composes both over two queues, failures
  included; `Framing.dfy` is the length-prefixed byte stream; `SessionWire.dfy` is the
  composed session over bytes that move in any pieces, and `WireOutcome.dfy` how it ends
  when messages have a size; `Proto.dfy` holds the negotiated parameters.
- `FileTransfer.dfy` is the chunked send and receive loops and the file sampler.
- `Bytes.dfy` holds the little- and big-endian encodings.

## Reading the model

- f64 values (pacing carry, jitter, rates) are exact reals. The pacing claims are per tick.
- u64 and i64 arithmetic wraps as in a release build where one datagram can cause it: the
  sequence span, the transit times and their differences, the warm-up product. A debug
  build would panic at those points instead. `SpanExact`, `AbsDeltaExact` and
  `NoWrapBelow2To62` say when nothing wraps, and `FullSpanWraps`, `AbsDeltaWraps` and
  `WarmupProductWraps` that it can.
- Timers, `select!`, scheduling, socket reads and clocks are inputs: a sequence of events,
  a schedule of atomic steps, a choice of read sizes, a clock function, and where a socket,
  a stream or a file fails.
- In the composed session a stage of a data path completes, and a read, a write or a data
  path fails, at any moment. Only progress assumes more (`SessionPair.CanStep`).
- The JSON codec is a pair of functions. `SessionWire` asks of it that the messages of the
  session decode to themselves; `WireOutcome` asks that all but the report fit a frame.
- Over bytes a message counts as written when its last byte is out, and as read once the
  reader has taken all of it.
- A bit-vector word's integer value is read bit by bit (`SplitMix.Val`).

Where code and documents differ, the model follows the code:

- duplicates count as received (`docs/udp.md` asks for a separate count), so a duplicate
  hides a loss (`DuplicateHidesLoss`): `LossExactIff` and `EndToEndLossExactIff` say exactly
  when the reported loss is the true one;
- the message awaited as Stop is never checked (`docs/protocol.md` section 4 asks for an
  error): `StopIsNotChecked`, `AnyReadServesAsStop`;
- a missing bitrate means 0 to the receiver and 1 Gbit/s to the sender:
  `WarmupWithoutBitrate`;
- a disk read is not capped at the bytes left to send: `DiskSendBoundedIff`;
- after a short transfer the file sampler never stops, so the server never has a result,
  however long it waits: `FileTransfer.Serve` and `Transfer`;
- nothing bounds the seconds of a run (`docs/protocol.md` section 5 asks for at most 3600),
  and a report whose series outgrows a frame is refused by its own sender, so the session
  ends without a result: `OutcomeOverWire`, `LongWindowsNeverReport`;
- the per-stream seed mixer is the generator's own increment, so payloads differ word by
  word at equal positions only: `ZeroSeedStreamsAreShifts`.

## Model

| member | source | states |
|---|---|---|
| Bytes.LeRoundTrip | src/modes/udp.rs:31-44 | any number below 256^k survives k little-endian bytes |
| Bytes.LeBytesRoundTrip | src/modes/udp.rs:36-44 | any k bytes survive being read as a number below 256^k |
| Bytes.LeByte | src/modes/udp.rs:31-34 | little-endian: byte i is the i-th least significant |
| Bytes.BeRoundTrip | src/proto.rs:145-158 | any number below 256^k survives k big-endian bytes |
| Bytes.BeBytesRoundTrip | src/proto.rs:156-158 | any k bytes survive being read as a big-endian number |
| Bytes.BeByte | src/proto.rs:145 | big-endian: byte i is the i-th most significant |
| SplitMix.MixBijective | src/meter.rs:51-57 | the mixer has a two-sided inverse on 64-bit words |
| SplitMix.KnownWords | src/meter.rs:50-57 | known words of the generator at several seeds and positions, the server's own seed among them |
| SplitMix.StateClosedForm | src/meter.rs:50-52 | after k calls the state is the seed plus k increments mod 2^64 |
| SplitMix.WordsEqual | src/meter.rs:51-57 | two calls return the same word exactly when they leave the same state |
| SplitMix.WordsOfOneSeed | src/meter.rs:48-57 | words i and j of one seed are equal exactly when i and j agree mod 2^64 |
| SplitMix.WordsOfTwoSeeds | src/meter.rs:48-57 | word k of two seeds is equal exactly when the seeds are |
| SplitMix.WordBytesInjective | src/meter.rs:60 | different words never store the same eight bytes |
| SplitMix.PayloadByte | src/meter.rs:59-66 | byte j of a fill is byte j mod 8, least significant first, of word j / 8, tail included |
| SplitMix.BlocksOfOneFillDiffer | src/meter.rs:48-67 | full blocks i and j of a fill are equal only if i = j, below 2^64 blocks |
| SplitMix.BlocksOfTwoFillsDiffer | src/meter.rs:48-67 | fills from two seeds agree in a full block exactly when the seeds are equal |
| SplitMix.FillRandom | src/meter.rs:48-67 | the chunk loop and its tail write exactly those bytes |
| SplitMix.StreamSeedsDiffer | src/modes/tcp.rs:118-119 | stream seeds coincide exactly for stream numbers equal mod 2^64 |
| SplitMix.StreamSeedBits | src/modes/tcp.rs:119 | the seed of stream i differs from the server's in exactly the bits of i times the mixer |
| SplitMix.KnownSeeds | src/modes/tcp.rs:119 | known seeds of the first streams |
| SplitMix.StreamsNeverShareABlock | src/modes/tcp.rs:113-123 | send buffers of two streams differ in every full 8-byte block |
| SplitMix.StreamBuffers | src/modes/tcp.rs:113-123 | the buffers the streams reuse are the seeded fills and differ pairwise in every full block |
| SplitMix.ZeroSeedStreamsAreShifts | src/modes/tcp.rs:18-19 | with server seed 0, stream i is stream 0 moved on by i words |
| Series.SumOfIntervals | src/meter.rs:107-140 | recorded intervals add up to the last total plus every fall clipped on the way |
| Series.IntervalsAddUp | src/meter.rs:107-140 | they add up to the last total exactly when no total falls |
| UdpTrace.ExpectedIsSeenPlusMissing | src/modes/udp.rs:196-199 | the span is the distinct numbers seen plus those missing inside it |
| UdpTrace.SpanExact | src/modes/udp.rs:196-199 | the u64 span is the true span unless numbers 0 and 2^64-1 were both seen |
| UdpTrace.FullSpanWraps | src/modes/udp.rs:196-212 | it does wrap: with just those two numbers, 2^64-2 are missing and none is reported |
| UdpTrace.LossAgainstSets | src/modes/udp.rs:207-212 | for any trace, expected is distinct plus missing and lost is missing less duplicates, cut at zero; both are zero when the span wraps |
| UdpTrace.LossExactIff | src/modes/udp.rs:172-212 | lost never exceeds the number missing, and is that number exactly when nothing is missing, or nothing is duplicated and the span does not wrap |
| UdpTrace.DuplicateHidesLoss | src/modes/udp.rs:178 | a duplicate does hide a loss: 0, 2, 2 misses 1 and reports none |
| UdpTrace.OrderIndependent | src/modes/udp.rs:172-212 | permuting a trace changes no byte, count, span or loss figure |
| UdpTrace.RunningLossGrows | src/modes/udp.rs:193-205 | in-order arrivals do not lower the running loss, exactly unless one makes the span wrap after a gap |
| UdpTrace.AbsDeltaOfDelta | src/modes/udp.rs:185-187 | however its steps wrap, the computed absolute D depends on D mod 2^64 only |
| UdpTrace.AbsDeltaExact | src/modes/udp.rs:185-187 | the i64 computation gives the absolute D of section 6.4.1 of RFC 3550 exactly when that fits an i64 |
| UdpTrace.AbsDeltaWraps | src/modes/udp.rs:185-187 | it does wrap: at absolute D = 2^63 the computed value is negative |
| UdpTrace.NoWrapBelow2To62 | src/modes/udp.rs:185-187 | with stamps below 2^62 no step wraps |
| UdpTrace.JitterRecurrence | src/modes/udp.rs:182-189 | the closed-form sum obeys the code's recurrence with gain 1/16 |
| UdpTrace.JitterBounds | src/modes/udp.rs:182-190 | jitter lies between 0 and (1-(15/16)^n) times the largest absolute D |
| UdpTrace.JitterOfConstant | src/modes/udp.rs:182-190 | a constant absolute D meets that bound |
| UdpTrace.JitterMonotone | src/modes/udp.rs:182-190 | raising any absolute D never lowers the jitter |
| UdpTrace.ClockOffsetsCancel | src/modes/udp.rs:182-190 | any clock offsets, wrapping ones included, leave the run's jitter unchanged |
| UdpTrace.JitterOfBoundedDelay | src/modes/udp.rs:182-190 | transit times within a band of width v keep jitter below (1-(15/16)^n) v |
| Datagram.Stamp | src/modes/udp.rs:31-34 | rewrites the header in place and leaves byte 16 onward alone |
| Datagram.HeaderBytes | src/modes/udp.rs:31-34 | bytes 0 to 7 are the sequence number and 8 to 15 the stamp, least significant first |
| Datagram.Unstamp | src/modes/udp.rs:37-44 | fails exactly on datagrams shorter than the header |
| Datagram.UnstampOfStamped | src/modes/udp.rs:31-44 | whatever the padding, unstamping returns the stamped number and time |
| Datagram.StampOfUnstamped | src/modes/udp.rs:31-44 | a long enough datagram is the stamp of what it unstamps to |
| UdpReceiver.LossJitter.constructor | src/modes/udp.rs:160-170 | a new accumulator stands for the empty trace |
| UdpReceiver.LossJitter.Observe | src/modes/udp.rs:172-191 | the fixed-size state stays equal to the definitions over the trace extended by the datagram |
| UdpReceiver.LossJitter.Snap | src/modes/udp.rs:195-205 | bytes, running loss and jitter of the whole trace so far |
| UdpReceiver.LossJitter.IntoResult | src/modes/udp.rs:207-240 | span, received, lost, ratio and jitter of the whole trace, and bits and bytes per second over the window given in nanoseconds |
| UdpReceiver.WarmupIsAFilter | src/modes/udp.rs:172-191 | an accumulator with a threshold and one without, given only the datagrams at or past it, hold the same value in every measured field |
| UdpReceiver.ResultsOfAFilter | src/modes/udp.rs:172-240 | their results and their running readouts agree in every figure |
| UdpReceiver.ReadoutIsResultSoFar | src/modes/udp.rs:193-240 | a readout shows the bytes, loss and jitter that a result at that point would |
| UdpReceiver.LockstepRun | src/modes/udp.rs:172-240 | in-order datagrams of one length and one transit time lose exactly the numbers skipped, with no jitter |
| UdpReceiver.KnownGap | src/modes/udp.rs:370-386 | the figures of the repository's own test of a gap |
| UdpReceiver.KnownJitter | src/modes/udp.rs:182-190 | transit times of 0, 16 and 0 ms give 1 ms and then 1.9375 ms |
| UdpReceiver.FirstInWindowIs | src/modes/udp.rs:124-127 | measuring starts with the very first datagram of the window |
| UdpReceiver.Serve | src/modes/udp.rs:59-138 | over any turns of the loop the result, its rates and every sample are what the trace definitions call for, each sample with the time of its tick, the rate of its bytes since the tick before and the jitter at the tick; a socket failure leaves no result |
| UdpSeries.BytesAreConserved | src/modes/udp.rs:82-119 | sampled bytes plus bytes after the last tick are the final bytes |
| UdpSeries.LossSeriesOvershoot | src/modes/udp.rs:92-119 | sampled losses are the running loss at the last tick plus its falls between ticks, equal exactly if it never falls |
| UdpSeries.InOrderLossSeries | src/modes/udp.rs:92-119 | with in-order arrivals sampled losses add up to the running loss at the last tick exactly when the span had not wrapped by then, or no tick showed a loss |
| UdpSender.NoDrift | src/modes/udp.rs:276-285 | packets due after k ticks are floor(k rate) and the carry is the fraction in [0,1) |
| UdpSender.KnownRate | src/modes/udp.rs:25-28 | the rate of the repository's own test: just under 85 packets a tick, 84918 a second |
| UdpSender.CarryStep | src/modes/udp.rs:283-285 | one tick's floor(carry + rate) is the difference of two floors of the exact rate |
| UdpSender.BurstsAreSmooth | src/modes/udp.rs:276-292 | any m consecutive ticks send the floor or the ceiling of m times the rate |
| UdpSender.PacketBytes | src/modes/udp.rs:65 | a negotiated size of at least 16 is used as it is, a smaller one becomes 16, and the default is 1472 |
| UdpSender.SendBurst | src/modes/udp.rs:286-292 | a burst restamps one buffer with consecutive numbers and keeps its padding; it is sent whole exactly if the socket does not fail on one of its packets, and otherwise up to that packet |
| UdpSender.Drive | src/modes/udp.rs:252-315 | exactly if the socket fails on none of them, floor(k rate) datagrams are out after k ticks, and otherwise those before the one it fails on; datagram i carries number i, its stamp and the seeded padding |
| UdpSender.WarmupThreshold | src/modes/udp.rs:65-70 | the receiver's threshold never exceeds what the sender emits in the warm-up; the shortfall is exact, and is at most w-1 exactly when the u64 product rate times w does not wrap (it is zero for w = 0) |
| UdpSender.WarmupProductWraps | src/modes/udp.rs:68-70 | it does wrap: at 2^56 packets a second and 256 seconds the sender emits 2^64 packets and the threshold is zero |
| UdpSender.WarmupAgreesAtOneSecond | src/modes/udp.rs:65-70 | at the shipped one-second warm-up the two sides agree |
| UdpSender.WarmupWithoutBitrate | src/modes/udp.rs:69-70 | without a bitrate the sides agree exactly when the sender emits nothing in the warm-up |
| UdpEndToEnd.DeliveredArrivals | src/modes/udp.rs:120-128 | what the receiver decodes is what the channel handed over, number and stamp intact |
| UdpEndToEnd.EndToEndLoss | src/modes/udp.rs:172-212 | for a channel that drops, reorders and duplicates, reported loss is the in-window drops less the run before the smallest arrival, the run after the largest and the duplicates, cut at zero |
| UdpEndToEnd.EndToEndLossExactIff | src/modes/udp.rs:172-212 | reported loss is the in-window drops exactly when there are none, or nothing was duplicated and the first and last in-window packets arrived |
| UdpEndToEnd.LosslessChannelReportsNoLoss | src/modes/udp.rs:172-212 | a lossless channel reports no loss and N - w packets plus one for each extra copy, in any order |
| UdpEndToEnd.LosslessRunMeasuresAfterWarmup | src/modes/udp.rs:65-70 | at the shipped warm-up a lossless run measures exactly the packets sent after the first second of ticks, and copies of them |
| UdpEndToEnd.ReportNeverExceedsDrops | src/modes/udp.rs:207-212 | with duplicates too, reported loss never exceeds the drops |
| UdpEndToEnd.CopiesAreDuplicates | src/modes/udp.rs:120-178 | the duplicates the receiver sees in its window are the copies the channel made of in-window packets |
| UdpEndToEnd.HandedBytes | src/modes/udp.rs:177 | the bytes of a run are its datagrams times their negotiated size |
| UdpEndToEnd.UdpRun | src/modes/udp.rs:59-315 | a whole run through an arbitrary channel, wherever the socket fails, reports as received the in-window handovers and as lost the exact figure above, in terms of what the channel did; jitter stays within the delay band; rates and samples are those of the delivered datagrams |
| Meter.ScanBetweenTotals | src/meter.rs:36-38 | for every interleaving a scan lies between the true totals at its start and its end |
| Meter.SuccessiveScansGrow | src/meter.rs:107-140 | a scan that starts after another ended is at least as large |
| Meter.GapInvariant | src/modes/tcp.rs:54-81 | two overlapping scans read from a counter values that differ by what was added between the reads |
| Meter.ScansDifferByGaps | src/modes/tcp.rs:54-81 | two complete scans differ by those bytes summed over counters, signed by order |
| Meter.TrailingScanCountsTheGap | src/modes/tcp.rs:54-81 | a trailing scan exceeds the other by exactly the bytes between the reads |
| Meter.Meters.AddTo | src/meter.rs:25-28 | adding moves one counter and no scan |
| Meter.Meters.ReadNext | src/meter.rs:30-38 | a scan step adds the next counter's value to its sum |
| Meter.Meters.StampScan | src/modes/tcp.rs:60-66 | the clock reading of a scan is taken once the scan is complete |
| Meter.Meters.Run | src/meter.rs:14-38 | after any schedule counters and scans are what the log determines |
| Meter.TotalOnce | src/meter.rs:36-38 | a pass takes exactly its own reads among the given steps of the other tasks, and returns the value of its scan, which lies between the totals before and after |
| Meter.OneSampleASecond | src/meter.rs:107-147 | ticking once a second the sampler records one entry for each second of its window, and nothing bounds the window |
| Meter.RunSampler | src/meter.rs:95-147 | the sampler stops with the first tick at or past the end of its window; its passes run among the given steps of the other tasks, its totals are what its scans returned, none falls so no interval is clipped, the intervals sum to last scan minus first, and each entry carries the time of its tick and the rate of its bytes since the tick before |
| TcpServe.Serve | src/modes/tcp.rs:25-89 | after any schedule bytes, time and both rates are those the log determines, the time runs from the stamp of the warm-up scan to that of the final one, and there is no report before both scans are done |
| TcpServe.ReportCountsTheWindow | src/modes/tcp.rs:54-81 | the report counts exactly the bytes added after a counter's warm-up read and before its final read |
| TcpServe.ReportUnderAnyOverlap | src/modes/tcp.rs:63-73 | for any overlap it is those bytes less the ones that fell the other way round, cut at zero |
| TcpServe.StopBeforeWarmupReportsZero | src/modes/tcp.rs:63-81 | if Stop comes before the warm-up ends, bytes, time and rate are zero |
| Framing.ByteStream.WriteMsg | src/proto.rs:134-149 | appends one frame, or nothing when the payload is over the cap |
| Framing.ByteStream.ReadMsg | src/proto.rs:152-169 | reads what `Decode` says, leaving what it leaves, under any chunking |
| Framing.FrameBytes | src/proto.rs:145-146 | a frame is four bytes of length, most significant first, that count the payload only, and the payload |
| Framing.DecodeOfFrame | src/proto.rs:134-169 | a frame followed by anything decodes to its payload and that rest |
| Framing.DecodeOfCutFrame | src/proto.rs:156-166 | a frame cut short anywhere is an end-of-stream error |
| Framing.RunsRoundTrip | src/proto.rs:134-169 | any sequence of payloads within the cap decodes to itself |
| Framing.CutRunsGivePrefixes | src/proto.rs:152-169 | a run cut short decodes to a proper prefix and then fails |
| Framing.FramingIsInjective | src/proto.rs:134-149 | different runs never share their bytes |
| Framing.BytesFormAQueue | src/proto.rs:134-169 | the bytes in flight are a FIFO queue: a write appends, a read takes the front |
| Framing.OversizedIsRefused | src/proto.rs:159-164 | an oversized declared length fails with the body unread |
| Framing.SendAll | src/proto.rs:134-149 | writes every payload up to the first that is over the cap |
| Framing.ReceiveAll | src/proto.rs:152-169 | reads until a read fails |
| Framing.SendAndReceive | src/proto.rs:134-169 | what is received is what was sent up to the first refused payload |
| Session.OutputDiscipline | src/session.rs:35-133 | against any peer the server's messages are a prefix of Welcome Start Result or end in the one Error that the message read last calls for; Welcome echoes the nonce and accepts exactly the right version |
| Session.ResultIffProperOpening | src/session.rs:35-124 | a session that is over sent Result exactly if it opened with Hello of the right version, Negotiate, Run, and no write and no data path failed |
| Session.DoneIsLast | src/session.rs:122-133 | a history that has reached the end of the session is complete |
| Session.NothingFollowsTheEnd | src/session.rs:98-133 | in any history of the server a written Result or Error, a failed write or a failed data path is the last event, and after a failure the session is aborted |
| Session.StopIsNotChecked | src/session.rs:99-118 | after any history that awaits Stop, in every mode, any message or a failed read leads through the same rest of the session as Stop |
| Session.AnyReadServesAsStop | src/session.rs:99-122 | in TCP, UDP and file mode a whole session with any message, or a closed connection, in place of Stop ends in Result |
| Session.KnownOpening | src/session.rs:36-93 | the messages of an opening with the protocol version, nonce and seed that the code sends |
| Session.DoneIffConversation | src/session.rs:170-242 | against any server a client that is over has its result exactly if it was greeted with its own nonce and accepted, got Start and then Result in answer to Stop, sent its four messages in order, and nothing failed |
| Session.Reject | src/session.rs:127-133 | sends the error of the stage and ends the session |
| Session.Greet | src/session.rs:36-53 | the greeting code follows the server's machine |
| Session.Prepare | src/session.rs:56-93 | the negotiation code follows the server's machine |
| Session.MeasureTcp | src/session.rs:99-104 | the TCP data path and the read that stops it follow the server's machine |
| Session.MeasureUdp | src/session.rs:105-110 | the UDP data path and the read that stops it follow the server's machine |
| Session.MeasureFile | src/session.rs:111-119 | the file data path and the drained message follow the server's machine |
| Session.Measure | src/session.rs:98-120 | the data-path code of each mode follows the server's machine |
| Session.ServeSession | src/session.rs:35-124 | against any peer the code's messages are disciplined, it ends in Result exactly after a proper opening with nothing failed, and Result carries the report of the data path |
| Session.Handshake | src/session.rs:172-220 | the client's handshake follows the client's machine |
| Session.TransferAndReport | src/session.rs:221-242 | the client's transfer and Stop exchange follow the client's machine |
| Session.Connect | src/session.rs:138-277 | against any server the client's code follows its machine and succeeds exactly after that conversation |
| SessionPair.RunKeepsInv | src/session.rs:35-242 | after every run without a failure, however the two sides interleave, the queues hold exactly what was written and not yet read, in order |
| SessionPair.RunKeepsOrder | src/session.rs:35-242 | after every run, with reads, writes and data paths failing at will, a side that still reads has its messages before it in order, and a result comes from a server that finished |
| SessionPair.SidesMoveFreely | src/session.rs:35-242 | but for its reads and its report a side does whatever its own code allows, failures included, in any state of the other |
| SessionPair.SafetyUnderFaults | src/session.rs:35-242 | in every reachable state, failures included, the server meets only the message it expects and never sends UnexpectedMessage, and a client is done only if the server finished; with equal versions the client too meets only what it expects and no error is in flight |
| SessionPair.ClientMayRunAhead | src/session.rs:220-239 | the client does not wait for the server: Run and Stop can both be queued before the server has read Run |
| SessionPair.ComposedSafety | src/session.rs:35-242 | with equal versions and no failure every reader meets only the message it expects, no error is ever in flight, neither side gives up, and the server's inbox is empty at Result |
| SessionPair.RunsAreBounded | src/session.rs:35-242 | a decreasing measure bounds every run, failures included, by nineteen steps |
| SessionPair.NoDeadlock | src/session.rs:35-242 | over queues that take any message, after every run without a failure that is not over some party can step, even if a data path completes only when the peer is far enough |
| SessionPair.OutcomeByVersion | src/session.rs:40-53 | over queues that take any message, a run without a failure that can go no further succeeded on both sides exactly when the versions are equal, and otherwise ended in VersionMismatch |
| SessionWire.DecodeInFlight | src/proto.rs:134-169 | with any part of one more frame behind them, whole frames in flight still read as the front message, and a part of a frame alone reads as an end of stream |
| SessionWire.GotIsFront | src/proto.rs:152-169 | a message made of bytes taken in any pieces is the front of the queue |
| SessionWire.WritesCanBreak | src/proto.rs:145-147 | a message goes out in any two pieces, and a write that fails between them leaves the first in flight |
| SessionWire.ReadsInAnyPieces | src/proto.rs:156-165 | a reader takes the prefix and then the body in any pieces |
| SessionWire.NoSuchPieces | src/proto.rs:158-164 | no piece is empty, and past an oversized length nothing is taken |
| SessionWire.RunOverWire | src/session.rs:35-242 | every run over bytes pushed and taken in any pieces, whatever fails, is a run over queues; the bytes not yet made into messages are the frames of the messages in flight and a proper prefix of the one frame being written or given up on |
| SessionWire.RunHasWireRun | src/session.rs:35-242 | every run over queues whose messages fit their frames is what some run over bytes amounts to |
| SessionWire.ServerReadsWholeMessages | src/session.rs:35-120 | whatever fails and however the bytes are cut, a reading server has before it a whole frame of the message it expects, or waits on a frame that its peer is writing or gave up on; it never meets an oversized length or another message |
| SessionWire.ClientReadsWholeMessages | src/session.rs:172-242 | the same for the client when the versions are equal |
| WireOutcome.OversizedReportIsLost | src/proto.rs:139-144 | whatever else happens, with a report over the frame cap the server never finishes and no client has a result |
| WireOutcome.LongRunsNeverReport | src/proto.rs:139-144 | at c bytes or more for each entry, a series of more than 65536/c entries is never reported |
| WireOutcome.LongWindowsNeverReport | src/meter.rs:107-147 | so a sampler ticking once a second through more than 65536/c seconds is never reported |
| WireOutcome.NoDeadlockOverWire | src/session.rs:35-242 | after any run over bytes in which nothing fails some party can move until both are done |
| WireOutcome.OutcomeOverWire | src/session.rs:35-242 | a run over bytes in which nothing fails and that can go no further ended in a result on both sides exactly when the versions agree and the report fits a frame |
| FileTransfer.Source.Read | src/modes/file.rs:55 | a read yields what is offered as far as buffer and source allow, at least one byte, and past the last byte zero or, exactly if the source breaks there, an error |
| FileTransfer.Sampler.Tick | src/modes/file.rs:96-124 | one tick records the interval and stops the sampler once the counter shows the full length |
| FileTransfer.Sampler.SamplesAddUp | src/modes/file.rs:94-124 | the intervals always add up to the last reading |
| FileTransfer.Serve | src/modes/file.rs:34-82 | with loop and sampler interleaved in any way received is min(file_len, delivered); it fails exactly if the stream breaks before the whole length, and a result exists exactly when the whole length came, its intervals adding up to it and its rates those of its bytes |
| FileTransfer.Sink.WriteAll | src/modes/file.rs:189-201 | a write succeeds exactly if the stream gets all of it through |
| FileTransfer.SendNull | src/modes/file.rs:184-192 | the in-memory source sends exactly the file length in whole buffers and a last part, and fails exactly if the stream does not get it through |
| FileTransfer.SendDisk | src/modes/file.rs:194-205 | each read is into a whole buffer, whatever is left of the length; a short file is sent whole and a grown one to less than a buffer past the length; it fails exactly if the stream does not get through what was read, or the file breaks before the length |
| FileTransfer.DiskSendBoundedIff | src/modes/file.rs:131-205 | the negotiated length bounds the disk sender under all read sizes exactly when the file did not grow |
| FileTransfer.Transfer | src/modes/file.rs:34-208 | both ends together, wherever file, writes or stream fail: the server counts what reached it up to file_len, has a result exactly when the whole length did, however long it waits, and fails exactly if the stream breaks before; with no failure the client succeeds and received is min(L, file_len) |

## Left out

- TcpServe.Serve: leaves out the accept loop and the samples of the result (see `Meter.RunSampler`).
- FileTransfer.Serve: leaves out the times and rates of its samples.
- SessionPair.NoDeadlock: assumes that nothing fails, that data paths complete and that a queue takes any message; a short file transfer (see `FileTransfer.Serve`) is outside it, and `WireOutcome.NoDeadlockOverWire` has the size of messages.
- SessionPair.OutcomeByVersion: has no size of messages; `WireOutcome.OutcomeOverWire` has.
- UdpEndToEnd.UdpRun: the loss figures are for fewer than 2^64 packets, beyond which sequence numbers repeat.
- Counter and byte totals (`LossJitter.bytes`, `received`, `Counter`): unbounded; they wrap only after 2^64 bytes or packets.
- Rounding of f64: carry, jitter and rates are exact reals.
- Relaxed memory ordering: steps on counters interleave in one global order.
- Time: ticks, clock readings and read sizes are inputs; nothing is claimed per second of wall clock.
- JSON encoding: the text of a message, its length, and that serde round-trips it.
- Serving several sessions in turn, console output, argument parsing, and the payload preview.
- Documented features that the code does not have: bidirectional runs, parameter limits, timeouts, duplicate reporting, checksums, disk writes on the receiver, the web dashboard.
