# FlowQ protocol core in Dafny

A model of the deterministic core of FlowQ, a QUIC implementation in C++ headers (`include/flowq/quic/`), with proofs
of what that core promises. Every file is one module; `dafny verify dfyconfig.toml` checks all of them. The results
are statements about the model, and the model follows the code branch by branch.

## What is modelled

- **Streams.** `StreamReceive` reassembles overlapping, reordered ranges; `Reassembly` shows that its state is a
  function of the set of frames received, and `StreamHistory` reads it off the history of frames, resets and credit.
  `StreamSend` keeps unsent, lost and acknowledged ranges and the FIN; `SendLedger` shows that no sent byte is ever
  stranded. `StreamDelivery` joins the two through a network that drops, repeats and reorders frames.
- **Flow control.** `FlowControl` is the set of sending streams with the connection's credit and its scheduling loop;
  `FlowTrace` says event by event and service by service what changes.
- **Acknowledgement and loss.** `AckRanges` compresses and expands ACK frames, `Rtt` smooths round trips in whole
  ticks, `Recovery` and `SentRecords` keep the two records of sent packets and run the recovery timers, and
  `RecoveryMeaning` says what that amounts to.
- **The connection loop.** `PathValidation` holds the amplification limit and path challenges, `PayloadBudget` picks
  the frames of a packet and `LoopState` the order the loop keeps its books in. `LoopSpec` says what each call does to
  the state of a connection and to its history (`LoopHistory`): what was emitted, handed out, reported to the streams,
  received, sent and answered. `LoopInvariant` ties the state to that history through every call, `LoopCauses` ties
  what a call adds to the history to the arguments of the call, `LoopRuns` draws the conclusions for runs of calls and
  `LoopOutcomes` states what single calls do in terms a driver can check. `LoopReceived` follows the packet numbers
  received, `LoopEffects` and `LoopPackets` what every frame of a packet brings about, `LoopMeaning`, `LoopFlush` and
  `LoopClosing` what calls do to keys, queues, records and clocks, said with the fields of the state alone.
  `ConnectionLoop` is the object of the source; its methods compute the functions of `LoopSpec`. What the loop asks of
  TLS, of congestion control and pacing, of packet assembly and parsing and of the receiving streams is a parameter of
  each call, so the theorems hold for every answer.
- **Wire formats.** `Varint`, `FrameCodec`, `FrameRoundTrip` and `FrameGrammar` (21 kinds of frame), `PacketNumber`,
  `HeaderProtection`, `PacketHeader`, `InitialPadding`, `PacketPipeline` (assembly and parsing of protected packets,
  with the AEAD and the mask as arbitrary functions on which the two ends agree), `PacketGrammar` (the layout of
  packets as a relation) and `ZeroCopyBuilder` (the in-place builder).
- **0-RTT replay window.** `ReplayWindow` refines the ring bitmap to a plain set of accepted numbers.

`Common`, `Frames`, `Bytes` and `Arithmetic` hold shared definitions. Objects the source mutates are classes; each
class method is proved against a function on values, and the theorems are about those functions and about runs of
them. Errors are `None` or `false`; the texts of error messages are not kept.

## Where the code does less than one might expect

For each of these a lemma gives the exact condition and another an input on which the property fails, or a bound and a
run that reaches it; the last two say what no run can do.

- `select_packet_number_length` doubles the gap in 64 bits. It picks the shortest sufficient length if and only if the
  gap lies outside [2^63, 2^63 + 2^31).
- `expand_ack_frame` and `ack_ranges_valid` agree only while gap + 2 does not wrap, which frames read from the wire
  guarantee.
- `decode_ack_delay` reads a zero field under an exponent of 64 or more as the longest delay; otherwise it is the
  product, saturated.
- The Initial padding loop runs for ever if and only if the bytes before the Length field number 1135 and at most 63
  bytes follow it. A token of the right length does that; without a token, which is how the connection loop calls it,
  it cannot happen.
- The amplification limit is no limit once more than a third of 2^64 - 1 bytes have been counted as received; up to
  there it is exact.
- `zero_copy_packet_builder` and the copying assembler return the same if and only if neither serves the request, or
  both do and the header is not written over frames that differ from it. The builder does not refuse packet numbers
  above 2^32 - 1 but sends their low 32 bits, it refuses packets larger than its own buffer, and a header of more than
  32 bytes overwrites the frames.
- The builder's copies are not checked against its buffer. They stay inside if and only if the printed frames fit
  behind the 32-byte reserve and plaintext and sealed payload fit behind the header; a packet of exactly the buffer's
  size goes past the end when its connection ID has at most ten bytes.
- Printing frames and parsing them gives the same list if and only if the list is non-empty and canonical.
- Round-trip smoothing can fall below the smallest sample, by at most seven ticks.
- A stream of the send set with only its FIN left to send gets no turn once the connection credit is used up, although
  the FIN costs none: it is sent if and only if there is credit left.
- A receiving stream accepts a FIN that ends before bytes it already holds. It holds bytes beyond the final size if
  and only if it took such a FIN.
- `flush` looks at TLS once more after pumping it, even if that closed the connection. A connection that is not active
  has empty queues but for that case, in which the challenge for the peer's address is left in one; it is never sent.
- `enter_closed` drops actions that were not drained, the close action included. Actions are lost if and only if a
  closing or draining connection ends by its own timer with some pending.
- The loop cannot end a stream: no call of it reaches `finish` of the send set, so no run finishes a sender and no
  scheduled frame carries a FIN.
- `enter_draining` does not test for a closing connection; it would emit a second close from there, and only from
  there, but no call of the loop reaches it in that state.

## Model

| member | source | states |
|---|---|---|
| `StreamReceive.StreamReceiveState.Receive` | include/flowq/quic/stream.hpp:79-115 | a STREAM frame is refused exactly when `Accepts` fails, and then nothing changes; an accepted one adds exactly its bytes and final size to the abstract byte map; the result says what is newly in order, the final size if known, and that the stream is closed exactly if it was reset or all bytes up to the final size are delivered. `StreamHistory.FrameIsTakenExactly` says which frames those are in terms of the frames taken before |
| `StreamReceive.StreamReceiveState.Check` | include/flowq/quic/stream.hpp:79-107 | the acceptance tests of `receive`, in the order of the code, decide the predicate `Accepts` |
| `StreamReceive.StreamReceiveState.ValidateOverlap` | include/flowq/quic/stream.hpp:200-209 | true exactly when every byte of the frame agrees with the byte already held at its offset |
| `StreamReceive.StreamReceiveState.ByteAt` | include/flowq/quic/stream.hpp:211-229 | looks a byte up in the delivered prefix or the pending ranges; the answer is the byte of the abstract map, or none |
| `StreamReceive.StreamReceiveState.BufferNewSuffix` | include/flowq/quic/stream.hpp:231-289 | cuts off what is already delivered and merges the rest with every range it touches; the pending ranges stay sorted, non-empty and separated by real gaps, and hold the old bytes plus the new ones |
| `StreamReceive.StreamReceiveState.DrainContiguous` | include/flowq/quic/stream.hpp:291-305 | moves the ranges that continue the delivered prefix into it; the bytes held do not change and nothing pending touches the prefix afterwards |
| `StreamReceive.StreamReceiveState.Reset` | include/flowq/quic/stream.hpp:117-129 | RESET_STREAM is refused exactly when its final size contradicts a known one or lies below what was received; otherwise it fixes the final size |
| `StreamReceive.StreamReceiveState.LargestReceivedOffset` | include/flowq/quic/stream.hpp:180-186 | the end of the highest byte held, delivered or pending |
| `StreamReceive.Merge` | include/flowq/quic/stream.hpp:263-280 | the merged block holds the bytes of every range it touches, the new frame winning where they overlap |
| `StreamReceive.Insert` | include/flowq/quic/stream.hpp:231-289 | replacing the touched ranges by the merged block keeps the list sorted and separated and adds exactly the new bytes |
| `Reassembly.DeliveredIsLongestRun` | include/flowq/quic/stream.hpp:231-305 | the delivered bytes are the longest run of held bytes from offset zero |
| `Reassembly.OneRepresentation` | include/flowq/quic/stream.hpp:231-305 | two receivers that hold the same bytes hold them in the same delivered prefix and the same pending ranges |
| `Reassembly.RunOfStream` | include/flowq/quic/stream.hpp:79-115 | any sequence of frames cut from one byte string is accepted in full, and exactly the offsets the frames reach are held |
| `Reassembly.OrderDoesNotMatter` | include/flowq/quic/stream.hpp:79-115 | arrival sequences with the same frames of one stream, in any order and with any repetition, leave the same state down to the stored ranges |
| `Reassembly.AllFramesDeliverTheStream` | include/flowq/quic/stream.hpp:291-305 | once every offset has arrived, the delivered bytes are the whole stream and nothing is pending |
| `Reassembly.FinalSizeIsFixed` | include/flowq/quic/stream.hpp:95-115 | a known final size never changes and bounds every byte accepted later |
| `StreamHistory.HistoryAgrees` | include/flowq/quic/stream.hpp:79-129 | over every sequence of frames, resets and credit the receiver holds exactly the bytes that frames it took put there, its final size is the one stated by an event it took, it counts as reset exactly if it took a reset, and its limit is the largest given |
| `StreamHistory.FrameIsTakenExactly` | include/flowq/quic/stream.hpp:79-115 | a frame is taken exactly if no reset was taken, it ends within the largest limit and within every length stated so far, states no other length, and puts no byte where a frame taken before put another |
| `StreamHistory.ResetIsTakenExactly` | include/flowq/quic/stream.hpp:117-129 | a reset is taken exactly if it states the length stated before, if any, and no byte taken lies at or beyond it |
| `StreamHistory.TakenFramesAgree` | include/flowq/quic/stream.hpp:200-209 | frames taken over a whole run never contradict each other in a byte or in the length of the stream |
| `StreamHistory.OverrunExactly` | include/flowq/quic/stream.hpp:95-115 | the receiver holds bytes at or beyond the final size if and only if it took a FIN that ends before a byte it already had |
| `StreamHistory.FinMayUndercut` | include/flowq/quic/stream.hpp:95-105 | two bytes and then a FIN after the first: both are taken, and the second byte lies beyond the end of the stream |
| `StreamSend.StreamSendState.AppendData` | include/flowq/quic/stream.hpp:423-436 | data is appended exactly when the stream is neither stopped nor finished and the total stays below 2^64 |
| `StreamSend.StreamSendState.PopFrame` | include/flowq/quic/stream.hpp:446-500 | the next frame is the value of `Pop`: what that is, how long it is and what it leaves behind is in `StreamSend.PopSendsLostData`, `StreamSend.PopSendsNewData` and `StreamSend.PopAfterStop` |
| `StreamSend.StreamSendState.PopLostFrame` | include/flowq/quic/stream.hpp:451-473 | splits a lost range at the size limit, keeps FIN with its tail, and re-enters the pop when the range is already acknowledged |
| `StreamSend.StreamSendState.OnRangeAcked` | include/flowq/quic/stream.hpp:502-524 | records an acknowledged range, drops the lost ranges it covers, and counts a FIN only when it is outstanding |
| `StreamSend.StreamSendState.OnRangeLost` | include/flowq/quic/stream.hpp:526-543 | queues a range for retransmission unless it was never sent, is acknowledged, or the stream was stopped |
| `StreamSend.StreamSendState.StopSending` | include/flowq/quic/stream.hpp:549-557 | STOP_SENDING keeps the error code and drops the retransmissions |
| `StreamSend.StreamSendState.RetransmittableData` | include/flowq/quic/stream.hpp:577-587 | true exactly when some lost range is not acknowledged |
| `StreamSend.PopFrameCarriesRange` | include/flowq/quic/stream.hpp:675-689 | a popped frame carries exactly the stream bytes of its range, and a pop changes nothing but the lost queue, the unsent offset and the FIN flag |
| `StreamSend.PopSendsLostData` | include/flowq/quic/stream.hpp:451-473 | the first lost range that no acknowledged range contains is sent again before anything else: whole if it fits, and otherwise exactly as many bytes as asked for, with the rest and the FIN first in the queue |
| `StreamSend.PopSendsNewData` | include/flowq/quic/stream.hpp:475-499 | with nothing to send again, a frame comes if and only if there is unsent data that size and credit allow, or only the FIN is left; it starts at the first unsent byte, is as long as size, data and credit allow, and carries the FIN exactly if it ends the stream |
| `StreamSend.PopAfterStop` | include/flowq/quic/stream.hpp:446-449 | a stopped stream hands out nothing |
| `StreamSend.AckIsRecorded` | include/flowq/quic/stream.hpp:502-524 | a range that can have been sent is recorded, with its FIN exactly if a FIN is outstanding or queued inside it; exactly the lost ranges inside it leave the queue and the others keep their order; any other range changes nothing |
| `StreamSend.LossIsQueued` | include/flowq/quic/stream.hpp:526-543 | a range is queued, last, exactly if the stream is not stopped, the range can have been sent, its FIN is outstanding and no acknowledged range contains it |
| `SendLedger.StepKeepsBooks` | include/flowq/quic/stream.hpp:446-543 | every call on a sender keeps the account: sent bytes are acknowledged, lost or in flight; FIN is in at most one place and the flags say which |
| `SendLedger.EveryRunKeepsBooks` | include/flowq/quic/stream.hpp:446-543 | no stranded data, over every run in which each popped range is resolved at most once |
| `SendLedger.NewSenderKeepsBooks` | include/flowq/quic/stream.hpp:446-543 | the same from a new stream, for every sequence of calls |
| `SendLedger.QuietMeansAcknowledged` | include/flowq/quic/stream.hpp:633-673 | with nothing lost or in flight, every sent byte has been acknowledged, and the FIN if it was sent |
| `SendLedger.QuietSenderIsNeverStuck` | include/flowq/quic/stream.hpp:446-500 | a quiet sender yields no frame if and only if it is out of credit or everything, FIN included, is acknowledged |
| `StreamDelivery.DeliveryIsSafe` | include/flowq/quic/stream.hpp:79-115 | for a sender and a receiver joined by a network that drops, repeats and reorders frames: in every reachable state the delivered bytes are a prefix of the written ones, no emitted frame is refused, and a closed receiver has delivered everything written |
| `StreamDelivery.GenuineFrameIsAccepted` | include/flowq/quic/stream.hpp:79-115 | any frame ever emitted is acceptable to the receiver at any later time |
| `StreamDelivery.QuietSenderHasDelivered` | include/flowq/quic/stream.hpp:446-543 | in every run in which ranges are acknowledged only after arrival, a sender with everything sent and nothing lost or in flight has a receiver that delivered every byte |
| `FlowControl.RetransmissionComesFirst` | include/flowq/quic/stream.hpp:446-473 | a stream that reports retransmittable data is popped for lost data only, however many acknowledged ranges are skipped; one that does not never yields a retransmission |
| `FlowControl.ServeConserves` | include/flowq/quic/connection.hpp:124-152 | serving one stream changes that stream alone; the connection's count grows by exactly the bytes the stream sends for the first time and stays within the connection limit |
| `FlowControl.BlockedIsTrue` | include/flowq/quic/connection.hpp:126-151 | blocked frames tell the truth: the connection has no credit and the stream has data, or the stream has no credit; the converse is in `FlowControl.ServesNewData` |
| `FlowControl.ServesLostData` | include/flowq/quic/connection.hpp:124-152 | a stream with lost data is served that data, as much as the size allows, at no cost and whatever the connection credit; it is never refused for the connection's sake |
| `FlowControl.ServesNewData` | include/flowq/quic/connection.hpp:124-152 | any other stream: DATA_BLOCKED if and only if it has data and the connection no credit, STREAM_DATA_BLOCKED if and only if the connection has credit and the stream none, a frame if and only if both allow data or only the FIN is left, and then as long as size, credit and data allow |
| `FlowControl.ServesUnknown` | include/flowq/quic/connection.hpp:124-152 | a stream that was never used gets nothing |
| `FlowTrace.EventOnStream` | include/flowq/quic/stream.hpp:699-847 | outside a pass, exactly what an event changes in a stream: when it comes into being, and which events alone extend its bytes, finish it, stop it, raise its limit or touch its ranges |
| `FlowTrace.EventOnLimits` | include/flowq/quic/stream.hpp:754-847 | and in the limits: each is the largest grant, and a direction is marked blocked exactly by the use of a stream beyond its limit |
| `FlowTrace.PassIsExactly` | include/flowq/quic/connection.hpp:118-151 | a pass is exactly the course that serves the streams in order, each on the state the one before it left, and stops for nothing but the end of the list, a full room or an exhausted connection credit; it hands out every service but the empty ones, in order |
| `FlowTrace.ScheduledExactly` | include/flowq/quic/connection.hpp:104-163 | the frames of a scheduling call are those of the pass, and then STREAMS_BLOCKED with the current limit for each blocked direction, bidirectional first, where there is room |
| `FlowControl.PassIsFaithful` | include/flowq/quic/connection.hpp:104-163 | over a whole scheduling pass the first transmissions of each stream, joined, remain the bytes it has sent, and at most the allowed number of frames is produced |
| `FlowControl.StepKeepsAccounts` | include/flowq/quic/connection.hpp:97-167 | append, finish, schedule, acknowledge, lose, MAX_DATA, MAX_STREAM_DATA, MAX_STREAMS and STOP_SENDING all keep the credit account |
| `FlowControl.EveryRunStaysWithinCredit` | include/flowq/quic/connection.hpp:104-167 | over every run: first transmissions never exceed the largest connection limit granted nor, for any stream, the largest limit granted for it; the connection's count is the sum over the streams; retransmissions cost nothing |
| `FlowControl.OnlyEndingEnds` | include/flowq/quic/stream.hpp:438-500 | over every run without a call of `finish` no stream is finished and no frame, retransmitted or not, carries a FIN |
| `FlowControl.BareFinNeedsCredit` | include/flowq/quic/connection.hpp:124-152 | a stream with only its FIN left to send is served it if and only if the connection has credit left, although it costs none |
| `FlowControl.FinWaitsForCredit` | include/flowq/quic/connection.hpp:124-152 | a run that ends there: one byte written and sent with the last of the credit, the stream finished, and its next turn gives nothing |
| `FlowControl.StreamSendSet.ScheduleStreamFrames` | include/flowq/quic/connection.hpp:104-163 | the scheduling loop with its early exits and trailing STREAMS_BLOCKED frames computes the specified pass |
| `FlowControl.StreamSendSet.ServeStream` | include/flowq/quic/connection.hpp:124-152 | one turn of the loop: credit test, pop limit, charge, blocked frames |
| `FlowControl.StreamSendSet.EnsureState` | include/flowq/quic/stream.hpp:836-847 | a stream beyond the peer's limit is not opened and its direction is marked blocked |
| `FlowControl.StreamSendSet.AppendTo` | include/flowq/quic/stream.hpp:699-705 | appends to a stream that may be opened; fails without change to its bytes otherwise |
| `FlowControl.StreamSendSet.UpdateMaxStreamData` | include/flowq/quic/stream.hpp:754-760 | raises a stream's limit, making the stream if need be; limits never fall |
| `AckRanges.ExpandAckFrame` | include/flowq/quic/ack_loss.hpp:82-112 | the set of packet numbers an ACK frame names, with the 64-bit wrap of the gap; empty for a malformed frame |
| `AckRanges.RangesValid` | include/flowq/quic/connection.hpp:723-746 | the loop's validity check decides `Valid` |
| `AckRanges.ValidMeansSomethingIsAcknowledged` | include/flowq/quic/connection.hpp:723-746 | a frame is valid if and only if its expansion is non-empty and no gap overflows; the second half always holds for varint-bounded frames |
| `AckRanges.WrappedGapIsExpanded` | include/flowq/quic/ack_loss.hpp:82-112 | without that bound the check and the expansion differ: a gap of 2^64 - 2 wraps |
| `AckRanges.NamesExactly` | include/flowq/quic/ack_loss.hpp:82-112 | which frames are valid and which numbers they name, range by range: each range lies two and its gap below the one before it |
| `AckRanges.CollectBlocks` | include/flowq/quic/ack_loss.hpp:330-345 | walking the received set downwards yields maximal blocks that partition it |
| `AckRanges.CompressAck` | include/flowq/quic/ack_loss.hpp:325-360 | the ACK frame of a non-empty set of received numbers is valid and expands back to exactly that set |
| `AckRanges.FrameExists` | include/flowq/quic/ack_loss.hpp:325-360 | every non-empty set of 64-bit numbers has a valid ACK frame that expands to it |
| `AckRanges.OneFramePerSet` | include/flowq/quic/ack_loss.hpp:325-360 | two valid frames with the same expansion are the same frame: the compression is exact |
| `AckRanges.Recompress` | include/flowq/quic/ack_loss.hpp:325-360 | compressing the expansion of a valid frame gives the frame back |
| `AckRanges.ReceivedPacketTracker.Observe` | include/flowq/quic/ack_loss.hpp:313-315 | reports whether a number is new and records it |
| `AckRanges.ReceivedPacketTracker.Clear` | include/flowq/quic/ack_loss.hpp:321-323 | forgets everything observed |
| `AckRanges.ReceivedPacketTracker.ToAckFrame` | include/flowq/quic/ack_loss.hpp:325-360 | the tracker's ACK frame expands to everything observed; an empty tracker gives the empty frame |
| `Rtt.RttEstimator.UpdateRtt` | include/flowq/quic/ack_loss.hpp:125-146 | computes `Update`; what that is, up to truncation, is in `Rtt.UpdateExactly`, `Rtt.AdjustedExactly` and `Rtt.FirstSampleExactly` |
| `Rtt.FirstSampleExactly` | include/flowq/quic/ack_loss.hpp:125-133 | the first sample sets latest, minimum and smoothed value, and half of it is the variance, rounded down |
| `Rtt.AdjustedExactly` | include/flowq/quic/ack_loss.hpp:135-142 | the peer's delay, capped, is taken off exactly after the handshake is confirmed and if the sample stays above the minimum |
| `Rtt.UpdateExactly` | include/flowq/quic/ack_loss.hpp:135-146 | any later sample: the variance is three quarters of the old one and a quarter of the deviation, the smoothed value seven eighths and an eighth, each part rounded down |
| `Rtt.SteadySamplesSettle` | include/flowq/quic/ack_loss.hpp:125-146 | over every run of equal samples the smoothed value stays within seven ticks of them, exactly on them if they are multiples of eight |
| `Rtt.SmoothingIsBounded` | include/flowq/quic/ack_loss.hpp:125-146 | for any run of samples the smoothed value is at most the largest sample and at most seven ticks below the minimum, which is attained; the variance is at most the largest sample |
| `Rtt.SevenTicksIsReached` | include/flowq/quic/ack_loss.hpp:43-52 | seven is exact: eight samples of seven ticks drive the smoothed value to zero |
| `Rtt.RunTracksMinimum` | include/flowq/quic/ack_loss.hpp:131-135 | the minimum is the smallest sample of the run and is one of them |
| `Recovery.OnAckReceived` | include/flowq/quic/ack_loss.hpp:374-400 | both loops of the tracker: acknowledge the outstanding packets the frame names, then declare lost the ack-eliciting ones three or more below the largest |
| `Recovery.MarkLost` | include/flowq/quic/ack_loss.hpp:410-417 | marks the outstanding packet with that number, if there is one |
| `Recovery.DetectLosses` | include/flowq/quic/ack_loss.hpp:216-246 | declares lost exactly the ack-eliciting outstanding packets below the largest acknowledged whose loss time has passed, and returns the earliest loss time still to come |
| `Recovery.NextLossMeaning` | include/flowq/quic/ack_loss.hpp:237-243 | that loss time lies in the future and belongs to a waiting packet, and every waiting packet below the largest is due or no earlier |
| `Recovery.RecoveryTimer` | include/flowq/quic/connection.hpp:1477-1508 | the timer of a space: the earliest loss time if any packet has one, else the probe deadline after the last ack-eliciting packet |
| `Recovery.TimerMeaning` | include/flowq/quic/connection.hpp:1477-1508 | the timer in plain terms: a loss timer if and only if a packet waited for has been passed by an acknowledgement and a round trip is known, set by the earliest such packet; otherwise a probe timer if and only if a packet is waited for and the space may probe, set by the latest |
| `Recovery.EarliestLossMeaning` | include/flowq/quic/connection.hpp:1485-1501 | the loss deadline is attained by a waiting packet and no waiting packet is due earlier |
| `Recovery.MarkRecoveryPackets` | include/flowq/quic/connection.hpp:1570-1579 | sets the state of the named packets of one space and of nothing else |
| `Recovery.ProjectMarked` | include/flowq/quic/connection.hpp:1570-1579 | marking the recovery list marks a space's projection of it in the same way and leaves the other spaces' projections alone |
| `SentRecords.SentKeepsAgreement` | include/flowq/quic/connection.hpp:1353-1356 | recording a sent packet keeps the two records in agreement, uses a fresh number and reports nothing |
| `SentRecords.ClearedKeepsAgreement` | include/flowq/quic/connection.hpp:1539-1560 | clearing a space keeps agreement and the next packet number, so numbers never repeat |
| `SentRecords.AckKeepsAgreement` | include/flowq/quic/connection.hpp:1368-1378 | an ACK frame keeps the records in agreement and reports no packet that was ever reported before |
| `SentRecords.AckedExactly` | include/flowq/quic/ack_loss.hpp:374-400 | the packets reported acknowledged are exactly the outstanding ones the frame names |
| `SentRecords.LostExactly` | include/flowq/quic/ack_loss.hpp:374-400 | the packets reported lost are exactly the ack-eliciting outstanding ones not named and at least three below the largest acknowledged |
| `SentRecords.RaiseLargest` | include/flowq/quic/connection.hpp:1510-1515 | the largest acknowledged number is the larger of the stored one and the new one |
| `SentRecords.TimerKeepsAgreement` | include/flowq/quic/connection.hpp:264-313 | the recovery timer keeps agreement and reports no packet twice |
| `SentRecords.ExpiredTimerActs` | include/flowq/quic/connection.hpp:264-313 | the timer step declares something lost if and only if the space's deadline has passed |
| `SentRecords.ExpiredTimerMakesProgress` | include/flowq/quic/connection.hpp:264-313 | an expired timer strictly lowers the number of outstanding ack-eliciting packets of its space |
| `SentRecords.NothingIsOverdue` | include/flowq/quic/connection.hpp:283-297 | after the step no packet below the largest acknowledged is outstanding past its loss time |
| `SentRecords.RangesAreFoundExactly` | include/flowq/quic/connection.hpp:1426-1448 | a packet's stream ranges are found under its number, and sending one packet changes no other packet's ranges |
| `SentRecords.FindKept` | include/flowq/quic/connection.hpp:1552-1559 | clearing a space forgets the ranges of its packets and of no others |
| `SentRecords.SampleSeesEveryAck` | include/flowq/quic/connection.hpp:1396-1424 | the round-trip sample is taken from the largest ack-eliciting packet newly acknowledged; the state test in that loop never hides one |
| `SentRecords.SampleOfIsSampled` | include/flowq/quic/connection.hpp:1396-1413 | scanning the list once gives the ack-eliciting outstanding packet with the largest newly acknowledged number, or none if there is none |
| `RecoveryMeaning.SentIsRecorded` | include/flowq/quic/connection.hpp:1353-1356 | a packet that leaves is outstanding in both records under the next number, with its time and whether it asks for an acknowledgement; the ranges of its STREAM frames, in order, are kept under its number; nothing else changes |
| `RecoveryMeaning.ClearedExactly` | include/flowq/quic/connection.hpp:1539-1560 | clearing a space leaves its next number and empties the rest of it; no packet of another space is forgotten |
| `RecoveryMeaning.AckLeaves` | include/flowq/quic/ack_loss.hpp:374-400 | what an ACK frame makes of every packet of its space: acknowledged if named, lost if it asked for an acknowledgement and is passed by three, otherwise as before; the largest acknowledged is raised |
| `RecoveryMeaning.SampleExactly` | include/flowq/quic/connection.hpp:1396-1413 | the packet the round trip is measured on is the highest numbered of those waited for that the frame names |
| `RecoveryMeaning.TimerDeclaresExactly` | include/flowq/quic/connection.hpp:264-313 | the timer declares lost exactly the packets that were passed and are as old as the loss delay, or else, if the last packet waited for is as old as the probe delay and none was passed, the oldest packet waited for |
| `RecoveryMeaning.DeadlineExactly` | include/flowq/quic/connection.hpp:281-311 | the deadline it returns, in terms of the packets that are left |
| `LoopState.AckDelayIsExact` | include/flowq/quic/ack_loss.hpp:54-66 | the acknowledgement delay is the field times the power of two, saturated at the clock's maximum, if and only if the exponent is below 64 or the field is not zero |
| `LoopState.NoDelayIsReadAsTheLongest` | include/flowq/quic/ack_loss.hpp:54-66 | a zero field under exponent 64 is read as the longest delay, under exponent 63 as none |
| `LoopState.LossDelayExactly` | include/flowq/quic/ack_loss.hpp:207-214 | the loss delay is nine eighths of the longer of latest and smoothed round trip, rounded down, and at least a millisecond |
| `LoopState.ProbeDelayExactly` | include/flowq/quic/ack_loss.hpp:248-264 | the probe delay is round trip plus four variances or a millisecond, plus the peer's delay for application data, which is not probed before the handshake is confirmed |
| `SentRecords.RecordSent` | include/flowq/quic/connection.hpp:1353-1356 | the bookkeeping of a sent packet, stream ranges included |
| `SentRecords.ClearSpace` | include/flowq/quic/connection.hpp:1539-1560 | removes a space from all records but its next number |
| `SentRecords.ApplyAck` | include/flowq/quic/connection.hpp:1368-1378 | the tracker update and the two marking passes over the recovery list |
| `SentRecords.SamplePacket` | include/flowq/quic/connection.hpp:1396-1413 | the nested loops choose the newly acknowledged packet with the largest number |
| `SentRecords.MarkOldest` | include/flowq/quic/connection.hpp:1466-1475 | declares the oldest waiting packet lost in both records |
| `SentRecords.OnTimer` | include/flowq/quic/connection.hpp:281-311 | time-threshold losses first, otherwise one probe loss when the probe deadline has passed; reports the next deadline |
| `PathValidation.StepIsMetered` | include/flowq/quic/connection.hpp:1047-1163 | every step keeps the saturating counters equal to the true counts clipped at 2^64 - 1; every step but a challenge that could not be made keeps a migrated path unvalidated with a challenge outstanding |
| `PathValidation.AllowsExactly` | include/flowq/quic/connection.hpp:1051-1061 | a datagram may go to a server's unvalidated peer exactly if with it at most three bytes have left for each that came, or more than a third of 2^64 - 1 have come |
| `PathValidation.QueuedNext` | include/flowq/quic/connection.hpp:1063-1151 | a challenge counts as queued from its queueing until the peer moves again or answers it |
| `PathValidation.EveryRunIsMetered` | include/flowq/quic/connection.hpp:1047-1062 | over every run, while the address is unvalidated: bytes sent are at most three times bytes received as long as the latter are at most a third of 2^64 - 1; the counters keep that relation always |
| `PathValidation.BoundedExactly` | include/flowq/quic/connection.hpp:1051-1061 | the threefold limit is enforced from a state on if and only if the received count there is at most a third of 2^64 - 1 |
| `PathValidation.SaturationLetsEverythingOut` | include/flowq/quic/connection.hpp:1056-1058 | for datagrams of any size, once n of them have brought in more than that count, 3n + 1 of the same size go out |
| `PathValidation.OnlyTheAnswerRevalidates` | include/flowq/quic/connection.hpp:1063-1151 | after an address change a server's path is unvalidated until a PATH_RESPONSE carries the token of the latest challenge; confirming the handshake does not help; which challenge is unanswered is read off the events alone |
| `PathValidation.UnlimitedExactly` | include/flowq/quic/connection.hpp:1063-1177 | over every run a server's address is unlimited if and only if it never moved and was valid from the start or a refresh saw the handshake confirmed, or the latest challenge was answered with its token and the address has not moved since |
| `PathValidation.AnsweredIsValidated` | include/flowq/quic/connection.hpp:1144-1151 | an answer to the pending challenge lifts the limit and ends the challenge at once |
| `LoopState.SendingKeepsOrder` | include/flowq/quic/connection.hpp:1353-1365 | a packet that goes out keeps the books in order: its number is above every earlier one of the space, and the stream ranges recorded for it are those of its frames |
| `LoopState.ClearingKeepsOrder` | include/flowq/quic/connection.hpp:1539-1560 | clearing a space keeps them in order: numbers go on rising and no other space's ranges are lost |
| `LoopState.AckKeepsOrder` | include/flowq/quic/connection.hpp:1368-1394 | so does an ACK frame; whatever it reports was sent |
| `LoopState.TimerKeepsOrder` | include/flowq/quic/connection.hpp:264-313 | so does a recovery timer |
| `LoopState.AckReportsOrLeaves` | include/flowq/quic/connection.hpp:1368-1378 | an outstanding packet is reported by an ACK frame or still outstanding after it |
| `LoopState.DelaysAreLongEnough` | include/flowq/quic/ack_loss.hpp:211-264 | lower bounds on the loss delay and the probe timeout in terms of the round-trip estimate, and when there is one |
| `ConnectionLoop.Drive` | include/flowq/quic/connection.hpp:173-452 | after any sequence of calls, with any arguments and any answers from outside, the object is exactly where the run of the calls leads: everything stated of `Run` in this table holds of it |
| `ConnectionLoop.Perform` | include/flowq/quic/connection.hpp:173-452 | each single call computes the step of the model and keeps the invariant |
| `LoopInvariant.StepKeeps` | include/flowq/quic/connection.hpp:173-452 | every call keeps the invariant: records in agreement and tied to what was sent and reported, actions to what was emitted and handed out, path and streams to the events of the history; history only grows and the state only moves forward |
| `LoopCauses.MomentsHaveCauses` | include/flowq/quic/connection.hpp:173-452 | whatever a call adds to the history has its cause in that call: bytes are counted only for packets it brings, a path is answered only by a PATH_RESPONSE in one of them, a peer moves only with a datagram from elsewhere, a packet is reported acknowledged only by an ACK frame that names it and lost only by an ACK frame three ahead or by the space's timer, credit grows only by the frames that grant it |
| `LoopRuns.EveryMomentHasACause` | include/flowq/quic/connection.hpp:173-452 | over every run each moment of the history was caused by one of the calls, in the state the calls before it led to |
| `LoopEffects.DeliveredPacketsTookEffect` | include/flowq/quic/connection.hpp:1647-1694 | over every run, when a packet was delivered every frame of it had taken effect in its call: bytes counted, responses, credit and STOP_SENDING passed on |
| `LoopEffects.PacketTakesEffect` | include/flowq/quic/connection.hpp:1647-1694 | the same for one packet: a new packet that leaves the connection active was delivered after everything it brought took effect |
| `LoopEffects.ChallengeIsAnswered` | include/flowq/quic/connection.hpp:1636-1645 | a PATH_CHALLENGE in an accepted packet has its response in the application queue afterwards, unless application data has ended |
| `LoopReceived.RunRemembers` | include/flowq/quic/connection.hpp:1647-1652 | over every run a live space remembers exactly the numbers of the packets taken in it and a space that has ended none; no number is taken twice, no packet is delivered twice or without having been taken |
| `LoopReceived.PacketIsRemembered` | include/flowq/quic/connection.hpp:1647-1652 | one packet: its number is remembered afterwards unless the space ends with it, and no other number comes or goes |
| `LoopRuns.UnvalidatedIsLimited` | include/flowq/quic/connection.hpp:1047-1062 | in every reachable state with an unvalidated address the datagrams emitted since it was adopted have at most three times the bytes received since then, up to a third of 2^64 - 1; the counters are the true counts clipped |
| `LoopRuns.AmplificationOverRuns` | include/flowq/quic/connection.hpp:1047-1062 | over every run of calls from a new connection: the same bound, with the bytes received never more than those of the packets the calls brought |
| `LoopRuns.PendingIsUnanswered` | include/flowq/quic/connection.hpp:1063-1151 | the pending challenge of a server is the latest in its history that no response has answered; while there is one the address has migrated and is limited |
| `LoopRuns.OnlyTheLatestAnswerValidates` | include/flowq/quic/connection.hpp:1063-1151 | if a moved server's address is not limited at the end of a run, then a response to the latest challenge came after that challenge and was in a packet of the call during which it happened |
| `LoopRuns.NoAnswerNoValidation` | include/flowq/quic/connection.hpp:1063-1151 | a server whose peer has moved, before or during the run, stays unvalidated over every run in which no call carries a response to the challenge that is the latest at the end; responses to superseded challenges do not matter |
| `LoopEffects.AddressIsValidatedExactly` | include/flowq/quic/connection.hpp:1063-1177 | over every run a server's address is unlimited if and only if its history says so: never moved and valid or confirmed, or the latest challenge answered and not moved since; each such moment has its cause in a call |
| `LoopEffects.AnswerValidates` | include/flowq/quic/connection.hpp:1144-1151 | a response to the latest challenge in a packet that is accepted lifts the limit |
| `LoopEffects.UnmovedIsValidatedExactly` | include/flowq/quic/connection.hpp:1165-1177 | a server whose peer never moves: the limit is lifted if and only if the address was valid from the start or some call on the active connection found the handshake confirmed |
| `LoopRuns.RecordsOverRuns` | include/flowq/quic/connection.hpp:1353-1464 | over every run: the two records agree, packet numbers rise, each packet is reported at most once and only if it was sent, and the sending streams are where their calls and the ranges of the reported packets, as sent, lead |
| `LoopRuns.ToldAtMostOnce` | include/flowq/quic/connection.hpp:1426-1464 | no packet is told to the streams twice |
| `LoopRuns.AckFramesReport` | include/flowq/quic/connection.hpp:1368-1394 | after the ACK frames of a packet every outstanding packet they name has been reported, and none is forgotten |
| `LoopRuns.CreditOverRuns` | include/flowq/quic/connection.hpp:97-167 | over every run: first transmissions stay within the connection limit and every stream limit granted so far, and the connection's count is their sum |
| `LoopRuns.NoStreamIsEverEnded` | include/flowq/quic/connection.hpp:97-167 | over every run of the connection's calls no sending stream is finished, and no STREAM frame it scheduled or would schedule next carries a FIN |
| `LoopRuns.ActionsAreHandedInOrder` | include/flowq/quic/connection.hpp:446-450 | what drivers were handed plus what is pending is a beginning of what was emitted, and all of it while the connection is not closed; when it is less is in `LoopOutcomes.WhenActionsAreLost` |
| `LoopRuns.AtMostOneClose` | include/flowq/quic/connection.hpp:593-622 | a close is emitted exactly once if the connection is not active and never otherwise, and it is the last action |
| `LoopRuns.ClosingIsFinal` | include/flowq/quic/connection.hpp:593-622 | from a connection that is not active no run emits anything, and its state only moves forward |
| `LoopRuns.DrainingTwiceWouldCloseTwice` | include/flowq/quic/connection.hpp:607-615 | `enter_draining` would bring a second close into the actions emitted if and only if the connection is closing; by `LoopRuns.AtMostOneClose` no run does that |
| `LoopRuns.FiringLowersWaiting` | include/flowq/quic/connection.hpp:264-313 | with the TLS state unchanged, firing an expired timer declares something lost and lowers the number of packets waited for |
| `LoopRuns.NextTimerIsEarliest` | include/flowq/quic/connection.hpp:205-223 | the next timer is attained by its space and no space has an earlier one |
| `LoopOutcomes.WhenAPacketLeaves` | include/flowq/quic/connection.hpp:1308-1366 | flushing a space sends a datagram if and only if something is queued, the space is live, congestion control and pacing agree, a packet can be made and the amplification limit allows it; it closes if and only if one is due and cannot be made |
| `LoopOutcomes.WhatLeaves` | include/flowq/quic/connection.hpp:1333-1366 | that datagram holds the longest front of the queue that fits, encodable and within the budget, under the next number; the rest stays queued; without it history, path and state stay |
| `LoopOutcomes.WhenAnAckLeaves` | include/flowq/quic/connection.hpp:399-440 | an acknowledgement leaves if and only if the space is live, something was received in it, a packet can be made and the limit allows it; it is one ACK frame that expands to exactly the numbers received |
| `LoopOutcomes.WhenPumpingCloses` | include/flowq/quic/connection.hpp:1187-1213 | pumping closes the connection if and only if TLS fails to advance or some CRYPTO data of a live space does not fit |
| `LoopOutcomes.RefreshQueuesTheChallenge` | include/flowq/quic/connection.hpp:1136-1177 | a refresh appends exactly the pending challenge to the application queue, if it is not queued and may be sent, and changes no other queue |
| `LoopOutcomes.NewAddressNewChallenge` | include/flowq/quic/connection.hpp:1075-1134 | when a server's peer moves, the application queue loses exactly the old challenge and gains exactly the new one if it may be sent |
| `LoopOutcomes.DeliveredExactly` | include/flowq/quic/connection.hpp:1673-1688 | a packet is delivered with exactly one event if and only if no reset, stream data or CRYPTO data in it is refused; otherwise the connection closes |
| `LoopOutcomes.WhatAPacketDoes` | include/flowq/quic/connection.hpp:1647-1694 | a packet whose number is new: an unwelcome address or a frame that is not allowed closes, a close from the peer drains, a connection ID violation or a refused frame closes, otherwise the driver gets one event; which frames are allowed where is spelled out; a number seen before changes nothing |
| `LoopMeaning.PacketIsCounted` | include/flowq/quic/connection.hpp:1647-1656 | a new packet from an accepted address counts in full towards what may be sent, no other counts at all |
| `LoopMeaning.RecordedQueues` | include/flowq/quic/connection.hpp:1636-1645 | a packet puts into the queues exactly one RETIRE_CONNECTION_ID for each ID it retires and one response for each challenge, in order, behind what waits already |
| `LoopMeaning.ChunksInTurn` | include/flowq/quic/connection.hpp:352-392 | the packets of a long-header datagram are taken in order; a packet of a discarded space is passed over, trailing zeros end the datagram quietly, and anything else that is not taken ends the connection |
| `LoopPackets.LongDatagramInTurn` | include/flowq/quic/connection.hpp:327-392 | the same for the whole datagram, after the look at TLS that comes first |
| `LoopMeaning.ShortDatagramExactly` | include/flowq/quic/connection.hpp:327-349 | a short-header datagram: a stateless reset drains, any other that cannot be read closes, one of a discarded space only empties it |
| `LoopPackets.AckTells` | include/flowq/quic/connection.hpp:1368-1394 | what the streams are told by an ACK frame: first, in order, the outstanding packets it names as acknowledged, then, in order, those that asked for an acknowledgement and are three or more behind as lost |
| `LoopPackets.AcksAreReported` | include/flowq/quic/connection.hpp:1368-1394 | every outstanding packet that an ACK frame of an accepted packet names is reported to the streams by the time the packet is delivered |
| `LoopPackets.CryptoMovesKeys` | include/flowq/quic/connection.hpp:1620-1634 | a packet with CRYPTO data makes the loop take keys and handshake state from TLS as it is after the packet; one without leaves them, unless a look was due |
| `LoopMeaning.AckMeasures` | include/flowq/quic/connection.hpp:1396-1424 | which round trip sample an ACK frame gives, if any: from the highest numbered packet waited for that it names, with the peer's delay for application data alone |
| `LoopMeaning.StartExactly` | include/flowq/quic/connection.hpp:27-47 | every field of a new connection |
| `LoopMeaning.RefreshedExactly` | include/flowq/quic/connection.hpp:1165-1177 | what a look at TLS changes: handshake keys end the Initial space, application keys allow application data, spaces without keys are emptied, a due challenge is queued; nothing else changes |
| `LoopMeaning.ClosingExactly` | include/flowq/quic/connection.hpp:593-615 | closing or draining says so once, notes the time and empties every space; streams, keys and estimate stay |
| `LoopMeaning.TimerExactly` | include/flowq/quic/connection.hpp:264-313 | the recovery timer of a live space: what it returns is what the estimate and the records make overdue or due for a probe, what the streams are told and what is no longer awaited; its deadline is that of the packets left |
| `LoopMeaning.GoneHasNoTimer` | include/flowq/quic/connection.hpp:272-279 | the timer of a discarded space empties it and declares nothing |
| `LoopMeaning.GoneIsDropped` | include/flowq/quic/connection.hpp:1314-1317 | nor does an acknowledgement or a flush send anything for a discarded space: it empties the space and touches nothing else |
| `LoopMeaning.TimerInExactly` | include/flowq/quic/connection.hpp:1477-1508 | the timer of each space by its packets, estimate and configuration |
| `LoopMeaning.LeavingIsRecorded` | include/flowq/quic/connection.hpp:1343-1366 | a packet that leaves is on record under its number with its time, asks for an acknowledgement exactly if some frame is neither PADDING nor ACK, and has the ranges of its STREAM frames kept |
| `LoopMeaning.AckIsNotAwaited` | include/flowq/quic/connection.hpp:416-440 | a packet with only an acknowledgement is on record and not waited for |
| `LoopMeaning.LimitExactly` | include/flowq/quic/connection.hpp:1051-1061 | over every run, when the limit lets a datagram go, in terms of the bytes since the peer's address was adopted |
| `LoopMeaning.PumpingQueues` | include/flowq/quic/connection.hpp:1187-1213 | what TLS hands out joins the queues of the live spaces, in order, behind what is there |
| `LoopFlush.FlushGathers` | include/flowq/quic/connection.hpp:173-195 | a flush in which TLS does not fail: the keys and the queue of every live space before any space has its turn |
| `LoopFlush.FlushServesEverySpace` | include/flowq/quic/connection.hpp:186-194 | then at most one datagram for each space leaves, Initial first and application data last; unless the connection closes, every space that is ready has its datagram sent except where the amplification limit forbids it |
| `LoopFlush.SmallCallsExactly` | include/flowq/quic/connection.hpp:76-167 | what queueing, discarding, draining, appending, scheduling and raising the limit change and note |
| `LoopClosing.WhatClosingLeaves` | include/flowq/quic/connection.hpp:173-622 | a call that closes an active connection notes its time and leaves every packet number space empty, except that a flush in which TLS fails while the challenge for the peer's address becomes due leaves that challenge in the application queue |
| `LoopClosing.ClosedConnectionsAreEmpty` | include/flowq/quic/connection.hpp:173-622 | over every run a connection that is not active has nothing queued, received or awaited in any space but, perhaps, one challenge, and until it has ended it knows when it closed |
| `LoopClosing.ChallengeOutlivesTheConnection` | include/flowq/quic/connection.hpp:173-185 | a run of two calls that ends with a closing connection and a challenge in its queue |
| `LoopOutcomes.WhenALifecycleTimerActs` | include/flowq/quic/connection.hpp:225-262 | the deadline is the last activity plus the idle timeout, or the start of closing plus the drain timeout; the state changes if and only if the kind is that of the state and the deadline has been reached |
| `LoopOutcomes.OnlyTimersEnd` | include/flowq/quic/connection.hpp:173-452 | no call but a lifecycle timer ends a connection |
| `LoopOutcomes.WhenActionsAreLost` | include/flowq/quic/connection.hpp:248-262 | a call loses actions if and only if it is the timer of a closing or draining connection's own state, at or after its deadline, and actions are pending |
| `LoopOutcomes.NothingIsLostExactly` | include/flowq/quic/connection.hpp:617-622 | over every run everything emitted was handed out or is pending if and only if no call was of that kind |
| `LoopOutcomes.TheCloseIsLost` | include/flowq/quic/connection.hpp:617-622 | a run of three timer calls after which the connection is closed and its close action was handed to nobody |
| `ConnectionLoop.Connection.EnterClosing` | include/flowq/quic/connection.hpp:593-601 | from active: closing, everything queued or recorded is dropped, the clock of the closing state starts, one close action; otherwise nothing |
| `ConnectionLoop.Connection.EnterDraining` | include/flowq/quic/connection.hpp:607-615 | unless draining or closed: draining, everything dropped, one close action; from an active connection it keeps the invariant, and no call reaches it from a closing one |
| `ConnectionLoop.Connection.EnterClosed` | include/flowq/quic/connection.hpp:617-622 | ends a closing or draining connection and drops its pending actions |
| `ConnectionLoop.Connection.RefreshKeyLifecycle` | include/flowq/quic/connection.hpp:1165-1177 | computes `Refreshed`; `LoopMeaning.RefreshedExactly` and `PathValidation.UnlimitedExactly` say what that is |
| `ConnectionLoop.Connection.AcceptPeer` | include/flowq/quic/connection.hpp:964-977 | accepts a packet's address exactly when it is known or migration is allowed and a server can challenge it; a server then starts over with the new path |
| `ConnectionLoop.Connection.StartValidation` | include/flowq/quic/connection.hpp:1075-1134 | counters reset, the old challenge leaves the queue, the new token is the pending one and is queued if it may be sent; no token closes the connection (`LoopOutcomes.NewAddressNewChallenge`) |
| `ConnectionLoop.Connection.ApplyPathFrames` | include/flowq/quic/connection.hpp:1636-1645 | one PATH_RESPONSE is queued for each challenge, and each response is a step of the path |
| `ConnectionLoop.Connection.ApplyAckFrame` | include/flowq/quic/connection.hpp:1368-1394 | books, round-trip estimate, reports and sending streams after one ACK frame: acknowledged ranges first, then lost ones |
| `ConnectionLoop.Connection.ApplyAckFrames` | include/flowq/quic/connection.hpp:1368-1394 | the ACK frames of a packet one after the other (`LoopRuns.AckFramesReport`) |
| `ConnectionLoop.Connection.ApplyCreditFrames` | include/flowq/quic/connection.hpp:1581-1591 | the sending streams with every MAX_DATA, MAX_STREAM_DATA and MAX_STREAMS frame applied in order |
| `ConnectionLoop.Connection.ApplyStreamControlFrames` | include/flowq/quic/connection.hpp:1593-1608 | STOP_SENDING frames are applied up to the first RESET_STREAM that is refused; fails exactly if there is one |
| `LoopState.CheckFrames` | include/flowq/quic/connection.hpp:690-757 | passes exactly when every frame is allowed in the packet's space and from the peer's role and every ACK frame is valid |
| `ConnectionLoop.Connection.ReceiveCrypto` | include/flowq/quic/connection.hpp:1620-1634 | fails exactly on CRYPTO data that TLS refuses; data accepted before it marks the key state for a refresh |
| `ConnectionLoop.Connection.DeliverFrames` | include/flowq/quic/connection.hpp:1673-1688 | resets and stops, CRYPTO data, stream data and the event, in that order; closes at the first that is refused (`LoopOutcomes.DeliveredExactly`) |
| `ConnectionLoop.Connection.ProcessParsedPacket` | include/flowq/quic/connection.hpp:1647-1694 | computes `Processed`; `LoopReceived.PacketIsRemembered`, `LoopOutcomes.WhatAPacketDoes`, `LoopEffects.PacketTakesEffect` and `LoopMeaning.PacketIsCounted` say what that is |
| `ConnectionLoop.Connection.OnDatagram` | include/flowq/quic/connection.hpp:327-393 | short and long datagrams; an unreadable short one drains the connection if it is a stateless reset and closes it otherwise |
| `ConnectionLoop.Connection.OnLongDatagram` | include/flowq/quic/connection.hpp:352-392 | the coalesced packets in order, each processed in the state the one before left, for as long as the connection is active |
| `ConnectionLoop.Connection.SendPacket` | include/flowq/quic/connection.hpp:1349-1365 | number, both records, stream ranges, byte count, queue and action change together |
| `ConnectionLoop.Connection.FlushSpace` | include/flowq/quic/connection.hpp:1308-1366 | sends the front of the queue of one space, holds it back, or closes (`LoopOutcomes.WhenAPacketLeaves`, `LoopOutcomes.WhatLeaves`) |
| `ConnectionLoop.Connection.PumpCrypto` | include/flowq/quic/connection.hpp:1187-1213 | CRYPTO frames are queued in order for every space that is not discarded; a failure closes the connection (`LoopOutcomes.WhenPumpingCloses`) |
| `ConnectionLoop.Connection.Flush` | include/flowq/quic/connection.hpp:173-195 | refresh, pump, refresh again even if the pump closed the connection, then the three spaces in order while it is active |
| `ConnectionLoop.Connection.Acknowledge` | include/flowq/quic/connection.hpp:399-440 | sends one ACK frame for what was received in the space, or nothing, or closes (`LoopOutcomes.WhenAnAckLeaves`) |
| `ConnectionLoop.Connection.OnRecoveryTimer` | include/flowq/quic/connection.hpp:264-313 | declares lost exactly what the specification says, tells the streams, and returns the lost packets and the next deadline |
| `ConnectionLoop.Connection.NextRecoveryTimer` | include/flowq/quic/connection.hpp:205-223 | the earliest deadline of the three spaces (`LoopRuns.NextTimerIsEarliest`) |
| `LoopState.ExpiredTimerLowersWaiting` | include/flowq/quic/connection.hpp:264-313 | firing an expired timer strictly lowers the packets waited for over all spaces |
| `ConnectionLoop.FireDueTimers` | include/flowq/quic/connection.hpp:205-313 | with the TLS state unchanged, firing the next timer while it is due terminates after finitely many timer calls, and then every timer that is left lies in the future |
| `ConnectionLoop.Connection.NextLifecycleTimer` | include/flowq/quic/connection.hpp:225-246 | the timer that belongs to the state with its deadline; a clock that was not running starts now; none for a closed connection |
| `ConnectionLoop.Connection.OnLifecycleTimer` | include/flowq/quic/connection.hpp:248-262 | closes or ends the connection by the timer of its own state once it is due (`LoopOutcomes.WhenALifecycleTimerActs`) |
| `ConnectionLoop.Connection.DiscardPacketSpace` | include/flowq/quic/connection.hpp:315-321 | marks the space discarded and clears it, in any state |
| `ConnectionLoop.Connection.QueueFrames` | include/flowq/quic/connection.hpp:76-95 | replaces what was queued, on an active connection only |
| `ConnectionLoop.Connection.ScheduleStreamFrames` | include/flowq/quic/connection.hpp:104-163 | the scheduling pass of an active connection |
| `ConnectionLoop.Connection.AppendStreamData` | include/flowq/quic/connection.hpp:97-102 | appends on an active connection; succeeds exactly if the connection is active and the stream takes the data |
| `ConnectionLoop.Connection.DrainActions` | include/flowq/quic/connection.hpp:446-450 | hands out all pending actions in order and keeps none |
| `LoopState.ResolvePackets` | include/flowq/quic/connection.hpp:1450-1464 | each range of each named packet is reported once, packet by packet |
| `PayloadBudget.SelectFrames` | include/flowq/quic/packet_pipeline.hpp:493-520 | takes the longest run from the front of the queue that encodes and fits the budget; fails exactly at a frame that does not encode |
| `PayloadBudget.FrontIsLongest` | include/flowq/quic/packet_pipeline.hpp:493-520 | the frames taken encode and fit, and the next one, if it encodes, would not fit any more |
| `PayloadBudget.NothingLongerFits` | include/flowq/quic/packet_pipeline.hpp:493-520 | no longer beginning of the queue encodes and fits |
| `PayloadBudget.SoundExactly` | include/flowq/quic/packet_pipeline.hpp:493-520 | selection fails exactly if a frame that cannot be printed follows frames that fit |
| `ReplayWindow.ReplayProtection.CheckAndRecord` | include/flowq/quic/zero_rtt.hpp:116-158 | accepts exactly the numbers never accepted before and less than a window behind the largest accepted; the bitmap mirrors that set |
| `ReplayWindow.ClearPassed` | include/flowq/quic/zero_rtt.hpp:129-147 | clearing the slots the window moves over keeps every in-window slot equal to membership |
| `ReplayWindow.ReplayProtection.CheckAll` | include/flowq/quic/zero_rtt.hpp:116-158 | a whole sequence of calls gives the verdicts of the set model |
| `ReplayWindow.NoReplay` | include/flowq/quic/zero_rtt.hpp:116-158 | no number is accepted twice |
| `ReplayWindow.VerdictInPlainTerms` | include/flowq/quic/zero_rtt.hpp:116-158 | a number is accepted exactly when no equal earlier call was accepted and no earlier call is a full window or more ahead |
| `Varint.EncodeVarint` | include/flowq/quic/varint.hpp:65-120 | writes the encoding at the front of the buffer and nothing else; fails exactly when the value or the encoding does not fit |
| `Varint.DecodeVarint` | include/flowq/quic/varint.hpp:122-161 | reads one value and its length, or fails on a short input |
| `Varint.DecodeEncode` | include/flowq/quic/varint.hpp:65-161 | reading an encoding back gives the value and its length, whatever follows |
| `Varint.EncodeIsShortest` | include/flowq/quic/varint.hpp:48-63 | no shorter code holds the value, and a code of the same length is the same code |
| `FrameCodec.EncodeFrames` | include/flowq/quic/frame.hpp:184-497 | the encoders, frame by frame, give the concatenated layouts, or fail on the first frame that has none |
| `FrameCodec.DecodeFrames` | include/flowq/quic/frame.hpp:499-818 | computes `Decoding`, the parser; `FrameGrammar.ParserDecidesTheGrammar` says which payloads it accepts and as what |
| `FrameGrammar.ParserDecidesTheGrammar` | include/flowq/quic/frame.hpp:499-818 | bytes are parsed as a list of frames if and only if the list is not empty and the grammar, a relation between bytes and frames, says they spell it |
| `FrameGrammar.ParsedIsEncodable` | include/flowq/quic/frame.hpp:499-818 | every frame the parser returns can be printed |
| `FrameGrammar.UnknownTypesAreRefused` | include/flowq/quic/frame.hpp:809-815 | no payload that starts with a type outside the 21 kinds is accepted, whatever follows |
| `FrameGrammar.PrinterSpells` | include/flowq/quic/frame.hpp:184-497 | a frame can be printed if and only if some bytes spell it, and then the printed bytes do |
| `FrameCodec.EncodeAck` | include/flowq/quic/frame.hpp:250-272 | the ACK encoder, ranges and ECN counts included |
| `FrameCodec.DecodeAck` | include/flowq/quic/frame.hpp:527-566 | the ACK parser with its range loop |
| `FrameRoundTrip.FrameLands` | include/flowq/quic/frame.hpp:184-818 | each encodable frame other than PADDING parses back, up to the fields its type byte cannot carry, and leaves the rest of the input |
| `FrameRoundTrip.ParsePayload` | include/flowq/quic/frame.hpp:499-818 | for every list of encodable frames, parsing its encoding gives its normal form |
| `FrameRoundTrip.RoundTripExactly` | include/flowq/quic/frame.hpp:499-818 | parsing gives the list back if and only if it is non-empty and canonical: PADDING runs non-empty and not adjacent, offset zero without OFF, and a STREAM without LEN only at the end |
| `FrameRoundTrip.NeighbouringPaddingMerges` | include/flowq/quic/frame.hpp:499-818 | two PADDING frames of one byte come back as one of two bytes; the empty list does not come back |
| `PacketNumber.SelectLength` | include/flowq/quic/packet_header.hpp:131-147 | the length loop with its wrapping doubling |
| `PacketNumber.SelectionIsShortestExactly` | include/flowq/quic/packet_header.hpp:131-147 | the selected length is the shortest whose window exceeds twice the gap if and only if the gap is outside [2^63, 2^63 + 2^31) |
| `PacketNumber.WrappedGapIsAccepted` | include/flowq/quic/packet_header.hpp:131-147 | a gap of 2^63 is given one byte |
| `PacketNumber.EncodePacketNumber` | include/flowq/quic/packet_header.hpp:149-172 | writes the low bytes, most significant first |
| `PacketNumber.DecodePacketNumber` | include/flowq/quic/packet_header.hpp:174-199 | the decoder with its window arithmetic |
| `PacketNumber.ReadTruncated` | include/flowq/quic/packet_header.hpp:264-280 | reads the truncated number |
| `PacketNumber.DecodeIsExact` | include/flowq/quic/packet_header.hpp:174-199 | decoding a truncated number gives the original if and only if it lies in the window around the expected one, with the corner at 2^62 - 1 stated |
| `PacketNumber.TruncationIsRecovered` | include/flowq/quic/packet_header.hpp:131-199 | a number whose length was chosen against an acknowledgement the receiver has seen and that is less than half a window behind is recovered |
| `HeaderProtection.ApplyInPlace` | include/flowq/quic/packet_pipeline.hpp:342-371 | masks the low bits of the first byte and the packet number in place; fails exactly when the sample does not fit |
| `HeaderProtection.RemoveInPlace` | include/flowq/quic/packet_pipeline.hpp:373-402 | removes the mask in place |
| `HeaderProtection.RemoveUndoesApply` | include/flowq/quic/packet_pipeline.hpp:342-460 | removal undoes application for every mask function, because the sample is untouched |
| `HeaderProtection.ApplyTouchesLittle` | include/flowq/quic/packet_pipeline.hpp:342-371 | type bits, connection IDs, length and payload are left alone |
| `HeaderProtection.XorExactly` | include/flowq/quic/packet_pipeline.hpp:342-371 | each bit of the XOR is set exactly if the two bits differ |
| `PacketHeader.LongReadsBack` | include/flowq/quic/packet_header.hpp:335-450 | a long header parses back, and the wire size of a packet is its own length whatever follows |
| `PacketHeader.ShortReadsBack` | include/flowq/quic/packet_header.hpp:467-575 | a short header parses back |
| `PacketHeader.WireSize` | include/flowq/quic/packet_pipeline.hpp:273-314 | the size of the first packet in a datagram, never zero and never beyond the datagram |
| `PacketGrammar.LongParserDecides` | include/flowq/quic/packet_header.hpp:335-450 | the long header parser accepts exactly the bytes that can be cut into first byte, version, two connection IDs, token, length and a payload of that length, with a version other than zero |
| `PacketGrammar.LongIsPrinted` | include/flowq/quic/packet_header.hpp:335-395 | the printer spells the header, with the shortest lengths, exactly if its fields fit theirs |
| `PacketGrammar.WireSizeDecides` | include/flowq/quic/packet_pipeline.hpp:273-314 | how much of a datagram its first packet takes: the bytes up to there, and no other number of them, are one packet of any version |
| `PacketGrammar.ShortParserDecides` | include/flowq/quic/packet_header.hpp:467-575 | the short header parser accepts exactly the bytes that can be cut into first byte, connection ID, one to four bytes of number and payload |
| `PacketGrammar.RevealedExactly` | include/flowq/quic/packet_pipeline.hpp:373-460 | what is found behind header protection: the sixteen bytes of the sample, the bits of the first byte and the bytes of the number that are unmasked |
| `PacketGrammar.ApplicationPacketExactly` | include/flowq/quic/packet_pipeline.hpp:680-772 | the assembler makes exactly these application packets: byte by byte, and under which keys, number and size |
| `PacketGrammar.LongPacketExactly` | include/flowq/quic/packet_pipeline.hpp:522-678 | and exactly these long packets, padding included |
| `PacketGrammar.ShortPacketParsedExactly` | include/flowq/quic/packet_pipeline.hpp:849-900 | the parser takes exactly these application packets, and as what |
| `PacketGrammar.LongPacketParsedExactly` | include/flowq/quic/packet_pipeline.hpp:774-847 | and exactly these long packets |
| `InitialPadding.PadFor` | include/flowq/quic/packet_pipeline.hpp:552-588 | the loop cut off after any number of rounds, for every header: padded, failed, or still going |
| `InitialPadding.StopsSoon` | include/flowq/quic/packet_pipeline.hpp:552-588 | outside the gap three rounds decide: the exact 1200-byte packet, or failure because it is already longer |
| `InitialPadding.StopsOneWay` | include/flowq/quic/packet_pipeline.hpp:552-588 | whenever the loop stops, after however many rounds, it is with the exact 1200-byte packet or, if the packet was longer already, with a failure |
| `InitialPadding.NeverStops` | include/flowq/quic/packet_pipeline.hpp:552-588 | with 1135 header bytes and at most 63 bytes to carry the loop runs for ever |
| `InitialPadding.PaddingTerminatesExactly` | include/flowq/quic/packet_pipeline.hpp:552-588 | the loop ends if and only if it does not start there |
| `InitialPadding.TargetIsExact` | include/flowq/quic/packet_pipeline.hpp:462-489 | exactly one payload length gives 1200 bytes on the wire, unless the header has 1135 bytes |
| `PacketPipeline.AssembleLongPacket` | include/flowq/quic/packet_pipeline.hpp:522-678 | assembles an Initial or Handshake packet, for every request, with the padding loop cut off after any number of rounds |
| `PacketPipeline.AttemptIsAssembly` | include/flowq/quic/packet_pipeline.hpp:522-678 | whenever the assembler comes to an end, after however many rounds, its result is the specified packet or refusal |
| `PacketPipeline.AttemptEndsExactly` | include/flowq/quic/packet_pipeline.hpp:552-588 | it comes to an end, within three rounds, if and only if the padding loop is not entered with 1135 header bytes and at most 63 bytes to carry |
| `PacketPipeline.AssembleApplicationPacket` | include/flowq/quic/packet_pipeline.hpp:680-772 | assembles a 1-RTT packet |
| `PacketPipeline.ParseLongPacket` | include/flowq/quic/packet_pipeline.hpp:774-847 | parses a protected long packet |
| `PacketPipeline.ParseShortPacket` | include/flowq/quic/packet_pipeline.hpp:849-900 | parses a protected short packet |
| `PacketPipeline.LongPacketRoundTrip` | include/flowq/quic/packet_pipeline.hpp:522-847 | for every AEAD and mask the ends agree on, parsing an assembled long packet, padded or not, gives its number and its frames in normal form; its wire size is its length |
| `PacketPipeline.ShortPacketRoundTrip` | include/flowq/quic/packet_pipeline.hpp:680-900 | the same for 1-RTT packets |
| `PacketPipeline.CanonicalFramesComeBack` | include/flowq/quic/packet_pipeline.hpp:522-847 | for canonical frames the packet says exactly what was put in |
| `PacketPipeline.PaddedPacketIsMinimal` | include/flowq/quic/packet_pipeline.hpp:552-588 | a padded Initial packet is exactly 1200 bytes and can be made if and only if the unpadded one is no longer |
| `PacketPipeline.EmptyTokenIsPaddable` | include/flowq/quic/connection.hpp:1020-1031 | without a token, as the connection loop builds them, no request falls into the padding gap |
| `PacketPipeline.TokenInTheGap` | include/flowq/quic/packet_pipeline.hpp:552-588 | a request the assembler never ends on, for any connection IDs: one PING behind a token that makes the header 1135 bytes |
| `ZeroCopyBuilder.Builder.BuildApplicationPacket` | include/flowq/quic/zero_copy_packet_builder.hpp:26-128 | the in-place builder returns the specified datagram or error, whatever earlier packets left in the buffer, writes exactly as far as `Touched` says and changes nothing beyond |
| `ZeroCopyBuilder.BuilderAgreesExactly` | include/flowq/quic/zero_copy_packet_builder.hpp:26-128 | builder and assembler return the same if and only if neither serves the request, or both do and the header left the frames alone; what either serves is spelled out in tests a caller can make: frames that encode, an AEAD that succeeds, a sample with a mask, the sizes of datagram and buffer, a number of at most 32 bits for the assembler |
| `ZeroCopyBuilder.BuilderTruncatesNumbers` | include/flowq/quic/zero_copy_packet_builder.hpp:73-77 | a family of requests on which they differ: the builder sends the low 32 bits of a number the assembler refuses |
| `ZeroCopyBuilder.StaysInsideExactly` | include/flowq/quic/zero_copy_packet_builder.hpp:41-106 | the builder and the protector it calls write inside the buffer if and only if the printed frames fit behind the reserve and, if all of them print, plaintext and sealed payload fit behind the header |
| `ZeroCopyBuilder.FullPacketGoesPastTheEnd` | include/flowq/quic/zero_copy_packet_builder.hpp:41-106 | a packet of exactly the buffer's size with a connection ID of n <= 10 bytes and a tag of 16 is returned although the frames were written 11 - n bytes past the end |
| `ZeroCopyBuilder.Builder.LayOut` | include/flowq/quic/zero_copy_packet_builder.hpp:41-86 | frames, header and move leave the plaintext packet at the front; a header longer than the reserve overwrites the frames |
| `StreamSend.StreamSendState.FinishStream` | include/flowq/quic/stream.hpp:438-444 | marks the end of the stream unless it was stopped |
| `StreamSend.StreamSendState.RangeAcked` | include/flowq/quic/stream.hpp:633-640 | true exactly when one acknowledged range covers the range, FIN included |
| `StreamSend.StreamSendState.RangeCoversLostFin` | include/flowq/quic/stream.hpp:642-649 | true exactly when the range covers a lost one that carries the FIN |
| `StreamSend.StreamSendState.MakeFrame` | include/flowq/quic/stream.hpp:675-689 | the frame holds the bytes of the range; OFF is set exactly for a non-zero offset |
| `FlowControl.StreamSendSet.UpdateMaxStreams` | include/flowq/quic/stream.hpp:762-765 | raises the stream limit of one direction; limits never fall |
| `FlowControl.StreamSendSet.StopStream` | include/flowq/quic/stream.hpp:767-773 | stops a known stream and ignores an unknown one |
| `AckRanges.AppendRange` | include/flowq/quic/ack_loss.hpp:68-80 | adds the whole interval, or fails without change when its ends are reversed |
| `Recovery.AckLoop` | include/flowq/quic/ack_loss.hpp:381-386 | the first loop over the tracker |
| `Recovery.LossLoop` | include/flowq/quic/ack_loss.hpp:388-397 | the second loop over the tracker |
| `FrameCodec.AppendVarint` | include/flowq/quic/frame.hpp:184-193 | appends the encoding, or fails on a value beyond 2^62 - 1 |
| `FrameCodec.SkipPadding` | include/flowq/quic/frame.hpp:509-519 | consumes the whole run of zero bytes |
| `FrameCodec.DecodeOne` | include/flowq/quic/frame.hpp:499-818 | one round of the parser: one frame and how much input it took, or failure |
| `InitialPadding.Adjust` | include/flowq/quic/packet_pipeline.hpp:565-586 | takes off or adds exactly the padding that is over or missing, and fails when there is none to take off |
| `ZeroCopyBuilder.Builder.WriteFrames` | include/flowq/quic/zero_copy_packet_builder.hpp:47-60 | the encodings of the frames lie behind the reserve; fails exactly on an unencodable frame, having written those before it |
| `ZeroCopyBuilder.Builder.WriteHeader` | include/flowq/quic/zero_copy_packet_builder.hpp:62-77 | the short header at the front of the buffer, for any connection ID; everything behind it stays |
| `ZeroCopyBuilder.Builder.MoveFrames` | include/flowq/quic/zero_copy_packet_builder.hpp:79-85 | moves the bytes behind the reserve to behind the header and changes nothing else |
| `ZeroCopyBuilder.Builder.ProtectInPlace` | include/flowq/quic/packet_pipeline.hpp:97-111 | the inherited `protect_in_place`: the protected payload is copied over the plaintext, with no look at the size of the buffer |
| `ZeroCopyBuilder.Builder.Finish` | include/flowq/quic/zero_copy_packet_builder.hpp:102-127 | refuses a packet larger than the buffer; otherwise masks the header and copies the datagram out, or refuses it |
| `LoopState.HasPeerClose` | include/flowq/quic/connection.hpp:624-636 | true exactly when some frame closes the connection or the application |
| `LoopState.RemoveChallenge` | include/flowq/quic/connection.hpp:1101-1116 | the queue without the challenges that carry the token, in order |
| `LoopState.FindSentRanges` | include/flowq/quic/connection.hpp:1441-1448 | the ranges of the first entry for the packet, or none |
| `ConnectionLoop.Connection.constructor` | include/flowq/quic/connection.hpp:27-47 | a new connection is active, has an empty history and satisfies the invariant |
| `ConnectionLoop.Connection.ClearSpaces` | include/flowq/quic/connection.hpp:1533-1537 | nothing stays queued or recorded in any space |
| `ConnectionLoop.Connection.QueueChallenge` | include/flowq/quic/connection.hpp:1136-1142 | queues the pending challenge once, when application data may be sent; the queue is otherwise unchanged |
| `ConnectionLoop.Connection.ClearDiscarded` | include/flowq/quic/connection.hpp:1521-1531 | clears exactly the spaces whose keys are gone |
| `ConnectionLoop.Connection.QueueRetirements` | include/flowq/quic/connection.hpp:839-841 | one RETIRE_CONNECTION_ID frame for each retired ID, in order |
| `ConnectionLoop.Connection.UpdateMaxData` | include/flowq/quic/connection.hpp:165-167 | raises the connection limit; it never falls |
| `ConnectionLoop.Connection.UpdateRtt` | include/flowq/quic/connection.hpp:197-203 | feeds one sample to the estimator |

## Left out

- TLS, OpenSSL, key derivation, the AEAD and the header-protection cipher: parameters or arbitrary functions.
- Sockets, timers, schedulers, senders, diagnostics and the endpoint driver: I/O.
- Congestion control and pacing: their verdicts are parameters, their floating point is not modelled.
- HTTP/3 and QPACK, transport parameters, connection routing, key update: further codecs and maps of an easier kind.
- Version negotiation and Retry headers, and `build_long_packet` of the in-place builder: the loop does not use them.
- The peer's connection IDs: which of them a packet retires, or that it breaks a rule, is a parameter of the call.
- Cutting CRYPTO data into frames and delivering received CRYPTO and STREAM data at connection level: the outcome is a
  parameter; the receiving side of a stream is modelled on its own.
- 64-bit overflow of clock arithmetic and of the packet-number counter: times are integers and numbers are naturals.
- Delivery through the application queue: `queue_application` replaces frames that were queued before, so stream
  delivery is stated for popped frames.
- FrameCodec.EncodeFrames: only the ACK encoder is written out as a method; the other kinds call the layout that
  specifies them, so for those the round trip, not a second implementation, is what is proved.
- FrameCodec.DecodeOne: likewise, only PADDING and ACK are parsed by loops of their own; the other kinds are read by the
  grammar's functions.
- PacketPipeline.AssembleLongPacket: takes the number of rounds after which the padding loop is cut off, since the loop
  of the source need not end.
- ZeroCopyBuilder.Builder.BuildApplicationPacket: what an overflowing copy does is undefined in the source; here it
  goes into the memory behind the buffer, which is modelled as far as the request reaches.
- ZeroCopyBuilder.Builder.ProtectInPlace: models the inherited form; a protector that overrides it is not covered.
- StreamSend.StreamSendState.PopFrame: lists of ranges are values, so the cost of erasing from the
  front is not modelled.
