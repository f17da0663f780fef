# A verified model of netstack

netstack is a user-space TCP/IPv4 stack in Go. This project models the parts of it where correctness is hard to see
from one function, and proves what they guarantee together:

- **The TCP data path.** The receiver (window trimming, the sorted and merged out-of-order list, draining into a ring
  buffer, SACK reports), the sender (the retransmission queue, acknowledgements, timeouts, fast retransmit, SACK loss
  recovery, limited transmit, probes, large segments) and the ring buffer between each of them and the application.
  All of it runs on 32-bit wrapping numbers; the proofs carry unbounded stream positions beside them.
- **Whole runs.** `Network.dfy` is a transition system of a sender, a receiver and a network that loses, repeats,
  reorders and cuts segments. Its theorems are about every run. `EndToEnd.dfy` joins the sender and receiver classes,
  proves that each of their operations is a step of that system and keeps the run so far, so that the theorems hold of
  the classes after any operations in any order (`Link.Integrity`). `Session.dfy` builds them from their constructors
  and takes them to the states in which the code misbehaves.
- **Shutting down.** When a FIN is sent, when it counts as acknowledged, and what the closing states really do.
- **The wake-up protocol** of the blocking ring buffer, over every interleaving.
- **IPv4 fragmentation and reassembly**: a transformation and its inverse, under any arrival order, and the table that
  bounds its memory.
- **Checksums**: the 64-bit carry-chained form against the plain 16-bit one.
- **Segmentation offload**: splitting a large TCP packet, coalescing small ones, and the one undoing the other.
- **TCP options and window scaling**.

`dafny verify dfyconfig.toml` checks everything.

## How the model is laid out

| file | what it holds |
|---|---|
| SeqNum | wrapping comparisons and the positions they stand for |
| RingBuffer | bytes, and the circular buffer as a class refining a queue |
| OutOfOrder, Reassembly, Receiver | the out-of-order list by position, the loops on wire numbers that implement it, the receiver class |
| SackReport, SackMark, SackExchange | SACK blocks as reported, as used for marking, and the one against the other |
| SendQueue, Congestion, Sender | the retransmission queue, congestion and timer arithmetic, the sender class |
| Network, EndToEnd | the transition system and its theorems, the two endpoints joined |
| Closing, Session, Wakeup | shutdown, connections built and driven from their constructors, the wake-up protocol |
| Checksum, Ipv4, Fragment, Reassemble, RoundTrip, Table, Arrivals | checksums, header fields, cutting, one fragment set, the inverse property, the table, whole runs of arrivals |
| Gso, Gro | splitting and coalescing |
| Options, Window | TCP options, window scale |

Where the code's promise turned out to be false in general, the code is modelled as it is. One member shows the promise
failing, on one input or on every input of the failing kind, and another says exactly when it holds:

- the wrapping comparison decides the true order only within half the number space (`OrderFailsAtHalf`, `OrderAgreesIff`);
- a zero-length write to an empty ring buffer fills it, and a zero-length read from a full one empties it (`ZeroWrite`,
  `ZeroRead`; `WriteNoBlock`, `ReadNoBlock` and `AppRead` say exactly when the queue behaviour holds). The receiver never
  writes an empty slice, which its proofs show. A read of nothing is the application's choice: it loses what a full
  buffer holds, so `Link.AppRead` excludes that one call;
- SACK ranges beyond a gap that contains the 2^32 boundary are not reported (`OmissionExample`, `NothingOmittedIff`),
  and marking across that boundary is wrong (`CoversFailsAcrossBoundary`, `ContainmentIff`); with no boundary in the
  live range an honest report marks exactly the entries inside it, all of them held (`Link.ReportSack`), and reports
  that come late, repeatedly or out of order still mark nothing that has not been received (`Link.MarkedIsReceived`);
- FIN_WAIT_1 and FIN_WAIT_2 step over the peer's FIN without checking that all data before it has arrived, and once
  more over one that was consumed already (`UncheckedFinTruncates`, `FinSteppedOverTwice`); the receiver stays in step
  exactly when the test that ESTABLISHED makes would succeed (`ConsumeFINUnchecked`, `UncheckedFinIff`), which the
  handlers state of the segment and the fields before the call (`HandleFinWait1`, `HandleFinWait2`, `FinGuardOnWire`);
- LAST_ACK closes on any acknowledgement that is new (`LastAckClosesEarly`, `HandleLastAck`);
- closing a ring buffer does not wake writers (`CloseLeavesWriters`);
- a fragment set that is complete need not be assemblable (`BeyondTheEnd`, `AssemblesIff`);
- the PSH flag of a coalesced packet is lost when another is put before it (`CoalescePrepend`, `HeadersRecovered`);
- the advertised window saturates when the initial buffer is larger than the sizes the scale was computed from
  (`SaturatedWindow`, `NewReceiver`, `NeverSaturatedIff`);
- a peer that offers a scale above zero has its windows read too large when our buffer needs none, since ours is then not
  announced (`Negotiate`);
- the length field of a reassembled datagram wraps when its header has options and its payload is near the limit
  (`LengthIff`);
- a packet that was fragmented comes back unchanged exactly when its flags and offset were zero and its checksum was
  the computed one, since reassembly rewrites those fields (`WholeIsOriginal`, `RoundTrips`);
- a window scale of zero is not announced in a SYN+ACK, so it does not read back as zero (`SynRoundTrip`).

The low memory threshold of the reassembler never takes effect: the trimming loop's own guard stops it at the high
one first (`TrimMemory`).

## Model

| member | source | states |
|---|---|---|
| SeqNum.OrderAgreesIff | transport/tcp/rcv.go:410-417 | for positions less than 2^32 apart, the wrapping comparisons give the true order exactly when the positions are within half the number space |
| SeqNum.OrderAgrees | transport/tcp/rcv.go:410-417 | both comparisons are the true order within half the space |
| SeqNum.OrderFailsAtHalf | transport/tcp/rcv.go:410-417 | positions 2^31 apart on which the comparison contradicts the true order |
| SeqNum.WithinWindowAgrees | transport/tcp/rcv.go:420-422 | the window test is membership in the window by position |
| Ring.RingBuffer.constructor | transport/tcp/ringbuf.go:25-31 | a new buffer is an empty, open queue |
| Ring.RingBuffer.WriteLocked | transport/tcp/ringbuf.go:100-115 | the queue grows by exactly the prefix that fits; an empty write to an empty buffer makes it full |
| Ring.RingBuffer.ReadLocked | transport/tcp/ringbuf.go:164-177 | the result is the front of the queue, which loses exactly it; an empty read of a full buffer empties it |
| Ring.RingBuffer.CopyIn | transport/tcp/ringbuf.go:102-109 | the one- or two-chunk copy stores the slice circularly from the write index |
| Ring.RingBuffer.CopyOut | transport/tcp/ringbuf.go:166-173 | the one- or two-chunk copy returns the front of the queue |
| Ring.RingBuffer.WriteNoBlock | transport/tcp/ringbuf.go:181-197 | how much is taken, and that the queue is appended to exactly when the slice is non-empty, the buffer closed or not empty |
| Ring.RingBuffer.ReadNoBlock | transport/tcp/ringbuf.go:148-160 | what is returned, and that the queue loses exactly that unless nothing is read from a full buffer |
| Ring.RingBuffer.Grow | transport/tcp/ringbuf.go:201-241 | growing keeps the queue in the contiguous, wrapped and full layouts; the capacity never shrinks |
| Ring.RingBuffer.CopyWrapped | transport/tcp/ringbuf.go:221-229 | the two-chunk copy of a wrapped buffer is its queue |
| Ring.RingBuffer.CloseWrite | transport/tcp/ringbuf.go:245-251 | closing keeps the unread queue |
| Ring.IndicesAreRemainders | transport/tcp/ringbuf.go:100-115 | the index functions of the model are the remainders the code computes |
| Ring.CircularAppend | transport/tcp/ringbuf.go:100-115 | storing behind the stored bytes appends to the queue, wrapped or not |
| Ring.CircularDrop | transport/tcp/ringbuf.go:164-177 | moving the read index drops the front of the queue |
| OutOfOrder.InsertSound | transport/tcp/rcv.go:232-306 | insertion keeps the list sorted, separated by real gaps, cut from the peer's stream and inside the window, and adds exactly the new positions |
| OutOfOrder.CoveredHolds | transport/tcp/rcv.go:237-245 | a segment inside a stored entry adds no position |
| OutOfOrder.DrainSound | transport/tcp/rcv.go:368-400 | draining goes to the first position not held, keeps exactly the held positions above it, and keeps the list in order |
| Reassembly.IsCovered | transport/tcp/rcv.go:235-245 | the duplicate scan on wire numbers decides coverage by position, across the 2^32 wrap |
| Reassembly.FindSlot | transport/tcp/rcv.go:253-257 | the search finds the insertion point by position |
| Reassembly.MergeForward | transport/tcp/rcv.go:289-305 | the forward merging loop computes the merged list of positions |
| Reassembly.PlaceEntry | transport/tcp/rcv.go:259-287 | storing or merging into the predecessor, by position |
| Reassembly.InsertEntry | transport/tcp/rcv.go:232-306 | the whole insertion on wire numbers is the insertion by position, or a duplicate is reported, exactly when covered |
| TcpReceiver.TrimAgrees | transport/tcp/rcv.go:96-130 | trimming a segment is intersecting it with the window by position, and duplicate means wholly before it |
| TcpReceiver.LastReach | transport/tcp/rcv.go:96-158 | a segment that ends the stream takes the next position to the end exactly when it follows on and fits the window |
| TcpReceiver.DrainAccepts | transport/tcp/rcv.go:368-407 | delivering and draining is one step of a receiver that only knows a next position and a set of held ones |
| TcpReceiver.Receiver.constructor | transport/tcp/rcv.go:43-57 | a new receiver is in order, at the given number, with nothing delivered, nothing stored, no FIN and no report pending |
| TcpReceiver.Receiver.AdvertisedWindow | transport/tcp/rcv.go:72-91 | the scaled window never promises more than is free; when the scale fits the largest buffer it falls short by less than one unit unless suppressed, and is not saturated |
| TcpReceiver.Receiver.AutoTuneCheck | transport/tcp/rcv.go:206-230 | tuning never shrinks the buffer, never grows it past both ceilings, and keeps its contents |
| TcpReceiver.Receiver.Deliver | transport/tcp/rcv.go:160-192 | what was delivered grows by the bytes that fit, and the window edge does not retreat |
| TcpReceiver.Receiver.DeliverHead | transport/tcp/rcv.go:386-399 | the due bytes of the first entry all fit while the buffer is open, so the entry goes |
| TcpReceiver.Receiver.DrainHead | transport/tcp/rcv.go:369-400 | one turn of the draining loop makes progress and keeps what draining will reach |
| TcpReceiver.Receiver.DeliverOOO | transport/tcp/rcv.go:368-407 | while the buffer is open, draining is complete: the branch that keeps a rest is not taken; a deferred FIN falls due exactly at its number |
| TcpReceiver.Receiver.InsertOOO | transport/tcp/rcv.go:232-306 | held positions grow by exactly the segment's; a covered one is recorded as a duplicate, any other is not |
| TcpReceiver.Receiver.AcceptNext | transport/tcp/rcv.go:141-153 | delivering in order and draining is the simple receiver's step, and when a deferred FIN falls due |
| TcpReceiver.Receiver.AcceptPiece | transport/tcp/rcv.go:141-157 | the same for a piece that is stored or delivered |
| TcpReceiver.Receiver.NoteDuplicate | transport/tcp/rcv.go:104-109 | a segment wholly received before is reported as it came |
| TcpReceiver.Receiver.HandleDiscarded | transport/tcp/rcv.go:96-139 | after the read side is shut down, by position: the next number moves to the end of an in-order segment or of the window, whichever comes first, and otherwise stays; a segment wholly before it is reported as a duplicate, any other is not |
| TcpReceiver.Receiver.HandleData | transport/tcp/rcv.go:96-158 | every reachable state stays cut from the peer's stream; exactly the bytes in the window are accepted; the window edge never retreats; when a deferred FIN falls due |
| TcpReceiver.Receiver.HeldInWindow | transport/tcp/rcv.go:114-130 | whatever is held lies strictly between the next position and the window's edge |
| TcpReceiver.Receiver.ProcessFIN | transport/tcp/conn.go:609-617 | the FIN takes one number and closes the read buffer |
| TcpReceiver.Receiver.ConsumeFINUnchecked | transport/tcp/conn_closing.go:38-43 | the unconditional step over a FIN keeps the receiver in step exactly when its next number was the number of the FIN, the test that ESTABLISHED makes |
| TcpReceiver.Receiver.ReceiveFIN | transport/tcp/conn_established.go:49-61 | a FIN is consumed exactly when all data before it is delivered and it was not consumed before, else remembered |
| TcpReceiver.Receiver.HandleEstablished | transport/tcp/conn_established.go:44-61 | data and FIN together: what is accepted, and that the peer's FIN is consumed exactly once, as due or as taken, and only after the last byte |
| TcpReceiver.Receiver.AppRead | transport/tcp/conn.go:187-201 | one pass of a read: what it returns, that the window edge does not retreat, and that the receiver stays in order and nothing delivered is lost exactly unless nothing is asked of a full buffer |
| SackReport.RangesAreEntries | transport/tcp/rcv.go:335-355 | the coalescing loop with its raw comparisons yields exactly the ranges of the visible entries, also across 2^32 |
| SackReport.Coalesce | transport/tcp/rcv.go:337-355 | the coalescing loop computes the recursive definition of its ranges |
| SackReport.RegularBlocks | transport/tcp/rcv.go:335-363 | the regular blocks are the newest exact ranges, as many as remain |
| SackReport.SackBlocks | transport/tcp/rcv.go:313-366 | a pending duplicate report comes first and once, then the newest ranges, within three or four blocks |
| SackReport.ReportedRunsAreHeld | transport/tcp/rcv.go:335-363 | every regular block is one maximal run of held positions |
| SackReport.VisibleIsAll | transport/tcp/rcv.go:342-354 | no entry is hidden exactly when no gap contains a 2^32 boundary |
| SackReport.NothingOmittedIff | transport/tcp/rcv.go:335-363 | every held run is reportable exactly when no gap contains a 2^32 boundary |
| SackReport.OmissionExample | transport/tcp/rcv.go:342-354 | a list whose second range is lost |
| SendQueue.PayloadIsSlice | transport/tcp/snd.go:204-230 | the queue's bytes are one contiguous piece of the stream |
| SendQueue.FinIsLast | transport/tcp/snd.go:266-272 | a FIN is the last entry of the queue |
| SendQueue.CountAcked | transport/tcp/snd.go:235-263 | exactly the entries ending by the acknowledged position are dropped; an RTT sample obeys Karn's rule and timestamps |
| SendQueue.RecordPieces | transport/tcp/snd.go:215-230 | a large segment is recorded as full pieces and one rest, tiling on from the queue |
| SackMark.MarkSacked | transport/tcp/snd.go:335-358 | exactly the covered entries become marked |
| SackMark.MarksCovering | transport/tcp/snd.go:345-357 | the bytes of marked entries are those that were, and those the blocks cover |
| SackMark.CoversMeans | transport/tcp/snd.go:352-353 | what the raw test computes: each comparison is right exactly when no 2^32 boundary lies between its operands |
| SackMark.CoversExact | transport/tcp/snd.go:352-353 | without a boundary, marking is containment |
| SackMark.ContainmentIff | transport/tcp/snd.go:352-353 | the raw test is containment exactly when the comparisons that decide it do not straddle a 2^32 boundary: both for an entry inside the block, at least one answering no for an entry outside |
| SackMark.CoversFailsAcrossBoundary | transport/tcp/snd.go:352-353 | an entry marked although its tail is missing, and one left although held |
| SackMark.LostHasData | transport/tcp/snd.go:379-398 | a FIN is never taken for lost |
| SackMark.CountMarked | transport/tcp/snd.go:385-391 | the counting loop counts the marked entries above |
| SackExchange.SpansCover | transport/tcp/snd.go:345-357 | blocks that stand for spans of the live range mark exactly the entries inside one of them |
| SackExchange.RegularAreNewest | transport/tcp/rcv.go:335-363 | with no boundary in the range, the regular blocks are the newest stored entries, none hidden |
| SackExchange.RegularIsUsed | transport/tcp/snd.go:337-343 | setting aside a leading duplicate report is dropping the first span when it ends by the acknowledgement |
| SackExchange.UsedIsHeld | transport/tcp/rcv.go:313-366 | every span that the sender uses of an honest report is held by the receiver |
| SackExchange.Exchange | transport/tcp/snd.go:335-358 | the blocks reported by the receiver, used by the sender: an entry is covered exactly when it lies inside a span used, and then all of it is held |
| SackExchange.GotGrows | transport/tcp/rcv.go:96-158 | what the receiver has, delivered or held, it keeps |
| SackExchange.ReportIsBlocks | transport/tcp/rcv.go:313-366 | the blocks of any report stand for spans of positions, wherever a 2^32 boundary lies |
| SackExchange.ReportBacked | transport/tcp/rcv.go:313-366 | every position of a report has been received and lies below SND.NXT |
| SackExchange.CoversLate | transport/tcp/snd.go:352-353 | a block from the past that passes the raw test for an entry of the live range does contain it |
| SackExchange.LateSound | transport/tcp/snd.go:345-357 | so a report marks only bytes that have been received, however late it comes |
| SackExchange.ExchangeAll | transport/tcp/snd.go:335-358 | the exchange for the whole queue, and that all it marks has been received |
| Congestion.RunStaysInBounds | transport/tcp/snd.go:183-199 | over any run of samples and timeouts the timeout stays within its limits and the smoothed time between the extreme samples |
| Congestion.GrownKeepsOneSegment | transport/tcp/snd.go:431-448 | growth does not shrink the window while the 32-bit sum does not wrap |
| Congestion.InflateKeepsOneSegmentIff | transport/tcp/snd.go:459-464 | inflating keeps at least one segment exactly when the sum does not wrap |
| Congestion.RecoveryWindow | transport/tcp/snd.go:475-477 | entering recovery cannot wrap |
| Congestion.GrowthBounded | transport/tcp/snd.go:431-448 | growth is at most what was acknowledged, or one |
| TcpSender.Conservation | transport/tcp/snd.go:118-263 | acknowledged bytes, queued bytes from there on and the write buffer are together exactly what was written |
| TcpSender.AllAcked | transport/tcp/snd.go:275-277 | the queue is empty exactly when everything sent is acknowledged, the FIN included |
| TcpSender.AckReading | transport/tcp/snd.go:401-410 | the code's tests of an acknowledgement number are tests of its position |
| TcpSender.Sender.constructor | transport/tcp/snd.go:63-94 | a new sender is in order, with the given segment size, a window of at least that, an empty stream and nothing on the wire |
| TcpSender.Sender.SendSegment | transport/tcp/snd.go:166-178 | one segment leaves: bytes move from the buffer to the queue and onto the wire |
| TcpSender.Sender.SendLarge | transport/tcp/snd.go:149-164 | the same for a large segment recorded in pieces |
| TcpSender.Sender.SendNext | transport/tcp/snd.go:149-178 | one turn of the sending loop sends at least a byte and stays inside the smaller window |
| TcpSender.Sender.SendPending | transport/tcp/snd.go:122-180 | terminates; never sends beyond the smaller window; stops only when nothing may be sent |
| TcpSender.Sender.RemoveAcked | transport/tcp/snd.go:235-263 | SND.UNA moves to exactly the acknowledged position |
| TcpSender.Sender.Resend | transport/tcp/snd.go:280-292 | what is resent is a piece of the stream at its own number |
| TcpSender.Sender.RetransmitFirstUnSACKed | transport/tcp/snd.go:361-375 | resends the first unmarked entry and nothing else, or nothing when all are marked |
| TcpSender.Sender.LimitedTransmit | transport/tcp/snd.go:485-509 | one new segment within the advertised window, or nothing |
| TcpSender.Sender.HandleDupACK | transport/tcp/snd.go:454-482 | recovery starts at the third duplicate and resends exactly the first unmarked entry; the window keeps one segment while the sum does not wrap |
| TcpSender.Sender.EnterRecovery | transport/tcp/snd.go:471-481 | threshold at least two segments, window three more, recovery point at SND.NXT, and the first unmarked entry resent |
| TcpSender.Sender.CongestionOnACK | transport/tcp/snd.go:419-448 | recovery ends exactly when the acknowledgement reaches its point, and a partial one resends the first unmarked entry; whatever the window was before |
| TcpSender.Sender.RecoveryOnACK | transport/tcp/snd.go:419-430 | in recovery: ended exactly at its point, one entry resent before |
| TcpSender.Sender.TakeACK | transport/tcp/snd.go:412-448 | a new acknowledgement frees what it covers, resets the counters and sets the window for its phase |
| TcpSender.Sender.HandleACK | transport/tcp/snd.go:401-451 | new, duplicate and out-of-range acknowledgements, by position, whatever the congestion window was: window, threshold, counters and recovery after each; a threshold of two segments stays once a loss was seen |
| TcpSender.Sender.NewACK | transport/tcp/snd.go:412-451 | after a new acknowledgement everything that may be sent has been |
| TcpSender.Sender.HandleRTO | transport/tcp/snd.go:295-330 | abort after too many retries; otherwise window of one segment, threshold at least two, doubled timeout, marks dropped, oldest entry resent |
| TcpSender.Sender.Collapse | transport/tcp/snd.go:309-319 | after a timeout: window of one segment, threshold at least two, doubled timeout, no recovery and no duplicates counted |
| TcpSender.Sender.ProcessSACKBlocks | transport/tcp/snd.go:335-358 | marks exactly what the regular blocks cover and notes those bytes; a leading duplicate report is set aside |
| TcpSender.Sender.TakeBlocks | transport/tcp/conn_established.go:20-27 | marking and then loss detection: what is marked afterwards, and that only resending reaches the wire |
| TcpSender.Sender.ResendIfLost | transport/tcp/snd.go:380-397 | an entry goes out again exactly when it is unmarked, not resent before and has three marked ones above it |
| TcpSender.Sender.SackLossDetection | transport/tcp/snd.go:379-398 | what goes out is exactly the segments of the lost entries, each once and in order |
| TcpSender.Sender.AppWrite | transport/tcp/conn.go:205-225 | what was written grows by the prefix that fits, and by nothing for an empty slice |
| TcpSender.Sender.GrowBuffer | transport/tcp/conn.go:212-215 | enlarging the write buffer keeps the sender in order |
| TcpSender.Sender.AppCloseWrite | transport/tcp/conn.go:229-238 | shutting down keeps the bytes not yet sent |
| TcpSender.Sender.SendFIN | transport/tcp/conn.go:276-280 | the FIN takes the number right after everything written, last in the queue |
| TcpSender.Sender.SendZeroWindowProbe | transport/tcp/conn.go:329-349 | a probe sends the next byte as ordinary data, or stops probing |
| TcpSender.Sender.UpdateWindow | transport/tcp/conn_closing.go:68-70 | the advertised window is taken over and nothing else changes |
| TcpSender.Sender.MeasureRTTM | transport/tcp/conn_closing.go:10-17 | whatever is measured from an echoed timestamp, the timeout stays within its limits |
| TcpSender.Sender.NoteWindow | transport/tcp/conn_established.go:12-28 | the window and its maximum are taken over, exactly what the blocks cover is marked, and only resending reaches the wire |
| TcpSender.Sender.AfterACK | transport/tcp/conn_established.go:30-41 | a window that opens sends all that may be sent; probing goes on exactly while the window is closed and there is need |
| TcpSender.Sender.HandleEstablishedACK | transport/tcp/conn_established.go:11-42 | window update, SACK marks and acknowledgement keep the sender in order, SND.UNA moves as the acknowledgement says, and the bytes ever marked grow by what the blocks cover |
| TcpSender.Sender.HandleClosingACK | transport/tcp/conn.go:742-749 | the acknowledgement in the states that differ only in what they take over of window and timestamp |
| Network.NextKeeps | transport/tcp/conn.go:400-605 | every step keeps the system invariant |
| Network.StreamIntegrity | transport/tcp/rcv.go:96-158 | in every state of every run, delivered is a prefix of written, no byte is given up before it is delivered, and a consumed FIN means all was delivered |
| Network.HistoryGrows | transport/tcp/rcv.go:96-158 | delivered, written, SND.UNA and RCV.NXT never go back, and nothing is delivered after the FIN |
| Network.OneFinNumber | transport/tcp/conn.go:276-280 | all FINs of a run carry the one number after the last byte written |
| Network.UncheckedFinIff | transport/tcp/conn_closing.go:38-43 | the unchecked step over a FIN segment keeps the system invariant, and delivers the whole stream, exactly when the next position is the number of that FIN |
| Network.UncheckedFinTruncates | transport/tcp/conn_closing.go:38-43 | a run in which a byte is lost and the reader sees the end of the stream |
| EndToEnd.AcceptsTakes | transport/tcp/rcv.go:96-158 | accepting positions of one stream is taking its bytes |
| EndToEnd.SendingRefines | transport/tcp/snd.go:122-180 | whatever the sender sends or resends is a sending step |
| EndToEnd.AckRefines | transport/tcp/snd.go:401-451 | processing an acknowledgement is its arrival followed by sending |
| EndToEnd.Link.constructor | transport/tcp/conn_synrcvd.go:30-44 | two fresh endpoints are the initial state of the system, and a run of it, with nothing reported |
| EndToEnd.Link.AppWrite | transport/tcp/conn.go:205-225 | a write, of nothing too, is a step of the system |
| EndToEnd.Link.AppClose | transport/tcp/conn.go:229-238 | shutting down does not change the system |
| EndToEnd.Link.AppRead | transport/tcp/conn.go:187-201 | a read does not change the system, unless nothing is asked of a full buffer, which is excluded |
| EndToEnd.Link.Transmit | transport/tcp/snd.go:122-180 | sending is a step of the system |
| EndToEnd.Link.Timeout | transport/tcp/snd.go:295-330 | so is a timeout |
| EndToEnd.Link.Probe | transport/tcp/conn.go:329-349 | so is a probe, while less than 2^31 bytes are in flight |
| EndToEnd.Link.Finish | transport/tcp/conn.go:276-280 | so is sending the FIN |
| EndToEnd.Link.Acknowledge | transport/tcp/segment.go:100-111 | an acknowledgement carries the receiver's next position |
| EndToEnd.Link.MakeReport | transport/tcp/rcv.go:313-366 | a SACK report is noted by position, its blocks stand for it, and the system does not move |
| EndToEnd.Link.SendReport | transport/tcp/segment.go:113-130 | an acknowledgement with that report is the acknowledging step |
| EndToEnd.Link.DeliverAck | transport/tcp/conn_established.go:11-42 | any acknowledgement ever sent, with any window, any SACK blocks and any congestion window, is its arrival followed by sending; whether all blocks so far came from reports is recorded |
| EndToEnd.Link.AcceptAck | transport/tcp/conn_established.go:11-42 | the sender's part of that: where it is afterwards, and the two ends still agreeing |
| EndToEnd.Link.DeliverClosingAck | transport/tcp/conn.go:742-749 | the same in CLOSE_WAIT, FIN_WAIT_1, CLOSING and LAST_ACK |
| EndToEnd.Link.DeliverWindow | transport/tcp/conn_closing.go:68-70 | a window alone, as in FIN_WAIT_2, does not move the system |
| EndToEnd.Link.GrowWriteBuffer | transport/tcp/conn.go:212-215 | nor does enlarging the write buffer |
| EndToEnd.Link.DeliverSegment | transport/tcp/conn_established.go:44-61 | any piece of any segment ever sent, with its FIN, is its arrival in the system |
| EndToEnd.Link.Accept | transport/tcp/conn_established.go:44-61 | the receiver's part of that: the bytes taken, the FIN consumed or remembered, and the two ends still agreeing |
| EndToEnd.Link.LiveRange | transport/tcp/snd.go:204-230 | the retransmission queue spans the live range, and everything the receiver holds lies in it |
| EndToEnd.Link.ReportSack | transport/tcp/snd.go:335-358 | an honest report processed: with no 2^32 boundary in the live range exactly the entries inside a reported range become marked, every byte of a newly marked entry is held by the receiver, and the system does not move |
| EndToEnd.Link.MarkedIsReceived | transport/tcp/snd.go:335-358 | in every state reached by any operations: as long as the sender has been given only blocks of reports, late, repeated or reordered, every byte of a marked entry is delivered or held |
| EndToEnd.Link.Integrity | transport/tcp/rcv.go:96-158 | after any operations in any order, delivered is a prefix of written, no byte is given up before it is delivered, and a consumed FIN means all was delivered |
| Closing.Conn.constructor | transport/tcp/conn_synrcvd.go:30-44 | two fresh endpoints make an established connection with no close request |
| Closing.Conn.TakeSegment | transport/tcp/conn_established.go:44-61 | CLOSE_WAIT exactly when the peer's FIN is consumed, which is exactly when all before it was delivered |
| Closing.Conn.CountSegment | transport/tcp/conn_established.go:63-85 | a data segment is acknowledged at once exactly when it lies beyond the next number or is the second since the last acknowledgement; at most one is ever waiting |
| Closing.Conn.HandleEstablished | transport/tcp/conn_established.go:7-86 | the whole handler: where both ends are afterwards, the next state, and exactly which segments are acknowledged at once |
| Closing.Conn.CloseWrite | transport/tcp/conn.go:229-238 | the close request is signalled once, closes the write buffer and keeps the bytes in it |
| Closing.Conn.FinalizeFIN | transport/tcp/conn.go:636-646 | the FIN is sent from the two states that may, after everything written |
| Closing.Conn.HandleClose | transport/tcp/conn.go:619-633 | the FIN goes now or waits for the buffer to drain, never both, and nothing written is lost |
| Closing.Conn.DrainForFIN | transport/tcp/conn.go:470-476 | a waiting FIN goes when the buffer is empty |
| Closing.Conn.TakeAck | transport/tcp/conn_closing.go:21-31 | our FIN counts as acknowledged exactly when everything sent is |
| Closing.Conn.TakeData | transport/tcp/conn_closing.go:33-36 | data in the closing states is accepted as before, a deferred FIN that falls due now leads to CLOSE_WAIT, and the stream's end is reached exactly when the last segment follows on and fits |
| Closing.Conn.FinGuardOnWire | transport/tcp/conn_closing.go:38-43 | the guard the FIN_WAIT handlers leave out, by position, is a test of the receiver's fields, its buffer's flag and the segment's numbers |
| Closing.Conn.TakeDataAndFIN | transport/tcp/conn_closing.go:33-43 | the receiver is in step afterwards exactly when the segment has no FIN or met that guard before; a FIN consumed before moves the next number once more |
| Closing.Conn.HandleClosing | transport/tcp/conn_closing.go:94-108 | TIME_WAIT exactly when everything, our FIN included, is acknowledged |
| Closing.Conn.HandleLastAck | transport/tcp/conn_closing.go:112-120 | when it closes, and exactly when it closes with our FIN unacknowledged |
| Closing.Conn.HandleFinWait1 | transport/tcp/conn_closing.go:21-63 | the next state, and that the receiver is still in step exactly when the segment has no FIN or met the guard before the call, also when the peer's FIN was consumed already |
| Closing.Conn.HandleFinWait2 | transport/tcp/conn_closing.go:67-90 | the same on the way to TIME_WAIT |
| Session.NewSender | transport/tcp/conn_synrcvd.go:30-44 | a sender on a buffer of its own, with the negotiated segment size less the timestamp option, ready for use |
| Session.NewReceiver | transport/tcp/handler.go:203-213 | a receiver and its window scale: the window is never saturated exactly when the initial buffer and both configured sizes fit the scale, which they do when the initial one is within the others and those are below 2^30 |
| Session.Negotiate | transport/tcp/handler.go:203-213 | our windows are always read as meant; the peer's exactly when it offered no scaling or our buffer needs a scale, and otherwise each is read too large |
| Session.SaturatedWindow | transport/tcp/rcv.go:72-91 | a receiver whose free space exceeds what its window can say |
| Session.ZeroWrite | transport/tcp/ringbuf.go:181-197 | a write of nothing to an empty buffer leaves it full |
| Session.ZeroRead | transport/tcp/ringbuf.go:120-131 | a byte delivered and acknowledged, and gone after a read of nothing |
| Session.Connect | transport/tcp/conn_synrcvd.go:30-44 | two endpoints built from their constructors are the initial state of the system |
| Session.Open | transport/tcp/conn_synrcvd.go:30-44 | a connection built from its constructors is established and in order |
| Session.ReachLastAck | transport/tcp/conn_established.go:7-86 | two bytes sent, the peer's FIN taken and our own sent: LAST_ACK, reached by the handlers |
| Session.LastAckClosesEarly | transport/tcp/conn_closing.go:112-120 | from there the handler closes on an acknowledgement of the first byte, with one byte and the FIN outstanding |
| Session.ReachFinWait1 | transport/tcp/conn_established.go:7-86 | FIN_WAIT_1 with the peer's FIN deferred behind a missing byte, reached by the handlers |
| Session.FinSteppedOverTwice | transport/tcp/conn_closing.go:67-84 | from there the peer's FIN is stepped over twice and the receiver is out of step |
| Wakeup.NextKeeps | transport/tcp/ringbuf.go:67-96 | every step of readers, writers, growing and closing keeps the wake-up invariant |
| Wakeup.NoLostWakeup | transport/tcp/ringbuf.go:120-160 | over every interleaving, a reader waiting on an open channel faces an empty open buffer and a writer a full one |
| Wakeup.CloseLeavesWriters | transport/tcp/ringbuf.go:245-251 | a writer that waits goes on waiting when the buffer is closed |
| Checksum.FourFolds | channel/tun/checksum.go:87-94 | four folds bring any 64-bit sum to 16 bits without changing its ones'-complement value |
| Checksum.AddBlock | channel/tun/checksum.go:15-32 | an unrolled block loses no end-around carry |
| Checksum.AddShort | channel/tun/checksum.go:66-75 | a 4- or 2-byte word is added without losing its carry |
| Checksum.AddBlocks | channel/tun/checksum.go:15-34 | the block loop sums whole blocks and leaves the rest |
| Checksum.AddTail | channel/tun/checksum.go:35-81 | the tail of 64, 32, 16, 8, 4, 2 and 1 bytes is summed, an odd byte as the high half of a word |
| Checksum.ChecksumNoFold | channel/tun/checksum.go:9-85 | the byte-swapped 64-bit sum stands for the plain 16-bit sum, on either byte order |
| Checksum.FastChecksum | channel/tun/checksum.go:87-94 | the folded sum is the ones'-complement value of the words |
| Checksum.SumWords | header/checksum.go:12-24 | the simple loop, on its 32-bit accumulator |
| Checksum.SimpleChecksum | header/checksum.go:12-32 | the complement of the ones'-complement sum for every buffer the accumulator can hold |
| Checksum.FastIsSimple | channel/tun/checksum.go:9-94 | the two forms are complements of each other on every IPv4-sized buffer |
| Checksum.StoredChecksumVerifies | channel/tun/checksum.go:87-94 | storing the checksum at an even offset makes the sum all ones |
| Checksum.PseudoHeaderNoFold | channel/tun/checksum.go:96-103 | the chained sums stand for the whole pseudo-header |
| Checksum.SimplePseudoHeader | header/checksum.go:37-56 | the simple form of the same |
| Ipv4.StampFields | stack/fragmentation.go:171-175 | rewriting length, flags and checksum gives a header that verifies and leaves every other byte |
| Ipv4.StampFixes | stack/fragmentation.go:171-175 | the rewriting changes nothing exactly when the fields were right |
| Fragment.FragmentFields | stack/fragmentation.go:246-269 | each fragment has its payload piece, a right length, offset and more flag, a verifying checksum and the rest of the header |
| Fragment.FragmentPacket | stack/fragmentation.go:219-273 | when a packet is passed on, refused or cut; all fragments fit the MTU and cover the payload without gap |
| Fragment.CutAll | stack/fragmentation.go:246-270 | the cutting loop |
| Reassemble.CheckClash | stack/fragmentation.go:97-108 | the scan finds a duplicate, an overlap or neither |
| Reassemble.Complete | stack/fragmentation.go:147-160 | the walk decides whether sorted fragments tile the datagram |
| Reassemble.CopyAll | stack/fragmentation.go:165-169 | the copying loop lays all fragments over the buffer |
| Reassemble.LengthIff | stack/fragmentation.go:171-175 | the length field of the result is its length exactly when header and payload fit in 16 bits |
| RoundTrip.TilingIff | stack/fragmentation.go:142-161 | sorted pieces are complete exactly when none is missing |
| RoundTrip.SortedPieces | stack/fragmentation.go:142-169 | in any order of arrival: complete exactly with all pieces, and then the copy is the payload |
| RoundTrip.FeedPiece | stack/fragmentation.go:97-131 | a fragment that arrives is a duplicate, the last one missing, or kept |
| RoundTrip.WholeIsOriginal | stack/fragmentation.go:163-181 | the assembled packet is the original exactly when its flags and offset were zero and its checksum the computed one |
| Table.FreeMeansClear | stack/fragmentation.go:97-108 | a fragment is let in exactly when it overlaps nothing |
| Table.StoreOk | stack/fragmentation.go:121-126 | fragments of a set stay disjoint and counted, also when sorted |
| Table.TilingMeans | stack/fragmentation.go:147-160 | the walk over sorted, disjoint fragments succeeds exactly when every position from its start to the end has arrived |
| Table.CompleteIff | stack/fragmentation.go:142-161 | a set is complete exactly when every byte position of the datagram has arrived |
| Table.OverlayHolds | stack/fragmentation.go:163-169 | assembly puts every byte of every fragment inside the datagram in its place |
| Table.EveryByteFromAFragment | stack/fragmentation.go:163-169 | every byte of an assembled datagram is the byte of a fragment that arrived: no filler survives |
| Table.AssemblesIff | stack/fragmentation.go:128-131 | a complete set is assembled exactly when every fragment starts within the datagram |
| Table.BeyondTheEnd | stack/fragmentation.go:147-169 | a complete set with a fragment beyond the end |
| Table.TrimmedWithin | stack/fragmentation.go:191-209 | within the threshold trimming removes nothing |
| Table.Reassembler.constructor | stack/fragmentation.go:47-52 | an empty table |
| Table.Reassembler.ReleaseSet | stack/fragmentation.go:211-217 | the byte count goes down by exactly what the set held: the clamp never fires |
| Table.Reassembler.EvictExpired | stack/fragmentation.go:183-189 | exactly the sets past their time go |
| Table.Reassembler.Oldest | stack/fragmentation.go:193-203 | the search finds an oldest set |
| Table.Reassembler.TrimMemory | stack/fragmentation.go:191-209 | terminates within the bound; whole sets go, oldest first, and no more than needed |
| Table.Reassembler.Store | stack/fragmentation.go:110-132 | header, length, fragment and count are updated, and a complete set is assembled and released |
| Table.Reassembler.Process | stack/fragmentation.go:56-140 | what is ignored, what is returned, which sets remain; the count is the sum over all sets and at most 4 MiB |
| Arrivals.AbsorbKeepsOrder | stack/fragmentation.go:56-140 | a fragment touches no other datagram's set |
| Arrivals.ArrivalStep | stack/fragmentation.go:56-140 | one arrival gives the datagram exactly when it is the last fragment missing |
| Arrivals.EveryRun | stack/fragmentation.go:56-140 | over every run with duplicates and other datagrams between, the datagram comes out exactly when its last distinct fragment arrives |
| Arrivals.ProcessRun | stack/fragmentation.go:56-140 | feeding a run to the table gives the answers and the sets of the run as defined, while nothing expires or is trimmed |
| Arrivals.RoundTrips | stack/fragmentation.go:219-273 | cutting a packet and reassembling its fragments in any order gives it back, under the exact condition on its header |
| Gso.ProductExactIff | channel/tun/offload.go:958-959 | the 16-bit product is the offset exactly while the offset fits in 16 bits |
| Gso.MaskedBits | channel/tun/offload.go:960-964 | clearing FIN and PSH keeps every other flag |
| Gso.BuildIp | channel/tun/offload.go:935-947 | the IP header of a segment: number, length, verifying checksum, the rest unchanged |
| Gso.BuildTransport | channel/tun/offload.go:953-978 | sequence number, flags, payload and a transport checksum that verifies |
| Gso.Segment | channel/tun/offload.go:929-980 | one turn of the loop produces the right segment |
| Gso.SplitJoins | channel/tun/offload.go:923-982 | the payloads written are the input payload |
| Gso.Split | channel/tun/offload.go:904-983 | every segment is right; all payload is written unless buffers run out, which is reported exactly then |
| Gro.ReachExactIff | channel/tun/offload.go:352-353 | the wrapping 16-bit reach is the true length exactly while that fits in 16 bits |
| Gro.AppendIsAdjacent | channel/tun/offload.go:336-388 | an append is never wrong: the packet starts exactly where the item's payload ends |
| Gro.PrependMeans | channel/tun/offload.go:370-386 | a prepend is adjacent and keeps all but the last part full |
| Gro.AppendMerges | channel/tun/offload.go:478-506 | after an append, cutting at the segment size recovers every part and number |
| Gro.PrependMerges | channel/tun/offload.go:470-506 | the same after a prepend |
| Gro.CountFits | channel/tun/offload.go:506-507 | the merge counter cannot wrap |
| Gro.Flow.constructor | channel/tun/offload.go:87-97 | a flow is empty and has its key |
| Gro.Flow.CoalesceAppend | channel/tun/offload.go:446-508 | exactly when an append lacks room, meets a wrong checksum on either side or succeeds, and what it then changes; PSH goes into the merged header |
| Gro.Flow.CoalescePrepend | channel/tun/offload.go:446-508 | the same for a prepend, with the buffers swapped; the merged header has no PSH |
| Gro.Flow.Try | channel/tun/offload.go:602-618 | merged exactly when the item is ready for the packet and its checksum is right; otherwise nothing changes |
| Gro.Flow.Receive | channel/tun/offload.go:533-623 | a candidate is merged exactly when some item is ready for it and its checksum is right, left alone when one is and it is not, stored when none is; conservation: every part stays, and only single packets with wrong checksums leave the table |
| Gro.GroThenGso | channel/tun/offload.go:336-508 | splitting a coalesced packet gives back each original payload at its sequence number |
| Gro.CoalesceAlike | channel/tun/offload.go:336-368 | packets that may be merged agree in every header byte that segments share |
| Gro.SegmentHeaders | channel/tun/offload.go:446-508 | each segment cut from a coalesced packet has the shared header bytes of its part; only the last may carry PSH |
| Gro.HeadersRecovered | channel/tun/offload.go:446-508 | all parts get their headers back, and the PSH flags are those of the parts exactly when the merged packet shows its item's PSH |
| Options.ParseSynOptions | header/tcp.go:225-265 | on every byte string: in bounds, terminating, and each whole option up to the end applied in turn |
| Options.ParseSegmentOptions | header/tcp.go:268-309 | the same for other segments |
| Options.EncodeSackBlocks | header/tcp.go:363-381 | as many blocks as fit, at most four, readable again |
| Options.TimestampOption | header/tcp.go:348-359 | a whole option that reads back as both timestamps |
| Options.Padded | transport/tcp/segment.go:125-128 | padding to whole words adds at most three bytes and changes no meaning |
| Options.SynAckOptions | transport/tcp/segment.go:56-79 | at most 24 bytes in whole words, saying what was negotiated |
| Options.AckOptions | transport/tcp/segment.go:113-128 | whole words, at most 40 bytes exactly unless four blocks stand beside timestamps |
| Options.SynRoundTrip | transport/tcp/segment.go:56-79 | the peer reads back MSS, scale, SACK permission and timestamps |
| Options.AckRoundTrip | transport/tcp/segment.go:113-130 | the peer reads back every block and both timestamps, and the header length fits four bits |
| Window.CalculateWindowScale | transport/tcp/conn.go:779-791 | the smallest shift that fits the buffer into 16 bits, when one of at most 14 does, and 14 otherwise |
| Window.NeverOverPromises | transport/tcp/rcv.go:72-91 | the window promises at most the free space, and falls short by less than one unit exactly below 2^16 units |
| Window.NeverSaturatedIff | transport/tcp/rcv.go:72-91 | no free space up to a limit saturates the window exactly when the limit is below 2^16 units |

## Left out

- TUN device creation, system calls, the virtio header copy and interface naming: foreign calls.
- UDP and IPv6 in segmentation offload: the same argument with easier conditions.
- Goroutines, timers and the clock: each arm of the connection's event loop is a nondeterministic step, and times are arbitrary inputs.
- Packet buffer pools and reference counts: payloads are byte sequences, so reuse of a buffer is not modelled.
- The handshake, keepalive, RST handling, the timestamp check against old segments, statistics and configuration: they would only add easy members.
- Data in both directions at once: one direction is followed end to end; the other is the same model with the roles exchanged.
- The wire encoding of TCP segments between the two endpoints: a segment is its position, its bytes and its FIN flag. Large segments that the kernel splits arrive as pieces.
- Maps keyed by flow in the offload code: the items of one flow are modelled, with all buffers.
- The SYN+ACK window value: a configured constant that does not depend on the buffer.
- The stable or unstable order of equal keys in the library sort: offsets of a set are distinct, so the sort is modelled as an insertion sort.
- TcpReceiver.Receiver.HandleData: for segments whose start is within 2^31 of the next number, and buffers below 2^31 bytes; outside that the 32-bit comparisons mean nothing.
- TcpReceiver.Receiver.HandleDiscarded: for segments whose start is within 2^31 of the next number; with the read side shut down the list is not drained, so nothing is said of the stream.
- TcpReceiver.Receiver.HandleEstablished: the receiver's part of the handler only; acknowledging is in Closing.Conn.HandleEstablished.
- TcpReceiver.Receiver.AppRead: one pass of the blocking read, which finds something or nothing; the waiting between passes is in Wakeup. After the one call that breaks the receiver nothing more is said of it.
- TcpReceiver.LastReach: for segments with data; one without moves nothing.
- TcpSender.Sender.AppWrite: one pass of the blocking write, which takes what fits; the waiting between passes is in Wakeup.
- TcpSender.Sender.HandleACK: for acknowledgements within 2^31 of SND.UNA.
- TcpSender.Sender.SendZeroWindowProbe: each probe goes beyond the window by one byte; less than 2^31 - 2^17 bytes are in flight before it, since the code's comparisons mean nothing beyond half the number space.
- TcpSender.Sender.constructor: the segment size is positive also after the timestamp option is deducted, large segments are bounded by a positive size, and the configured threshold is not zero.
- EndToEnd.Link.AppRead: one pass of the blocking read, as for the receiver; a read of nothing from a full buffer is excluded, since it breaks the receiver (TcpReceiver.Receiver.AppRead, Session.ZeroRead).
- EndToEnd.Link.AppWrite: one pass of the blocking write, as for the sender.
- EndToEnd.Link.Probe: the same bound on what is in flight as for the sender.
- EndToEnd.Link.DeliverAck: acknowledgements from half the number space ago are excluded.
- EndToEnd.Link.DeliverSegment: segments from half the number space ago are excluded, and the receiver is in ESTABLISHED; its closing states are in Closing.
- EndToEnd.Link.ReportSack: no 2^32 boundary lies in the live range, and a pending duplicate report ends within 2^31 of the acknowledgement; the report reaches the sender at once. Reports that do not are in EndToEnd.Link.MarkedIsReceived, and what happens at a boundary in SackMark.ContainmentIff and SackReport.NothingOmittedIff.
- EndToEnd.Link.MarkedIsReceived: for reports whose ranges start less than 2^31 before SND.NXT, used while no 2^32 boundary lies in the live range.
- SackMark.ContainmentIff: for entries and blocks less than 2^31 apart.
- Closing.Conn.HandleEstablished: the checks made before a segment is dispatched to its state's handler, and the delayed acknowledgement timer, are not modelled; which segments must be acknowledged at once is.
- Arrivals.ProcessRun: for runs in which no set expires, is trimmed or holds a fragment beyond the end; Table.Reassembler.Process covers those.
- Wakeup.NoLostWakeup: channels are numbered generations; that a woken goroutine is eventually scheduled is not modelled.
- Table.Reassembler.Process: when assembling runs out of bounds the outcome is reported and the table is left as it then is; what the runtime does next is not modelled.
- Gso.Split: IPv4 and TCP with the checksum field at its usual place, packets of at most 65535 bytes, and output buffers that are long enough.
- Gro.Flow.Receive: the packets of one flow, each of at least 40 and a buffer of at most 65535 bytes; others are not candidates, or have a table entry of their own.
- Gro.GroThenGso: payloads and sequence numbers; headers and flags are in Gro.HeadersRecovered.
- Gro.HeadersRecovered: windows, urgent pointers and identifications are the first packet's, and lengths and checksums are computed anew, so those are not recovered.
