# Sponge TCP in Dafny

A model of the user-space TCP "sponge" (`libsponge`): the byte stream, the stream reassembler, the
sender, the receiver, the connection that joins them, the classification of its state, and the TCP
and IPv4 wire formats, together with proofs of what the protocol promises over whole runs.

`dafny verify dfyconfig.toml` checks the project.

## How it is built

Every stateful class of the program appears twice. A value datatype (`StreamState`,
`ReassemblerState`, `ReceiverState`, `SenderState`, `ConnState`, `ParserState`, `AdapterState`) has
one function per operation, and a class (`ByteStream`, `StreamReassembler`, `TcpReceiver`,
`TcpSender`, `TcpConnection`, `NetParser`, `InternetChecksum`, `Adapter`) has the program's methods
with its loops and updates in place. Each method is proved to take `View()` to the value that the
function gives, so every theorem about the functions is a theorem about the objects.

Theorems about runs fold a step function over an arbitrary sequence of events or actions.

| file | content |
|---|---|
| `Integers`, `Segment` | fixed-width integers; headers and segments |
| `Wrapping` | `wrap`, `unwrap` and the sequence-number ring |
| `Stream`, `Reassembler` | the byte stream; the interval list, its scans, the sparse map it refines |
| `Receiver`, `Sender` | the two halves and what each of their operations keeps |
| `Transfer`, `Delivery`, `Network` | genuine segments; what a receiver makes of them; all runs of one sender, one receiver and a lossy network |
| `Edge`, `FlowControl` | a sender and the advertised right edge; all such runs |
| `Connection`, `Lifecycle` | `TCPConnection`, `TCPState`, and all runs of one connection under arbitrary segments |
| `Output` | what a connection puts on the wire, event by event, and when it stops |
| `Backoff` | the retransmission timer over all runs |
| `Duplex`, `Closing`, `DuplexFlow` | all runs of two connections over a lossy network; acknowledgement, clean close, flow control |
| `Checksum`, `Codec`, `TcpWire`, `Ipv4`, `TcpOverIp` | checksum, parser, header codecs, encapsulation |

## Main results

- **End to end** (`Network.EndToEnd`, `Duplex.FullDuplexSafety`, `Closing.NoPrematureForgettingIff`,
  `Closing.CleanCloseDelivers`): over a network that may deliver anything ever sent at any time and any
  number of times, the bytes assembled are a prefix of the bytes written and input ends only with the
  whole stream. A connection never forgets what its peer has not assembled exactly if no segment without
  ACK is taken for an acknowledgement of it, and then a clean close means that the stream arrived whole.
- **Flow control** (`FlowControl.FlowControlIff`, `DuplexFlow.DuplexFlowIff`, `DuplexFlow.InOrderFlow`):
  the sender and its window stay within the highest right edge advertised, but for one probe, exactly if
  no acknowledgement arrives whose window, counted from what is then acknowledged, ends beyond it.
- **Refinement** (`Reassembler.PushRefines`, `Reassembler.OrderIndependence`): the interval list with
  its insert and pop loops is a sparse map from index to byte.
- **Delivery** (`Delivery.ReceiveTakes`, `ReceiveAdvances`, `ReceiverOrderIndependence`): a receiver
  takes every in-window byte of a genuine segment, acknowledges the maximal run, and assembles a covered
  stream whatever the order of arrival.
- **Output** (`Sender.FillLaunches`, `Output.ArrivalOutput`, `Output.AcknowledgedIff`, `Output.TickOutput`,
  `Output.TickStopsIff`): exactly which segments each event puts on the wire, in which order and with
  which fields; exactly which arrivals are acknowledged at once; exactly which ticks stop a connection.
- **State machine** (`Lifecycle.DispatchAgreement`, `CleanShutdown`, `ForwardProgress`, `LingerSafety`,
  `Backoff.RunLaw`, `Backoff.BackoffBound`): for every run of a connection under arbitrary segments.
- **Wire format** (`TcpWire.SegmentRoundTrip`, `TcpWire.CorruptionDetected`,
  `TcpOverIp.WrappedChecksum`, `TcpOverIp.EncapsulationRoundTrip`): round trips down to the checksums,
  which are those of the standards.

## Where the code does less than it says

The model follows the code. Each lemma named with `Iff` gives the exact condition, over what can be
known before the call, under which the code does what is expected of it; the other lemmas named are
inputs or runs that show it failing.

- `unwrap` is documented to return the closest candidate (libsponge/wrapping_integers.cc:25). It does
  so exactly when the candidate next to the checkpoint is below 2^63, or when the two candidates are
  tied at distance 2^31 (`Wrapping.UnwrapNearestIff`).
- The receiver unwraps with the number of unassembled bytes as checkpoint, not the stream position.
  Its index is right exactly for the absolute sequence numbers recoverable from there, which up to 2^31
  unassembled bytes are those below 2^32 (`Transfer.IndexExactIff`).
- `ack_received` is called without a look at the ACK flag, so a segment without ACK can count as an
  acknowledgement. `Closing.UnflaggedArrivalIff` says when one makes a connection forget something,
  whatever its ackno; `Closing.UnflaggedAcknowledgesSyn` is the simplest case. A peer of the same make
  leaves the field zero, so that it names raw number 0: when that is read at all
  (`Closing.UnflaggedAckIff`), when it changes nothing (`Closing.UnflaggedIgnoredIff`), when it makes
  the sender forget something (`Closing.UnflaggedForgetsIff`, `Closing.BareArrivalIff`), and, over whole
  runs, when that loses something (`Closing.NoPrematureForgettingIff`). `Closing.UnflaggedAckRun` and
  `Closing.ForgettingRun` are runs in which it does. Prefix safety does not depend on this.
- `ack_received` also takes the window of an outdated acknowledgement. When that takes the sender or its
  window past the advertised edge is the condition of `FlowControl.FlowControlIff` and
  `DuplexFlow.DuplexFlowIff`. `FlowControl.StaleRun` is a run that does; in `DuplexFlow.OverstepRun` a
  SYN without ACK does.
- The SYN_RCVD branch does not drain the sender's queue, and some segments are not answered at all.
  `Lifecycle.QueueDrainedIff` says after which arrivals the queue is empty; `Lifecycle.StallRun` and
  `Lifecycle.StallAgainRun` are runs after which it is not.
- `ByteStream::write` accepts bytes after `end_input`, against its documentation
  (libsponge/byte_stream.hh:11-13). This is sound exactly until the FIN is sent
  (`Transfer.WriteFaithfulIff`); later bytes go out displaced (`Transfer.LateWriteDisplaced`).
- `TCPHeader::serialize` and `IPv4Header::serialize` accept values that do not fit their fields
  (`TcpWire.HeaderRoundTripIff`, `Ipv4.DatagramRoundTripIff`).
- The verdict of the header parsers is discarded by the segment and datagram parsers. For segments only
  HeaderTooShort is lost (`TcpWire.VerdictKeptIff`). For datagrams, `Ipv4.WronglyAcceptedIff` says
  exactly which are accepted although their header is not sound: among them those with a wrong header
  checksum (`Ipv4.WrongChecksumAccepted`) and those of another IP version (`Ipv4.WrongVersionAccepted`),
  although libsponge/tcp_helpers/ipv4_header.cc:16-22 lists both among the errors to check for.
- The window is truncated to 16 bits in the header (`Connection.WindowFieldIff`).
- `TCPConnection`'s destructor is documented to send a RST (libsponge/tcp_connection.hh:96) and only
  prints a warning; it is not modelled.

## What became a parameter

- The random initial sequence number: every theorem is for all 32-bit values.
- Time: `Tick(ms)` with arbitrary lengths. The timer and the timeout are 32-bit and wrap.
- Loss, duplication and reordering: the network is the set of all segments ever sent, and a step may
  deliver any of them again.
- Addresses: a pair of a 32-bit number and a port.

## Conditions the theorems carry

- The theorems about runs are about runs in which nobody writes once the FIN has been sent. The
  operations themselves, and the methods of the classes, carry no such condition.
- The end-to-end theorems hold while the stream with its SYN and FIN fits into 2^32 sequence numbers
  and the receive capacity is at most 2^31. Both are conditions on the state a run has reached.
- The refinement and the interval invariant need one end position per stream and indices below 2^64.
  Without that condition `Reassembler.PushWellFormed` and `PushMonotone` still hold, for any pushes.
- Round trips of segments and datagrams need a total length of at most 65535, the range of the length
  field, and a pseudo-header sum below 0x7FFF0000, which every IPv4 header's is.

## Model

| member | source | states |
|---|---|---|
| `Wrapping.UnwrapWraps` | libsponge/wrapping_integers.cc:31-35 | the result of `unwrap` always wraps back to `n`, for every checkpoint, 64-bit overflow included |
| `Wrapping.UnwrapNearestIff` | libsponge/wrapping_integers.cc:21-35 | `unwrap` meets its documentation (no 64-bit number wrapping to `n` is closer to the checkpoint) if and only if the candidate next to the checkpoint is below 2^63, or the two candidates are tied at 2^31; the `int64_t` sign test is what fails beyond that |
| `Wrapping.UnwrapRange` | libsponge/wrapping_integers.cc:31-35 | for every 64-bit checkpoint the result lies in the ring around it, with the part below zero moved up one ring and the part from 2^63 on moved up one ring modulo 2^64 |
| `Wrapping.UnwrapRoundTripIff` | libsponge/wrapping_integers.cc:16-35 | for every 64-bit number and checkpoint, `unwrap(wrap(v))` is `v` if and only if `v` lies in that set |
| `Wrapping.LowRing` | libsponge/wrapping_integers.cc:31-35 | up to 2^63 that set is the one ring of length 2^32 that starts half a ring below the checkpoint, or at 0 |
| `Wrapping.LowUnwrap` | libsponge/wrapping_integers.cc:31-35 | for a checkpoint up to 2^31, `unwrap` is the 32-bit difference from the initial sequence number |
| `Wrapping.UnwrapStaleIff` | libsponge/wrapping_integers.cc:31-35 | for every 64-bit checkpoint, a number up to one ring below it is recovered or becomes one above it, never another one below it, if and only if the move up by one ring does not pass 2^64 |
| `Wrapping.OffsetWraps` | libsponge/wrapping_integers.hh:41-47 | the signed difference is within half a ring and leads from `b` to `a` |
| `Stream.StreamState.PopHolds` | libsponge/byte_stream.cc:22-42 | first in, first out: what is peeked or popped is the next unread part of the whole written history, as long as was asked for or is there |
| `Stream.StreamState.WriteHolds` | libsponge/byte_stream.cc:14-19 | a write extends the history by exactly the bytes that fit and keeps the capacity |
| `Stream.StreamState.WriteAppends` | libsponge/byte_stream.cc:14-19 | a write appends the longest prefix of the data that fits, and changes nothing else |
| `Stream.ByteStream.constructor` | libsponge/byte_stream.cc:12 | an empty open stream |
| `Stream.ByteStream.Write` | libsponge/byte_stream.cc:14-19 | the object realises the value-level write and returns the number of bytes accepted |
| `Stream.ByteStream.PopOutput` | libsponge/byte_stream.cc:28-32 | the object realises the value-level pop |
| `Stream.ByteStream.Read` | libsponge/byte_stream.cc:37-42 | returns what a peek shows and then pops it |
| `Stream.ByteStream.EndInput` | libsponge/byte_stream.cc:44 | only the end flag changes |
| `Reassembler.InsertSpec` | libsponge/stream_reassembler.cc:55-77 | on a sorted disjoint list the insert scan fills exactly the holes: at every index a byte already held wins, otherwise the offered byte is taken; the list stays sorted and disjoint |
| `Reassembler.PopSpec` | libsponge/stream_reassembler.cc:79-94 | the pop scan takes the maximal contiguous run from the given index and leaves every later byte |
| `Reassembler.PushRefines` | libsponge/stream_reassembler.cc:20-94 | `push_substring` refines a sparse map from index to byte: the map takes every in-window byte it lacks, the output grows by exactly the maximal contiguous run, and input ends exactly at the end position |
| `Reassembler.PushKeeps` | libsponge/stream_reassembler.cc:20-45 | every admissible push keeps the interval invariant: non-empty, sorted, disjoint, strictly beyond the assembled bytes, inside the window, total length counted |
| `Reassembler.ReadKeeps` | libsponge/stream_reassembler.cc:25-27 | reading from the output keeps the interval invariant |
| `Reassembler.RunFits` | libsponge/stream_reassembler.cc:37-40 | the popped run always fits, so the write to the output never truncates |
| `Reassembler.WithinCapacity` | libsponge/stream_reassembler.cc:25-40 | assembled but unread bytes plus unassembled bytes never exceed the capacity |
| `Reassembler.InOrderPush` | libsponge/stream_reassembler.cc:33-40 | with nothing pending, the next bytes of the stream that fit go straight to the output |
| `Reassembler.PushWellFormed` | libsponge/stream_reassembler.cc:20-45 | any push whatever, with any index and contradictory ends, leaves a list that ends in its sentinel and a right byte count |
| `Reassembler.PushMonotone` | libsponge/stream_reassembler.cc:20-45 | no push takes anything back from the output stream |
| `Reassembler.PushSlice` | libsponge/stream_reassembler.cc:20-45 | pushing a slice of one stream keeps everything held and assembled equal to that stream and forgets nothing |
| `Reassembler.OrderIndependence` | libsponge/stream_reassembler.cc:20-94 | slices of a stream no longer than the capacity, in any order, overlapping, repeated, with reads between, that cover it and include its end, leave exactly that stream, no unassembled bytes, and input ended |
| `Reassembler.PushHasIff` | libsponge/stream_reassembler.cc:20-45 | after an admissible push the reassembler has exactly the bytes it had and those of the push that lie in the window |
| `Reassembler.Turn` | libsponge/stream_reassembler.cc:59-75 | one turn of the insert loop keeps the loop invariant: what is done plus what the rest of the scan will do is the whole insertion |
| `Reassembler.StreamReassembler.constructor` | libsponge/stream_reassembler.cc:12-15 | a list holding only the sentinel |
| `Reassembler.StreamReassembler.PushUnassembled` | libsponge/stream_reassembler.cc:55-77 | the loop that inserts into the list while scanning it yields the specified insertion and counts the bytes it added |
| `Reassembler.StreamReassembler.PopUnassembled` | libsponge/stream_reassembler.cc:79-94 | the loop that erases while scanning returns the run and leaves the rest |
| `Reassembler.StreamReassembler.AcceptPart` | libsponge/stream_reassembler.cc:33-40 | cuts the push to the window, inserts, pops and writes |
| `Reassembler.StreamReassembler.PushSubstring` | libsponge/stream_reassembler.cc:20-45 | the object realises the push about which the refinement is proved, early return included |
| `Receiver.ReceiveMonotone` | libsponge/tcp_receiver.cc:13-27 | any segment at all leaves the receiver well formed; SYN, its initial sequence number, the assembled bytes and the end of input are never taken back |
| `Receiver.WindowAgreement` | libsponge/tcp_receiver.cc:29-38 | absolute ackno plus window size is bytes read plus capacity plus one (two at the end), which is where the reassembler stops accepting |
| `Receiver.EdgeNeverRetreats` | libsponge/tcp_receiver.cc:29-38 | neither an arrival nor a read moves the advertised right edge back |
| `Receiver.TcpReceiver.constructor` | libsponge/tcp_receiver.hh:30-31 | a receiver that has seen nothing |
| `Receiver.TcpReceiver.SegmentReceived` | libsponge/tcp_receiver.cc:13-27 | the object realises the value-level receipt, with the checkpoint and the 64-bit underflow of the index |
| `Receiver.TcpReceiver.Ackno` | libsponge/tcp_receiver.cc:29-36 | no ackno before a SYN, then the wrapped number of the next wanted byte, counting SYN and FIN |
| `Receiver.TcpReceiver.WindowSize` | libsponge/tcp_receiver.cc:38 | once a SYN was seen, the window added to the absolute ackno is the first number after bytes read plus capacity, counting SYN and FIN |
| `Sender.EmitKeeps` | libsponge/tcp_sender.cc:27-61 | one turn of the loop keeps the tiling, extends without undoing, respects the payload limit and the window |
| `Sender.FillKeeps` | libsponge/tcp_sender.cc:23-66 | `fill_window` ends; flights still tile the unacknowledged range; in flight is within max(window, 1), or one more for a single segment with SYN and FIN; on return the window is full, or the buffer is empty with the FIN sent if input ended |
| `Sender.FillPayloads` | libsponge/tcp_sender.cc:37-43 | no queued payload exceeds 1000 bytes |
| `Sender.FillSends` | libsponge/tcp_sender.cc:23-66 | once the SYN is out, `fill_window` advances `next_seqno` by exactly the lesser of what is available, the FIN included, and the room in the window |
| `Sender.FillLaunches` | libsponge/tcp_sender.cc:26-65 | segment for segment, what `fill_window` queues is what it newly tracks; the sequence numbers continue without gap or overlap, the payloads are, one after the other, the bytes taken from the stream, and all but the last are full |
| `Sender.AckLaunches` | libsponge/tcp_sender.cc:70-95 | the same across `ack_received`: afterwards the flights are those not acknowledged, followed by those launched, and exactly the latter were queued; an ackno beyond `next_seqno` launches nothing |
| `Sender.AcknowledgeSuffix` | libsponge/tcp_sender.cc:77-88 | the flights that an acknowledgement leaves are a suffix of those there were |
| `Sender.AcknowledgeKeeps` | libsponge/tcp_sender.cc:77-88 | an acknowledgement removes a prefix of the tiling, up to the acknowledged number and not past it, and restarts the timer exactly if it removed something |
| `Sender.AckKeeps` | libsponge/tcp_sender.cc:70-95 | any ackno and window keep the invariant; beyond `next_seqno` nothing changes, otherwise the first unacknowledged number advances no further than the ackno says |
| `Sender.AckPassesIff` | libsponge/tcp_sender.cc:70-95 | an acknowledgement moves the first unacknowledged number past a limit if and only if it is not beyond `next_seqno` and some flight ends between the limit and it |
| `Sender.AckQueuesIff` | libsponge/tcp_sender.cc:70-95 | an acknowledgement queues something if and only if it is not beyond `next_seqno`, what it leaves in flight is less than max(window, 1), and the SYN, bytes, or a FIN are still to be sent |
| `Sender.AckSends` | libsponge/tcp_sender.cc:70-95 | where exactly any acknowledgement, current or outdated, takes `next_seqno`: as far as there is something to send, up to max(window, 1) counted from what is then acknowledged |
| `Sender.TickKeeps` | libsponge/tcp_sender.cc:98-115 | a tick of any length keeps the invariant, what is in flight, and adds at most one retransmission |
| `Sender.EmptyAtNext` | libsponge/tcp_sender.cc:117-121 | an empty segment occupies no sequence number and its number unwraps to `next_seqno` |
| `Sender.TurnIsEmit` | libsponge/tcp_sender.cc:27-64 | making and then tracking a segment, as the loop does in place, is one value-level emission; making an empty segment changes nothing |
| `Sender.TcpSender.constructor` | libsponge/tcp_sender.cc:18-21 | a sender that has sent nothing, with a window of one |
| `Sender.TcpSender.MakeSegment` | libsponge/tcp_sender.cc:27-43 | builds the next segment and updates the SYN and FIN flags and the stream |
| `Sender.TcpSender.Track` | libsponge/tcp_sender.cc:49-61 | queues and records the segment, and starts the timer if nothing was in flight |
| `Sender.TcpSender.FillWindow` | libsponge/tcp_sender.cc:23-66 | the loop with its two exits realises the recursive specification |
| `Sender.TcpSender.AckReceived` | libsponge/tcp_sender.cc:70-95 | the object realises the specified acknowledgement |
| `Sender.TcpSender.DropAcknowledged` | libsponge/tcp_sender.cc:77-88 | the erasing loop realises the specified removal |
| `Sender.TcpSender.Tick` | libsponge/tcp_sender.cc:98-115 | the object realises the specified tick, with 32-bit timer fields |
| `Sender.TcpSender.SendEmptySegment` | libsponge/tcp_sender.cc:117-121 | queues an empty segment with the next sequence number |
| `Transfer.EmitGenuine` | libsponge/tcp_sender.cc:27-61 | a new segment carries the slice of the written history that belongs to its sequence numbers, SYN first and FIN only at the end |
| `Transfer.FillFaithful` | libsponge/tcp_sender.cc:23-66 | everything in flight or queued stays a genuine slice of the written history while the window is filled |
| `Transfer.AckFaithful` | libsponge/tcp_sender.cc:70-95 | the same across any acknowledgement |
| `Transfer.TickFaithful` | libsponge/tcp_sender.cc:98-115 | the same across retransmission |
| `Transfer.RetransmitsOldest` | libsponge/tcp_sender.cc:102-110 | a timeout queues exactly one segment, the one that carries the stream from the first unacknowledged number on |
| `Transfer.WriteFaithfulIff` | libsponge/byte_stream.cc:14-19 | a write keeps the sender faithful to the history if and only if the FIN has not been sent, or nothing fits |
| `Transfer.LateWriteDisplaced` | libsponge/tcp_sender.cc:37-41 | bytes written after the FIN go out at a stream index one beyond the one they have in the history |
| `Transfer.IndexExactIff` | libsponge/tcp_receiver.cc:25-26 | for every 64-bit count of unassembled bytes, the stream index computed with that count as checkpoint is right if and only if the absolute sequence number is recoverable from it; up to 2^31 unassembled bytes, if and only if it is below 2^32 |
| `Transfer.ReceiveGenuine` | libsponge/tcp_receiver.cc:13-27 | a genuine segment keeps the receiver equal to the sender's history, and its ackno and end of input only advance |
| `Transfer.ReadsOn` | libsponge/byte_stream.cc:37-42 | what is read next continues what was read before |
| `Delivery.ReceiveTakes` | libsponge/tcp_receiver.cc:13-27 | after a genuine segment the receiver has, byte for byte, exactly what it had and what the segment brings inside its window |
| `Delivery.ReceiveAdvances` | libsponge/tcp_receiver.cc:13-36 | the acknowledgement number advances exactly to the first byte that the receiver neither had nor was brought, and past the FIN once nothing is missing before it |
| `Delivery.ReceiverOrderIndependence` | libsponge/tcp_receiver.cc:13-36 | genuine segments that cover what is missing of an ended stream no longer than the capacity, in any order, repeated, overlapping, with reads between, leave it assembled, ended and acknowledged, with nothing unassembled |
| `Delivery.FreshOrderIndependence` | libsponge/tcp_receiver.cc:13-36 | from a fresh receiver: the SYN first, and then the rest in any order |
| `Network.StepInv` | libsponge/tcp_sender.cc:23-121 | every step of sender, receiver and network keeps the invariant that links the two ends |
| `Network.EndToEnd` | libsponge/tcp_receiver.cc:13-36 | for every run over a network that loses, duplicates and reorders: the assembled bytes are a prefix of the written ones, input ends only with the whole ended stream, the first unacknowledged number is at most the receiver's ackno and that at most `next_seqno`, and the receive buffer stays within capacity |
| `Network.RunEdge` | libsponge/tcp_receiver.cc:29-38 | in no run does the right edge of the advertised window retreat |
| `FlowControl.AckKeepsEdgeIff` | libsponge/tcp_sender.cc:70-95 | an acknowledgement that arrives with the window it was reported with keeps the sender within the highest advertised edge if and only if it is not both older than what is acknowledged and, counted from there, beyond that edge |
| `Edge.AckKeepsExactly` | libsponge/tcp_sender.cc:70-95 | any acknowledgement keeps the sender within an edge if and only if it is beyond `next_seqno`, or its window, counted from what is then acknowledged, ends by that edge |
| `Edge.AckExceedsIff` | libsponge/tcp_sender.cc:70-95 | any acknowledgement takes `next_seqno` more than one number past an edge if and only if it is not beyond `next_seqno`, there is that much to send, and its window, counted from what is then acknowledged, reaches that far |
| `FlowControl.FlowControlIff` | libsponge/tcp_sender.cc:23-95 | for every run in which acknowledgements arrive with their own windows: the sender never passes the highest advertised right edge by more than one probe, and its window never does, if and only if no such overreaching acknowledgement arrives; the edge stays within the receiver's window |
| `FlowControl.StaleRun` | libsponge/tcp_sender.cc:70-95 | the counterexample as a run: a first acknowledgement that arrives again after a later one takes the sender two numbers past the edge of a receiver of capacity two |
| `DuplexFlow.ArrivalKeepsIff` | libsponge/tcp_connection.cc:23-125 | any segment that arrives at a connection in any state keeps it within an edge if and only if it is not read by `ack_received`, or its ackno and window keep the sender within |
| `DuplexFlow.DuplexFlowIff` | libsponge/tcp_connection.cc:23-206 | for every run of two connections over the network: one side and its window stay within the highest right edge that the other has advertised, but for one probe, if and only if no arrival oversteps; that edge is always inside the other side's window |
| `DuplexFlow.ArrivalOverstepsIff` | libsponge/tcp_connection.cc:177-188 | which segments of the other side overstep: with ACK, the outdated ones whose window, counted from what is acknowledged, ends beyond the edge; without, those read as an acknowledgement of raw 0 beyond it |
| `DuplexFlow.InOrderFlow` | libsponge/tcp_connection.cc:23-206 | for every run in range in which what is read carries ACK and arrives in order, flow control holds; ackno and window need no pairing, because they travel in one segment |
| `DuplexFlow.OverstepRun` | libsponge/tcp_connection.cc:64-70 | a run of two connections in which a SYN that arrives twice moves the window past the edge |
| `Connection.WindowFieldIff` | libsponge/tcp_connection.cc:183-187 | the 16-bit window field carries every window exactly if and only if the capacity is at most 65535 |
| `Connection.StampAdvertises` | libsponge/tcp_connection.cc:183-187 | from any stamped segment the peer reads back the right edge of our window, wherever its checkpoint is within half a ring |
| `Connection.TcpConnection.constructor` | libsponge/tcp_connection.hh:90 | an active, lingering connection with fresh halves |
| `Connection.TcpConnection.StampSegment` | libsponge/tcp_connection.cc:183-187 | sets ACK, ackno and window once a SYN has been seen |
| `Connection.ForwardFlushes` | libsponge/tcp_connection.cc:179-188 | moving one stamped segment and then the rest is moving the whole queue, in order |
| `Connection.TcpConnection.ForwardOne` | libsponge/tcp_connection.cc:180-187 | the oldest queued segment leaves the one queue and enters the other, stamped |
| `Connection.TcpConnection.Flush` | libsponge/tcp_connection.cc:178-188 | the loop moves the whole queue over in order, each segment stamped, and leaves the sender's queue empty |
| `Connection.TcpConnection.SendSegments` | libsponge/tcp_connection.cc:177-196 | the object realises the specified sending, linger and deactivation rule |
| `Connection.TcpConnection.Connect` | libsponge/tcp_connection.cc:159-163 | fill the window and send |
| `Connection.TcpConnection.Write` | libsponge/tcp_connection.cc:129-136 | accepts what fits, at any time, and returns its length; the empty write does nothing |
| `Connection.TcpConnection.EndInputStream` | libsponge/tcp_connection.cc:152-157 | ends the outbound stream, fills and sends |
| `Connection.TcpConnection.ResetConnection` | libsponge/tcp_connection.cc:198-206 | both streams in error, inactive, a RST queued |
| `Connection.TcpConnection.Tick` | libsponge/tcp_connection.cc:139-150 | the object realises the specified tick, reset included |
| `Connection.TcpConnection.Classify` | libsponge/tcp_connection.cc:37-119 | which branch the conditions of `segment_received` select, in their order |
| `Connection.TcpConnection.AckAndReceive` | libsponge/tcp_connection.cc:67-68 | acknowledgement first, receipt second, without a look at the ACK flag |
| `Connection.TcpConnection.Reply` | libsponge/tcp_connection.cc:51-52 | an empty segment, then sending |
| `Connection.TcpConnection.HandleOpening` | libsponge/tcp_connection.cc:37-70 | the branches before establishment realise the dispatch |
| `Connection.TcpConnection.HandleOpen` | libsponge/tcp_connection.cc:72-124 | the other branches realise the dispatch |
| `Connection.TcpConnection.Abort` | libsponge/tcp_connection.cc:30-35 | what RST does |
| `Connection.TcpConnection.SegmentReceived` | libsponge/tcp_connection.cc:23-125 | the object realises the specified arrival |
| `Lifecycle.StepInv` | libsponge/tcp_connection.cc:23-206 | every event, with any segment at all, keeps the connection invariant |
| `Lifecycle.DispatchAgreement` | libsponge/tcp_helpers/tcp_state.cc:76-110 | in every reachable active state the branches for LISTEN, SYN_SENT, SYN_RCVD, FIN_WAIT_1, FIN_WAIT_2 and TIME_WAIT are taken exactly when `TCPState` names that state, and the other two exactly in what is left |
| `Lifecycle.CleanShutdown` | libsponge/tcp_connection.cc:190-195 | a reachable inactive connection is CLOSED or RESET; without error inbound has ended, the FIN is sent, `next_seqno` is bytes written plus two, and nothing is in flight |
| `Lifecycle.HandshakeSafety` | libsponge/tcp_connection.cc:37-81 | before the peer's SYN is recorded nothing of ours counts as acknowledged |
| `Lifecycle.NothingHeldBack` | libsponge/tcp_connection.cc:23-163 | in every reachable state the window is full, or all that was written, and the FIN if input has ended, has been put into segments |
| `Lifecycle.ResetSpreads` | libsponge/tcp_connection.cc:198-206 | giving up leaves the connection in RESET and sends one segment, which puts any active connection it reaches into RESET |
| `Lifecycle.QueueDrainedIff` | libsponge/tcp_connection.cc:23-125 | for every connection and segment: after an arrival the sender's queue is empty if and only if the branch taken sends, or the queue was empty and the segment is not, in SYN_RCVD, an ackno up to `next_seqno` that leaves room in the window while bytes or a FIN wait |
| `Lifecycle.StallRun` | libsponge/tcp_connection.cc:62-70 | the counterexample as a run: a SYN, a written byte and the acknowledgement of our SYN leave a segment in the queue |
| `Lifecycle.StallAgainRun` | libsponge/tcp_connection.cc:62-70 | a second run: what waits in the queue keeps waiting when the same segment arrives again, although it makes room for nothing more |
| `Lifecycle.ForwardProgress` | libsponge/tcp_helpers/tcp_state.cc:82-110 | over every run the sender summary only moves CLOSED, SYN_SENT, SYN_ACKED, FIN_SENT, FIN_ACKED and the receiver summary LISTEN, SYN_RECV, FIN_RECV, errors last, and an inactive connection stays inactive |
| `Lifecycle.ClockIsQuietTime` | libsponge/tcp_connection.cc:26 | over every run the clock of an active connection is the sum of the ticks since the last arrival |
| `Lifecycle.LingerSafety` | libsponge/tcp_connection.cc:189-195 | lingering is only ever given up, and only when inbound ended before outbound; a clean stop that still lingers comes after at least ten timeouts of silence |
| `Backoff.StepSteady` | libsponge/tcp_connection.cc:23-163 | no event but a tick touches the timer, unless what is oldest in flight is new, and then it restarts it |
| `Backoff.TickLaw` | libsponge/tcp_sender.cc:98-115 | a tick of any length keeps the timer law, in 32-bit arithmetic |
| `Backoff.RunLaw` | libsponge/tcp_sender.cc:98-115 | over every run, while data is in flight, the timeout is the initial one doubled once per timeout at nonzero window since the timer restarted, and each timeout has been waited for |
| `Backoff.BackoffBound` | libsponge/tcp_connection.cc:139-150 | every active state has at most eight consecutive retransmissions; a tick that gives up comes at least 511 initial timeouts after the restart if no zero-window probe was among them, and at least nine in any case |
| `Output.SendLaw` | libsponge/tcp_connection.cc:177-196 | sending moves the whole queue out, in order, each segment unchanged but for the acknowledgement fields, which are the current ones once a SYN was seen; it gives up lingering exactly if only the peer's stream is over, and stops exactly if both are over, nothing is in flight, and it need not linger any more |
| `Output.WriteOutput` | libsponge/tcp_connection.cc:129-136 | a write takes as many bytes as fit and puts on the wire what waited and what `fill_window` launches |
| `Output.EndInputOutput` | libsponge/tcp_connection.cc:152-157 | ending the input puts on the wire what waited and what `fill_window` launches |
| `Output.ArrivalOutput` | libsponge/tcp_connection.cc:23-125 | all that an arrival puts on the wire in any usable state: what waited, what the acknowledgement launched, an empty segment if called for, what filling the window launched, in this order; or nothing, in the branches that do not send |
| `Output.ArrivalEmpties` | libsponge/tcp_connection.cc:23-125 | in any usable state, an arrival adds one empty segment to the output exactly if it is a SYN in SYN_SENT, occupies sequence space in ESTAB, is a FIN in FIN_WAIT_1 or TIME_WAIT, or comes in FIN_WAIT_2; besides it only those that already waited go out, if the branch sends |
| `Output.ArrivalAcknowledged` | libsponge/tcp_connection.cc:23-125 | that segment is at `next_seqno` and acknowledges, ACK set, all that the receiver then has, with its window |
| `Output.ReachableQueue` | libsponge/tcp_connection.cc:177-188 | over every run, no acknowledgement ever waits in the sender's queue |
| `Output.AcknowledgedIff` | libsponge/tcp_connection.cc:23-125 | in every reachable active state, an arrival without RST is acknowledged at once, by exactly one empty segment, if and only if state and flags call for it |
| `Output.TickOutput` | libsponge/tcp_connection.cc:139-150 | all that a tick does: a RST and both errors after more than eight tries; otherwise what waited goes out, followed by the oldest flight exactly if the timer has run out on it, with the timer, the timeout, the count and the flags afterwards |
| `Output.TickRetransmits` | libsponge/tcp_connection.cc:143-148 | a timeout that is not given up on puts the stream from the first unacknowledged number on the wire, last, with the current acknowledgement fields, and leaves the queue empty |
| `Output.TickStopsIff` | libsponge/tcp_connection.cc:139-196 | a tick stops a connection without error if and only if both streams are over, nothing is in flight, and it does not linger or the quiet time has reached ten timeouts |
| `Duplex.StepContinues` | libsponge/tcp_connection.cc:23-206 | whatever happens to a connection, all it holds, queues or sends stays a genuine slice of what its application wrote |
| `Duplex.StepTracks` | libsponge/tcp_connection.cc:23-150 | whatever happens, a connection that is handed genuine segments assembles only the peer's stream, and its reads continue it |
| `Duplex.FullDuplexSafety` | libsponge/tcp_connection.cc:23-206 | for every run of two connections over a network that loses, duplicates and reorders: each side assembles a prefix of what the other wrote, and its input ends only when all of it is there |
| `Closing.StepSpeaks` | libsponge/tcp_connection.cc:177-188 | every new outgoing segment acknowledges exactly what the receiver then has, or carries no acknowledgement |
| `Closing.ArrivalBase` | libsponge/tcp_connection.cc:23-125 | an arrival moves the first unacknowledged number exactly as `ack_received` does in the branches that call it, and not at all in the others |
| `Closing.StepBase` | libsponge/tcp_connection.cc:23-206 | no other event moves it |
| `Closing.UnflaggedAckIff` | libsponge/tcp_connection.cc:64-68 | an ackno field of zero is taken for an acknowledgement, flagged or not, if and only if the raw `next_seqno` is at most 2^31 and raw 0 has been used; it then acknowledges the number of raw 0 |
| `Closing.UnflaggedIgnoredIff` | libsponge/tcp_sender.cc:70-95 | such a field changes nothing at all if and only if it is not so taken, or window, count and flights already agree with it and nothing can be sent |
| `Closing.UnflaggedForgetsIff` | libsponge/tcp_sender.cc:70-95 | such a field makes the sender forget past a limit if and only if it is so taken and a flight ends between the limit and the number of raw 0 |
| `Closing.UnflaggedArrivalIff` | libsponge/tcp_connection.cc:23-125 | a segment that arrives at a connection in any state, with or without ACK and with any ackno, makes it forget past a limit if and only if its branch calls `ack_received`, the ackno is not beyond `next_seqno`, and a flight ends between the limit and it |
| `Closing.BareArrivalIff` | libsponge/tcp_connection.cc:23-125 | for the segments without ACK that a peer of the same make sends, the number is that of raw 0 |
| `Closing.UnflaggedAcknowledgesSyn` | libsponge/tcp_connection.cc:64-70 | for every initial sequence number, in SYN_RCVD a segment without ACK that names the number after our SYN acknowledges it |
| `Closing.UnflaggedAckRun` | libsponge/tcp_connection.cc:64-70 | the counterexample as a run: a SYN and the same SYN again make our SYN count as acknowledged |
| `Closing.FlaggedAckSound` | libsponge/tcp_sender.cc:70-75 | however stale, a segment with ACK never acknowledges more than the peer has assembled |
| `Closing.ArrivalForgetsIff` | libsponge/tcp_connection.cc:23-125 | an arrival makes a connection forget what the peer has not assembled if and only if it carries no ACK, is read, and a flight between the two ends by the number of raw 0 |
| `Closing.NoPrematureForgettingIff` | libsponge/tcp_connection.cc:23-206 | for every run of two connections over the network, the stream in range: at no point has one side forgotten what the other has not assembled, if and only if no such segment arrives |
| `Closing.ForgettingRun` | libsponge/tcp_connection.cc:64-70 | the counterexample for two connections: a SYN that arrives twice |
| `Closing.SparedRun` | libsponge/tcp_connection.cc:177-188 | no such segment arrives in any run whose raw numbers do not reach zero again, or whose other side flags all it sends with ACK or RST |
| `Closing.CleanCloseDelivers` | libsponge/tcp_connection.cc:177-196 | for every run in which no such segment arrives: a side that stopped cleanly has had its stream delivered whole, and has the other's whole stream if that is in range |
| `Checksum.InternetChecksum.Add` | libsponge/util/util.cc:89-98 | the loop adds big-endian words modulo 2^32 and remembers an odd byte |
| `Checksum.InternetChecksum.Value` | libsponge/util/util.cc:100-108 | folding halves until they fit gives the complement of the sum modulo 65535, zero only for zero |
| `Checksum.ChecksumOf` | libsponge/tcp_helpers/tcp_segment.cc:13-15 | one object used for one piece of data |
| `Checksum.WordSumConcat` | libsponge/util/util.cc:89-98 | adding data in pieces, odd lengths included, equals adding the concatenation |
| `Checksum.ComplementVerifies` | libsponge/util/util.cc:100-108 | a sum that includes its own complement folds to all ones |
| `Checksum.ChecksumVerifies` | libsponge/util/util.cc:89-108 | a checksum computed in two pieces and filled in makes the whole verify, with the 32-bit sum kept from wrapping by the length limits |
| `Checksum.SingleByteDetected` | libsponge/util/util.cc:89-108 | a change to any one byte of data that verifies makes it fail to verify |
| `Codec.NetParser.CheckSize` | libsponge/util/parser.cc:20-24 | too little data sets the sticky error |
| `Codec.NetParser.ParseInt` | libsponge/util/parser.cc:26-43 | the loop returns the big-endian value of the next bytes and drops them, or zero and nothing after an error |
| `Codec.NetParser.RemovePrefix` | libsponge/util/parser.cc:45-51 | drops the prefix, or nothing after an error |
| `Codec.UnparseInt` | libsponge/util/parser.cc:53-60 | the loop appends the low bytes in network order |
| `Codec.BytesRoundTrip` | libsponge/util/parser.cc:26-60 | parsing undoes unparsing for every value that fits |
| `Codec.TakeField` | libsponge/util/parser.cc:26-60 | a field in front of anything is read back, and only that is consumed |
| `TcpWire.FieldsRoundTrip` | libsponge/tcp_helpers/tcp_header.cc:17-78 | every header field comes back, whatever follows, but for a data offset cut to four bits |
| `TcpWire.HeaderRoundTripIff` | libsponge/tcp_helpers/tcp_header.cc:17-78 | a header that serializes parses back to itself, with the payload left over, if and only if its data offset is at most 15 |
| `TcpWire.HeaderLayout` | libsponge/tcp_helpers/tcp_header.cc:51-78 | every field of a serialized header is at the offset that section 3.1 of RFC 793 gives it, big-endian, with zeros up to the advertised size |
| `TcpWire.ReadHeader` | libsponge/tcp_helpers/tcp_header.cc:17-48 | the field-by-field parse on the parser realises the specified one, verdict and leftover included |
| `TcpWire.WriteHeader` | libsponge/tcp_helpers/tcp_header.cc:51-78 | appending field by field and resizing realises the specified layout; a data offset below five fails |
| `TcpWire.ReadSegment` | libsponge/tcp_helpers/tcp_segment.cc:12-23 | the object-level parse realises the specified one |
| `TcpWire.WriteSegment` | libsponge/tcp_helpers/tcp_segment.cc:30-45 | the object-level serialization realises the specified one |
| `TcpWire.SegmentVerifies` | libsponge/tcp_helpers/tcp_segment.cc:12-45 | the receiving side's sum over a serialized segment folds to zero |
| `TcpWire.SegmentChecksumIs` | libsponge/tcp_helpers/tcp_segment.cc:30-45 | the checksum of a segment is the Internet checksum of what the pseudo-header adds up to and of the segment with a zero checksum field |
| `TcpWire.SegmentRoundTrip` | libsponge/tcp_helpers/tcp_segment.cc:12-45 | for data offsets 5 to 15 and at most 65535 bytes a serialized segment parses to itself, checksum filled in, without error |
| `TcpWire.CorruptionDetected` | libsponge/tcp_helpers/tcp_segment.cc:13-17 | a segment that parses is refused with BadChecksum after a change to any one of its bytes |
| `TcpWire.VerdictKeptIff` | libsponge/tcp_helpers/tcp_segment.cc:19-22 | the header's verdict survives into the segment's if and only if the data offset is at least five; HeaderTooShort is lost |
| `Ipv4.ReadHeader` | libsponge/tcp_helpers/ipv4_header.cc:23-75 | the field-by-field parse realises the specified one; a buffer under 20 bytes leaves the old header |
| `Ipv4.CheckHeader` | libsponge/tcp_helpers/ipv4_header.cc:49-74 | the checks after the fields, in their order, and the checksum over the header bytes |
| `Ipv4.WriteHeader` | libsponge/tcp_helpers/ipv4_header.cc:78-110 | appending field by field and resizing realises the specified layout; a wrong version or short header fails |
| `Ipv4.ReadDatagram` | libsponge/tcp_helpers/ipv4_datagram.cc:11-21 | the object-level parse realises the specified one |
| `Ipv4.WriteDatagram` | libsponge/tcp_helpers/ipv4_datagram.cc:23-41 | the object-level serialization realises the specified one; a wrong payload length fails |
| `Ipv4.FieldsRoundTrip` | libsponge/tcp_helpers/ipv4_header.cc:23-110 | every header field comes back, whatever follows |
| `Ipv4.HeaderLayout` | libsponge/tcp_helpers/ipv4_header.cc:78-110 | every field of a serialized header is at the offset that section 3.1 of RFC 791 gives it, big-endian, with zeros up to the advertised size |
| `Ipv4.HeaderVerifies` | libsponge/tcp_helpers/ipv4_datagram.cc:28-36 | every header that serializes verifies with its checksum filled in |
| `Ipv4.PseudoHeaderSum` | libsponge/tcp_helpers/ipv4_header.cc:112-131 | `pseudo_cksum` is the sum of the twelve bytes of the pseudo-header of section 3.1 of RFC 793: source, destination, zero, protocol, length |
| `Ipv4.DatagramRoundTrip` | libsponge/tcp_helpers/ipv4_datagram.cc:11-41 | a serialized datagram parses to itself, checksum filled in, the header verdict and the datagram verdict both without error |
| `Ipv4.HeaderAcceptedIff` | libsponge/tcp_helpers/ipv4_header.cc:23-75 | the header parser reports no error if and only if there are 20 bytes, the fields pass the checks, and the checksum holds |
| `Ipv4.DatagramAcceptedIff` | libsponge/tcp_helpers/ipv4_datagram.cc:11-21 | over the fields and the size of the buffer: the datagram parser reports no error if and only if the fields pass the checks, whatever the checksum, or what remains has the length the fields claim, whatever the checks |
| `Ipv4.WronglyAcceptedIff` | libsponge/tcp_helpers/ipv4_datagram.cc:11-21 | over the fields and the size of the buffer: exactly which datagrams are accepted although the header parser reports an error |
| `Ipv4.VerdictKeptIff` | libsponge/tcp_helpers/ipv4_datagram.cc:11-21 | over the fields and the size of the buffer: exactly when the two verdicts agree, error for error |
| `Ipv4.WrongChecksumAccepted` | libsponge/tcp_helpers/ipv4_datagram.cc:13 | any sound datagram with either byte of its header checksum changed is still accepted, though the header parser refuses it |
| `Ipv4.WrongVersionAccepted` | libsponge/tcp_helpers/ipv4_datagram.cc:13 | any datagram of another version with a 20-byte header and its length in order is accepted, though the header parser says WrongIPVersion |
| `Ipv4.VersionSixAccepted` | libsponge/tcp_helpers/ipv4_datagram.cc:13 | for example 20 bytes that begin with 0x65 and give 20 as their length |
| `Ipv4.DatagramRoundTripIff` | libsponge/tcp_helpers/ipv4_datagram.cc:11-41 | a datagram that serializes parses back to itself if and only if its header length is at most 15 words, its fragment offset below 0x2000, and its length field covers the header or the header has no options |
| `TcpOverIp.Adapter.Wrap` | libsponge/tcp_helpers/tcp_over_ip.cc:75-90 | the object-level encapsulation realises the specified one and sets the ports |
| `TcpOverIp.Adapter.Unwrap` | libsponge/tcp_helpers/tcp_over_ip.cc:26-71 | the object-level filter realises the specified one, binding a listening adapter to the sender of a SYN |
| `TcpOverIp.WrapSucceeds` | libsponge/tcp_helpers/tcp_over_ip.cc:75-90 | up to 65535 bytes in all, a wrapped segment is carried intact between the two addresses |
| `TcpOverIp.UnwrapOutcome` | libsponge/tcp_helpers/tcp_over_ip.cc:26-71 | an adapter hands such a segment over exactly if it is meant for it, and otherwise neither delivers nor changes |
| `TcpOverIp.EncapsulationRoundTrip` | libsponge/tcp_helpers/tcp_over_ip.cc:26-90 | wrapped, serialized, parsed and unwrapped, a segment comes out as it went in, ports and checksum set, the header parser and the segment parser both verifying their checksums, at exactly the adapters it is meant for |
| `TcpOverIp.WrappedChecksum` | libsponge/tcp_helpers/tcp_over_ip.cc:75-90 | bytes 16 and 17 of a wrapped segment are the Internet checksum of pseudo-header and segment, that field zeroed; with it in place, pseudo-header and segment verify |
| `TcpOverIp.AdmittedIff` | libsponge/tcp_helpers/tcp_over_ip.cc:26-71 | a bound adapter admits exactly the verified TCP segments from its peer, a listening one exactly the SYNs without RST to its port, and is then bound to their ends; anything else changes nothing |
| `TcpOverIp.OnePeer` | libsponge/tcp_helpers/tcp_over_ip.cc:26-71 | over any sequence of datagrams, all that one adapter admits runs between the same two ends |

## Left out

- Sockets, file descriptors, the TUN device, the event loop and `TCPSpongeSocket`'s threads: input and output only.
- `Address`, name lookup and `inet_ntoa`: an address is a pair.
- `Buffer` and `BufferList` reference counting: byte strings are sequences.
- Applications, test programs, printing, `hexdump`, `to_string` and `summary`: no property of interest.
- `TCPConnection`'s destructor: it only prints a warning.
- Eventual delivery: it needs fairness of the network, which the code does not contain.
- Streams that reach absolute sequence number 2^32: beyond the range in which the receiver's index is right.
- Runs in which something is written after the FIN was sent: the bytes are displaced from the first one on.
- Overflow of 64-bit counters: bytes read and written, `next_seqno`, bytes in flight, the elapsed time, the number of
  consecutive retransmissions and the sum of bytes read and capacity are unbounded. The 64-bit sums and differences in
  `push_substring`, the receiver's index and `unwrap` do wrap.
- The `std::map` of segments in flight is a sequence in key order; insertion at the end is justified by the tiling.
- Headers, segments and datagrams are values: parsing returns a new one instead of overwriting fields in place. A header
  parse that stops early returns the prior header, as the field-by-field overwrite would leave it.
- The receiver's `_checkpoint` field, which is never used, and accessors that return one field.
- Contradictory end positions: no refinement is stated for them, only well-formedness.
