/**
 * Whole runs of one connection under arbitrary segments, writes, reads and ticks: the two
 * classifications of its state agree, it moves only forward, and it stops only reset or closed.
 */
module Lifecycle {
  import opened Integers
  import opened Segment
  import Reassembler
  import Wrapping
  import opened Receiver
  import opened Sender
  import opened Connection

  // ---------------------------------------------------------------- TCPState

  datatype SenderSummary = SenderError | Closed | SynSent | SynAcked | FinSent | FinAcked

  datatype ReceiverSummary = ReceiverError | Listen | SynRecv | FinRecv

  function SummarizeReceiver(r: ReceiverState): ReceiverSummary {
    if r.StreamOut().error then ReceiverError
    else if r.Ackno().None? then ReceiverSummary.Listen
    else if r.InputEnded() then FinRecv
    else SynRecv
  }

  function SummarizeSender(s: SenderState): SenderSummary {
    if s.stream.error then SenderError
    else if s.nextSeqno == 0 then Closed
    else if s.nextSeqno == s.outgoing then SenderSummary.SynSent
    else if !s.stream.Eof() then SynAcked
    else if s.nextSeqno < s.stream.totin + 2 then SynAcked
    else if s.outgoing > 0 then FinSent
    else FinAcked
  }

  datatype TcpState = TcpState(sender: SenderSummary, receiver: ReceiverSummary, active: bool, linger: bool)

  function StateOf(c: ConnState): TcpState {
    TcpState(SummarizeSender(c.sender), SummarizeReceiver(c.receiver), c.active, c.active && c.linger)
  }

  datatype Official =
    | LISTEN | SYN_RCVD | SYN_SENT | ESTABLISHED | CLOSE_WAIT | LAST_ACK
    | FIN_WAIT_1 | FIN_WAIT_2 | CLOSING | TIME_WAIT | CLOSED | RESET

  /** The table of official states of section 3.2 of RFC 793. */
  function OfficialState(o: Official): TcpState {
    match o
    case LISTEN => TcpState(Closed, ReceiverSummary.Listen, true, true)
    case SYN_RCVD => TcpState(SenderSummary.SynSent, SynRecv, true, true)
    case SYN_SENT => TcpState(SenderSummary.SynSent, ReceiverSummary.Listen, true, true)
    case ESTABLISHED => TcpState(SynAcked, SynRecv, true, true)
    case CLOSE_WAIT => TcpState(SynAcked, FinRecv, true, false)
    case LAST_ACK => TcpState(FinSent, FinRecv, true, false)
    case CLOSING => TcpState(FinSent, FinRecv, true, true)
    case FIN_WAIT_1 => TcpState(FinSent, SynRecv, true, true)
    case FIN_WAIT_2 => TcpState(FinAcked, SynRecv, true, true)
    case TIME_WAIT => TcpState(FinAcked, FinRecv, true, true)
    case CLOSED => TcpState(FinAcked, FinRecv, false, false)
    case RESET => TcpState(SenderError, ReceiverError, false, false)
  }

  // ---------------------------------------------------------------- runs

  datatype Event =
    | Arrival(seg: TcpSegment)
    | Write(data: seq<byte>)
    | Tick(ms: nat)
    | EndInput
    | Connect
    | Read(len: nat)

  /** Nobody writes once the FIN has been sent; see `WriteFaithfulIff` for why. */
  predicate Enabled(c: ConnState, e: Event) {
    e.Write? ==> !c.sender.fin
  }

  function Step(c: ConnState, e: Event): ConnState
    requires c.Usable()
  {
    if !Enabled(c, e) then c else
    match e
    case Arrival(seg) => c.SegmentReceived(seg)
    case Write(data) => c.Write(data)
    case Tick(ms) => c.Tick(ms)
    case EndInput => c.EndInput()
    case Connect => c.FillAndSend()
    case Read(len) => c.ReadInbound(len)
  }

  // ---------------------------------------------------------------- the invariant

  predicate Errors(c: ConnState) {
    c.sender.stream.error && c.receiver.StreamOut().error
  }

  predicate NoError(c: ConnState) {
    !c.sender.stream.error && !c.receiver.StreamOut().error
  }

  /** A clean end: both directions over, our FIN sent and acknowledged. */
  predicate ClosedCleanly(c: ConnState) {
    NoError(c) && c.receiver.InputEnded() && c.sender.fin && c.sender.outgoing == 0
  }

  /** All of the invariant that does not depend on the window having been filled. */
  predicate Consistent(c: ConnState) {
    && c.Usable()
    && (!c.receiver.syn ==> c.sender.Base() == 0 && !c.receiver.InputEnded())
    && (!c.linger ==> c.receiver.InputEnded())
    && (if c.active then NoError(c) && c.sender.retx <= MAX_RETX_ATTEMPTS else Errors(c) || ClosedCleanly(c))
  }

  predicate Core(c: ConnState) {
    Consistent(c) && c.sender.Filled() && (c.receiver.syn ==> c.sender.nextSeqno > 0)
  }

  predicate Inv(c: ConnState) {
    Core(c) && (c.active && c.Finished() ==> c.linger)
  }

  lemma NewInv(isn: u32, rtTimeout: u16, sendCapacity: nat, recvCapacity: nat)
    ensures Inv(NewConnection(isn, rtTimeout, sendCapacity, recvCapacity))
  {
    Reassembler.NewValid(recvCapacity);
  }

  /** Sending only empties the sender's queue. */
  lemma SendHalves(c: ConnState)
    requires c.receiver.WellFormed()
    ensures c.SendSegments().sender == c.sender.(out := []) && c.SendSegments().receiver == c.receiver
  {
  }

  lemma FlushedCore(c: ConnState)
    requires Core(c)
    ensures Core(c.Flushed())
  {
  }

  lemma SendInv(c: ConnState)
    requires Core(c)
    ensures Inv(c.SendSegments())
  {
    FlushedCore(c);
  }

  /** Once the FIN is out there is nothing left to send. */
  lemma FillAfterFin(s: SenderState)
    requires s.Valid() && s.fin
    ensures s.FillWindow() == s
  {
  }

  lemma FillInv(c: ConnState)
    requires Consistent(c)
    ensures Core(c.(sender := c.sender.FillWindow())) && Inv(c.FillAndSend())
  {
    FillKeeps(c.sender);
    if c.sender.fin {
      FillAfterFin(c.sender);
    }
    SendInv(c.(sender := c.sender.FillWindow()));
  }

  /** Acknowledgement and receipt together, whatever the segment says. */
  lemma AckReceiveInv(c: ConnState, seg: TcpSegment)
    requires Core(c) && c.active && (c.receiver.syn || seg.header.syn) && c.sender.nextSeqno > 0
    ensures Core(c.Acked(seg).Received(seg))
  {
    AckKeeps(c.sender, seg.header.ackno, seg.header.win);
    ReceiveMonotone(c.receiver, seg);
  }

  lemma ReplyCore(c: ConnState)
    requires Core(c)
    ensures Core(c.Replying())
  {
  }

  /** The ways in which a connection that has taken in a segment goes on to answer it. */
  predicate Answers(d: ConnState, c: ConnState)
    requires d.receiver.WellFormed()
  {
    || c == d.SendSegments() || c == d.Replying().SendSegments()
    || c == d.FillAndSend() || c == d.Replying().FillAndSend()
  }

  lemma AnswersInv(d: ConnState, c: ConnState)
    requires Core(d) && Answers(d, c)
    ensures Inv(c)
  {
    ReplyCore(d);
    if c == d.SendSegments() {
      SendInv(d);
    } else if c == d.Replying().SendSegments() {
      SendInv(d.Replying());
    } else if c == d.FillAndSend() {
      FillInv(d);
    } else {
      FillInv(d.Replying());
    }
  }

  /** All that `segment_received` can do with a segment without RST. */
  predicate Handled(c: ConnState, seg: TcpSegment, c': ConnState)
    requires c.Usable() && c.Acked(seg).receiver.WellFormed() && c.receiver.SegmentReceived(seg).WellFormed()
  {
    var b, d := c.GetBranch(), c.Acked(seg).Received(seg);
    || c' == c
    || (b == Branch.Listen && seg.header.syn && c' == c.Received(seg).FillAndSend())
    || (b == Branch.SynSent && seg.header.syn && Answers(c.Received(seg), c'))
    || (b == Branch.SynRcvd && c' == d)
    || (b !in {Branch.Listen, Branch.SynRcvd} && (b == Branch.SynSent ==> seg.header.syn) && Answers(d, c'))
  }

  lemma DispatchHandles(c: ConnState, seg: TcpSegment)
    requires c.Usable()
    ensures c.receiver.SegmentReceived(seg).WellFormed()
    ensures Handled(c, seg, c.Dispatch(c.GetBranch(), seg))
  {
    ReceiveMonotone(c.receiver, seg);
    match c.GetBranch()
    case Listen =>
    case SynSent =>
    case SynRcvd =>
    case Estab =>
    case FinWait1 =>
    case FinWait2 =>
    case TimeWait =>
    case Other =>
  }

  lemma HandledInv(c: ConnState, seg: TcpSegment, c': ConnState)
    requires Inv(c) && c.active && c.receiver.SegmentReceived(seg).WellFormed() && Handled(c, seg, c')
    ensures Inv(c')
  {
    var b, d := c.GetBranch(), c.Acked(seg).Received(seg);
    ReceiveMonotone(c.receiver, seg);
    if c' == c {
    } else if b == Branch.Listen {
      FillInv(c.Received(seg));
    } else if b == Branch.SynSent && Answers(c.Received(seg), c') {
      AnswersInv(c.Received(seg), c');
    } else {
      AckReceiveInv(c, seg);
      if b != Branch.SynRcvd {
        AnswersInv(d, c');
      }
    }
  }

  /** All that `segment_received` can do with any segment. */
  predicate Arrives(c: ConnState, seg: TcpSegment, c': ConnState)
    requires c.Usable() && c.receiver.SegmentReceived(seg).WellFormed()
  {
    if !c.active then c' == c
    else if seg.header.rst then c' == c.(elapsed := 0).SetErrors()
    else Handled(c.(elapsed := 0), seg, c')
  }

  lemma ArrivalCases(c: ConnState, seg: TcpSegment)
    requires c.Usable()
    ensures c.receiver.SegmentReceived(seg).WellFormed() && Arrives(c, seg, c.SegmentReceived(seg))
  {
    DispatchHandles(c.(elapsed := 0), seg);
  }

  lemma ErrorsInv(c: ConnState)
    requires Core(c)
    ensures Inv(c.SetErrors())
  {
  }

  lemma HeardInv(c: ConnState)
    requires Inv(c)
    ensures Inv(c.(elapsed := 0)) && (c.active ==> Core(c.(elapsed := 0)))
  {
  }

  lemma ArrivesInv(c: ConnState, seg: TcpSegment, c': ConnState)
    requires Inv(c) && c.receiver.SegmentReceived(seg).WellFormed() && Arrives(c, seg, c')
    ensures Inv(c')
  {
    HeardInv(c);
    if c.active {
      if seg.header.rst {
        ErrorsInv(c.(elapsed := 0));
      } else {
        HandledInv(c.(elapsed := 0), seg, c');
      }
    }
  }

  lemma TickCore(c: ConnState, ms: nat)
    requires Core(c) && c.active && c.sender.Tick(ms).retx <= MAX_RETX_ATTEMPTS
    ensures Core(c.Ticked(ms))
  {
    TickKeeps(c.sender, ms);
  }

  lemma ResetInv(c: ConnState, ms: nat)
    requires Core(c)
    ensures Inv(c.Ticked(ms).Reset())
  {
    TickKeeps(c.sender, ms);
  }

  lemma TickInv(c: ConnState, ms: nat)
    requires Inv(c)
    ensures Inv(c.Tick(ms))
  {
    if c.active {
      if c.sender.Tick(ms).retx <= MAX_RETX_ATTEMPTS {
        TickCore(c, ms);
        SendInv(c.Ticked(ms));
      } else {
        ResetInv(c, ms);
      }
    }
  }

  lemma WriteInv(c: ConnState, data: seq<byte>)
    requires Inv(c) && !c.sender.fin
    ensures Inv(c.Write(data))
  {
    if data != [] {
      FillInv(c.WithStream(c.sender.stream.Write(data)));
    }
  }

  lemma EndInputInv(c: ConnState)
    requires Inv(c)
    ensures Inv(c.EndInput())
  {
    FillInv(c.WithStream(c.sender.stream.(ended := true)));
  }

  lemma ReadInv(c: ConnState, len: nat)
    requires Inv(c)
    ensures Inv(c.ReadInbound(len))
  {
  }

  lemma StepInv(c: ConnState, e: Event, c': ConnState)
    requires Inv(c) && Steps(c, e, c')
    ensures Inv(c')
  {
    if Enabled(c, e) {
      match e
      case Arrival(seg) => ArrivesInv(c, seg, c');
      case Write(data) => WriteInv(c, data);
      case Tick(ms) => TickInv(c, ms);
      case EndInput => EndInputInv(c);
      case Connect => FillInv(c);
      case Read(len) => ReadInv(c, len);
    }
  }

  /** The steps of a connection as a relation. */
  predicate Steps(c: ConnState, e: Event, c': ConnState)
    requires c.Usable()
  {
    if !Enabled(c, e) then c' == c else
    match e
    case Arrival(seg) => c.receiver.SegmentReceived(seg).WellFormed() && Arrives(c, seg, c')
    case Write(data) => c' == c.Write(data)
    case Tick(ms) => c' == c.Tick(ms)
    case EndInput => c' == c.EndInput()
    case Connect => c' == c.FillAndSend()
    case Read(len) => c' == c.ReadInbound(len)
  }

  ghost function Next(c: ConnState, e: Event): ConnState
    requires Inv(c)
    ensures Inv(Next(c, e)) && Steps(c, e, Next(c, e))
  {
    StepCases(c, e);
    StepInv(c, e, Step(c, e));
    Step(c, e)
  }

  lemma StepCases(c: ConnState, e: Event)
    requires c.Usable()
    ensures Steps(c, e, Step(c, e))
  {
    if e.Arrival? {
      ArrivalCases(c, e.seg);
    }
  }

  /** The state after a run. */
  ghost function Run(c: ConnState, events: seq<Event>): ConnState
    requires Inv(c)
    ensures Inv(Run(c, events))
    decreases |events|
  {
    if events == [] then c else Run(Next(c, events[0]), events[1..])
  }

  ghost predicate ReachedBy(c: ConnState, isn: u32, rtTimeout: u16, sendCapacity: nat, recvCapacity: nat,
                            events: seq<Event>)
  {
    var start := NewConnection(isn, rtTimeout, sendCapacity, recvCapacity);
    Inv(start) && c == Run(start, events)
  }

  /** The states that some run of some fresh connection leads to. */
  ghost predicate Reachable(c: ConnState) {
    exists isn, rtTimeout, sendCapacity, recvCapacity, events ::
      ReachedBy(c, isn, rtTimeout, sendCapacity, recvCapacity, events)
  }

  lemma ReachableInv(c: ConnState)
    requires Reachable(c)
    ensures Inv(c)
  {
    var isn, rtTimeout, sendCapacity, recvCapacity, events :|
      ReachedBy(c, isn, rtTimeout, sendCapacity, recvCapacity, events);
  }

  // ---------------------------------------------------------------- dispatch agreement

  /** The official state whose segments a branch of `segment_received` is meant for. */
  function BranchState(b: Branch): Option<Official> {
    match b
    case Listen => Some(LISTEN)
    case SynSent => Some(SYN_SENT)
    case SynRcvd => Some(SYN_RCVD)
    case FinWait1 => Some(FIN_WAIT_1)
    case FinWait2 => Some(FIN_WAIT_2)
    case TimeWait => Some(TIME_WAIT)
    case Estab | Other => None
  }

  /** Having sent the FIN is visible in the sequence numbers. */
  lemma FinSentIff(s: SenderState)
    requires s.Valid()
    ensures s.nextSeqno <= s.stream.totin + 2
    ensures s.fin <==> s.stream.Eof() && s.nextSeqno == s.stream.totin + 2
  {
  }

  predicate SameState(c: ConnState, b: Branch) {
    && (BranchState(b).Some? ==> (c.GetBranch() == b <==> StateOf(c) == OfficialState(BranchState(b).value)))
    && (c.GetBranch() == Estab <==> SummarizeSender(c.sender) == SynAcked && !c.sender.stream.Eof())
    && (c.GetBranch() == Other <==>
        || (SummarizeSender(c.sender) == SynAcked && c.sender.stream.Eof())
        || (SummarizeSender(c.sender) in {SenderSummary.SynSent, FinSent} && SummarizeReceiver(c.receiver) == FinRecv))
  }

  lemma InvAgrees(c: ConnState, b: Branch)
    requires Inv(c) && c.active
    ensures SameState(c, b)
  {
    FinSentIff(c.sender);
  }

  /**
   * In every reachable active state the branch that `segment_received` takes for a state is the
   * branch taken exactly when `TCPState` names that state; what is left falls to the other two.
   */
  lemma DispatchAgreement(c: ConnState, b: Branch)
    requires Reachable(c) && c.active
    ensures SameState(c, b)
  {
    ReachableInv(c);
    InvAgrees(c, b);
  }

  // ---------------------------------------------------------------- clean shutdown, handshake

  predicate SoundlyStopped(c: ConnState) {
    && (StateOf(c) == OfficialState(CLOSED) || StateOf(c) == OfficialState(RESET))
    && (NoError(c) ==>
        && c.receiver.InputEnded() && c.sender.stream.Eof() && c.sender.fin
        && c.sender.nextSeqno == c.sender.stream.totin + 2
        && c.sender.outgoing == 0 && c.sender.outstanding == [])
  }

  lemma InvStopped(c: ConnState)
    requires Inv(c) && !c.active
    ensures SoundlyStopped(c)
  {
    FinSentIff(c.sender);
    TilesEnd(c.sender.outstanding, c.sender.nextSeqno - c.sender.outgoing, c.sender.nextSeqno);
  }

  /** A connection that is no longer active is closed or reset, and closed means both streams done. */
  lemma CleanShutdown(c: ConnState)
    requires Reachable(c) && !c.active
    ensures SoundlyStopped(c)
  {
    ReachableInv(c);
    InvStopped(c);
  }

  /** Nothing of ours counts as acknowledged before the peer's SYN is recorded. */
  lemma HandshakeSafety(c: ConnState)
    requires Reachable(c) && !c.receiver.syn
    ensures c.sender.Base() == 0 && !c.receiver.InputEnded()
  {
    ReachableInv(c);
  }

  /**
   * Nothing is held back: in every reachable state the window is full, or all that was written, and
   * the FIN if input has ended, has been put into segments.
   */
  lemma NothingHeldBack(c: ConnState)
    requires Reachable(c)
    ensures c.sender.outgoing >= c.sender.Window() || c.sender.Available() == 0
    ensures c.sender.outgoing >= c.sender.Window() || c.sender.stream.totout == c.sender.stream.totin
  {
    ReachableInv(c);
  }

  /** Giving up resets both ends: the segment it sends resets any active connection it reaches. */
  lemma ResetSpreads(c: ConnState, peer: ConnState)
    requires Inv(peer) && peer.active
    ensures StateOf(c.Reset()) == OfficialState(RESET) && |c.Reset().out| == |c.out| + 1
    ensures StateOf(peer.SegmentReceived(c.Reset().out[|c.out|])) == OfficialState(RESET)
  {
  }

  // ---------------------------------------------------------------- the sender's queue

  lemma AnswersDrain(d: ConnState, c: ConnState)
    requires d.receiver.WellFormed() && Answers(d, c)
    ensures c.sender.out == []
  {
    SendHalves(d);
    SendHalves(d.Replying());
    SendHalves(d.(sender := d.sender.FillWindow()));
    SendHalves(d.Replying().(sender := d.Replying().sender.FillWindow()));
  }

  /** The one branch that acknowledges and receives without sending, when there is something to send. */
  predicate Stalls(c: ConnState, seg: TcpSegment)
    requires c.Usable()
  {
    && c.active && !seg.header.rst && c.GetBranch() == Branch.SynRcvd
    && Releases(c.sender, seg.header.ackno, seg.header.win)
  }

  /** The arrivals after which the connection sends what is queued. */
  predicate Answered(b: Branch, h: TcpHeader) {
    match b
    case Listen => h.syn
    case SynSent => h.syn
    case SynRcvd => false
    case FinWait1 => h.fin || h.ack
    case TimeWait => h.fin
    case _ => true
  }

  lemma DispatchAnswers(c: ConnState, b: Branch, seg: TcpSegment)
    requires c.Usable() && c.receiver.SegmentReceived(seg).WellFormed() && b != Branch.SynRcvd
    ensures var c' := c.Dispatch(b, seg);
            if Answered(b, seg.header) then Answers(c.Acked(seg).Received(seg), c') || Answers(c.Received(seg), c')
            else c' == c
  {
    match b
    case Listen =>
    case SynSent =>
    case Estab =>
    case FinWait1 =>
    case FinWait2 =>
    case TimeWait =>
    case Other =>
  }

  lemma DispatchDrains(c: ConnState, seg: TcpSegment)
    requires c.Usable()
    ensures c.Dispatch(c.GetBranch(), seg).sender.out == [] <==>
            || Answered(c.GetBranch(), seg.header)
            || (c.sender.out == []
                && !(c.GetBranch() == Branch.SynRcvd && Releases(c.sender, seg.header.ackno, seg.header.win)))
  {
    var b, c' := c.GetBranch(), c.Dispatch(c.GetBranch(), seg);
    ReceiveMonotone(c.receiver, seg);
    if b == Branch.SynRcvd {
      assert c' == c.Acked(seg).Received(seg);
      AckQueuesIff(c.sender, seg.header.ackno, seg.header.win);
      AckKeeps(c.sender, seg.header.ackno, seg.header.win);
    } else {
      DispatchAnswers(c, b, seg);
      if Answers(c.Received(seg), c') {
        AnswersDrain(c.Received(seg), c');
      } else if Answers(c.Acked(seg).Received(seg), c') {
        AnswersDrain(c.Acked(seg).Received(seg), c');
      }
    }
  }

  /**
   * After an arrival nothing waits in the sender's queue exactly if the connection answers, or if
   * nothing waited before and the arrival does not stall: in SYN_RCVD, what an acceptable ackno makes
   * room for, and whatever waited already, waits for the next event.
   */
  lemma QueueDrainedIff(c: ConnState, seg: TcpSegment)
    requires c.Usable()
    ensures c.SegmentReceived(seg).sender.out == [] <==>
            || (c.active && !seg.header.rst && Answered(c.GetBranch(), seg.header))
            || (c.sender.out == [] && !Stalls(c, seg))
  {
    if c.active && !seg.header.rst {
      HeardSame(c, seg);
      DispatchDrains(c.(elapsed := 0), seg);
    }
  }

  const SYN := TcpSegment(EMPTY_HEADER.(syn := true), [])

  /** Our SYN is the only thing sent, and nothing waits to be sent but `buf`. */
  predicate Opened(c: ConnState, isn: u32, buf: seq<byte>) {
    && c.active && c.receiver.syn && !c.receiver.InputEnded()
    && c.sender.isn == isn && c.sender.nextSeqno == 1 && c.sender.outgoing == 1 && c.sender.win == 1
    && c.sender.out == [] && c.sender.stream.buf == buf && !c.sender.stream.ended && !c.sender.fin
    && |c.sender.outstanding| == 1 && c.sender.outstanding[0].End() == 1
  }

  /** The first SYN makes a listening connection send its own. */
  lemma SynAnswered(isn: u32, rtTimeout: u16, sendCapacity: nat, recvCapacity: nat)
    ensures var c := NewConnection(isn, rtTimeout, sendCapacity, recvCapacity);
            Inv(c) && var c' := Next(c, Arrival(SYN)); Opened(c', isn, []) && c'.sender.stream.capacity == sendCapacity
  {
    NewInv(isn, rtTimeout, sendCapacity, recvCapacity);
    var c := NewConnection(isn, rtTimeout, sendCapacity, recvCapacity);
    var s, d := c.sender, c.Received(SYN);
    ReceiveMonotone(c.receiver, SYN);
    assert s.CanEmit() && s.Emit().nextSeqno == 1 && s.Emit().outgoing == 1;
    assert s.FillWindow() == s.Emit();
    SynReceived(c.receiver);
    SendHalves(d.(sender := s.Emit()));
    assert c.SegmentReceived(SYN) == d.FillAndSend();
  }

  lemma SynReceived(r: ReceiverState)
    requires r == NewReceiver(r.capacity) && r.WellFormed()
    ensures !r.SegmentReceived(SYN).InputEnded()
  {
  }

  lemma WriteHeld(c: ConnState, isn: u32, b: byte)
    requires Inv(c) && Opened(c, isn, []) && c.sender.stream.capacity >= 1
    ensures Opened(Next(c, Write([b])), isn, [b])
  {
    var d := c.WithStream(c.sender.stream.Write([b]));
    assert d.sender.stream.buf == [b] && d.sender.FillWindow() == d.sender;
    SendHalves(d);
  }

  lemma AckStalls(c: ConnState, isn: u32, b: byte, seg: TcpSegment)
    requires Inv(c) && Opened(c, isn, [b]) && !seg.header.rst && seg.header.ackno == Wrapping.Wrap(1, isn)
    ensures Stalls(c, seg)
  {
    Wrapping.LowUnwrap(seg.header.ackno, isn, 1);
    assert c.sender.Acknowledge(1).outgoing == 0;
  }

  /** Such a run: a SYN arrives, a byte is written, and the acknowledgement of our SYN arrives. */
  lemma StallRun(isn: u32, rtTimeout: u16, sendCapacity: nat, recvCapacity: nat, b: byte, seg: TcpSegment)
    requires sendCapacity >= 1 && !seg.header.rst && seg.header.ackno == Wrapping.Wrap(1, isn)
    ensures var start := NewConnection(isn, rtTimeout, sendCapacity, recvCapacity);
            Inv(start) &&
            var c := Next(Next(start, Arrival(SYN)), Write([b]));
            c.sender.out == [] && Next(c, Arrival(seg)).sender.out != []
  {
    SynAnswered(isn, rtTimeout, sendCapacity, recvCapacity);
    var c := Next(NewConnection(isn, rtTimeout, sendCapacity, recvCapacity), Arrival(SYN));
    WriteHeld(c, isn, b);
    AckStalls(Next(c, Write([b])), isn, b, seg);
    QueueDrainedIff(Next(c, Write([b])), seg);
  }

  /** An ackno that acknowledges nothing but brings a larger window releases the byte as well. */
  lemma WindowStalls(c: ConnState, isn: u32, b: byte, seg: TcpSegment)
    requires Inv(c) && Opened(c, isn, [b]) && !seg.header.rst && seg.header.ackno == Wrapping.Wrap(0, isn)
    requires seg.header.win >= 2
    ensures Stalls(c, seg)
  {
    NothingAcked(c.sender, isn, seg.header.ackno);
  }

  /** A second run: what waits keeps waiting, although the second arrival makes room for nothing more. */
  lemma StallAgainRun(isn: u32, rtTimeout: u16, sendCapacity: nat, recvCapacity: nat, b: byte, seg: TcpSegment)
    requires sendCapacity >= 1 && !seg.header.rst && seg.header.ackno == Wrapping.Wrap(0, isn) && seg.header.win >= 2
    requires seg.header.syn
    ensures var start := NewConnection(isn, rtTimeout, sendCapacity, recvCapacity);
            Inv(start) &&
            var d := Next(Next(Next(start, Arrival(SYN)), Write([b])), Arrival(seg));
            d.sender.out != [] && !Stalls(d, seg) && Next(d, Arrival(seg)).sender.out != []
  {
    SynAnswered(isn, rtTimeout, sendCapacity, recvCapacity);
    var c := Next(NewConnection(isn, rtTimeout, sendCapacity, recvCapacity), Arrival(SYN));
    WriteHeld(c, isn, b);
    StallsOnce(Next(c, Write([b])), isn, b, seg);
  }

  lemma StallsOnce(c: ConnState, isn: u32, b: byte, seg: TcpSegment)
    requires Inv(c) && Opened(c, isn, [b]) && !seg.header.rst && seg.header.syn
    requires seg.header.ackno == Wrapping.Wrap(0, isn) && seg.header.win >= 2
    ensures var d := Next(c, Arrival(seg));
            d.sender.out != [] && !Stalls(d, seg) && Next(d, Arrival(seg)).sender.out != []
  {
    var d := Next(c, Arrival(seg));
    WindowStalls(c, isn, b, seg);
    QueueDrainedIff(c, seg);
    StalledState(c, isn, b, seg);
    QueueDrainedIff(d, seg);
  }

  lemma StalledState(c: ConnState, isn: u32, b: byte, seg: TcpSegment)
    requires Inv(c) && Opened(c, isn, [b]) && !seg.header.rst && seg.header.syn
    requires seg.header.ackno == Wrapping.Wrap(0, isn) && seg.header.win >= 2
    ensures var d := Next(c, Arrival(seg));
            d.active && d.GetBranch() == Branch.SynRcvd && d.sender.syn && d.sender.Available() == 0
  {
    var s := c.sender;
    NothingAcked(s, isn, seg.header.ackno);
    var t := Acked(s, 0, seg.header.win);
    AckedValid(s, 0, seg.header.win);
    FillSends(t);
    FillKeeps(t);
    assert c.SegmentReceived(seg) == c.(elapsed := 0).Acked(seg).Received(seg);
  }

  lemma NothingAcked(s: SenderState, isn: u32, ackno: u32)
    requires s.Valid() && s.isn == isn && s.nextSeqno == 1 && s.outgoing == 1 && ackno == Wrapping.Wrap(0, isn)
    ensures Wrapping.Unwrap(ackno, isn, 1) == 0 && s.Acknowledge(0) == s
  {
    Wrapping.LowRing(0, 1);
    Wrapping.UnwrapRoundTripIff(0, isn, 1);
  }

  lemma HeardSame(c: ConnState, seg: TcpSegment)
    requires c.sender.Valid()
    ensures c.(elapsed := 0).GetBranch() == c.GetBranch()
    ensures c.(elapsed := 0).Acked(seg).sender == c.Acked(seg).sender
  {
  }

  // ---------------------------------------------------------------- forward progress

  function SenderRank(s: SenderState): nat {
    match SummarizeSender(s)
    case Closed => 0 case SynSent => 1 case SynAcked => 2 case FinSent => 3 case FinAcked => 4 case SenderError => 5
  }

  function ReceiverRank(r: ReceiverState): nat {
    match SummarizeReceiver(r)
    case Listen => 0 case SynRecv => 1 case FinRecv => 2 case ReceiverError => 3
  }

  predicate SenderForward(s: SenderState, s': SenderState) {
    && s.nextSeqno <= s'.nextSeqno && s.Base() <= s'.Base()
    && (s.fin ==> s'.fin && s'.nextSeqno == s.nextSeqno)
    && (s.stream.error ==> s'.stream.error)
  }

  predicate ReceiverForward(r: ReceiverState, r': ReceiverState) {
    && (r.syn ==> r'.syn) && (r.InputEnded() ==> r'.InputEnded())
    && (r.StreamOut().error ==> r'.StreamOut().error)
  }

  /** Nothing already achieved is undone: flags, sequence numbers, and being inactive. */
  predicate Forward(c: ConnState, c': ConnState) {
    && SenderForward(c.sender, c'.sender) && ReceiverForward(c.receiver, c'.receiver)
    && (c'.active ==> c.active) && c'.rtTimeout == c.rtTimeout && c'.sender.initialRto == c.sender.initialRto
  }

  lemma RankForward(c: ConnState, c': ConnState)
    requires Inv(c) && Inv(c') && Forward(c, c')
    ensures SenderRank(c.sender) <= SenderRank(c'.sender) && ReceiverRank(c.receiver) <= ReceiverRank(c'.receiver)
  {
    FinSentIff(c.sender);
    FinSentIff(c'.sender);
  }

  lemma ProgressForward(s: SenderState, s': SenderState)
    requires s.Valid() && s'.Valid() && Progress(s, s')
    ensures SenderForward(s, s')
  {
    FinSentIff(s);
    FinSentIff(s');
  }

  // ---------------------------------------------------------------- what one event may change

  /**
   * From `c` to `c'` nothing is undone; lingering is given up only because the peer finished first;
   * and a clean stop that still lingers comes only after the full quiet time.
   */
  predicate Orderly(c: ConnState, c': ConnState) {
    && Forward(c, c')
    && (c'.linger ==> c.linger)
    && (c.linger && !c'.linger ==> c'.receiver.InputEnded() && !c'.sender.stream.Eof())
    && (c.active && !c'.active && NoError(c') && c'.linger ==> c'.elapsed >= 10 * c'.rtTimeout)
  }

  /** The part of a step before anything is sent: only the two halves move. */
  predicate Absorbs(c: ConnState, d: ConnState) {
    Forward(c, d) && d.active == c.active && d.linger == c.linger
  }

  lemma AbsorbsThen(c: ConnState, d: ConnState, c': ConnState)
    requires Absorbs(c, d) && Orderly(d, c')
    ensures Orderly(c, c')
  {
  }

  lemma SendOrderly(d: ConnState)
    requires d.Usable()
    ensures Orderly(d, d.SendSegments()) && d.SendSegments().elapsed == d.elapsed
  {
  }

  lemma FillOrderly(d: ConnState)
    requires d.Usable()
    ensures Orderly(d, d.FillAndSend()) && d.FillAndSend().elapsed == d.elapsed
  {
    var f := d.(sender := d.sender.FillWindow());
    FillKeeps(d.sender);
    ProgressForward(d.sender, f.sender);
    SendOrderly(f);
    AbsorbsThen(d, f, f.SendSegments());
  }

  lemma AnswersOrderly(d: ConnState, c: ConnState)
    requires d.Usable() && Answers(d, c)
    ensures Orderly(d, c) && c.elapsed == d.elapsed
  {
    SendOrderly(d);
    SendOrderly(d.Replying());
    FillOrderly(d);
    FillOrderly(d.Replying());
    AbsorbsThen(d, d.Replying(), d.Replying().SendSegments());
    AbsorbsThen(d, d.Replying(), d.Replying().FillAndSend());
  }

  lemma AckReceiveAbsorbs(c: ConnState, seg: TcpSegment)
    requires c.Usable()
    ensures c.Acked(seg).Received(seg).Usable() && Absorbs(c, c.Acked(seg).Received(seg))
    ensures c.Received(seg).Usable() && Absorbs(c, c.Received(seg))
  {
    AckKeeps(c.sender, seg.header.ackno, seg.header.win);
    ProgressForward(c.sender, c.Acked(seg).sender);
    ReceiveMonotone(c.receiver, seg);
  }

  lemma HandledOrderly(c: ConnState, seg: TcpSegment, c': ConnState)
    requires c.Usable() && c.receiver.SegmentReceived(seg).WellFormed() && Handled(c, seg, c')
    ensures Orderly(c, c') && c'.elapsed == c.elapsed
  {
    var b, d, r := c.GetBranch(), c.Acked(seg).Received(seg), c.Received(seg);
    AckReceiveAbsorbs(c, seg);
    if c' == c || c' == d {
    } else if b == Branch.Listen {
      FillOrderly(r);
      AbsorbsThen(c, r, c');
    } else if b == Branch.SynSent && Answers(r, c') {
      AnswersOrderly(r, c');
      AbsorbsThen(c, r, c');
    } else {
      AnswersOrderly(d, c');
      AbsorbsThen(c, d, c');
    }
  }

  lemma ArrivesOrderly(c: ConnState, seg: TcpSegment, c': ConnState)
    requires Inv(c) && c.receiver.SegmentReceived(seg).WellFormed() && Arrives(c, seg, c')
    ensures Orderly(c, c') && (c.active ==> c'.elapsed == 0)
  {
    var c0 := c.(elapsed := 0);
    if c.active && !seg.header.rst {
      HandledOrderly(c0, seg, c');
      AbsorbsThen(c, c0, c');
    }
  }

  lemma TickOrderly(c: ConnState, ms: nat)
    requires Inv(c)
    ensures Orderly(c, c.Tick(ms))
    ensures c.active ==> c.Tick(ms).elapsed == c.elapsed + ms
  {
    var d := c.Ticked(ms);
    TickKeeps(c.sender, ms);
    ProgressForward(c.sender, d.sender);
    if c.active && d.sender.retx <= MAX_RETX_ATTEMPTS {
      SendOrderly(d);
      AbsorbsThen(c, d, d.SendSegments());
    }
  }

  lemma WriteOrderly(c: ConnState, data: seq<byte>)
    requires Inv(c) && !c.sender.fin
    ensures Orderly(c, c.Write(data)) && c.Write(data).elapsed == c.elapsed
  {
    var d := c.WithStream(c.sender.stream.Write(data));
    FillOrderly(d);
    AbsorbsThen(c, d, d.FillAndSend());
  }

  lemma EndInputOrderly(c: ConnState)
    requires Inv(c)
    ensures Orderly(c, c.EndInput()) && c.EndInput().elapsed == c.elapsed
  {
    var d := c.WithStream(c.sender.stream.(ended := true));
    FillOrderly(d);
    AbsorbsThen(c, d, d.FillAndSend());
  }

  lemma ReadOrderly(c: ConnState, len: nat)
    requires Inv(c)
    ensures Orderly(c, c.ReadInbound(len)) && c.ReadInbound(len).elapsed == c.elapsed
  {
  }

  /** The clock of silence: what one event makes of the time since the last arrival. */
  function Silence(elapsed: nat, e: Event): nat {
    match e
    case Arrival(_) => 0
    case Tick(ms) => elapsed + ms
    case _ => elapsed
  }

  /** Every event is orderly and keeps the clock. */
  lemma StepOrderly(c: ConnState, e: Event, c': ConnState)
    requires Inv(c) && Steps(c, e, c')
    ensures Orderly(c, c')
    ensures c.active ==> c'.elapsed == Silence(c.elapsed, e)
  {
    if Enabled(c, e) {
      match e
      case Arrival(seg) => ArrivesOrderly(c, seg, c');
      case Write(data) => WriteOrderly(c, data);
      case Tick(ms) => TickOrderly(c, ms);
      case EndInput => EndInputOrderly(c);
      case Connect => FillOrderly(c);
      case Read(len) => ReadOrderly(c, len);
    }
  }

  // ---------------------------------------------------------------- whole runs: progress and linger

  lemma {:induction false} RunSnoc(c: ConnState, events: seq<Event>, e: Event)
    requires Inv(c)
    ensures Run(c, events + [e]) == Next(Run(c, events), e)
    decreases |events|
  {
    if events == [] {
      assert (events + [e])[1..] == [];
    } else {
      assert (events + [e])[1..] == events[1..] + [e];
      RunSnoc(Next(c, events[0]), events[1..], e);
    }
  }

  /** Over any run the two summaries only move forward through their states, errors coming last. */
  lemma {:induction false} ForwardProgress(c: ConnState, events: seq<Event>)
    requires Inv(c)
    ensures SenderRank(c.sender) <= SenderRank(Run(c, events).sender)
    ensures ReceiverRank(c.receiver) <= ReceiverRank(Run(c, events).receiver)
    ensures Run(c, events).active ==> c.active
    ensures Run(c, events).rtTimeout == c.rtTimeout
    decreases |events|
  {
    if events == [] {
    } else {
      StepOrderly(c, events[0], Next(c, events[0]));
      RankForward(c, Next(c, events[0]));
      ForwardProgress(Next(c, events[0]), events[1..]);
    }
  }

  /** Milliseconds of ticks since the last arrival of a run. */
  function QuietTime(events: seq<Event>): nat {
    if events == [] then 0 else Silence(QuietTime(events[..|events| - 1]), events[|events| - 1])
  }

  lemma QuietSnoc(events: seq<Event>, e: Event)
    ensures QuietTime(events + [e]) == Silence(QuietTime(events), e)
  {
    assert (events + [e])[..|events|] == events;
  }

  lemma ClockStep(c: ConnState, e: Event, quiet: nat)
    requires Inv(c) && (c.active ==> c.elapsed == quiet)
    ensures Next(c, e).active ==> Next(c, e).elapsed == Silence(quiet, e)
  {
    StepOrderly(c, e, Next(c, e));
  }

  /** While a connection is active its clock shows the quiet time of the run so far. */
  lemma {:induction false} ClockIsQuietTime(start: ConnState, events: seq<Event>)
    requires Inv(start) && start.elapsed == 0
    ensures Run(start, events).active ==> Run(start, events).elapsed == QuietTime(events)
    decreases |events|
  {
    if events == [] {
    } else {
      var before, e := events[..|events| - 1], events[|events| - 1];
      assert events == before + [e];
      ClockIsQuietTime(start, before);
      RunSnoc(start, before, e);
      QuietSnoc(before, e);
      ClockStep(Run(start, before), e, QuietTime(before));
    }
  }

  /**
   * Linger safety: lingering ends only once, because the peer's stream ended before ours; and a
   * connection that stops cleanly while lingering has been quiet for ten timeouts.
   */
  lemma LingerSafety(start: ConnState, events: seq<Event>, e: Event)
    requires Inv(start) && start.elapsed == 0
    ensures var c, c' := Run(start, events), Run(start, events + [e]);
            && (c'.linger ==> c.linger)
            && (c.linger && !c'.linger ==> c'.receiver.InputEnded() && !c'.sender.stream.Eof())
            && (c.active && !c'.active && NoError(c') && c'.linger ==>
                QuietTime(events + [e]) >= 10 * start.rtTimeout)
  {
    var c := Run(start, events);
    RunSnoc(start, events, e);
    StepOrderly(c, e, Next(c, e));
    ClockIsQuietTime(start, events);
    ForwardProgress(start, events + [e]);
    QuietSnoc(events, e);
  }
}
