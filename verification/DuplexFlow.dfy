/**
 * Flow control between two connections: acknowledgements and windows travel together in the
 * segments that the peer stamps, and may arrive late, repeatedly and out of order.
 */
module DuplexFlow {
  import opened Integers
  import opened Wrapping
  import opened Segment
  import opened Receiver
  import opened Sender
  import opened Edge
  import opened Connection
  import opened Lifecycle
  import opened Duplex
  import opened Closing

  // ---------------------------------------------------------------- one connection

  /** `s'` has the window of `s` at the same place, and is within the edge if `s` is. */
  predicate Follows(s: SenderState, s': SenderState, edge: nat) {
    s'.Base() == s.Base() && s'.win == s.win && (Keeps(s, edge) ==> Keeps(s', edge))
  }

  lemma SendFollows(d: ConnState, edge: nat)
    requires d.Usable()
    ensures Follows(d.sender, d.SendSegments().sender, edge)
  {
    SendHalves(d);
  }

  lemma FillFollows(d: ConnState, edge: nat)
    requires d.Usable()
    ensures Follows(d.sender, d.FillAndSend().sender, edge)
  {
    FillKeeps(d.sender);
    SendHalves(d.(sender := d.sender.FillWindow()));
    if Keeps(d.sender, edge) {
      FillKeepsEdge(d.sender, edge);
    }
  }

  lemma ReplyFollows(d: ConnState, edge: nat)
    requires d.Usable()
    ensures d.Replying().Usable() && Follows(d.sender, d.Replying().sender, edge)
  {
  }

  lemma AnswersFollow(d: ConnState, c: ConnState, edge: nat)
    requires d.Usable() && Answers(d, c)
    ensures Follows(d.sender, c.sender, edge)
  {
    ReplyFollows(d, edge);
    if c == d.SendSegments() {
      SendFollows(d, edge);
    } else if c == d.Replying().SendSegments() {
      SendFollows(d.Replying(), edge);
    } else if c == d.FillAndSend() {
      FillFollows(d, edge);
    } else {
      FillFollows(d.Replying(), edge);
    }
  }

  lemma OutcomeFollows(c: ConnState, seg: TcpSegment, c': ConnState, heeded: bool, edge: nat)
    requires c.Usable() && c.Acked(seg).Received(seg).Usable() && c.Received(seg).Usable()
    requires if heeded then c' == c.Acked(seg).Received(seg) || Answers(c.Acked(seg).Received(seg), c')
             else c' == c || Answers(c.Received(seg), c')
    ensures Follows(if heeded then c.Acked(seg).sender else c.sender, c'.sender, edge)
  {
    if heeded {
      if c' != c.Acked(seg).Received(seg) {
        AnswersFollow(c.Acked(seg).Received(seg), c', edge);
      }
    } else if c' != c {
      AnswersFollow(c.Received(seg), c', edge);
    }
  }

  lemma ArrivalFollows(c: ConnState, seg: TcpSegment, edge: nat)
    requires c.Usable()
    ensures Follows(if Heeds(c, seg) then c.Acked(seg).sender else c.sender, c.SegmentReceived(seg).sender, edge)
  {
    if c.active && !seg.header.rst {
      var c0 := c.(elapsed := 0);
      HeardSame(c, seg);
      AckReceiveAbsorbs(c0, seg);
      DispatchReads(c0, c0.GetBranch(), seg);
      OutcomeFollows(c0, seg, c0.Dispatch(c0.GetBranch(), seg), Heeds(c, seg), edge);
    }
  }

  /** An arrival that is read and whose window, counted from what it acknowledges, ends beyond the edge. */
  predicate Oversteps(c: ConnState, seg: TcpSegment, edge: nat)
    requires c.sender.Tiled()
  {
    var a := Unwrap(seg.header.ackno, c.sender.isn, c.sender.nextSeqno);
    Heeds(c, seg) && a <= c.sender.nextSeqno && c.sender.Acknowledge(a).Base() + seg.header.win > edge
  }

  /** Any arrival at all keeps a connection within the edge exactly unless it oversteps. */
  lemma ArrivalKeepsIff(c: ConnState, seg: TcpSegment, edge: nat)
    requires c.Usable() && Keeps(c.sender, edge)
    ensures Keeps(c.SegmentReceived(seg).sender, edge) <==> !Oversteps(c, seg, edge)
  {
    ArrivalFollows(c, seg, edge);
    if Heeds(c, seg) {
      AckKeepsExactly(c.sender, seg.header.ackno, seg.header.win, edge);
    }
  }

  lemma TickFollows(c: ConnState, ms: nat, edge: nat)
    requires Inv(c)
    ensures Follows(c.sender, c.Tick(ms).sender, edge)
  {
    TickKeeps(c.sender, ms);
    SendHalves(c.Ticked(ms));
  }

  lemma WriteFollows(c: ConnState, data: seq<byte>, edge: nat)
    requires Inv(c) && !c.sender.fin
    ensures Follows(c.sender, c.Write(data).sender, edge)
  {
    FillFollows(c.WithStream(c.sender.stream.Write(data)), edge);
  }

  lemma EndInputFollows(c: ConnState, edge: nat)
    requires Inv(c)
    ensures Follows(c.sender, c.EndInput().sender, edge)
  {
    FillFollows(c.WithStream(c.sender.stream.(ended := true)), edge);
  }

  /** No other event moves the window. */
  lemma StepFollows(c: ConnState, e: Event, edge: nat)
    requires Inv(c) && !e.Arrival?
    ensures Follows(c.sender, Next(c, e).sender, edge)
  {
    if Enabled(c, e) {
      match e
      case Write(data) => WriteFollows(c, data, edge);
      case Tick(ms) => TickFollows(c, ms, edge);
      case EndInput => EndInputFollows(c, edge);
      case Connect => FillFollows(c, edge);
      case Read(len) =>
    }
  }

  // ---------------------------------------------------------------- what the peer offers

  /** The right edge that a segment stamped by this receiver advertises. */
  function Offer(r: ReceiverState): int { r.AbsAckno() + U16(r.capacity - |r.StreamOut().buf|) }

  /** Two connections, and the highest right edge that the right one has advertised; at first, the SYN's. */
  datatype Flow = Flow(p: Pair, edge: nat)

  /** The right side has put a stamped segment on its way. */
  ghost predicate Advertises(b: Endpoint, b': Endpoint) {
    exists seg :: seg in b'.conn.out && seg !in b.conn.out && seg.header.ack
  }

  ghost function FlowStep(f: Flow, x: Action): Flow
    requires PairInv(f.p)
    ensures PairInv(FlowStep(f, x).p)
  {
    var q := PairStep(f.p, x);
    Flow(q, if Advertises(f.p.b, q.b) then Max(f.edge, Offer(q.b.conn.receiver)) else f.edge)
  }

  ghost function FlowRun(f: Flow, actions: seq<Action>): Flow
    requires PairInv(f.p)
    ensures PairInv(FlowRun(f, actions).p)
    decreases |actions|
  {
    if actions == [] then f else FlowRun(FlowStep(f, actions[0]), actions[1..])
  }

  predicate Within(f: Flow) { Keeps(f.p.a.conn.sender, f.edge) }

  ghost predicate OversteppingAction(f: Flow, x: Action)
    requires PairInv(f.p)
  {
    x.At? && x.left && x.e.Arrival? && x.e.seg in f.p.b.net && Oversteps(f.p.a.conn, x.e.seg, f.edge)
  }

  ghost predicate NeverOversteps(f: Flow, actions: seq<Action>)
    requires PairInv(f.p)
    decreases |actions|
  {
    actions == [] || (!OversteppingAction(f, actions[0]) && NeverOversteps(FlowStep(f, actions[0]), actions[1..]))
  }

  ghost predicate AlwaysWithin(f: Flow, actions: seq<Action>)
    requires PairInv(f.p)
    decreases |actions|
  {
    Within(f) && (actions == [] || AlwaysWithin(FlowStep(f, actions[0]), actions[1..]))
  }

  /** A step takes the left side out of the edge exactly if it is an overstepping arrival. */
  lemma StepWithinIff(f: Flow, x: Action)
    requires PairInv(f.p) && Within(f)
    ensures Within(FlowStep(f, x)) <==> !OversteppingAction(f, x)
  {
    var c, f' := f.p.a.conn, FlowStep(f, x);
    if x.At? && x.left && Possible(x.e, f.p.b) {
      assert f'.edge == f.edge;
      if x.e.Arrival? {
        ArrivalKeepsIff(c, x.e.seg, f.edge);
      } else {
        StepFollows(c, x.e, f.edge);
      }
    } else {
      KeepsMore(f'.p.a.conn.sender, f.edge, f'.edge);
    }
  }

  lemma {:induction false} RunWithinIff(f: Flow, actions: seq<Action>)
    requires PairInv(f.p) && Within(f)
    ensures AlwaysWithin(f, actions) <==> NeverOversteps(f, actions)
    ensures NeverOversteps(f, actions) ==> Within(FlowRun(f, actions))
    decreases |actions|
  {
    if actions == [] {
    } else {
      StepWithinIff(f, actions[0]);
      if Within(FlowStep(f, actions[0])) {
        RunWithinIff(FlowStep(f, actions[0]), actions[1..]);
      }
    }
  }

  // ---------------------------------------------------------------- the edge and the receiver's window

  predicate Backed(r: ReceiverState, edge: nat)
    requires r.WellFormed()
  {
    edge == 1 || (r.syn && edge <= RightEdge(r))
  }

  lemma BackedLater(r: ReceiverState, r': ReceiverState, edge: nat)
    requires r.WellFormed() && r'.WellFormed() && Backed(r, edge)
    requires r.syn ==> r'.syn && RightEdge(r) <= RightEdge(r')
    ensures Backed(r', edge)
  {
  }

  lemma ErrorEdge(r: ReceiverState)
    requires r.WellFormed()
    ensures r.SetError().WellFormed() && RightEdge(r.SetError()) == RightEdge(r)
  {
  }

  /** No event moves the receiver's right edge back. */
  lemma StepAdvances(c: ConnState, e: Event)
    requires Inv(c) && c.receiver.syn
    ensures Next(c, e).receiver.syn && RightEdge(c.receiver) <= RightEdge(Next(c, e).receiver)
  {
    ErrorEdge(c.receiver);
    if e.Arrival? {
      ArrivesReceiver(c, e.seg, Next(c, e));
      EdgeNeverRetreats(c.receiver, e.seg, 0);
      ReceiveMonotone(c.receiver, e.seg);
    } else if e.Read? {
      EdgeNeverRetreats(c.receiver, SYN, e.len);
    } else {
      OtherReceiver(c, e, Next(c, e));
    }
  }

  lemma ArrivesReceiver(c: ConnState, seg: TcpSegment, c': ConnState)
    requires c.Usable() && c.receiver.SegmentReceived(seg).WellFormed() && Arrives(c, seg, c')
    ensures c'.receiver in {c.receiver, c.receiver.SegmentReceived(seg), c.receiver.SetError()}
  {
    if c.active && !seg.header.rst {
      HandledReceiver(c.(elapsed := 0), seg, c');
    }
  }

  lemma OfferWithin(r: ReceiverState)
    requires r.WellFormed() && r.syn
    ensures Offer(r) <= RightEdge(r)
  {
  }

  lemma AdvertisesSyn(b: Endpoint, b': Endpoint)
    requires Speaks(b.conn, b'.conn) && Advertises(b, b')
    ensures b'.conn.receiver.syn
  {
  }

  lemma StepBacked(f: Flow, x: Action)
    requires AckInv(f.p) && Backed(f.p.b.conn.receiver, f.edge)
    ensures Backed(FlowStep(f, x).p.b.conn.receiver, FlowStep(f, x).edge)
  {
    var b, b' := f.p.b, FlowStep(f, x).p.b;
    if x.At? && !x.left && Possible(x.e, f.p.a) {
      if b.conn.receiver.syn {
        StepAdvances(b.conn, x.e);
      }
      BackedLater(b.conn.receiver, b'.conn.receiver, f.edge);
      if Advertises(b, b') {
        StepSpeaks(b.conn, x.e, b'.conn);
        AdvertisesSyn(b, b');
        OfferWithin(b'.conn.receiver);
      }
    }
  }

  lemma {:induction false} RunBacked(f: Flow, actions: seq<Action>)
    requires AckInv(f.p) && Backed(f.p.b.conn.receiver, f.edge)
    ensures Backed(FlowRun(f, actions).p.b.conn.receiver, FlowRun(f, actions).edge)
    decreases |actions|
  {
    if actions == [] {
    } else {
      StepAckInv(f.p, actions[0]);
      StepBacked(f, actions[0]);
      RunBacked(FlowStep(f, actions[0]), actions[1..]);
    }
  }

  /**
   * Flow control between two connections, for every run: the left side and its window stay within
   * the highest right edge that the right side has advertised, but for one number, a probe, if and
   * only if no arrival oversteps; and that edge is still inside the right side's window.
   */
  lemma DuplexFlowIff(isnA: u32, isnB: u32, rtA: u16, rtB: u16, sendA: nat, sendB: nat, recvA: nat, recvB: nat,
                      actions: seq<Action>)
    ensures var start := Flow(Pair(Fresh(isnA, rtA, sendA, recvA), Fresh(isnB, rtB, sendB, recvB)), 1);
            PairInv(start.p) &&
            var f := FlowRun(start, actions);
            && (AlwaysWithin(start, actions) <==> NeverOversteps(start, actions))
            && (NeverOversteps(start, actions) ==> f.p.a.conn.sender.nextSeqno <= f.edge + 1)
            && Backed(f.p.b.conn.receiver, f.edge)
  {
    var start := Flow(Pair(Fresh(isnA, rtA, sendA, recvA), Fresh(isnB, rtB, sendB, recvB)), 1);
    FreshInv(isnA, isnB, rtA, rtB, sendA, sendB, recvA, recvB);
    RunWithinIff(start, actions);
    RunBacked(start, actions);
  }

  // ---------------------------------------------------------------- which arrivals overstep

  predicate OfferAt(seg: TcpSegment, v: nat, isn: u32, rack: nat, edge: nat) {
    AckAt(seg, v, isn, rack) && v + seg.header.win <= edge
  }

  /** What a segment of the peer says: an edge that was advertised, or nothing. */
  ghost predicate OfferOf(seg: TcpSegment, isn: u32, rack: nat, edge: nat) {
    if seg.header.ack then exists v: nat :: OfferAt(seg, v, isn, rack, edge)
    else seg.header.ackno == 0 && seg.header.win == 0
  }

  ghost predicate OfferLink(src: Endpoint, dst: Endpoint, edge: nat) {
    var isn, rack := src.conn.sender.isn, dst.conn.receiver.AbsAckno();
    Applies(src, dst) ==>
      && (forall seg :: seg in dst.net ==> OfferOf(seg, isn, rack, edge))
      && (forall seg :: seg in dst.conn.out ==> OfferOf(seg, isn, rack, edge))
  }

  lemma OfferGrows(seg: TcpSegment, isn: u32, rack: nat, edge: nat, rack': nat, edge': nat)
    requires OfferOf(seg, isn, rack, edge) && rack <= rack' && edge <= edge'
    ensures OfferOf(seg, isn, rack', edge')
  {
    if seg.header.ack {
      var v: nat :| OfferAt(seg, v, isn, rack, edge);
      assert OfferAt(seg, v, isn, rack', edge');
    }
  }

  lemma OfferSource(src: Endpoint, dst: Endpoint, e: Event, edge: nat)
    requires Coupled(src, dst) && OfferLink(src, dst, edge)
    ensures OfferLink(Act(src, e), dst, edge)
  {
    StepContinues(src.conn, src.w, e, Next(src.conn, e));
  }

  /** An event at the destination: what it newly offers is what its receiver then has. */
  lemma OfferDestination(src: Endpoint, dst: Endpoint, e: Event, edge: nat, dst': Endpoint, edge': nat)
    requires Coupled(src, dst) && Coupled(dst, src) && OfferLink(src, dst, edge) && Possible(e, src)
    requires BareQueue(dst.conn.sender) && dst' == Act(dst, e) && edge <= edge'
    requires Advertises(dst, dst') ==> Offer(dst'.conn.receiver) <= edge'
    ensures OfferLink(src, dst', edge')
  {
    var isn, rack, rack' := src.conn.sender.isn, dst.conn.receiver.AbsAckno(), dst'.conn.receiver.AbsAckno();
    StepSpeaks(dst.conn, e, dst'.conn);
    StepCapacity(dst.conn, e);
    if Applies(src, dst) {
      StepTracks(dst.conn, dst.got, e, SrcOf(src.conn, src.w), dst'.conn);
      forall seg | seg in dst.net || seg in dst'.conn.out
        ensures OfferOf(seg, isn, rack', edge')
      {
        if seg in dst.net || seg in dst.conn.out {
          OfferGrows(seg, isn, rack, edge, rack', edge');
        } else if seg.header.ack {
          assert OfferAt(seg, rack', isn, rack', edge');
        }
      }
    }
  }

  lemma OfferTransmit(src: Endpoint, dst: Endpoint, edge: nat)
    requires OfferLink(src, dst, edge)
    ensures OfferLink(Sends(src), dst, edge) && OfferLink(src, Sends(dst), edge)
  {
  }

  ghost predicate FlowInv(f: Flow) { AckInv(f.p) && OfferLink(f.p.a, f.p.b, f.edge) }

  lemma StepFlowInv(f: Flow, x: Action)
    requires FlowInv(f)
    ensures FlowInv(FlowStep(f, x))
  {
    var f' := FlowStep(f, x);
    StepAckInv(f.p, x);
    match x
    case Transmit(left) => OfferTransmit(f.p.a, f.p.b, f.edge);
    case At(left, e) =>
      if left && Possible(e, f.p.b) {
        OfferSource(f.p.a, f.p.b, e, f.edge);
      } else if !left && Possible(e, f.p.a) {
        OfferDestination(f.p.a, f.p.b, e, f.edge, f'.p.b, f'.edge);
      }
  }

  /** With ACK, the outdated ones do whose window, counted from what is acknowledged, ends beyond the edge. */
  lemma FlaggedOverstepsIff(c: ConnState, seg: TcpSegment, v: nat, rack: nat, edge: nat)
    requires c.Usable() && Keeps(c.sender, edge) && OfferAt(seg, v, c.sender.isn, rack, edge)
    requires rack <= c.sender.nextSeqno <= TWO32
    ensures var s := c.sender;
            Oversteps(c, seg, edge) <==>
            && Heeds(c, seg) && Unwrap(seg.header.ackno, s.isn, s.nextSeqno) < s.Base()
            && s.Base() + seg.header.win > edge
  {
    var s := c.sender;
    UnwrapStale(v, s.isn, s.nextSeqno);
    AcknowledgeKeeps(s, v);
    if v < s.Base() {
      OutdatedRemovesNothing(s, v);
    }
  }

  /** Without ACK, those that are read and make the sender forget past the edge. */
  lemma BareOverstepsIff(c: ConnState, seg: TcpSegment, edge: nat)
    requires c.Usable() && Keeps(c.sender, edge) && seg.header.ackno == 0 && seg.header.win == 0
    requires c.sender.nextSeqno <= TWO32
    ensures Oversteps(c, seg, edge) <==>
            Heeds(c, seg) && ReadsAsAck(c.sender) && FlightBetween(c.sender.outstanding, edge, RawZero(c.sender))
  {
    UnflaggedAckIff(c.sender);
    AcknowledgePassesIff(c.sender, Unwrap(0, c.sender.isn, c.sender.nextSeqno), edge);
  }

  /** Which of the segments that the right side has sent overstep when they arrive. */
  lemma ArrivalOverstepsIff(f: Flow, seg: TcpSegment)
    requires FlowInv(f) && Applies(f.p.a, f.p.b) && Within(f) && seg in f.p.b.net
    ensures var c := f.p.a.conn;
            Oversteps(c, seg, f.edge) <==>
            && Heeds(c, seg)
            && if seg.header.ack then
                 && Unwrap(seg.header.ackno, c.sender.isn, c.sender.nextSeqno) < c.sender.Base()
                 && c.sender.Base() + seg.header.win > f.edge
               else ReadsAsAck(c.sender) && FlightBetween(c.sender.outstanding, f.edge, RawZero(c.sender))
  {
    var c, rack := f.p.a.conn, f.p.b.conn.receiver.AbsAckno();
    AcknoWithin(f.p.a, f.p.b);
    if seg.header.ack {
      var v: nat :| OfferAt(seg, v, c.sender.isn, rack, f.edge);
      FlaggedOverstepsIff(c, seg, v, rack, f.edge);
    } else {
      BareOverstepsIff(c, seg, f.edge);
    }
  }

  /** An arrival at the left side that is read carries ACK and is not outdated. */
  predicate Current(c: ConnState, seg: TcpSegment) {
    Heeds(c, seg) ==>
      seg.header.ack && Unwrap(seg.header.ackno, c.sender.isn, c.sender.nextSeqno) >= c.sender.Base()
  }

  ghost predicate AllCurrent(f: Flow, actions: seq<Action>)
    requires PairInv(f.p)
    decreases |actions|
  {
    actions == [] ||
    (var x := actions[0];
     && (x.At? && x.left && x.e.Arrival? ==> Current(f.p.a.conn, x.e.seg))
     && AllCurrent(FlowStep(f, x), actions[1..]))
  }

  lemma {:induction false} FlowRunPair(f: Flow, actions: seq<Action>)
    requires PairInv(f.p)
    ensures FlowRun(f, actions).p == PairRun(f.p, actions)
    decreases |actions|
  {
    if actions == [] {
    } else {
      FlowRunPair(FlowStep(f, actions[0]), actions[1..]);
    }
  }

  lemma CurrentStays(f: Flow, x: Action)
    requires FlowInv(f) && Applies(f.p.a, f.p.b) && Within(f)
    requires x.At? && x.left && x.e.Arrival? ==> Current(f.p.a.conn, x.e.seg)
    ensures !OversteppingAction(f, x)
  {
    if OversteppingAction(f, x) {
      ArrivalOverstepsIff(f, x.e.seg);
    }
  }

  lemma {:induction false} CurrentWithin(f: Flow, actions: seq<Action>)
    requires FlowInv(f) && Within(f) && AllCurrent(f, actions)
    requires Applies(PairRun(f.p, actions).a, PairRun(f.p, actions).b)
    ensures NeverOversteps(f, actions)
    decreases |actions|
  {
    if actions == [] {
    } else {
      var x := actions[0];
      RunLater(f.p, actions);
      CurrentStays(f, x);
      StepWithinIff(f, x);
      StepFlowInv(f, x);
      CurrentWithin(FlowStep(f, x), actions[1..]);
    }
  }

  /**
   * In every run whose left stream stays in range, and in which what the left side reads carries ACK
   * and arrives in order, the left side is never more than one number past the highest edge advertised.
   */
  lemma InOrderFlow(isnA: u32, isnB: u32, rtA: u16, rtB: u16, sendA: nat, sendB: nat, recvA: nat, recvB: nat,
                    actions: seq<Action>)
    ensures var start := Flow(Pair(Fresh(isnA, rtA, sendA, recvA), Fresh(isnB, rtB, sendB, recvB)), 1);
            PairInv(start.p) &&
            var f := FlowRun(start, actions);
            Applies(f.p.a, f.p.b) && AllCurrent(start, actions) ==>
              f.p.a.conn.sender.nextSeqno <= f.edge + 1 && Backed(f.p.b.conn.receiver, f.edge)
  {
    var start := Flow(Pair(Fresh(isnA, rtA, sendA, recvA), Fresh(isnB, rtB, sendB, recvB)), 1);
    FreshInv(isnA, isnB, rtA, rtB, sendA, sendB, recvA, recvB);
    FlowRunPair(start, actions);
    DuplexFlowIff(isnA, isnB, rtA, rtB, sendA, sendB, recvA, recvB, actions);
    if Applies(FlowRun(start, actions).p.a, FlowRun(start, actions).p.b) && AllCurrent(start, actions) {
      CurrentWithin(start, actions);
    }
  }

  // ---------------------------------------------------------------- a run that oversteps

  /** Our SYN and FIN went out in one segment, and nothing is acknowledged. */
  predicate HalfOpen(c: ConnState) {
    && c.active && !c.receiver.InputEnded() && c.sender.isn == TWO32 - 2
    && c.sender.nextSeqno == 2 && c.sender.outgoing == 2 && c.sender.win == 1
    && |c.sender.outstanding| == 1 && c.sender.outstanding[0].End() == 2
  }

  lemma EndedOpens(rtTimeout: u16, sendCapacity: nat, recvCapacity: nat)
    ensures var c := NewConnection(TWO32 - 2, rtTimeout, sendCapacity, recvCapacity);
            Inv(c) && HalfOpen(Next(c, EndInput)) && Next(c, EndInput).receiver == c.receiver
  {
    NewInv(TWO32 - 2, rtTimeout, sendCapacity, recvCapacity);
    var c := NewConnection(TWO32 - 2, rtTimeout, sendCapacity, recvCapacity);
    var d := c.WithStream(c.sender.stream.(ended := true));
    assert d.sender.CanEmit() && d.sender.NextSegment().header.fin && d.sender.FillWindow() == d.sender.Emit();
    SendHalves(d.(sender := d.sender.Emit()));
  }

  lemma SynHeard(c: ConnState)
    requires Inv(c) && HalfOpen(c) && c.receiver == NewReceiver(c.receiver.capacity)
    ensures HalfOpen(Next(c, Arrival(SYN))) && Next(c, Arrival(SYN)).receiver.syn
  {
    var d := c.(elapsed := 0).Received(SYN).Replying();
    ReceiveMonotone(c.receiver, SYN);
    SynReceived(c.receiver);
    SendHalves(d);
    assert c.SegmentReceived(SYN) == d.SendSegments();
  }

  lemma SynReread(c: ConnState)
    requires Inv(c) && HalfOpen(c) && c.receiver.syn
    ensures Oversteps(c, SYN, 1)
  {
    UnflaggedAckIff(c.sender);
    AllAcknowledged(c.sender);
  }

  /**
   * The left side ends its input before it opens, so that SYN and FIN go out together; the right side
   * opens as well, and its SYN arrives twice. The second time it is read as an acknowledgement of the
   * FIN, and the window moves past the edge although nothing was advertised.
   */
  lemma OverstepRun(rtA: u16, rtB: u16, sendA: nat, sendB: nat, recvA: nat, recvB: nat)
    ensures var start := Flow(Pair(Fresh(TWO32 - 2, rtA, sendA, recvA), Fresh(0, rtB, sendB, recvB)), 1);
            PairInv(start.p) &&
            var f := FlowStep(FlowStep(start, At(false, Connect)), Transmit(false));
            var g := FlowStep(FlowStep(f, At(true, EndInput)), At(true, Arrival(SYN)));
            Within(g) && g.edge == 1 && !Within(FlowStep(g, At(true, Arrival(SYN))))
  {
    var start := Flow(Pair(Fresh(TWO32 - 2, rtA, sendA, recvA), Fresh(0, rtB, sendB, recvB)), 1);
    FirstSteps(TWO32 - 2, rtA, rtB, sendA, sendB, recvA, recvB);
    NothingAdvertised(rtA, rtB, sendA, sendB, recvA, recvB);
    var f := FlowStep(FlowStep(start, At(false, Connect)), Transmit(false));
    EndedOpens(rtA, sendA, recvA);
    LastSteps(f, FlowStep(f, At(true, EndInput)));
  }

  lemma NothingAdvertised(rtA: u16, rtB: u16, sendA: nat, sendB: nat, recvA: nat, recvB: nat)
    ensures var start := Flow(Pair(Fresh(TWO32 - 2, rtA, sendA, recvA), Fresh(0, rtB, sendB, recvB)), 1);
            PairInv(start.p) && FlowStep(FlowStep(start, At(false, Connect)), Transmit(false)).edge == 1
  {
    FreshInv(TWO32 - 2, 0, rtA, rtB, sendA, sendB, recvA, recvB);
    ConnectSends(Fresh(0, rtB, sendB, recvB).conn);
  }

  lemma LastSteps(f: Flow, h: Flow)
    requires PairInv(f.p) && f.edge == 1 && SYN in f.p.b.net && h == FlowStep(f, At(true, EndInput))
    requires HalfOpen(h.p.a.conn) && h.p.a.conn.receiver == NewReceiver(h.p.a.conn.receiver.capacity)
    ensures var g := FlowStep(h, At(true, Arrival(SYN)));
            Within(g) && g.edge == 1 && !Within(FlowStep(g, At(true, Arrival(SYN))))
  {
    var g := FlowStep(h, At(true, Arrival(SYN)));
    SynHeard(h.p.a.conn);
    SynReread(g.p.a.conn);
    HalfOpenWithin(g.p.a.conn);
    StepWithinIff(g, At(true, Arrival(SYN)));
  }

  lemma HalfOpenWithin(c: ConnState)
    requires Inv(c) && HalfOpen(c)
    ensures Keeps(c.sender, 1)
  {
  }
}
