/**
 * Flow control between one sender and one receiver: how far the sender gets with respect to the
 * right edges that the receiver has advertised (section 3.7 of RFC 793).
 */
module FlowControl {
  import opened Integers
  import opened Wrapping
  import opened Segment
  import Reassembler
  import opened Receiver
  import opened Sender
  import opened Edge
  import opened Transfer
  import opened Network

  /** An acknowledgement as reported: the absolute ackno and the 16-bit window that went with it. */
  datatype Report = Report(v: nat, window: u16)

  function Advertised(r: ReceiverState): Report
    requires r.WellFormed()
  {
    Report(r.AbsAckno(), U16(r.WindowSize()))
  }

  /** A system, everything it has reported, and the highest right edge among that; at first, the SYN's. */
  datatype Watched = Watched(sys: System, edge: nat, reports: set<Report>)

  /** What a step needs. */
  predicate Runs(sys: System) { sys.s.Valid() && sys.r.WellFormed() }

  lemma StepRuns(sys: System, a: Action)
    requires Runs(sys)
    ensures Runs(Step(sys, a))
  {
    match a
    case Write(data) =>
    case EndInput =>
    case Fill => FillKeeps(sys.s);
    case Tick(ms) => TickKeeps(sys.s, ms);
    case SendEmpty =>
    case Transmit =>
    case DeliverSegment(seg) => ReceiveMonotone(sys.r, seg);
    case ReportAck =>
    case DeliverAck(ackno, window) => AckKeeps(sys.s, ackno, window);
    case Read(len) =>
  }

  ghost function Watch(x: Watched, a: Action): Watched
    requires Runs(x.sys)
    ensures Runs(Watch(x, a).sys)
  {
    StepRuns(x.sys, a);
    if a.ReportAck? && x.sys.r.syn then
      var rep := Advertised(x.sys.r);
      Watched(Step(x.sys, a), Max(x.edge, rep.v + rep.window), x.reports + {rep})
    else x.(sys := Step(x.sys, a))
  }

  ghost function WatchAll(x: Watched, actions: seq<Action>): Watched
    requires Runs(x.sys)
    ensures Runs(WatchAll(x, actions).sys)
    decreases |actions|
  {
    if actions == [] then x else WatchAll(Watch(x, actions[0]), actions[1..])
  }

  predicate CarriesReport(a: Action, rep: Report, isn: u32) {
    a.DeliverAck? && a.ackno == Wrap(rep.v, isn) && a.window == rep.window
  }

  /** An acknowledgement arrives with the window it was reported with. */
  ghost predicate Paired(x: Watched, a: Action) {
    a.DeliverAck? ==> exists rep :: rep in x.reports && CarriesReport(a, rep, x.sys.s.isn)
  }

  ghost predicate AllPaired(x: Watched, actions: seq<Action>)
    requires Runs(x.sys)
    decreases |actions|
  {
    actions == [] || (Paired(x, actions[0]) && AllPaired(Watch(x, actions[0]), actions[1..]))
  }

  /**
   * An acknowledgement older than what the sender already knows to be acknowledged, with a window
   * that from there reaches beyond `edge`.
   */
  predicate Overreaches(s: SenderState, ackno: u32, window: u16, edge: nat) {
    var v := Unwrap(ackno, s.isn, s.nextSeqno);
    v < s.Base() && s.Base() + window > edge
  }

  predicate OverreachingAction(x: Watched, a: Action) {
    a.DeliverAck? && Enabled(x.sys, a) && Overreaches(x.sys.s, a.ackno, a.window, x.edge)
  }

  ghost predicate NeverOverreaches(x: Watched, actions: seq<Action>)
    requires Runs(x.sys)
    decreases |actions|
  {
    actions == [] || (!OverreachingAction(x, actions[0]) && NeverOverreaches(Watch(x, actions[0]), actions[1..]))
  }

  /** At every point of the run the sender stays within the edge. */
  ghost predicate AlwaysKeeps(x: Watched, actions: seq<Action>)
    requires Runs(x.sys)
    decreases |actions|
  {
    Keeps(x.sys.s, x.edge) && (actions == [] || AlwaysKeeps(Watch(x, actions[0]), actions[1..]))
  }

  // ---------------------------------------------------------------- the sender

  /** An acknowledgement with its own window keeps the sender within the edge, unless it overreaches. */
  lemma AckKeepsEdgeIff(s: SenderState, rep: Report, edge: nat)
    requires s.Valid() && Keeps(s, edge) && rep.v + rep.window <= edge
    requires 1 <= rep.v <= s.nextSeqno <= TWO32
    ensures Keeps(s.AckReceived(Wrap(rep.v, s.isn), rep.window), edge)
            <==> !Overreaches(s, Wrap(rep.v, s.isn), rep.window, edge)
  {
    UnwrapStale(rep.v, s.isn, s.nextSeqno);
    AckKeepsExactly(s, Wrap(rep.v, s.isn), rep.window, edge);
    AcknowledgeKeeps(s, rep.v);
    if rep.v < s.Base() {
      OutdatedRemovesNothing(s, rep.v);
    }
  }

  lemma StaleUnwraps(v: nat, isn: u32, next: nat)
    requires v <= next && next - v <= TWO31 && next + TWO31 <= TWO63
    ensures Unwrap(Wrap(v, isn), isn, next) == v
  {
    CandidateUnwraps(v, isn, next);
  }

  // ---------------------------------------------------------------- the system

  ghost predicate Reported(reports: set<Report>, edge: nat, r: ReceiverState)
    requires r.WellFormed()
  {
    && (forall rep :: rep in reports ==> 1 <= rep.v <= r.AbsAckno() && rep.v + rep.window <= edge)
    && (edge == 1 || (r.syn && edge <= RightEdge(r)))
  }

  ghost predicate FlowInv(x: Watched) {
    Inv(x.sys) && (FitsRange(x.sys) ==> Reported(x.reports, x.edge, x.sys.r))
  }

  lemma ReportedLater(reports: set<Report>, edge: nat, r: ReceiverState, r': ReceiverState)
    requires r.WellFormed() && r'.WellFormed() && Reported(reports, edge, r) && r.AbsAckno() <= r'.AbsAckno()
    requires r.syn ==> r'.syn && RightEdge(r) <= RightEdge(r')
    ensures Reported(reports, edge, r')
  {
  }

  lemma ReportAdds(reports: set<Report>, edge: nat, r: ReceiverState)
    requires r.WellFormed() && r.syn && Reported(reports, edge, r)
    ensures var rep := Advertised(r); Reported(reports + {rep}, Max(edge, rep.v + rep.window), r)
  {
  }

  /** The receiver's side of a step: neither its ackno nor its right edge moves back. */
  lemma StepAdvances(sys: System, a: Action)
    requires Inv(sys)
    ensures var r, r' := sys.r, Step(sys, a).r;
            && r'.WellFormed() && (r.syn ==> r'.syn && RightEdge(r) <= RightEdge(r')) && r.AbsAckno() <= r'.AbsAckno()
  {
    if sys.r.syn {
      StepEdge(sys, a);
    }
    if a.DeliverSegment? {
      ReceiveMonotone(sys.r, a.seg);
    }
  }

  lemma StepRange(sys: System, a: Action)
    requires Inv(sys) && FitsRange(Step(sys, a))
    ensures FitsRange(sys)
  {
  }

  lemma StepReported(x: Watched, a: Action)
    requires FlowInv(x) && FitsRange(x.sys)
    ensures Reported(Watch(x, a).reports, Watch(x, a).edge, Watch(x, a).sys.r)
  {
    StepAdvances(x.sys, a);
    if a.ReportAck? && x.sys.r.syn {
      ReportAdds(x.reports, x.edge, x.sys.r);
      ReportedLater(Watch(x, a).reports, Watch(x, a).edge, x.sys.r, Watch(x, a).sys.r);
    } else {
      ReportedLater(x.reports, x.edge, x.sys.r, Watch(x, a).sys.r);
    }
  }

  lemma OtherKeeps(sys: System, a: Action, edge: nat)
    requires Inv(sys) && Keeps(sys.s, edge) && !a.Fill? && !a.DeliverAck?
    ensures Keeps(Step(sys, a).s, edge)
  {
  }

  lemma AckActionKeepsIff(x: Watched, a: Action, rep: Report)
    requires FlowInv(x) && FitsRange(x.sys) && rep in x.reports && CarriesReport(a, rep, x.sys.s.isn)
    requires Keeps(x.sys.s, x.edge)
    ensures Keeps(x.sys.s.AckReceived(a.ackno, a.window), x.edge)
            <==> !Overreaches(x.sys.s, a.ackno, a.window, x.edge)
  {
    AcknoSent(x.sys.r, Src(x.sys));
    AckKeepsEdgeIff(x.sys.s, rep, x.edge);
  }

  /** A step takes the sender out of the edge exactly if it delivers an overreaching acknowledgement. */
  lemma StepKeepsIff(x: Watched, a: Action)
    requires FlowInv(x) && FitsRange(x.sys) && Keeps(x.sys.s, x.edge) && Paired(x, a)
    ensures Keeps(Step(x.sys, a).s, x.edge) <==> !OverreachingAction(x, a)
  {
    if a.Fill? {
      FillKeepsEdge(x.sys.s, x.edge);
    } else if a.DeliverAck? {
      var rep :| rep in x.reports && CarriesReport(a, rep, x.sys.s.isn);
      AckActionKeepsIff(x, a, rep);
    } else {
      OtherKeeps(x.sys, a, x.edge);
    }
  }

  lemma WatchKeepsIff(x: Watched, a: Action)
    requires FlowInv(x) && FitsRange(x.sys) && Keeps(x.sys.s, x.edge) && Paired(x, a)
    ensures Keeps(Watch(x, a).sys.s, Watch(x, a).edge) <==> !OverreachingAction(x, a)
  {
    StepKeepsIff(x, a);
    if !a.DeliverAck? {
      KeepsMore(Step(x.sys, a).s, x.edge, Watch(x, a).edge);
    }
  }

  lemma WatchInv(x: Watched, a: Action)
    requires FlowInv(x)
    ensures FlowInv(Watch(x, a))
  {
    StepInv(x.sys, a);
    if FitsRange(Step(x.sys, a)) {
      StepRange(x.sys, a);
      StepReported(x, a);
    }
  }

  lemma {:induction false} WatchAllRange(x: Watched, actions: seq<Action>)
    requires Inv(x.sys) && FitsRange(WatchAll(x, actions).sys)
    ensures FitsRange(x.sys)
    decreases |actions|
  {
    if actions == [] {
    } else {
      StepInv(x.sys, actions[0]);
      WatchAllRange(Watch(x, actions[0]), actions[1..]);
      StepRange(x.sys, actions[0]);
    }
  }

  lemma {:induction false} WatchAllKeepsIff(x: Watched, actions: seq<Action>)
    requires FlowInv(x) && FitsRange(WatchAll(x, actions).sys) && AllPaired(x, actions) && Keeps(x.sys.s, x.edge)
    ensures AlwaysKeeps(x, actions) <==> NeverOverreaches(x, actions)
    ensures NeverOverreaches(x, actions) ==>
              FlowInv(WatchAll(x, actions)) && Keeps(WatchAll(x, actions).sys.s, WatchAll(x, actions).edge)
    decreases |actions|
  {
    if actions == [] {
    } else {
      var y := Watch(x, actions[0]);
      WatchAllRange(x, actions);
      WatchKeepsIff(x, actions[0]);
      WatchInv(x, actions[0]);
      if Keeps(y.sys.s, y.edge) {
        WatchAllKeepsIff(y, actions[1..]);
      }
    }
  }

  function StartWatch(isn: u32, rtTimeout: u16, sendCapacity: nat, recvCapacity: nat): Watched {
    Watched(Start(isn, rtTimeout, sendCapacity, recvCapacity), 1, {})
  }

  /**
   * Flow control, for every run in which acknowledgements arrive with their own windows: the sender
   * stays within the highest edge advertised, but for one number, a probe, if and only if no
   * overreaching acknowledgement arrives; and that edge is still inside the receiver's window.
   */
  lemma FlowControlIff(isn: u32, rtTimeout: u16, sendCapacity: nat, recvCapacity: nat, actions: seq<Action>)
    ensures var start := StartWatch(isn, rtTimeout, sendCapacity, recvCapacity);
            Runs(start.sys) &&
            var x := WatchAll(start, actions);
            FitsRange(x.sys) && AllPaired(start, actions) ==>
              && (AlwaysKeeps(start, actions) <==> NeverOverreaches(start, actions))
              && (NeverOverreaches(start, actions) ==>
                  && x.sys.s.nextSeqno <= x.edge + 1
                  && (x.edge == 1 || (x.sys.r.syn && x.edge <= RightEdge(x.sys.r))))
  {
    var start := StartWatch(isn, rtTimeout, sendCapacity, recvCapacity);
    StartInv(isn, rtTimeout, sendCapacity, recvCapacity);
    if FitsRange(WatchAll(start, actions).sys) && AllPaired(start, actions) {
      WatchAllKeepsIff(start, actions);
    }
  }

  // ---------------------------------------------------------------- a run with a stale acknowledgement

  ghost predicate Overruns(x: Watched, actions: seq<Action>) {
    && Runs(x.sys) && AllPaired(x, actions)
    && var y := WatchAll(x, actions); FitsRange(y.sys) && y.sys.s.nextSeqno > y.edge + 1
  }

  /** From `x`, some run in which each acknowledgement arrives with its own window passes the edge. */
  ghost predicate CanOverrun(x: Watched) {
    exists actions :: Overruns(x, actions)
  }

  lemma WatchCons(x: Watched, a: Action, actions: seq<Action>)
    requires Runs(x.sys) && Paired(x, a) && AllPaired(Watch(x, a), actions)
    ensures AllPaired(x, [a] + actions) && WatchAll(x, [a] + actions) == WatchAll(Watch(x, a), actions)
  {
    assert ([a] + actions)[0] == a && ([a] + actions)[1..] == actions;
  }

  lemma StepBack(x: Watched, a: Action, y: Watched)
    requires Runs(x.sys) && Paired(x, a) && y == Watch(x, a) && CanOverrun(y)
    ensures CanOverrun(x)
  {
    var actions :| Overruns(y, actions);
    WatchCons(x, a, actions);
    assert Overruns(x, [a] + actions);
  }

  lemma OverrunNow(x: Watched)
    requires Runs(x.sys) && FitsRange(x.sys) && x.sys.s.nextSeqno > x.edge + 1
    ensures CanOverrun(x)
  {
    assert Overruns(x, []);
  }

  predicate SenderAt(s: SenderState, isn: u32, base: nat, next: nat, win: nat, totin: nat) {
    && s.Valid() && s.syn && !s.fin && !s.stream.ended && s.isn == isn
    && s.Base() == base && s.nextSeqno == next && s.win == win && s.stream.totin == totin
  }

  /** A receiver of capacity two has assembled `buf`, and nobody has read any of it. */
  predicate ReceiverAt(r: ReceiverState, isn: u32, buf: seq<byte>) {
    && r.WellFormed() && r.syn && r.isn == isn && r.capacity == 2
    && r.reassembler.chunks == [Reassembler.SENTINEL] && r.reassembler.posEof == Reassembler.MAX64
    && r.reassembler.output.buf == buf && r.reassembler.output.totin == |buf| && !r.reassembler.output.ended
  }

  /** An acknowledgement of everything sent lets out what the window has room for. */
  lemma AckAll(s: SenderState, isn: u32, base: nat, next: nat, win: nat, totin: nat, window: u16)
    requires SenderAt(s, isn, base, next, win, totin) && 1 <= next <= totin < TWO31
    ensures var s' := s.AckReceived(Wrap(next, isn), window);
            SenderAt(s', isn, next, next + Min(totin - (next - 1), Max(window, 1)), window, totin)
  {
    var t := Acked(s, next, window);
    StaleUnwraps(next, isn, next);
    AckedValid(s, next, window);
    AllAcknowledged(s);
    AcknowledgeKeeps(s, next);
    FillSends(t);
    FillKeeps(t);
    NotEnded(t);
  }

  lemma NotEnded(s: SenderState)
    requires s.Valid() && !s.fin && !s.stream.ended
    ensures !s.FillWindow().fin
  {
    FillKeeps(s);
  }

  /** With room for two and four bytes waiting, the first two go out in one segment. */
  lemma AckReleasesTwo(s: SenderState, isn: u32)
    requires SenderAt(s, isn, 0, 1, 1, 4) && s.out == []
    ensures s.AckReceived(Wrap(1, isn), 2).out == [TcpSegment(EMPTY_HEADER.(seqno := Wrap(1, isn)), s.stream.buf[..2])]
  {
    var t := Acked(s, 1, 2);
    StaleUnwraps(1, isn, 1);
    AckedValid(s, 1, 2);
    AllAcknowledged(s);
    AcknowledgeKeeps(s, 1);
    TwoEmitted(t, isn);
  }

  lemma TwoEmitted(t: SenderState, isn: u32)
    requires SenderAt(t, isn, 1, 1, 2, 4) && t.out == []
    ensures t.FillWindow().out == [TcpSegment(EMPTY_HEADER.(seqno := Wrap(1, isn)), t.stream.buf[..2])]
  {
    assert |t.stream.buf| == 4 && t.NextPayload() == t.stream.buf[..2] && t.CanEmit();
    EmitKeeps(t);
    assert !t.Emit().CanEmit() && t.FillWindow() == t.Emit();
  }

  lemma SynTaken(r: ReceiverState, isn: u32)
    requires r == NewReceiver(2) && r.WellFormed()
    ensures ReceiverAt(r.SegmentReceived(TcpSegment(EMPTY_HEADER.(syn := true, seqno := isn), [])), isn, [])
  {
    ReceiveMonotone(r, TcpSegment(EMPTY_HEADER.(syn := true, seqno := isn), []));
  }

  lemma DataIndex(r: ReceiverState, isn: u32)
    requires r.isn == isn && r.reassembler.unassembled == 0
    ensures r.Index(EMPTY_HEADER.(seqno := Wrap(1, isn))) == 0
  {
    IndexExactIff(1, isn, 0);
  }

  lemma DataTaken(r: ReceiverState, isn: u32, payload: seq<byte>)
    requires ReceiverAt(r, isn, []) && |payload| == 2 && r.reassembler.unassembled == 0
    ensures var r' := r.SegmentReceived(TcpSegment(EMPTY_HEADER.(seqno := Wrap(1, isn)), payload));
            ReceiverAt(r', isn, payload) && r'.reassembler.unassembled == 0
  {
    var h := EMPTY_HEADER.(seqno := Wrap(1, isn));
    DataIndex(r, isn);
    assert r.Noted(h) == r;
    InOrderTaken(r.reassembler, payload);
    TakenAt(r, isn, payload, r.SegmentReceived(TcpSegment(h, payload)));
  }

  lemma TakenAt(r: ReceiverState, isn: u32, payload: seq<byte>, r': ReceiverState)
    requires ReceiverAt(r, isn, []) && |payload| == 2
    requires r' == r.(reassembler := r.reassembler.(output := r.reassembler.output.(buf := payload, totin := 2)))
    ensures ReceiverAt(r', isn, payload)
  {
  }

  lemma InOrderTaken(st: Reassembler.ReassemblerState, payload: seq<byte>)
    requires st.WellFormed() && st.chunks == [Reassembler.SENTINEL] && st.posEof == Reassembler.MAX64
    requires st.capacity == 2 && st.output.buf == [] && st.output.totin == 0 && |payload| == 2
    ensures st.PushSubstring(payload, 0, false)
            == st.(output := st.output.(buf := payload, totin := 2))
  {
    Reassembler.InOrderPush(st, payload);
    assert st.output.Accepted(payload) == payload && [] + payload == payload;
  }

  /** Where the run stands, and the stale acknowledgement that it still holds. */
  ghost predicate Stage(x: Watched, isn: u32, base: nat, next: nat, win: nat, totin: nat, buf: seq<byte>) {
    && Runs(x.sys) && SenderAt(x.sys.s, isn, base, next, win, totin) && ReceiverAt(x.sys.r, isn, buf)
    && x.sys.r.reassembler.unassembled == 0 && |x.sys.w| == totin
    && x.edge == 3 && Report(1, 2) in x.reports && Wrap(1, isn) in x.sys.acks
  }

  lemma DeliverReported(x: Watched, rep: Report)
    requires Runs(x.sys) && rep in x.reports
    ensures Paired(x, DeliverAck(Wrap(rep.v, x.sys.s.isn), rep.window))
  {
    assert CarriesReport(DeliverAck(Wrap(rep.v, x.sys.s.isn), rep.window), rep, x.sys.s.isn);
  }

  lemma FromStale(x: Watched, isn: u32, buf: seq<byte>)
    requires Stage(x, isn, 3, 4, 0, 4, buf)
    ensures CanOverrun(x)
  {
    var a := DeliverAck(Wrap(1, isn), 2);
    StaleUnwraps(1, isn, 4);
    OutdatedRemovesNothing(x.sys.s, 1);
    AckSends(x.sys.s, Wrap(1, isn), 2);
    DeliverReported(x, Report(1, 2));
    assert Watch(x, a).sys.w == x.sys.w && Watch(x, a).sys.r == x.sys.r && Watch(x, a).edge == 3;
    OverrunNow(Watch(x, a));
    StepBack(x, a, Watch(x, a));
  }

  lemma ProbeSent(x: Watched, isn: u32, buf: seq<byte>)
    requires Stage(x, isn, 1, 3, 2, 4, buf) && Wrap(3, isn) in x.sys.acks
    ensures Stage(Watch(x, DeliverAck(Wrap(3, isn), 0)), isn, 3, 4, 0, 4, buf)
  {
    AckAll(x.sys.s, isn, 1, 3, 2, 4, 0);
  }

  lemma FromProbe(x: Watched, isn: u32, buf: seq<byte>)
    requires Stage(x, isn, 1, 3, 2, 4, buf) && Report(3, 0) in x.reports && Wrap(3, isn) in x.sys.acks
    ensures CanOverrun(x)
  {
    var a := DeliverAck(Wrap(3, isn), 0);
    ProbeSent(x, isn, buf);
    DeliverReported(x, Report(3, 0));
    FromStale(Watch(x, a), isn, buf);
    StepBack(x, a, Watch(x, a));
  }

  lemma FullReported(x: Watched, isn: u32, buf: seq<byte>)
    requires Stage(x, isn, 1, 3, 2, 4, buf) && |buf| == 2
    ensures var y := Watch(x, ReportAck);
            Stage(y, isn, 1, 3, 2, 4, buf) && Report(3, 0) in y.reports && Wrap(3, isn) in y.sys.acks
  {
    assert Advertised(x.sys.r) == Report(3, 0);
  }

  lemma FromReported(x: Watched, isn: u32, buf: seq<byte>)
    requires Stage(x, isn, 1, 3, 2, 4, buf) && |buf| == 2
    ensures CanOverrun(x)
  {
    FullReported(x, isn, buf);
    FromProbe(Watch(x, ReportAck), isn, buf);
    StepBack(x, ReportAck, Watch(x, ReportAck));
  }

  lemma DataArrives(x: Watched, isn: u32, payload: seq<byte>, seg: TcpSegment)
    requires Stage(x, isn, 1, 3, 2, 4, []) && |payload| == 2 && seg in x.sys.segs
    requires seg == TcpSegment(EMPTY_HEADER.(seqno := Wrap(1, isn)), payload)
    ensures Stage(Watch(x, DeliverSegment(seg)), isn, 1, 3, 2, 4, payload)
  {
    DataTaken(x.sys.r, isn, payload);
  }

  lemma FromData(x: Watched, isn: u32, payload: seq<byte>, seg: TcpSegment)
    requires Stage(x, isn, 1, 3, 2, 4, []) && |payload| == 2 && seg in x.sys.segs
    requires seg == TcpSegment(EMPTY_HEADER.(seqno := Wrap(1, isn)), payload)
    ensures CanOverrun(x)
  {
    DataArrives(x, isn, payload, seg);
    FromReported(Watch(x, DeliverSegment(seg)), isn, payload);
    StepBack(x, DeliverSegment(seg), Watch(x, DeliverSegment(seg)));
  }

  lemma FromTransmit(x: Watched, isn: u32, payload: seq<byte>, seg: TcpSegment)
    requires Stage(x, isn, 1, 3, 2, 4, []) && |payload| == 2 && seg in x.sys.s.out
    requires seg == TcpSegment(EMPTY_HEADER.(seqno := Wrap(1, isn)), payload)
    ensures CanOverrun(x)
  {
    FromData(Watch(x, Transmit), isn, payload, seg);
    StepBack(x, Transmit, Watch(x, Transmit));
  }

  lemma DataSent(x: Watched, isn: u32)
    requires Stage(x, isn, 0, 1, 1, 4, []) && x.sys.s.out == []
    ensures var y := Watch(x, DeliverAck(Wrap(1, isn), 2));
            && Stage(y, isn, 1, 3, 2, 4, [])
            && TcpSegment(EMPTY_HEADER.(seqno := Wrap(1, isn)), x.sys.s.stream.buf[..2]) in y.sys.s.out
  {
    AckAll(x.sys.s, isn, 0, 1, 1, 4, 2);
    AckReleasesTwo(x.sys.s, isn);
  }

  lemma FromAck(x: Watched, isn: u32)
    requires Stage(x, isn, 0, 1, 1, 4, []) && x.sys.s.out == []
    ensures CanOverrun(x)
  {
    var a, payload := DeliverAck(Wrap(1, isn), 2), x.sys.s.stream.buf[..2];
    DataSent(x, isn);
    DeliverReported(x, Report(1, 2));
    FromTransmit(Watch(x, a), isn, payload, TcpSegment(EMPTY_HEADER.(seqno := Wrap(1, isn)), payload));
    StepBack(x, a, Watch(x, a));
  }

  lemma FromWrite(x: Watched, isn: u32, data: seq<byte>)
    requires Stage(x, isn, 0, 1, 1, 0, []) && x.sys.s.out == [] && |data| == 4 && x.sys.s.stream.capacity >= 4
    ensures CanOverrun(x)
  {
    var a := Action.Write(data);
    FromAck(Watch(x, a), isn);
    StepBack(x, a, Watch(x, a));
  }

  // The opening: the SYN is sent, taken, and acknowledged with a window of two.

  lemma OpenReported(x: Watched, isn: u32)
    requires Runs(x.sys) && SenderAt(x.sys.s, isn, 0, 1, 1, 0) && ReceiverAt(x.sys.r, isn, [])
    requires x.sys.r.reassembler.unassembled == 0 && x.edge == 1 && x.sys.w == []
    ensures Stage(Watch(x, ReportAck), isn, 0, 1, 1, 0, [])
  {
    assert Advertised(x.sys.r) == Report(1, 2);
  }

  lemma FromOpen(x: Watched, isn: u32, data: seq<byte>)
    requires Runs(x.sys) && SenderAt(x.sys.s, isn, 0, 1, 1, 0) && ReceiverAt(x.sys.r, isn, [])
    requires x.sys.r.reassembler.unassembled == 0 && x.edge == 1 && x.sys.w == []
    requires x.sys.s.out == [] && |data| == 4 && x.sys.s.stream.capacity >= 4
    ensures CanOverrun(x)
  {
    OpenReported(x, isn);
    FromWrite(Watch(x, ReportAck), isn, data);
    StepBack(x, ReportAck, Watch(x, ReportAck));
  }

  lemma FromSyn(x: Watched, isn: u32, data: seq<byte>, seg: TcpSegment)
    requires Runs(x.sys) && SenderAt(x.sys.s, isn, 0, 1, 1, 0) && x.sys.r == NewReceiver(2) && x.edge == 1
    requires x.sys.w == []
    requires seg == TcpSegment(EMPTY_HEADER.(syn := true, seqno := isn), []) && seg in x.sys.segs
    requires x.sys.s.out == [] && |data| == 4 && x.sys.s.stream.capacity >= 4
    ensures CanOverrun(x)
  {
    SynTaken(x.sys.r, isn);
    FromOpen(Watch(x, DeliverSegment(seg)), isn, data);
    StepBack(x, DeliverSegment(seg), Watch(x, DeliverSegment(seg)));
  }

  lemma FromSent(x: Watched, isn: u32, data: seq<byte>, seg: TcpSegment)
    requires Runs(x.sys) && SenderAt(x.sys.s, isn, 0, 1, 1, 0) && x.sys.r == NewReceiver(2) && x.edge == 1
    requires x.sys.w == []
    requires seg == TcpSegment(EMPTY_HEADER.(syn := true, seqno := isn), []) && x.sys.s.out == [seg]
    requires |data| == 4 && x.sys.s.stream.capacity >= 4
    ensures CanOverrun(x)
  {
    FromSyn(Watch(x, Transmit), isn, data, seg);
    StepBack(x, Transmit, Watch(x, Transmit));
  }

  lemma SynEmitted(s: SenderState, isn: u32)
    requires s == NewSender(s.stream.capacity, s.initialRto, isn) && s.Valid()
    ensures SenderAt(s.FillWindow(), isn, 0, 1, 1, 0) && s.FillWindow().stream.capacity == s.stream.capacity
    ensures s.FillWindow().out == [TcpSegment(EMPTY_HEADER.(syn := true, seqno := isn), [])]
  {
    assert s.CanEmit() && s.FillWindow() == s.Emit() && Wrap(0, isn) == isn;
    EmitKeeps(s);
  }

  /**
   * Without that condition flow control fails: with a receive capacity of two, a first
   * acknowledgement that arrives again after a later one takes the sender two past the edge.
   */
  lemma StaleRun(isn: u32, rtTimeout: u16, sendCapacity: nat, data: seq<byte>)
    requires sendCapacity >= 4 && |data| == 4
    ensures CanOverrun(StartWatch(isn, rtTimeout, sendCapacity, 2))
  {
    var x := StartWatch(isn, rtTimeout, sendCapacity, 2);
    StartInv(isn, rtTimeout, sendCapacity, 2);
    SynEmitted(x.sys.s, isn);
    FromSent(Watch(x, Fill), isn, data, TcpSegment(EMPTY_HEADER.(syn := true, seqno := isn), []));
    StepBack(x, Fill, Watch(x, Fill));
  }
}
