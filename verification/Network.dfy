/**
 * Whole runs of one sender and one receiver over a network that holds every segment and every
 * acknowledgement number ever sent and may deliver any of them at any time, any number of times.
 */
module Network {
  import opened Integers
  import opened Wrapping
  import opened Segment
  import opened Reassembler
  import opened Receiver
  import opened Sender
  import opened Transfer

  /** `w` is all that was written to the sender, `got` all that was read from the receiver. */
  datatype System = System(
    s: SenderState, r: ReceiverState, w: seq<byte>, got: seq<byte>, segs: set<TcpSegment>, acks: set<u32>)
  {
    /** Everything the receiver has assembled, read or not. */
    function Assembled(): seq<byte> { got + r.reassembler.output.buf }
  }

  function Start(isn: u32, rtTimeout: u16, sendCapacity: nat, recvCapacity: nat): System {
    System(NewSender(sendCapacity, rtTimeout, isn), NewReceiver(recvCapacity), [], [], {}, {})
  }

  datatype Action =
    | Write(data: seq<byte>)
    | EndInput
    | Fill
    | Tick(ms: nat)
    | SendEmpty
    | Transmit
    | DeliverSegment(seg: TcpSegment)
    | ReportAck
    | DeliverAck(ackno: u32, window: u16)
    | Read(len: nat)

  /** Nobody writes after the FIN was sent, and the network only delivers what was sent. */
  predicate Enabled(sys: System, a: Action) {
    match a
    case Write(_) => !sys.s.fin
    case DeliverSegment(seg) => seg in sys.segs
    case DeliverAck(ackno, _) => ackno in sys.acks
    case _ => true
  }

  function Step(sys: System, a: Action): System
    requires sys.s.Valid() && sys.r.WellFormed()
  {
    if !Enabled(sys, a) then sys else
    match a
    case Write(data) =>
      sys.(s := sys.s.(stream := sys.s.stream.Write(data)), w := sys.w + sys.s.stream.Accepted(data))
    case EndInput => sys.(s := sys.s.(stream := sys.s.stream.(ended := true)))
    case Fill => sys.(s := sys.s.FillWindow())
    case Tick(ms) => sys.(s := sys.s.Tick(ms))
    case SendEmpty => sys.(s := sys.s.SendEmpty())
    case Transmit => sys.(s := sys.s.(out := []), segs := sys.segs + set seg | seg in sys.s.out)
    case DeliverSegment(seg) => sys.(r := sys.r.SegmentReceived(seg))
    case ReportAck => if sys.r.syn then sys.(acks := sys.acks + {sys.r.Ackno().value}) else sys
    case DeliverAck(ackno, window) => sys.(s := sys.s.AckReceived(ackno, window))
    case Read(len) => sys.(r := sys.r.Read(len), got := sys.got + sys.r.reassembler.output.Peek(len))
  }

  // ---------------------------------------------------------------- the invariant

  function Src(sys: System): Source { SourceOf(sys.s, sys.w) }

  predicate FitsRange(sys: System) { InRange(Src(sys), sys.r.capacity) }

  predicate AckedBy(ackno: u32, v: nat, sys: System) {
    1 <= v <= sys.r.AbsAckno() && ackno == Wrap(v, sys.s.isn)
  }

  /** The two ends are linked: what is on the wire and in the receiver comes from the sender. */
  ghost predicate Linked(sys: System) {
    && Tracks(sys.r, Src(sys))
    && (forall seg :: seg in sys.segs ==> Genuine(seg, Src(sys)))
    && (forall ackno :: ackno in sys.acks ==> exists v: nat :: AckedBy(ackno, v, sys))
    && sys.s.Base() <= sys.r.AbsAckno()
    && sys.r.reassembler.output.totout <= |sys.w| && sys.got == sys.w[..sys.r.reassembler.output.totout]
  }

  ghost predicate Inv(sys: System) {
    && Faithful(sys.s, sys.w) && sys.r.WellFormed()
    && (FitsRange(sys) ==> Linked(sys))
  }

  lemma StartInv(isn: u32, rtTimeout: u16, sendCapacity: nat, recvCapacity: nat)
    ensures Inv(Start(isn, rtTimeout, sendCapacity, recvCapacity))
  {
    NewValid(recvCapacity);
    NewAgrees(recvCapacity);
  }

  /** A step of the sender alone: the source grows and the first unacknowledged number stays put. */
  lemma SenderStep(sys: System, s: SenderState, w: seq<byte>)
    requires Inv(sys) && Faithful(s, w) && Grows(Src(sys), SourceOf(s, w))
    requires FitsRange(sys) ==> s.Base() <= sys.r.AbsAckno()
    ensures Inv(sys.(s := s, w := w))
  {
    var sys' := sys.(s := s, w := w);
    if FitsRange(sys') {
      SourceOfValid(s, w);
      TracksGrows(sys.r, Src(sys), Src(sys'));
      forall seg | seg in sys.segs
        ensures Genuine(seg, Src(sys'))
      {
        GenuineGrows(seg, Src(sys), Src(sys'));
      }
      forall ackno | ackno in sys.acks
        ensures exists v: nat :: AckedBy(ackno, v, sys')
      {
        var v: nat :| AckedBy(ackno, v, sys);
        assert AckedBy(ackno, v, sys');
      }
    }
  }

  /** A step of the receiver alone: it stays on track and its ackno does not move back. */
  lemma ReceiverStep(sys: System, r: ReceiverState, got: seq<byte>)
    requires Inv(sys) && r.WellFormed() && r.capacity == sys.r.capacity
    requires FitsRange(sys) ==>
      && Tracks(r, Src(sys)) && sys.r.AbsAckno() <= r.AbsAckno()
      && r.reassembler.output.totout <= |sys.w| && got == sys.w[..r.reassembler.output.totout]
    ensures Inv(sys.(r := r, got := got))
  {
    var sys' := sys.(r := r, got := got);
    if FitsRange(sys') {
      forall ackno | ackno in sys.acks
        ensures exists v: nat :: AckedBy(ackno, v, sys')
      {
        var v: nat :| AckedBy(ackno, v, sys);
        assert AckedBy(ackno, v, sys');
      }
    }
  }

  /** A genuine ackno, however stale, never makes the sender forget what is not yet assembled. */
  lemma AckStep(sys: System, ackno: u32, window: u16)
    requires Inv(sys) && ackno in sys.acks
    ensures Inv(Step(sys, DeliverAck(ackno, window)))
  {
    var s' := sys.s.AckReceived(ackno, window);
    AckFaithful(sys.s, sys.w, ackno, window);
    AckKeeps(sys.s, ackno, window);
    if FitsRange(sys) {
      var v: nat :| AckedBy(ackno, v, sys);
      AcknoSent(sys.r, Src(sys));
      AckWithin(sys.s, v, window, sys.r.AbsAckno());
    }
    SenderStep(sys, s', sys.w);
  }

  lemma DeliverStep(sys: System, seg: TcpSegment)
    requires Inv(sys) && seg in sys.segs
    ensures Inv(Step(sys, DeliverSegment(seg)))
  {
    ReceiveMonotone(sys.r, seg);
    if FitsRange(sys) {
      ReceiveGenuine(sys.r, seg, Src(sys));
    }
    ReceiverStep(sys, sys.r.SegmentReceived(seg), sys.got);
  }

  lemma ReadWellFormed(r: ReceiverState, len: nat)
    requires r.WellFormed()
    ensures r.Read(len).WellFormed()
  {
  }

  lemma ReadStep(sys: System, len: nat)
    requires Inv(sys)
    ensures Inv(Step(sys, Action.Read(len)))
  {
    var out := sys.r.reassembler.output;
    ReadWellFormed(sys.r, len);
    if FitsRange(sys) {
      ReadTracks(sys.r, len, Src(sys));
      SentPrefix(Src(sys));
      ReadsOn(out, Sent(Src(sys)), sys.w, len);
    }
    ReceiverStep(sys, sys.r.Read(len), sys.got + out.Peek(len));
  }

  lemma TransmitStep(sys: System)
    requires Inv(sys)
    ensures Inv(Step(sys, Transmit))
  {
    var s' := sys.s.(out := []);
    FaithfulGrows(sys.s, sys.w, s', sys.w);
    SenderStep(sys, s', sys.w);
    MoreSegments(sys.(s := s'), set seg | seg in sys.s.out);
  }

  lemma MoreSegments(sys: System, more: set<TcpSegment>)
    requires Inv(sys) && forall seg :: seg in more ==> Genuine(seg, Src(sys))
    ensures Inv(sys.(segs := sys.segs + more))
  {
    var sys' := sys.(segs := sys.segs + more);
    if FitsRange(sys) {
      forall ackno | ackno in sys.acks
        ensures exists v: nat :: AckedBy(ackno, v, sys')
      {
        var v: nat :| AckedBy(ackno, v, sys);
        assert AckedBy(ackno, v, sys');
      }
    }
  }

  lemma ReportStep(sys: System)
    requires Inv(sys)
    ensures Inv(Step(sys, ReportAck))
  {
    var sys' := Step(sys, ReportAck);
    if FitsRange(sys) && sys.r.syn {
      assert AckedBy(sys.r.Ackno().value, sys.r.AbsAckno(), sys');
      forall ackno | ackno in sys.acks
        ensures exists v: nat :: AckedBy(ackno, v, sys')
      {
        var v: nat :| AckedBy(ackno, v, sys);
        assert AckedBy(ackno, v, sys');
      }
    }
  }

  lemma WriteStep(sys: System, data: seq<byte>)
    requires Inv(sys) && !sys.s.fin
    ensures Inv(Step(sys, Write(data)))
  {
    WriteFaithful(sys.s, sys.w, data);
    SenderStep(sys, sys.s.(stream := sys.s.stream.Write(data)), sys.w + sys.s.stream.Accepted(data));
  }

  lemma EndInputStep(sys: System)
    requires Inv(sys)
    ensures Inv(Step(sys, EndInput))
  {
    var s' := sys.s.(stream := sys.s.stream.(ended := true));
    FaithfulGrows(sys.s, sys.w, s', sys.w);
    SenderStep(sys, s', sys.w);
  }

  lemma FillStep(sys: System)
    requires Inv(sys)
    ensures Inv(Step(sys, Fill))
  {
    FillFaithful(sys.s, sys.w);
    FillKeeps(sys.s);
    SenderStep(sys, sys.s.FillWindow(), sys.w);
  }

  lemma TickStep(sys: System, ms: nat)
    requires Inv(sys)
    ensures Inv(Step(sys, Tick(ms)))
  {
    TickFaithful(sys.s, sys.w, ms);
    SenderStep(sys, sys.s.Tick(ms), sys.w);
  }

  lemma SendEmptyStep(sys: System)
    requires Inv(sys)
    ensures Inv(Step(sys, SendEmpty))
  {
    EmptyFaithful(sys.s, sys.w);
    SenderStep(sys, sys.s.SendEmpty(), sys.w);
  }

  /** Every action keeps the invariant. */
  lemma StepInv(sys: System, a: Action)
    requires Inv(sys)
    ensures Inv(Step(sys, a))
  {
    if Enabled(sys, a) {
      match a
      case Write(data) => WriteStep(sys, data);
      case EndInput => EndInputStep(sys);
      case Fill => FillStep(sys);
      case Tick(ms) => TickStep(sys, ms);
      case SendEmpty => SendEmptyStep(sys);
      case Transmit => TransmitStep(sys);
      case DeliverSegment(seg) => DeliverStep(sys, seg);
      case ReportAck => ReportStep(sys);
      case DeliverAck(ackno, window) => AckStep(sys, ackno, window);
      case Read(len) => ReadStep(sys, len);
    }
  }

  // ---------------------------------------------------------------- whole runs

  ghost function Next(sys: System, a: Action): System
    requires Inv(sys)
    ensures Inv(Next(sys, a)) && Next(sys, a).r.capacity == sys.r.capacity
  {
    StepInv(sys, a);
    StepCapacity(sys, a);
    Step(sys, a)
  }

  lemma StepCapacity(sys: System, a: Action)
    requires sys.s.Valid() && sys.r.WellFormed()
    ensures Step(sys, a).r.capacity == sys.r.capacity
  {
  }

  /** The state after a run. */
  ghost function Run(sys: System, actions: seq<Action>): System
    requires Inv(sys)
    ensures Inv(Run(sys, actions)) && Run(sys, actions).r.capacity == sys.r.capacity
    decreases |actions|
  {
    if actions == [] then sys else Run(Next(sys, actions[0]), actions[1..])
  }

  lemma AssembledIs(sys: System)
    requires Inv(sys) && FitsRange(sys)
    ensures sys.Assembled() == sys.w[..sys.r.reassembler.output.totin]
  {
    SentPrefix(Src(sys));
    ReadAndBuffered(sys.r.reassembler.output, Sent(Src(sys)), sys.w);
  }

  /**
   * End-to-end safety, for every run: what the receiver has assembled is a prefix of what was
   * written; its input ends only with the whole ended stream; the sender has forgotten nothing
   * that is not yet assembled and the receiver acknowledges nothing that was not sent.
   */
  lemma EndToEnd(isn: u32, rtTimeout: u16, sendCapacity: nat, recvCapacity: nat, actions: seq<Action>)
    ensures var start := Start(isn, rtTimeout, sendCapacity, recvCapacity);
            Inv(start) &&
            var sys := Run(start, actions);
            |sys.w| + 2 <= TWO32 && recvCapacity <= TWO31 ==>
              && sys.Assembled() <= sys.w
              && (sys.r.InputEnded() ==> sys.s.stream.ended && sys.Assembled() == sys.w)
              && sys.s.Base() <= sys.r.AbsAckno() <= sys.s.nextSeqno
              && |sys.r.reassembler.output.buf| + sys.r.reassembler.unassembled <= recvCapacity
  {
    StartInv(isn, rtTimeout, sendCapacity, recvCapacity);
    var sys := Run(Start(isn, rtTimeout, sendCapacity, recvCapacity), actions);
    if |sys.w| + 2 <= TWO32 && recvCapacity <= TWO31 {
      AssembledIs(sys);
      AcknoSent(sys.r, Src(sys));
      WithinCapacity(sys.r.reassembler);
    }
  }

  lemma StepEdge(sys: System, a: Action)
    requires Inv(sys) && sys.r.syn
    ensures Next(sys, a).r.syn && RightEdge(sys.r) <= RightEdge(Next(sys, a).r)
  {
    match a
    case DeliverSegment(seg) =>
      ReceiveMonotone(sys.r, seg);
      EdgeNeverRetreats(sys.r, seg, 0);
    case Read(len) => EdgeNeverRetreats(sys.r, TcpSegment(EMPTY_HEADER, []), len);
    case _ =>
  }

  /** In no run does the right edge of the advertised window retreat. */
  lemma {:induction false} RunEdge(sys: System, actions: seq<Action>)
    requires Inv(sys) && sys.r.syn
    ensures Run(sys, actions).r.syn && RightEdge(sys.r) <= RightEdge(Run(sys, actions).r)
    decreases |actions|
  {
    if actions == [] {
    } else {
      StepEdge(sys, actions[0]);
      RunEdge(Next(sys, actions[0]), actions[1..]);
    }
  }
}
