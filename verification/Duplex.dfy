/**
 * Two full connections over a network that loses, duplicates and reorders: in every run each side
 * assembles a prefix of what the other side's application wrote.
 */
module Duplex {
  import opened Integers
  import opened Segment
  import Reassembler
  import opened Receiver
  import opened Sender
  import opened Transfer
  import opened Connection
  import opened Lifecycle

  // ---------------------------------------------------------------- a connection as a source

  function SrcOf(c: ConnState, w: seq<byte>): Source { SourceOf(c.sender, w) }

  /** Whatever the connection still holds, has queued, or has put on its way out is genuine. */
  ghost predicate Honest(c: ConnState, w: seq<byte>) {
    Faithful(c.sender, w) && forall seg :: seg in c.out ==> Genuine(seg, SrcOf(c, w))
  }

  /** `c'` is still honest about a history that extends the one of `c`. */
  ghost predicate Continues(c: ConnState, w: seq<byte>, c': ConnState, w': seq<byte>) {
    Honest(c', w') && Grows(SrcOf(c, w), SrcOf(c', w'))
  }

  lemma ContinuesTransitive(a: ConnState, b: ConnState, c: ConnState, wa: seq<byte>, wb: seq<byte>, wc: seq<byte>)
    requires Continues(a, wa, b, wb) && Continues(b, wb, c, wc)
    ensures Continues(a, wa, c, wc)
  {
  }

  /** Changing only the sender: what is already on its way out stays genuine. */
  lemma SenderContinues(c: ConnState, w: seq<byte>, s: SenderState, w': seq<byte>)
    requires Honest(c, w) && Faithful(s, w') && Grows(SrcOf(c, w), SourceOf(s, w'))
    ensures Continues(c, w, c.(sender := s), w')
  {
    forall seg | seg in c.out
      ensures Genuine(seg, SourceOf(s, w'))
    {
      GenuineGrows(seg, SrcOf(c, w), SourceOf(s, w'));
    }
  }

  /** The acknowledgement fields do not matter to what a segment says about the stream. */
  lemma StampGenuine(c: ConnState, seg: TcpSegment, src: Source)
    requires c.receiver.WellFormed() && Genuine(seg, src)
    ensures Genuine(c.Stamp(seg), src)
  {
    if seg.SeqLen() > 0 {
      var v: nat :| GenuineAt(seg, v, src);
      assert GenuineAt(c.Stamp(seg), v, src);
    }
  }

  lemma FlushContinues(c: ConnState, w: seq<byte>)
    requires Honest(c, w) && c.receiver.WellFormed()
    ensures Continues(c, w, c.Flushed(), w)
  {
    var c', src := c.Flushed(), SrcOf(c, w);
    FaithfulGrows(c.sender, w, c'.sender, w);
    forall k | 0 <= k < |c'.out|
      ensures Genuine(c'.out[k], src)
    {
      if k < |c.out| {
        assert c'.out[k] == c.out[k] && c.out[k] in c.out;
      } else {
        var seg := c.sender.out[k - |c.out|];
        assert seg in c.sender.out && c'.out[k] == c.Stamp(seg);
        StampGenuine(c, seg, src);
      }
    }
  }

  lemma SendContinues(c: ConnState, w: seq<byte>)
    requires Honest(c, w) && c.receiver.WellFormed()
    ensures Continues(c, w, c.SendSegments(), w)
  {
    FlushContinues(c, w);
  }

  lemma FillContinues(c: ConnState, w: seq<byte>)
    requires Honest(c, w) && c.receiver.WellFormed()
    ensures Continues(c, w, c.FillAndSend(), w)
  {
    var f := c.(sender := c.sender.FillWindow());
    FillKeeps(c.sender);
    FillFaithful(c.sender, w);
    SenderContinues(c, w, f.sender, w);
    SendContinues(f, w);
    ContinuesTransitive(c, f, f.SendSegments(), w, w, w);
  }

  lemma ReplyContinues(c: ConnState, w: seq<byte>)
    requires Honest(c, w)
    ensures Continues(c, w, c.Replying(), w)
  {
    EmptyFaithful(c.sender, w);
    SenderContinues(c, w, c.sender.SendEmpty(), w);
  }

  lemma AnswersContinues(d: ConnState, w: seq<byte>, c: ConnState)
    requires Honest(d, w) && d.receiver.WellFormed() && Answers(d, c)
    ensures Continues(d, w, c, w)
  {
    ReplyContinues(d, w);
    if c == d.SendSegments() {
      SendContinues(d, w);
    } else if c == d.FillAndSend() {
      FillContinues(d, w);
    } else if c == d.Replying().SendSegments() {
      SendContinues(d.Replying(), w);
      ContinuesTransitive(d, d.Replying(), c, w, w, w);
    } else {
      FillContinues(d.Replying(), w);
      ContinuesTransitive(d, d.Replying(), c, w, w, w);
    }
  }

  lemma AckContinues(c: ConnState, w: seq<byte>, seg: TcpSegment)
    requires Honest(c, w)
    ensures Continues(c, w, c.Acked(seg), w)
  {
    AckKeeps(c.sender, seg.header.ackno, seg.header.win);
    AckFaithful(c.sender, w, seg.header.ackno, seg.header.win);
    SenderContinues(c, w, c.Acked(seg).sender, w);
  }

  lemma HandledContinues(c: ConnState, w: seq<byte>, seg: TcpSegment, c': ConnState)
    requires Honest(c, w) && c.Usable() && c.receiver.SegmentReceived(seg).WellFormed() && Handled(c, seg, c')
    ensures Continues(c, w, c', w)
  {
    var b, d, r := c.GetBranch(), c.Acked(seg).Received(seg), c.Received(seg);
    AckContinues(c, w, seg);
    assert Continues(c, w, d, w) && Continues(c, w, r, w);
    if c' == c || c' == d {
    } else if b == Branch.Listen {
      FillContinues(r, w);
      ContinuesTransitive(c, r, c', w, w, w);
    } else if b == Branch.SynSent && Answers(r, c') {
      AnswersContinues(r, w, c');
      ContinuesTransitive(c, r, c', w, w, w);
    } else {
      AnswersContinues(d, w, c');
      ContinuesTransitive(c, d, c', w, w, w);
    }
  }

  /** What an event adds to the history of the outgoing stream. */
  function Written(c: ConnState, w: seq<byte>, e: Event): seq<byte>
    requires c.Usable()
  {
    if e.Write? && Enabled(c, e) then w + c.sender.stream.Accepted(e.data) else w
  }

  lemma ErrorsContinue(c: ConnState, w: seq<byte>, s: SenderState)
    requires Honest(c, w) && s == c.sender.(stream := c.sender.stream.(error := true))
    ensures Continues(c, w, c.(sender := s), w)
  {
    FaithfulGrows(c.sender, w, s, w);
    SenderContinues(c, w, s, w);
  }

  lemma ArrivesContinues(c: ConnState, w: seq<byte>, seg: TcpSegment, c': ConnState)
    requires Inv(c) && Honest(c, w) && c.receiver.SegmentReceived(seg).WellFormed() && Arrives(c, seg, c')
    ensures Continues(c, w, c', w)
  {
    if c.active {
      if seg.header.rst {
        ErrorsContinue(c, w, c'.sender);
      } else {
        HandledContinues(c.(elapsed := 0), w, seg, c');
      }
    }
  }

  lemma ResetContinues(c: ConnState, w: seq<byte>)
    requires Honest(c, w)
    ensures Continues(c, w, c.Reset(), w)
  {
    ErrorsContinue(c, w, c.sender.(stream := c.sender.stream.(error := true)));
  }

  lemma TickContinues(c: ConnState, w: seq<byte>, ms: nat, d: ConnState)
    requires Inv(c) && Honest(c, w) && d == c.Ticked(ms)
    ensures Continues(c, w, d.SendSegments(), w) && Continues(c, w, d.Reset(), w)
  {
    TickFaithful(c.sender, w, ms);
    SenderContinues(c, w, d.sender, w);
    assert Continues(c, w, d, w);
    ResetContinues(d, w);
    SendContinues(d, w);
    ContinuesTransitive(c, d, d.SendSegments(), w, w, w);
    ContinuesTransitive(c, d, d.Reset(), w, w, w);
  }

  lemma TickStepContinues(c: ConnState, w: seq<byte>, ms: nat)
    requires Inv(c) && Honest(c, w)
    ensures Continues(c, w, c.Tick(ms), w)
  {
    TickContinues(c, w, ms, c.Ticked(ms));
  }

  lemma WriteContinues(c: ConnState, w: seq<byte>, data: seq<byte>)
    requires Inv(c) && Honest(c, w) && !c.sender.fin
    ensures Continues(c, w, c.Write(data), w + c.sender.stream.Accepted(data))
  {
    var w' := w + c.sender.stream.Accepted(data);
    if data == [] {
      assert w' == w;
    } else {
      var d := c.WithStream(c.sender.stream.Write(data));
      WriteFaithful(c.sender, w, data);
      SenderContinues(c, w, d.sender, w');
      FillContinues(d, w');
      ContinuesTransitive(c, d, d.FillAndSend(), w, w', w');
    }
  }

  lemma EndInputContinues(c: ConnState, w: seq<byte>)
    requires Inv(c) && Honest(c, w)
    ensures Continues(c, w, c.EndInput(), w)
  {
    var d := c.WithStream(c.sender.stream.(ended := true));
    FaithfulGrows(c.sender, w, d.sender, w);
    SenderContinues(c, w, d.sender, w);
    FillContinues(d, w);
    ContinuesTransitive(c, d, d.FillAndSend(), w, w, w);
  }

  /** As a source, a connection stays honest through every event, hostile segments included. */
  lemma StepContinues(c: ConnState, w: seq<byte>, e: Event, c': ConnState)
    requires Inv(c) && Honest(c, w) && Steps(c, e, c')
    ensures Continues(c, w, c', Written(c, w, e))
  {
    if Enabled(c, e) {
      match e
      case Arrival(seg) => ArrivesContinues(c, w, seg, c');
      case Write(data) => WriteContinues(c, w, data);
      case Tick(ms) => TickStepContinues(c, w, ms);
      case EndInput => EndInputContinues(c, w);
      case Connect => FillContinues(c, w);
      case Read(len) =>
    }
  }

  // ---------------------------------------------------------------- a connection as a destination

  /** What an event takes out of the incoming stream. */
  function Taken(c: ConnState, got: seq<byte>, e: Event): seq<byte> {
    if e.Read? then got + c.receiver.StreamOut().Peek(e.len) else got
  }

  lemma AnswersReceiver(d: ConnState, c: ConnState)
    requires d.receiver.WellFormed() && Answers(d, c)
    ensures c.receiver == d.receiver
  {
    SendHalves(d);
    SendHalves(d.Replying());
    SendHalves(d.(sender := d.sender.FillWindow()));
    SendHalves(d.Replying().(sender := d.Replying().sender.FillWindow()));
  }

  /** The receiver hears of an arriving segment or not at all. */
  lemma HandledReceiver(c: ConnState, seg: TcpSegment, c': ConnState)
    requires c.Usable() && c.receiver.SegmentReceived(seg).WellFormed() && Handled(c, seg, c')
    ensures c'.receiver == c.receiver || c'.receiver == c.receiver.SegmentReceived(seg)
  {
    var d, r := c.Acked(seg).Received(seg), c.Received(seg);
    SendHalves(r.(sender := r.sender.FillWindow()));
    if Answers(d, c') {
      AnswersReceiver(d, c');
    } else if Answers(r, c') {
      AnswersReceiver(r, c');
    }
  }

  lemma ErrorTracks(r: ReceiverState, src: Source)
    requires Tracks(r, src)
    ensures Tracks(r.SetError(), src)
  {
  }

  lemma ArrivesTracks(c: ConnState, seg: TcpSegment, src: Source, c': ConnState)
    requires c.Usable() && Tracks(c.receiver, src) && Genuine(seg, src)
    requires c.receiver.SegmentReceived(seg).WellFormed() && Arrives(c, seg, c')
    ensures Tracks(c'.receiver, src) && c'.receiver.StreamOut().totout == c.receiver.StreamOut().totout
    ensures c.receiver.AbsAckno() <= c'.receiver.AbsAckno()
  {
    ErrorTracks(c.receiver, src);
    ReceiveGenuine(c.receiver, seg, src);
    if c.active && !seg.header.rst {
      HandledReceiver(c.(elapsed := 0), seg, c');
    }
  }

  lemma ReadTracksOn(r: ReceiverState, got: seq<byte>, len: nat, src: Source)
    requires Tracks(r, src) && r.StreamOut().totout <= |src.w| && got == src.w[..r.StreamOut().totout]
    ensures Tracks(r.Read(len), src) && r.Read(len).StreamOut().totout <= |src.w|
    ensures got + r.StreamOut().Peek(len) == src.w[..r.Read(len).StreamOut().totout]
  {
    ReadTracks(r, len, src);
    SentPrefix(src);
    ReadsOn(r.StreamOut(), Sent(src), src.w, len);
  }

  lemma FillReceiver(d: ConnState)
    requires d.receiver.WellFormed()
    ensures d.FillAndSend().receiver == d.receiver
  {
    SendHalves(d.(sender := d.sender.FillWindow()));
  }

  lemma TickReceiver(c: ConnState, ms: nat)
    requires c.Usable()
    ensures c.Tick(ms).receiver == c.receiver || c.Tick(ms).receiver == c.receiver.SetError()
  {
    SendHalves(c.Ticked(ms));
  }

  /** Events other than arrivals and reads leave the receiver alone, but for its error flag. */
  lemma OtherReceiver(c: ConnState, e: Event, c': ConnState)
    requires c.Usable() && !e.Arrival? && !e.Read? && Steps(c, e, c')
    ensures c'.receiver == c.receiver || c'.receiver == c.receiver.SetError()
  {
    match e
    case Write(data) => FillReceiver(c.WithStream(c.sender.stream.Write(data)));
    case Tick(ms) => TickReceiver(c, ms);
    case EndInput => FillReceiver(c.WithStream(c.sender.stream.(ended := true)));
    case Connect => FillReceiver(c);
  }

  /** As a destination, a connection that hears only genuine segments stays on track. */
  lemma StepTracks(c: ConnState, got: seq<byte>, e: Event, src: Source, c': ConnState)
    requires Inv(c) && Steps(c, e, c') && Tracks(c.receiver, src) && (e.Arrival? ==> Genuine(e.seg, src))
    requires c.receiver.StreamOut().totout <= |src.w| && got == src.w[..c.receiver.StreamOut().totout]
    ensures var r' := c'.receiver;
            && Tracks(r', src) && r'.StreamOut().totout <= |src.w|
            && Taken(c, got, e) == src.w[..r'.StreamOut().totout]
            && c.receiver.AbsAckno() <= r'.AbsAckno()
  {
    if e.Arrival? {
      ArrivesTracks(c, e.seg, src, c');
    } else if e.Read? {
      ReadTracksOn(c.receiver, got, e.len, src);
    } else {
      OtherReceiver(c, e, c');
      ErrorTracks(c.receiver, src);
    }
  }

  // ---------------------------------------------------------------- one direction

  /** From `src` with history `w` over `net` to `dst`, whose application has read `got`. */
  ghost predicate Link(src: ConnState, w: seq<byte>, net: set<TcpSegment>, dst: ConnState, got: seq<byte>) {
    && Honest(src, w)
    && (forall seg :: seg in net ==> Genuine(seg, SrcOf(src, w)))
    && (InRange(SrcOf(src, w), dst.receiver.capacity) ==>
        && Tracks(dst.receiver, SrcOf(src, w))
        && dst.receiver.StreamOut().totout <= |w| && got == w[..dst.receiver.StreamOut().totout])
  }

  lemma LinkSource(src: ConnState, w: seq<byte>, net: set<TcpSegment>, dst: ConnState, got: seq<byte>,
                   src': ConnState, w': seq<byte>)
    requires Link(src, w, net, dst, got) && Continues(src, w, src', w')
    ensures Link(src', w', net, dst, got)
  {
    forall seg | seg in net
      ensures Genuine(seg, SrcOf(src', w'))
    {
      GenuineGrows(seg, SrcOf(src, w), SrcOf(src', w'));
    }
    if InRange(SrcOf(src', w'), dst.receiver.capacity) {
      SourceOfValid(src'.sender, w');
      TracksGrows(dst.receiver, SrcOf(src, w), SrcOf(src', w'));
    }
  }

  lemma LinkDestination(src: ConnState, w: seq<byte>, net: set<TcpSegment>, dst: ConnState, got: seq<byte>, e: Event)
    requires Link(src, w, net, dst, got) && Inv(dst) && (e.Arrival? ==> e.seg in net)
    ensures Link(src, w, net, Next(dst, e), Taken(dst, got, e))
  {
    StepCapacity(dst, e);
    if InRange(SrcOf(src, w), dst.receiver.capacity) {
      StepTracks(dst, got, e, SrcOf(src, w), Next(dst, e));
    }
  }

  lemma StepCapacity(c: ConnState, e: Event)
    requires Inv(c)
    ensures Next(c, e).receiver.capacity == c.receiver.capacity
  {
    if e.Arrival? {
      ArrivesCapacity(c, e.seg, Next(c, e));
    } else if !e.Read? {
      OtherReceiver(c, e, Next(c, e));
    }
  }

  lemma ArrivesCapacity(c: ConnState, seg: TcpSegment, c': ConnState)
    requires c.Usable() && c.receiver.SegmentReceived(seg).WellFormed() && Arrives(c, seg, c')
    ensures c'.receiver.capacity == c.receiver.capacity
  {
    ReceiveMonotone(c.receiver, seg);
    if c.active && !seg.header.rst {
      HandledReceiver(c.(elapsed := 0), seg, c');
    }
  }

  /** The network picks up what a connection has put on its way out. */
  lemma LinkTransmit(src: ConnState, w: seq<byte>, net: set<TcpSegment>, dst: ConnState, got: seq<byte>)
    requires Link(src, w, net, dst, got)
    ensures Link(src.(out := []), w, net + (set seg | seg in src.out), dst, got)
  {
  }

  // ---------------------------------------------------------------- both directions

  datatype Endpoint = Endpoint(conn: ConnState, w: seq<byte>, got: seq<byte>, net: set<TcpSegment>) {
    /** Everything this side has assembled, read or not. */
    function Assembled(): seq<byte> { got + conn.receiver.StreamOut().buf }
  }

  /** `near` takes its own events; `far` is whoever it talks to. */
  ghost predicate Coupled(near: Endpoint, far: Endpoint) {
    Inv(near.conn) && Link(near.conn, near.w, near.net, far.conn, far.got)
  }

  datatype Pair = Pair(a: Endpoint, b: Endpoint)

  ghost predicate PairInv(p: Pair) { Coupled(p.a, p.b) && Coupled(p.b, p.a) }

  datatype Action = At(left: bool, e: Event) | Transmit(left: bool)

  /** Segments arrive only from what the other side has sent; anything else may happen any time. */
  predicate Possible(e: Event, far: Endpoint) { e.Arrival? ==> e.seg in far.net }

  ghost function Act(near: Endpoint, e: Event): Endpoint
    requires Inv(near.conn)
  {
    Endpoint(Next(near.conn, e), Written(near.conn, near.w, e), Taken(near.conn, near.got, e), near.net)
  }

  function Sends(near: Endpoint): Endpoint {
    near.(conn := near.conn.(out := []), net := near.net + (set seg | seg in near.conn.out))
  }

  lemma ActCoupled(near: Endpoint, far: Endpoint, e: Event)
    requires Coupled(near, far) && Coupled(far, near) && Possible(e, far)
    ensures Coupled(Act(near, e), far) && Coupled(far, Act(near, e))
  {
    StepContinues(near.conn, near.w, e, Next(near.conn, e));
    LinkSource(near.conn, near.w, near.net, far.conn, far.got, Next(near.conn, e), Written(near.conn, near.w, e));
    LinkDestination(far.conn, far.w, far.net, near.conn, near.got, e);
  }

  lemma SendsCoupled(near: Endpoint, far: Endpoint)
    requires Coupled(near, far) && Coupled(far, near)
    ensures Coupled(Sends(near), far) && Coupled(far, Sends(near))
  {
    LinkTransmit(near.conn, near.w, near.net, far.conn, far.got);
  }

  ghost function PairStep(p: Pair, x: Action): Pair
    requires PairInv(p)
    ensures PairInv(PairStep(p, x))
  {
    SendsCoupled(p.a, p.b);
    SendsCoupled(p.b, p.a);
    match x
    case Transmit(left) => if left then p.(a := Sends(p.a)) else p.(b := Sends(p.b))
    case At(left, e) =>
      if left && Possible(e, p.b) then ActCoupled(p.a, p.b, e); p.(a := Act(p.a, e))
      else if !left && Possible(e, p.a) then ActCoupled(p.b, p.a, e); p.(b := Act(p.b, e))
      else p
  }

  ghost function PairRun(p: Pair, actions: seq<Action>): Pair
    requires PairInv(p)
    ensures PairInv(PairRun(p, actions))
    decreases |actions|
  {
    if actions == [] then p else PairRun(PairStep(p, actions[0]), actions[1..])
  }

  function Fresh(isn: u32, rtTimeout: u16, sendCapacity: nat, recvCapacity: nat): Endpoint {
    Endpoint(NewConnection(isn, rtTimeout, sendCapacity, recvCapacity), [], [], {})
  }

  lemma FreshCoupled(isn: u32, rt: u16, sendCapacity: nat, recvCapacity: nat, far: Endpoint)
    requires far.conn.receiver == NewReceiver(far.conn.receiver.capacity) && far.got == []
    ensures Coupled(Fresh(isn, rt, sendCapacity, recvCapacity), far)
  {
    NewInv(isn, rt, sendCapacity, recvCapacity);
    Reassembler.NewValid(far.conn.receiver.capacity);
    Reassembler.NewAgrees(far.conn.receiver.capacity);
  }

  /** What `near` has assembled is a prefix of what `far` wrote, and complete once it has ended. */
  ghost predicate Delivers(far: Endpoint, near: Endpoint) {
    |far.w| + 2 <= TWO32 && near.conn.receiver.capacity <= TWO31 ==>
      && near.Assembled() <= far.w
      && (near.conn.receiver.InputEnded() ==> far.conn.sender.stream.ended && near.Assembled() == far.w)
  }

  lemma CoupledDelivers(far: Endpoint, near: Endpoint)
    requires Coupled(far, near)
    ensures Delivers(far, near)
  {
    if InRange(SrcOf(far.conn, far.w), near.conn.receiver.capacity) {
      SentPrefix(SrcOf(far.conn, far.w));
      ReadAndBuffered(near.conn.receiver.StreamOut(), Sent(SrcOf(far.conn, far.w)), far.w);
    }
  }

  /**
   * Full-duplex safety, for every run of two connections: each side assembles a prefix of what the
   * other side wrote, and its input ends only when all of it is there. The guarantee survives
   * resets, timeouts, and acknowledgement fields that are not flagged as valid.
   */
  lemma FullDuplexSafety(isnA: u32, isnB: u32, rtA: u16, rtB: u16, sendA: nat, sendB: nat, recvA: nat, recvB: nat,
                         actions: seq<Action>)
    ensures var start := Pair(Fresh(isnA, rtA, sendA, recvA), Fresh(isnB, rtB, sendB, recvB));
            PairInv(start) &&
            var p := PairRun(start, actions);
            Delivers(p.a, p.b) && Delivers(p.b, p.a)
  {
    var a, b := Fresh(isnA, rtA, sendA, recvA), Fresh(isnB, rtB, sendB, recvB);
    FreshCoupled(isnA, rtA, sendA, recvA, b);
    FreshCoupled(isnB, rtB, sendB, recvB, a);
    var p := PairRun(Pair(a, b), actions);
    CoupledDelivers(p.a, p.b);
    CoupledDelivers(p.b, p.a);
  }
}
