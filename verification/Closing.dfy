/**
 * Acknowledgements between two connections: nobody forgets what the other side has not assembled,
 * so a clean close on one side means that both streams have been delivered whole.
 */
module Closing {
  import opened Integers
  import opened Wrapping
  import opened Segment
  import opened Receiver
  import opened Sender
  import opened Transfer
  import opened Connection
  import opened Lifecycle
  import opened Duplex

  // ---------------------------------------------------------------- what a connection says about acks

  /** A segment as the sender makes it: no acknowledgement yet. */
  predicate Bare(seg: TcpSegment) { !seg.header.ack && seg.header.ackno == 0 && seg.header.win == 0 }

  ghost predicate BareQueue(s: SenderState) {
    (forall seg :: seg in s.out ==> Bare(seg)) && (forall f :: f in s.outstanding ==> Bare(f.seg))
  }

  /** A flagged ackno and its window are the receiver's own; unflagged ones are the default zero. */
  predicate Acknowledges(seg: TcpSegment, r: ReceiverState) {
    if seg.header.ack then
      && r.syn && seg.header.ackno == Wrap(r.AbsAckno(), r.isn)
      && seg.header.win == U16(r.capacity - |r.StreamOut().buf|)
    else seg.header.ackno == 0 && seg.header.win == 0
  }

  /** Everything newly on its way out of `c'` speaks for the receiver of `c'`. */
  ghost predicate Speaks(c: ConnState, c': ConnState) {
    && BareQueue(c'.sender)
    && forall seg :: seg in c'.out ==> seg in c.out || Acknowledges(seg, c'.receiver)
  }

  lemma {:induction false} FillBare(s: SenderState)
    requires s.Valid() && BareQueue(s)
    ensures BareQueue(s.FillWindow())
    decreases s.Window() - s.outgoing
  {
    if s.CanEmit() {
      EmitKeeps(s);
      assert Bare(s.NextSegment());
      if !s.NextSegment().header.fin {
        FillBare(s.Emit());
      }
    }
  }

  lemma AckBare(s: SenderState, ackno: u32, window: u16)
    requires s.Valid() && BareQueue(s)
    ensures BareQueue(s.AckReceived(ackno, window))
  {
    var a := Unwrap(ackno, s.isn, s.nextSeqno);
    if a <= s.nextSeqno {
      AckedValid(s, a, window);
      AcknowledgeKeeps(s, a);
      FillBare(Sender.Acked(s, a, window));
    }
  }

  lemma TickBare(s: SenderState, ms: nat)
    requires BareQueue(s)
    ensures BareQueue(s.Tick(ms))
  {
    if s.TimesOut(ms) {
      assert s.outstanding[0] in s.outstanding;
    }
  }

  lemma SendSpeaks(c: ConnState)
    requires c.Usable() && BareQueue(c.sender)
    ensures Speaks(c, c.SendSegments())
  {
    var c' := c.SendSegments();
    SendHalves(c);
    forall k | 0 <= k < |c'.out|
      ensures c'.out[k] in c.out || Acknowledges(c'.out[k], c'.receiver)
    {
      if k < |c.out| {
        assert c'.out[k] == c.out[k];
      } else {
        var seg := c.sender.out[k - |c.out|];
        assert seg in c.sender.out && c'.out[k] == c.Stamp(seg);
      }
    }
  }

  lemma FilledSpeaks(d: ConnState)
    requires d.Usable() && BareQueue(d.sender)
    ensures Speaks(d, d.FillAndSend())
  {
    FillKeeps(d.sender);
    FillBare(d.sender);
    SendSpeaks(d.(sender := d.sender.FillWindow()));
  }

  /** Changing only the two halves, then answering. */
  lemma AnswersSpeaks(c: ConnState, d: ConnState, c': ConnState)
    requires d.Usable() && BareQueue(d.sender) && d.out == c.out && Answers(d, c')
    ensures Speaks(c, c')
  {
    if c' == d.SendSegments() {
      SendSpeaks(d);
    } else if c' == d.Replying().SendSegments() {
      SendSpeaks(d.Replying());
    } else if c' == d.FillAndSend() {
      FilledSpeaks(d);
    } else {
      FilledSpeaks(d.Replying());
    }
  }

  lemma FillSpeaks(c: ConnState, d: ConnState)
    requires d.Usable() && BareQueue(d.sender) && d.out == c.out
    ensures Speaks(c, d.FillAndSend())
  {
    AnswersSpeaks(c, d, d.FillAndSend());
  }

  lemma HandledSpeaks(c: ConnState, seg: TcpSegment, c': ConnState)
    requires c.Usable() && BareQueue(c.sender) && c.receiver.SegmentReceived(seg).WellFormed() && Handled(c, seg, c')
    ensures Speaks(c, c')
  {
    var b, d, r := c.GetBranch(), c.Acked(seg).Received(seg), c.Received(seg);
    AckReceiveAbsorbs(c, seg);
    AckBare(c.sender, seg.header.ackno, seg.header.win);
    if c' == c || c' == d {
    } else if b == Branch.Listen {
      FillSpeaks(c, r);
    } else if b == Branch.SynSent && Answers(r, c') {
      AnswersSpeaks(c, r, c');
    } else {
      AnswersSpeaks(c, d, c');
    }
  }

  lemma ArrivesSpeaks(c: ConnState, seg: TcpSegment, c': ConnState)
    requires Inv(c) && BareQueue(c.sender) && c.receiver.SegmentReceived(seg).WellFormed() && Arrives(c, seg, c')
    ensures Speaks(c, c')
  {
    if c.active && !seg.header.rst {
      HandledSpeaks(c.(elapsed := 0), seg, c');
    }
  }

  lemma TickedSpeaks(c: ConnState, d: ConnState, ms: nat)
    requires Inv(c) && BareQueue(c.sender) && d == c.Ticked(ms)
    ensures Speaks(c, d.SendSegments()) && Speaks(c, d.Reset())
  {
    TickKeeps(c.sender, ms);
    TickBare(c.sender, ms);
    SendSpeaks(d);
  }

  lemma TickSpeaks(c: ConnState, ms: nat)
    requires Inv(c) && BareQueue(c.sender)
    ensures Speaks(c, c.Tick(ms))
  {
    TickedSpeaks(c, c.Ticked(ms), ms);
  }

  lemma WriteSpeaks(c: ConnState, data: seq<byte>)
    requires Inv(c) && BareQueue(c.sender) && !c.sender.fin
    ensures Speaks(c, c.Write(data))
  {
    FillSpeaks(c, c.WithStream(c.sender.stream.Write(data)));
  }

  lemma EndInputSpeaks(c: ConnState)
    requires Inv(c) && BareQueue(c.sender)
    ensures Speaks(c, c.EndInput())
  {
    FillSpeaks(c, c.WithStream(c.sender.stream.(ended := true)));
  }

  /** Whatever happens, a connection's new segments acknowledge exactly what its receiver has. */
  lemma StepSpeaks(c: ConnState, e: Event, c': ConnState)
    requires Inv(c) && BareQueue(c.sender) && Steps(c, e, c')
    ensures Speaks(c, c')
  {
    if Enabled(c, e) {
      match e
      case Arrival(seg) => ArrivesSpeaks(c, seg, c');
      case Write(data) => WriteSpeaks(c, data);
      case Tick(ms) => TickSpeaks(c, ms);
      case EndInput => EndInputSpeaks(c);
      case Connect => FillSpeaks(c, c);
      case Read(len) =>
    }
  }

  // ---------------------------------------------------------------- what an arrival acknowledges

  lemma FillBase(d: ConnState)
    requires d.Usable()
    ensures d.FillAndSend().sender.Base() == d.sender.Base()
  {
    FillKeeps(d.sender);
    SendHalves(d.(sender := d.sender.FillWindow()));
  }

  lemma AnswersBase(d: ConnState, c: ConnState)
    requires d.Usable() && Answers(d, c)
    ensures c.sender.Base() == d.sender.Base()
  {
    ReplyUsable(d);
    if c == d.SendSegments() {
      SendHalves(d);
    } else if c == d.Replying().SendSegments() {
      SendHalves(d.Replying());
    } else if c == d.FillAndSend() {
      FillBase(d);
    } else {
      FillBase(d.Replying());
    }
  }

  lemma ReplyUsable(d: ConnState)
    requires d.Usable()
    ensures d.Replying().Usable() && d.Replying().sender.Base() == d.sender.Base()
  {
  }

  /** The arrivals whose ackno field reaches `ack_received`, whether or not they carry ACK. */
  predicate Heeds(c: ConnState, seg: TcpSegment) {
    c.active && !seg.header.rst && Reads(c.GetBranch(), seg.header)
  }

  predicate Reads(b: Branch, h: TcpHeader) {
    match b
    case Listen => false
    case SynSent => h.syn && h.ack
    case FinWait1 => h.fin || h.ack
    case TimeWait => h.fin
    case _ => true
  }

  /** What follows an arrival, by whether its ackno was read. */
  lemma DispatchReads(c: ConnState, b: Branch, seg: TcpSegment)
    requires c.Usable() && c.receiver.SegmentReceived(seg).WellFormed()
    ensures var c', d, r := c.Dispatch(b, seg), c.Acked(seg).Received(seg), c.Received(seg);
            if Reads(b, seg.header) then c' == d || Answers(d, c') else c' == c || Answers(r, c')
  {
    match b
    case Listen =>
    case SynSent =>
    case SynRcvd =>
    case Estab =>
    case FinWait1 =>
    case FinWait2 =>
    case TimeWait =>
    case Other =>
  }

  lemma DispatchBase(c: ConnState, seg: TcpSegment)
    requires c.Usable() && c.active && !seg.header.rst
    ensures c.Dispatch(c.GetBranch(), seg).sender.Base()
            == if Heeds(c, seg) then c.Acked(seg).sender.Base() else c.sender.Base()
  {
    AckReceiveAbsorbs(c, seg);
    DispatchReads(c, c.GetBranch(), seg);
    OutcomeBase(c, seg, c.Dispatch(c.GetBranch(), seg), Heeds(c, seg));
  }

  lemma OutcomeBase(c: ConnState, seg: TcpSegment, c': ConnState, heeded: bool)
    requires c.Usable() && c.Acked(seg).Received(seg).Usable() && c.Received(seg).Usable()
    requires if heeded then c' == c.Acked(seg).Received(seg) || Answers(c.Acked(seg).Received(seg), c')
             else c' == c || Answers(c.Received(seg), c')
    ensures c'.sender.Base() == if heeded then c.Acked(seg).sender.Base() else c.sender.Base()
  {
    if heeded {
      if c' != c.Acked(seg).Received(seg) {
        AnswersBase(c.Acked(seg).Received(seg), c');
      }
    } else if c' != c {
      AnswersBase(c.Received(seg), c');
    }
  }

  /** An arrival moves the first unacknowledged number exactly as far as `ack_received` does, if it is reached. */
  lemma ArrivalBase(c: ConnState, seg: TcpSegment)
    requires c.Usable()
    ensures c.SegmentReceived(seg).sender.Base()
            == if Heeds(c, seg) then c.Acked(seg).sender.Base() else c.sender.Base()
  {
    if c.active && !seg.header.rst {
      HeardSame(c, seg);
      DispatchBase(c.(elapsed := 0), seg);
    }
  }

  lemma TickBase(c: ConnState, ms: nat)
    requires Inv(c)
    ensures c.Tick(ms).sender.Base() == c.sender.Base()
  {
    TickKeeps(c.sender, ms);
    SendHalves(c.Ticked(ms));
  }

  lemma WriteBase(c: ConnState, data: seq<byte>)
    requires Inv(c) && !c.sender.fin
    ensures c.Write(data).sender.Base() == c.sender.Base()
  {
    FillBase(c.WithStream(c.sender.stream.Write(data)));
  }

  lemma EndInputBase(c: ConnState)
    requires Inv(c)
    ensures c.EndInput().sender.Base() == c.sender.Base()
  {
    FillBase(c.WithStream(c.sender.stream.(ended := true)));
  }

  /** Nothing but an arrival moves the first unacknowledged number. */
  lemma StepBase(c: ConnState, e: Event)
    requires Inv(c)
    ensures Next(c, e).sender.Base()
            == if e.Arrival? && Heeds(c, e.seg) then c.Acked(e.seg).sender.Base() else c.sender.Base()
  {
    if Enabled(c, e) {
      match e
      case Arrival(seg) => ArrivalBase(c, seg);
      case Write(data) => WriteBase(c, data);
      case Tick(ms) => TickBase(c, ms);
      case EndInput => EndInputBase(c);
      case Connect => FillBase(c);
      case Read(len) =>
    }
  }

  // ---------------------------------------------------------------- acknowledgement fields without ACK

  /** The last absolute number up to `next_seqno` whose raw value is 0; negative if there is none. */
  function RawZero(s: SenderState): int { s.nextSeqno - Wrap(s.nextSeqno, s.isn) }

  /** The field of a segment that acknowledges nothing reads as an acknowledgement of raw number 0. */
  predicate ReadsAsAck(s: SenderState) { Wrap(s.nextSeqno, s.isn) <= TWO31 && RawZero(s) >= 0 }

  /**
   * `ack_received` is called without a look at the ACK flag. Exactly when the raw next sequence
   * number is at most 2^31, and raw 0 has been used, it takes a field of 0 for an acknowledgement.
   */
  lemma UnflaggedAckIff(s: SenderState)
    requires s.nextSeqno + TWO31 <= TWO63
    ensures var a := Unwrap(0, s.isn, s.nextSeqno);
            (a <= s.nextSeqno <==> ReadsAsAck(s)) && (ReadsAsAck(s) ==> a == RawZero(s))
  {
    var r, d := Wrap(s.nextSeqno, s.isn), Offset(0, Wrap(s.nextSeqno, s.isn));
    assert d == if r <= TWO31 then -r else TWO32 - r;
    ZeroResolves(s.nextSeqno, d);
  }

  lemma ZeroResolves(next: nat, d: int)
    requires next + TWO31 <= TWO63 && -TWO31 <= d < TWO31
    ensures Resolve(next + d) <= next <==> d <= 0 && next + d >= 0
    ensures next + d >= 0 ==> Resolve(next + d) == next + d
  {
    if next + d < 0 {
      assert U64(next + d) == next + d + TWO64;
    }
  }

  /** When such a field changes nothing at all: it is not read, or it says what the sender knows. */
  lemma UnflaggedIgnoredIff(s: SenderState, window: u16)
    requires s.Valid() && s.nextSeqno + TWO31 <= TWO63
    ensures s.AckReceived(0, window) == s <==>
            || !ReadsAsAck(s)
            || (s.win == window && s.retx == 0 && !FlightBetween(s.outstanding, s.Base(), RawZero(s)) && !s.CanEmit())
  {
    UnflaggedAckIff(s);
    AckPassesIff(s, 0, window, s.Base());
    if ReadsAsAck(s) {
      var t := Sender.Acked(s, RawZero(s), window);
      AckedValid(s, RawZero(s), window);
      AcknowledgeKeeps(s, RawZero(s));
      AcknowledgePassesIff(s, RawZero(s), s.Base());
      FillQueuesIff(t);
      FillKeeps(t);
    }
  }

  /** When a segment that acknowledges nothing makes the sender forget something. */
  lemma UnflaggedForgetsIff(s: SenderState, window: u16, limit: int)
    requires s.Valid() && s.nextSeqno + TWO31 <= TWO63 && s.Base() <= limit
    ensures s.AckReceived(0, window).Base() > limit
            <==> ReadsAsAck(s) && FlightBetween(s.outstanding, limit, RawZero(s))
  {
    UnflaggedAckIff(s);
    AckPassesIff(s, 0, window, limit);
  }

  /**
   * An arriving segment, with or without ACK and with any ackno, moves the first unacknowledged
   * number past `limit` exactly if it reaches `ack_received`, its ackno is not beyond `next_seqno`,
   * and a flight ends between the two.
   */
  lemma UnflaggedArrivalIff(c: ConnState, seg: TcpSegment, limit: int)
    requires c.Usable() && c.sender.Base() <= limit
    ensures var a := Unwrap(seg.header.ackno, c.sender.isn, c.sender.nextSeqno);
            c.SegmentReceived(seg).sender.Base() > limit
            <==> Heeds(c, seg) && a <= c.sender.nextSeqno && FlightBetween(c.sender.outstanding, limit, a)
  {
    ArrivalBase(c, seg);
    AckPassesIff(c.sender, seg.header.ackno, seg.header.win, limit);
  }

  /** For a bare segment, as a peer of the same make sends it, the ackno is that of raw 0. */
  lemma BareArrivalIff(c: ConnState, seg: TcpSegment, limit: int)
    requires c.Usable() && Bare(seg) && c.sender.nextSeqno + TWO31 <= TWO63 && c.sender.Base() <= limit
    ensures c.SegmentReceived(seg).sender.Base() > limit <==>
            Heeds(c, seg) && ReadsAsAck(c.sender) && FlightBetween(c.sender.outstanding, limit, RawZero(c.sender))
  {
    UnflaggedArrivalIff(c, seg, limit);
    UnflaggedAckIff(c.sender);
  }

  /** In SYN_RCVD our SYN is acknowledged by any segment that names the number after it, ACK or not. */
  lemma UnflaggedAcknowledgesSyn(c: ConnState, isn: u32, buf: seq<byte>, seg: TcpSegment)
    requires Inv(c) && Opened(c, isn, buf) && !seg.header.rst && seg.header.ackno == Wrap(1, isn)
    ensures c.SegmentReceived(seg).sender.Base() > 0
  {
    assert c.sender.outstanding[0] in c.sender.outstanding;
    LowRing(1, 1);
    UnwrapRoundTripIff(1, isn, 1);
    UnflaggedArrivalIff(c, seg, 0);
  }

  lemma SecondSyn(c: ConnState)
    requires Inv(c) && Opened(c, TWO32 - 1, [])
    ensures c.SegmentReceived(SYN).sender.Base() == 1
  {
    var s := c.sender;
    assert s.outstanding[0] in s.outstanding;
    UnflaggedAckIff(s);
    ArrivalBase(c, SYN);
    UnflaggedForgetsIff(s, 0, 0);
    AckKeeps(s, 0, 0);
  }

  /** A run of two events in which our SYN counts as acknowledged although nothing acknowledged it. */
  lemma UnflaggedAckRun(rtTimeout: u16, sendCapacity: nat, recvCapacity: nat)
    ensures var c := NewConnection(TWO32 - 1, rtTimeout, sendCapacity, recvCapacity);
            Inv(c) && Bare(SYN) && Next(Next(c, Arrival(SYN)), Arrival(SYN)).sender.Base() == 1
  {
    SynAnswered(TWO32 - 1, rtTimeout, sendCapacity, recvCapacity);
    SecondSyn(Next(NewConnection(TWO32 - 1, rtTimeout, sendCapacity, recvCapacity), Arrival(SYN)));
  }

  // ---------------------------------------------------------------- acknowledgements between two connections

  predicate AckAt(seg: TcpSegment, v: nat, isn: u32, rack: nat) {
    1 <= v <= rack && seg.header.ackno == Wrap(v, isn)
  }

  /** What `seg` acknowledges, if it is flagged to, is no more than `rack`. */
  ghost predicate AckOf(seg: TcpSegment, isn: u32, rack: nat) {
    if seg.header.ack then exists v: nat :: AckAt(seg, v, isn, rack) else seg.header.ackno == 0
  }

  predicate Applies(src: Endpoint, dst: Endpoint) { InRange(SrcOf(src.conn, src.w), dst.conn.receiver.capacity) }

  /** What `dst` has sent or is about to send acknowledges no more than it has assembled. */
  ghost predicate AckLink(src: Endpoint, dst: Endpoint) {
    && BareQueue(dst.conn.sender)
    && (Applies(src, dst) ==>
        && (forall seg :: seg in dst.net ==> AckOf(seg, src.conn.sender.isn, dst.conn.receiver.AbsAckno()))
        && (forall seg :: seg in dst.conn.out ==> AckOf(seg, src.conn.sender.isn, dst.conn.receiver.AbsAckno())))
  }

  lemma AckOfGrows(seg: TcpSegment, isn: u32, rack: nat, rack': nat)
    requires AckOf(seg, isn, rack) && rack <= rack'
    ensures AckOf(seg, isn, rack')
  {
    if seg.header.ack {
      var v: nat :| AckAt(seg, v, isn, rack);
      assert AckAt(seg, v, isn, rack');
    }
  }

  /** However stale, a flagged ackno acknowledges no more than the other side has assembled. */
  lemma FlaggedAckSound(s: SenderState, seg: TcpSegment, window: u16, rack: nat)
    requires s.Valid() && seg.header.ack && AckOf(seg, s.isn, rack) && s.Base() <= rack <= s.nextSeqno <= TWO32
    ensures s.AckReceived(seg.header.ackno, window).Base() <= rack
  {
    var v: nat :| AckAt(seg, v, s.isn, rack);
    AckWithin(s, v, window, rack);
  }

  lemma AcknoWithin(src: Endpoint, dst: Endpoint)
    requires Coupled(src, dst) && Applies(src, dst)
    ensures dst.conn.receiver.AbsAckno() <= src.conn.sender.nextSeqno <= |src.w| + 2
  {
    AcknoSent(dst.conn.receiver, SrcOf(src.conn, src.w));
  }

  /** An event at the source leaves what the destination says alone. */
  lemma AckSource(src: Endpoint, dst: Endpoint, e: Event)
    requires Coupled(src, dst) && AckLink(src, dst)
    ensures AckLink(Act(src, e), dst)
  {
    StepContinues(src.conn, src.w, e, Next(src.conn, e));
  }

  /** An event at the destination: what it newly says is what it has. */
  lemma AckDestination(src: Endpoint, dst: Endpoint, e: Event)
    requires Coupled(src, dst) && Coupled(dst, src) && AckLink(src, dst) && Possible(e, src)
    ensures AckLink(src, Act(dst, e))
    ensures Applies(src, dst) ==> dst.conn.receiver.AbsAckno() <= Act(dst, e).conn.receiver.AbsAckno()
  {
    var isn, rack, dst' := src.conn.sender.isn, dst.conn.receiver.AbsAckno(), Act(dst, e);
    StepSpeaks(dst.conn, e, dst'.conn);
    StepCapacity(dst.conn, e);
    if Applies(src, dst) {
      StepTracks(dst.conn, dst.got, e, SrcOf(src.conn, src.w), dst'.conn);
      var rack' := dst'.conn.receiver.AbsAckno();
      forall seg | seg in dst.net
        ensures AckOf(seg, isn, rack')
      {
        AckOfGrows(seg, isn, rack, rack');
      }
      forall seg | seg in dst'.conn.out
        ensures AckOf(seg, isn, rack')
      {
        if seg in dst.conn.out {
          AckOfGrows(seg, isn, rack, rack');
        } else if seg.header.ack {
          assert AckAt(seg, rack', isn, rack');
        }
      }
    }
  }

  lemma AckTransmit(src: Endpoint, dst: Endpoint)
    requires AckLink(src, dst)
    ensures AckLink(Sends(src), dst) && AckLink(src, Sends(dst))
  {
  }

  // ---------------------------------------------------------------- nothing is forgotten too early

  /** `src` has forgotten nothing that `dst` has not assembled. */
  predicate Remembers(src: Endpoint, dst: Endpoint) {
    src.conn.sender.Base() <= dst.conn.receiver.AbsAckno()
  }

  /**
   * The arrivals that do harm: no ACK, but read as an acknowledgement of raw 0, with a flight that
   * ends by that number and that the other side has not assembled.
   */
  ghost predicate Harmful(src: Endpoint, dst: Endpoint, seg: TcpSegment) {
    && !seg.header.ack && Heeds(src.conn, seg) && ReadsAsAck(src.conn.sender)
    && FlightBetween(src.conn.sender.outstanding, dst.conn.receiver.AbsAckno(), RawZero(src.conn.sender))
  }

  /** An arrival makes the source forget too early exactly if it is harmful. */
  lemma ArrivalForgetsIff(src: Endpoint, dst: Endpoint, seg: TcpSegment)
    requires Coupled(src, dst) && AckLink(src, dst) && Applies(src, dst) && Remembers(src, dst) && seg in dst.net
    ensures Next(src.conn, Arrival(seg)).sender.Base() <= dst.conn.receiver.AbsAckno() <==> !Harmful(src, dst, seg)
  {
    var c, rack := src.conn, dst.conn.receiver.AbsAckno();
    AcknoWithin(src, dst);
    ArrivalBase(c, seg);
    if Heeds(c, seg) {
      if seg.header.ack {
        FlaggedAckSound(c.sender, seg, seg.header.win, rack);
      } else {
        UnflaggedForgetsIff(c.sender, seg.header.win, rack);
      }
    }
  }

  ghost predicate HarmfulAction(p: Pair, x: Action) {
    x.At? && x.left && x.e.Arrival? && x.e.seg in p.b.net && Harmful(p.a, p.b, x.e.seg)
  }

  ghost predicate AckInv(p: Pair) { PairInv(p) && AckLink(p.a, p.b) && AckLink(p.b, p.a) }

  lemma StepAckInv(p: Pair, x: Action)
    requires AckInv(p)
    ensures AckInv(PairStep(p, x))
  {
    match x
    case Transmit(left) =>
      AckTransmit(p.a, p.b);
      AckTransmit(p.b, p.a);
    case At(left, e) =>
      if left && Possible(e, p.b) {
        AckSource(p.a, p.b, e);
        AckDestination(p.b, p.a, e);
      } else if !left && Possible(e, p.a) {
        AckSource(p.b, p.a, e);
        AckDestination(p.a, p.b, e);
      }
  }

  /** A step makes the left side forget too early exactly if it is a harmful arrival. */
  lemma StepForgetsIff(p: Pair, x: Action)
    requires AckInv(p) && Applies(p.a, p.b) && Remembers(p.a, p.b)
    ensures Remembers(PairStep(p, x).a, PairStep(p, x).b) <==> !HarmfulAction(p, x)
  {
    if x.At? {
      if x.left && Possible(x.e, p.b) {
        if x.e.Arrival? {
          ArrivalForgetsIff(p.a, p.b, x.e.seg);
        } else {
          StepBase(p.a.conn, x.e);
        }
      } else if !x.left && Possible(x.e, p.a) {
        AckDestination(p.a, p.b, x.e);
      }
    }
  }

  /** Histories and networks only grow, and nobody's capacity changes. */
  predicate Later(p: Pair, q: Pair) {
    && p.a.w <= q.a.w && p.a.conn.sender.isn == q.a.conn.sender.isn && p.b.net <= q.b.net
    && p.b.conn.receiver.capacity == q.b.conn.receiver.capacity
  }

  lemma StepLater(p: Pair, x: Action)
    requires PairInv(p)
    ensures Later(p, PairStep(p, x))
  {
    if x.At? {
      if x.left && Possible(x.e, p.b) {
        StepContinues(p.a.conn, p.a.w, x.e, Next(p.a.conn, x.e));
      } else if !x.left && Possible(x.e, p.a) {
        StepCapacity(p.b.conn, x.e);
      }
    }
  }

  lemma {:induction false} RunLater(p: Pair, actions: seq<Action>)
    requires PairInv(p)
    ensures Later(p, PairRun(p, actions))
    decreases |actions|
  {
    if actions == [] {
    } else {
      StepLater(p, actions[0]);
      RunLater(PairStep(p, actions[0]), actions[1..]);
    }
  }

  lemma {:induction false} RunAckInv(p: Pair, actions: seq<Action>)
    requires AckInv(p)
    ensures AckInv(PairRun(p, actions))
    decreases |actions|
  {
    if actions == [] {
    } else {
      StepAckInv(p, actions[0]);
      RunAckInv(PairStep(p, actions[0]), actions[1..]);
    }
  }

  /** No harmful segment arrives at the left side during the run. */
  ghost predicate Spared(p: Pair, actions: seq<Action>)
    requires PairInv(p)
    decreases |actions|
  {
    actions == [] || (!HarmfulAction(p, actions[0]) && Spared(PairStep(p, actions[0]), actions[1..]))
  }

  /** At every point of the run the left side has forgotten nothing too early. */
  ghost predicate AlwaysRemembers(p: Pair, actions: seq<Action>)
    requires PairInv(p)
    decreases |actions|
  {
    Remembers(p.a, p.b) && (actions == [] || AlwaysRemembers(PairStep(p, actions[0]), actions[1..]))
  }

  lemma {:induction false} RunForgetsIff(p: Pair, actions: seq<Action>)
    requires AckInv(p) && Remembers(p.a, p.b) && Applies(PairRun(p, actions).a, PairRun(p, actions).b)
    ensures AlwaysRemembers(p, actions) <==> Spared(p, actions)
    ensures Spared(p, actions) ==> Remembers(PairRun(p, actions).a, PairRun(p, actions).b)
    decreases |actions|
  {
    if actions == [] {
    } else {
      var q := PairStep(p, actions[0]);
      RunLater(p, actions);
      StepForgetsIff(p, actions[0]);
      StepAckInv(p, actions[0]);
      if Remembers(q.a, q.b) {
        RunForgetsIff(q, actions[1..]);
      }
    }
  }

  lemma FreshInv(isnA: u32, isnB: u32, rtA: u16, rtB: u16, sendA: nat, sendB: nat, recvA: nat, recvB: nat)
    ensures var start := Pair(Fresh(isnA, rtA, sendA, recvA), Fresh(isnB, rtB, sendB, recvB));
            AckInv(start) && Remembers(start.a, start.b)
  {
    FreshCoupled(isnA, rtA, sendA, recvA, Fresh(isnB, rtB, sendB, recvB));
    FreshCoupled(isnB, rtB, sendB, recvB, Fresh(isnA, rtA, sendA, recvA));
  }

  /**
   * Over every run of two connections whose left stream stays in range, the left side never forgets
   * what the right side has not assembled, if and only if no harmful segment arrives.
   */
  lemma NoPrematureForgettingIff(isnA: u32, isnB: u32, rtA: u16, rtB: u16, sendA: nat, sendB: nat, recvA: nat,
                                 recvB: nat, actions: seq<Action>)
    ensures var start := Pair(Fresh(isnA, rtA, sendA, recvA), Fresh(isnB, rtB, sendB, recvB));
            PairInv(start) &&
            var p := PairRun(start, actions);
            Applies(p.a, p.b) ==> (AlwaysRemembers(start, actions) <==> Spared(start, actions))
  {
    var start := Pair(Fresh(isnA, rtA, sendA, recvA), Fresh(isnB, rtB, sendB, recvB));
    FreshInv(isnA, isnB, rtA, rtB, sendA, sendB, recvA, recvB);
    if Applies(PairRun(start, actions).a, PairRun(start, actions).b) {
      RunForgetsIff(start, actions);
    }
  }

  /** A connection that opens actively sends a bare SYN and nothing else. */
  lemma ConnectSends(c: ConnState)
    requires Inv(c) && c.sender == NewSender(c.sender.stream.capacity, c.rtTimeout, 0) && !c.receiver.syn && c.out == []
    ensures var c' := Next(c, Connect); c'.out == [SYN] && c'.receiver == c.receiver
  {
    var s := c.sender;
    assert s.CanEmit() && s.FillWindow() == s.Emit() && s.Emit().out == [SYN];
    SendHalves(c.(sender := s.Emit()));
    assert c.FillAndSend().out == [SYN];
  }

  lemma FirstSteps(isn: u32, rtA: u16, rtB: u16, sendA: nat, sendB: nat, recvA: nat, recvB: nat)
    ensures var start := Pair(Fresh(isn, rtA, sendA, recvA), Fresh(0, rtB, sendB, recvB));
            PairInv(start) &&
            var p := PairStep(PairStep(start, At(false, Connect)), Transmit(false));
            p.a == start.a && SYN in p.b.net && p.b.conn.receiver == start.b.conn.receiver
  {
    FreshInv(isn, 0, rtA, rtB, sendA, sendB, recvA, recvB);
    ConnectSends(Fresh(0, rtB, sendB, recvB).conn);
  }

  /** A run that forgets too early: the right side opens, and its SYN arrives at the left side twice. */
  lemma ForgettingRun(rtA: u16, rtB: u16, sendA: nat, sendB: nat, recvA: nat, recvB: nat)
    ensures var start := Pair(Fresh(TWO32 - 1, rtA, sendA, recvA), Fresh(0, rtB, sendB, recvB));
            PairInv(start) &&
            var p := PairStep(PairStep(start, At(false, Connect)), Transmit(false));
            var q := PairStep(PairStep(p, At(true, Arrival(SYN))), At(true, Arrival(SYN)));
            !Remembers(q.a, q.b)
  {
    FirstSteps(TWO32 - 1, rtA, rtB, sendA, sendB, recvA, recvB);
    SynAnswered(TWO32 - 1, rtA, sendA, recvA);
    SecondSyn(Next(NewConnection(TWO32 - 1, rtA, sendA, recvA), Arrival(SYN)));
  }

  // ---------------------------------------------------------------- when nothing harmful can arrive

  /** The raw sequence numbers of the stream do not reach 0 again. */
  predicate NoCrossing(isn: u32, w: seq<byte>) { isn + |w| + 2 < TWO32 }

  /** Everything ever sent carries ACK or RST. */
  ghost predicate AllFlagged(net: set<TcpSegment>) {
    forall seg :: seg in net ==> seg.header.ack || seg.header.rst
  }

  lemma RawZeroLow(s: SenderState, w: seq<byte>)
    requires s.nextSeqno <= |w| + 2 && NoCrossing(s.isn, w)
    ensures RawZero(s) <= 0
  {
  }

  lemma SentWithin(c: ConnState, w: seq<byte>)
    requires Honest(c, w)
    ensures c.sender.nextSeqno <= |w| + 2
  {
    SourceOfValid(c.sender, w);
  }

  lemma NoCrossingHarmless(src: Endpoint, dst: Endpoint, seg: TcpSegment)
    requires src.conn.sender.nextSeqno <= |src.w| + 2 && NoCrossing(src.conn.sender.isn, src.w)
    ensures !Harmful(src, dst, seg)
  {
    RawZeroLow(src.conn.sender, src.w);
  }

  /** No run is harmful whose left stream does not cross raw 0, or whose right side flags all it sends. */
  lemma {:induction false} SparedRun(p: Pair, actions: seq<Action>)
    requires PairInv(p)
    requires var q := PairRun(p, actions); NoCrossing(q.a.conn.sender.isn, q.a.w) || AllFlagged(q.b.net)
    ensures Spared(p, actions)
    decreases |actions|
  {
    if actions == [] {
    } else {
      var x := actions[0];
      RunLater(p, actions);
      if HarmfulAction(p, x) && NoCrossing(p.a.conn.sender.isn, p.a.w) {
        SentWithin(p.a.conn, p.a.w);
        NoCrossingHarmless(p.a, p.b, x.e.seg);
      }
      SparedRun(PairStep(p, x), actions[1..]);
    }
  }

  // ---------------------------------------------------------------- clean close

  /** `src` has stopped without error: both streams over, its FIN acknowledged. */
  predicate Stopped(src: Endpoint) { !src.conn.active && NoError(src.conn) }

  /** What a clean stop of `src` entails for the stream it sent to `dst`. */
  lemma StoppedDelivered(src: Endpoint, dst: Endpoint)
    requires Coupled(src, dst) && Applies(src, dst) && Remembers(src, dst) && Stopped(src)
    ensures dst.conn.receiver.InputEnded() && dst.Assembled() == src.w
  {
    CoupledDelivers(src, dst);
    AcknoWithin(src, dst);
    InvStopped(src.conn);
  }

  lemma ClosedDelivers(p: Pair)
    requires PairInv(p) && Applies(p.a, p.b) && Remembers(p.a, p.b)
    ensures p.a.conn.sender.Base() <= p.b.conn.receiver.AbsAckno() <= p.a.conn.sender.nextSeqno
    ensures Stopped(p.a) ==>
              && p.b.Assembled() == p.a.w && p.b.conn.receiver.InputEnded() && p.a.conn.receiver.InputEnded()
              && (Applies(p.b, p.a) ==> p.a.Assembled() == p.b.w)
  {
    AcknoWithin(p.a, p.b);
    if Stopped(p.a) {
      StoppedDelivered(p.a, p.b);
      InvStopped(p.a.conn);
      CoupledDelivers(p.b, p.a);
    }
  }

  /**
   * In every run of two connections whose left stream stays in range and in which no harmful segment
   * arrives there, nothing is forgotten too early and a left side that has stopped cleanly has had
   * its whole stream assembled by the right side; it has assembled the other stream whole if that
   * one is in range. No segment is harmful if the stream does not cross raw 0, or if all that the
   * right side sends carries ACK.
   */
  lemma CleanCloseDelivers(isnA: u32, isnB: u32, rtA: u16, rtB: u16, sendA: nat, sendB: nat, recvA: nat, recvB: nat,
                           actions: seq<Action>)
    ensures var start := Pair(Fresh(isnA, rtA, sendA, recvA), Fresh(isnB, rtB, sendB, recvB));
            PairInv(start) &&
            var p := PairRun(start, actions);
            && (NoCrossing(isnA, p.a.w) || AllFlagged(p.b.net) ==> Spared(start, actions))
            && (Applies(p.a, p.b) && Spared(start, actions) ==>
                && p.a.conn.sender.Base() <= p.b.conn.receiver.AbsAckno() <= p.a.conn.sender.nextSeqno
                && (Stopped(p.a) ==>
                    && p.b.Assembled() == p.a.w && p.b.conn.receiver.InputEnded() && p.a.conn.receiver.InputEnded()
                    && (Applies(p.b, p.a) ==> p.a.Assembled() == p.b.w)))
  {
    var start := Pair(Fresh(isnA, rtA, sendA, recvA), Fresh(isnB, rtB, sendB, recvB));
    FreshInv(isnA, isnB, rtA, rtB, sendA, sendB, recvA, recvB);
    var p := PairRun(start, actions);
    RunLater(start, actions);
    if NoCrossing(isnA, p.a.w) || AllFlagged(p.b.net) {
      SparedRun(start, actions);
    }
    if Applies(p.a, p.b) && Spared(start, actions) {
      RunForgetsIff(start, actions);
      ClosedDelivers(p);
    }
  }
}
