/**
 * The retransmission timer over whole runs of a connection (section 5 of RFC 6298): exponential
 * backoff, the bound on consecutive retransmissions, and how long giving up must take.
 */
module Backoff {
  import opened Integers
  import opened Wrapping
  import opened Stream
  import opened Segment
  import opened Sender
  import opened Connection
  import opened Lifecycle

  /** The initial timeout doubled `k` times. */
  function Timeout(rto0: nat, k: nat): nat {
    if k == 0 then rto0 else 2 * Timeout(rto0, k - 1)
  }

  /** The least time that `k` timeouts with doubling and `z` without can take. */
  function Spent(rto0: nat, k: nat, z: nat): nat {
    if z > 0 then rto0 + Spent(rto0, k, z - 1)
    else if k > 0 then Timeout(rto0, k - 1) + Spent(rto0, k - 1, 0)
    else 0
  }

  /** The timer restarts when something is in flight and the oldest of it is new. */
  predicate Restarted(s: SenderState, s': SenderState) {
    s'.outgoing > 0 && (s.outgoing == 0 || s'.Base() != s.Base())
  }

  /** What any step other than a tick does to the timer. */
  predicate Steady(s: SenderState, s': SenderState) {
    && s.Valid() && s'.Valid() && s'.initialRto == s.initialRto
    && s.Base() <= s'.Base() && s.nextSeqno <= s'.nextSeqno
    && (if Restarted(s, s') then s'.rto == s.initialRto && s'.timecount == 0 && s'.retx == 0
        else s'.outgoing > 0 ==> s'.rto == s.rto && s'.timecount == s.timecount && s'.retx <= s.retx)
  }

  lemma SteadyTransitive(a: SenderState, b: SenderState, c: SenderState)
    requires Steady(a, b) && Steady(b, c)
    ensures Steady(a, c)
  {
  }

  lemma InFlightIff(s: SenderState)
    requires s.Valid()
    ensures s.outgoing == 0 <==> s.outstanding == []
  {
    TilesEnd(s.outstanding, s.nextSeqno - s.outgoing, s.nextSeqno);
  }

  lemma FillSteady(s: SenderState)
    requires s.Valid()
    ensures Steady(s, s.FillWindow())
  {
    FillKeeps(s);
    InFlightIff(s);
    InFlightIff(s.FillWindow());
  }

  lemma AckedSteady(s: SenderState, a: nat, window: u16)
    requires s.Valid()
    ensures Steady(s, Sender.Acked(s, a, window))
  {
    AckedValid(s, a, window);
    AcknowledgeKeeps(s, a);
    InFlightIff(s);
    InFlightIff(Sender.Acked(s, a, window));
  }

  lemma AckSteady(s: SenderState, ackno: u32, window: u16)
    requires s.Valid()
    ensures Steady(s, s.AckReceived(ackno, window))
  {
    var a := Unwrap(ackno, s.isn, s.nextSeqno);
    if a <= s.nextSeqno {
      AckedSteady(s, a, window);
      FillSteady(Sender.Acked(s, a, window));
      SteadyTransitive(s, Sender.Acked(s, a, window), s.AckReceived(ackno, window));
    }
  }

  lemma SendSteady(d: ConnState)
    requires d.Usable()
    ensures Steady(d.sender, d.SendSegments().sender)
  {
    SendHalves(d);
  }

  lemma FillAndSendSteady(d: ConnState)
    requires d.Usable()
    ensures Steady(d.sender, d.FillAndSend().sender)
  {
    var f := d.(sender := d.sender.FillWindow());
    FillSteady(d.sender);
    SendSteady(f);
    SteadyTransitive(d.sender, f.sender, f.SendSegments().sender);
  }

  lemma AnswersSteady(d: ConnState, c: ConnState)
    requires d.Usable() && Answers(d, c)
    ensures Steady(d.sender, c.sender)
  {
    SendSteady(d);
    SendSteady(d.Replying());
    FillAndSendSteady(d);
    FillAndSendSteady(d.Replying());
    assert Steady(d.sender, d.Replying().sender);
    SteadyTransitive(d.sender, d.Replying().sender, d.Replying().SendSegments().sender);
    SteadyTransitive(d.sender, d.Replying().sender, d.Replying().FillAndSend().sender);
  }

  lemma HandledSteady(c: ConnState, seg: TcpSegment, c': ConnState)
    requires c.Usable() && c.receiver.SegmentReceived(seg).WellFormed() && Handled(c, seg, c')
    ensures Steady(c.sender, c'.sender)
  {
    var b, d, r := c.GetBranch(), c.Acked(seg).Received(seg), c.Received(seg);
    AckReceiveAbsorbs(c, seg);
    AckSteady(c.sender, seg.header.ackno, seg.header.win);
    if c' == c || c' == d {
    } else if b == Branch.Listen {
      FillAndSendSteady(r);
    } else if b == Branch.SynSent && Answers(r, c') {
      AnswersSteady(r, c');
    } else {
      AnswersSteady(d, c');
      SteadyTransitive(c.sender, d.sender, c'.sender);
    }
  }

  lemma ArrivesSteady(c: ConnState, seg: TcpSegment, c': ConnState)
    requires Inv(c) && c.receiver.SegmentReceived(seg).WellFormed() && Arrives(c, seg, c')
    ensures Steady(c.sender, c'.sender)
  {
    if c.active && !seg.header.rst {
      HandledSteady(c.(elapsed := 0), seg, c');
    }
  }

  /** Touching only the outgoing stream, then filling and sending. */
  lemma StreamSteady(c: ConnState, stream: StreamState)
    requires c.Usable() && c.sender.(stream := stream).Valid()
    ensures Steady(c.sender, c.(sender := c.sender.(stream := stream)).FillAndSend().sender)
  {
    var d := c.(sender := c.sender.(stream := stream));
    FillAndSendSteady(d);
    assert Steady(c.sender, d.sender);
    SteadyTransitive(c.sender, d.sender, d.FillAndSend().sender);
  }

  lemma WriteSteady(c: ConnState, data: seq<byte>)
    requires Inv(c) && !c.sender.fin
    ensures Steady(c.sender, c.Write(data).sender)
  {
    StreamSteady(c, c.sender.stream.Write(data));
  }

  lemma EndInputSteady(c: ConnState)
    requires Inv(c)
    ensures Steady(c.sender, c.EndInput().sender)
  {
    StreamSteady(c, c.sender.stream.(ended := true));
  }

  lemma StepSteady(c: ConnState, e: Event, c': ConnState)
    requires Inv(c) && !e.Tick? && Steps(c, e, c')
    ensures Steady(c.sender, c'.sender)
  {
    if Enabled(c, e) {
      match e
      case Arrival(seg) => ArrivesSteady(c, seg, c');
      case Write(data) => WriteSteady(c, data);
      case EndInput => EndInputSteady(c);
      case Connect => FillAndSendSteady(c);
      case Read(len) =>
    }
  }

  // ---------------------------------------------------------------- metering a run

  /** Timeouts at nonzero and at zero window, and milliseconds, since the timer last restarted. */
  datatype Meter = Meter(doublings: nat, probes: nat, since: nat)

  ghost function Metered(m: Meter, c: ConnState, e: Event): Meter
    requires Inv(c)
  {
    if e.Tick? then
      if !c.active then m
      else if !c.sender.TimesOut(e.ms) then m.(since := m.since + e.ms)
      else if c.sender.win > 0 then m.(doublings := m.doublings + 1, since := m.since + e.ms)
      else m.(probes := m.probes + 1, since := m.since + e.ms)
    else if Restarted(c.sender, Next(c, e).sender) then Meter(0, 0, 0)
    else m
  }

  ghost function MeterOf(c: ConnState, events: seq<Event>): Meter
    requires Inv(c)
  {
    if events == [] then Meter(0, 0, 0)
    else
      var before, e := events[..|events| - 1], events[|events| - 1];
      Metered(MeterOf(c, before), Run(c, before), e)
  }

  /** Each timeout has been paid for with the timeout in force, up to the ninth doubling. */
  predicate Paid(m: Meter, rto0: nat, pending: nat) {
    m.since >= if m.doublings <= 9 then Spent(rto0, m.doublings, m.probes) + pending else Spent(rto0, 9, 0)
  }

  /** The timer law while anything is in flight. */
  predicate Law(m: Meter, s: SenderState) {
    s.outgoing > 0 ==>
      && s.rto == U32(Timeout(s.initialRto, m.doublings))
      && s.retx <= m.doublings + m.probes
      && Paid(m, s.initialRto, s.timecount)
  }

  lemma SteadyLaw(m: Meter, s: SenderState, s': SenderState)
    requires Steady(s, s') && Law(m, s)
    ensures Law(if Restarted(s, s') then Meter(0, 0, 0) else m, s')
  {
  }

  lemma {:induction false} TimeoutMonotone(rto0: nat, j: nat, k: nat)
    requires j <= k
    ensures Timeout(rto0, j) <= Timeout(rto0, k)
  {
    if j < k {
      TimeoutMonotone(rto0, j, k - 1);
    }
  }

  /** Nine doublings multiply by 512 and cost 511; the 32-bit timeout does not overflow by then. */
  lemma NineDoublings(rto0: nat)
    ensures Timeout(rto0, 9) == 512 * rto0 && Spent(rto0, 9, 0) == 511 * rto0
  {
    assert Timeout(rto0, 1) == 2 * rto0 && Spent(rto0, 1, 0) == rto0;
    assert Timeout(rto0, 2) == 4 * rto0 && Spent(rto0, 2, 0) == 3 * rto0;
    assert Timeout(rto0, 3) == 8 * rto0 && Spent(rto0, 3, 0) == 7 * rto0;
    assert Timeout(rto0, 4) == 16 * rto0 && Spent(rto0, 4, 0) == 15 * rto0;
    assert Timeout(rto0, 5) == 32 * rto0 && Spent(rto0, 5, 0) == 31 * rto0;
    assert Timeout(rto0, 6) == 64 * rto0 && Spent(rto0, 6, 0) == 63 * rto0;
    assert Timeout(rto0, 7) == 128 * rto0 && Spent(rto0, 7, 0) == 127 * rto0;
    assert Timeout(rto0, 8) == 256 * rto0 && Spent(rto0, 8, 0) == 255 * rto0;
  }

  lemma NineProbes(rto0: nat)
    ensures Spent(rto0, 0, 9) == 9 * rto0
  {
    assert Spent(rto0, 0, 0) == 0 && Spent(rto0, 0, 2) == 2 * rto0;
    assert Spent(rto0, 0, 4) == 4 * rto0;
    assert Spent(rto0, 0, 6) == 6 * rto0;
    assert Spent(rto0, 0, 8) == 8 * rto0;
  }

  lemma {:induction false} SpentDoubling(rto0: nat, k: nat, z: nat)
    ensures Spent(rto0, k + 1, z) == Spent(rto0, k, z) + Timeout(rto0, k)
  {
    if z == 0 {
    } else {
      SpentDoubling(rto0, k, z - 1);
    }
  }

  lemma {:induction false} SpentMonotone(rto0: nat, k: nat, z: nat)
    ensures Spent(rto0, k, z) >= Spent(rto0, k, 0)
  {
    if z == 0 {
    } else {
      SpentMonotone(rto0, k, z - 1);
    }
  }

  lemma DoubleWraps(x: nat)
    ensures U32(U32(x) * 2) == U32(2 * x)
  {
    ReduceRing(U32(x) * 2, 2 * (x / TWO32));
  }

  /** A timeout has waited at least for the timeout in force. */
  lemma TimeoutWaits(m: Meter, s: SenderState, ms: nat)
    requires Law(m, s) && s.outgoing > 0 && s.TimesOut(ms) && m.doublings <= 9
    ensures s.timecount + ms >= Timeout(s.initialRto, m.doublings) >= s.initialRto
  {
    TimeoutFits(s.initialRto, m.doublings);
  }

  lemma TimeoutFits(rto0: u16, k: nat)
    requires k <= 9
    ensures U32(Timeout(rto0, k)) == Timeout(rto0, k) >= rto0
  {
    NineDoublings(rto0);
    TimeoutMonotone(rto0, k, 9);
    TimeoutMonotone(rto0, 0, k);
  }

  lemma WaitLaw(m: Meter, s: SenderState, ms: nat)
    requires Law(m, s) && !s.TimesOut(ms) && (s.outgoing == 0 <==> s.outstanding == [])
    ensures Law(m.(since := m.since + ms), s.Tick(ms))
  {
  }

  /** A tick keeps the law, whether or not it times out and whatever its length. */
  lemma TickLaw(m: Meter, s: SenderState, ms: nat)
    requires s.Valid() && Law(m, s)
    ensures var m' := if !s.TimesOut(ms) then m.(since := m.since + ms)
                      else if s.win > 0 then m.(doublings := m.doublings + 1, since := m.since + ms)
                      else m.(probes := m.probes + 1, since := m.since + ms);
            Law(m', s.Tick(ms))
  {
    InFlightIff(s);
    if !s.TimesOut(ms) {
      WaitLaw(m, s, ms);
    } else if s.outgoing > 0 {
      DoubleWraps(Timeout(s.initialRto, m.doublings));
      if m.doublings <= 9 {
        TimeoutWaits(m, s, ms);
        SpentDoubling(s.initialRto, m.doublings, m.probes);
        SpentMonotone(s.initialRto, m.doublings, m.probes);
      }
    }
  }

  /** What the connection adds around the sender's tick does not touch the timer. */
  lemma TickSender(c: ConnState, ms: nat)
    requires c.Usable() && c.active
    ensures var s, s' := c.sender.Tick(ms), c.Tick(ms).sender;
            s' == s.(out := s'.out, stream := s'.stream)
  {
    SendHalves(c.Ticked(ms));
  }

  lemma LawTimer(m: Meter, s: SenderState, s': SenderState)
    requires Law(m, s) && s' == s.(out := s'.out, stream := s'.stream)
    ensures Law(m, s')
  {
  }

  lemma TickStepLaw(m: Meter, c: ConnState, ms: nat)
    requires Inv(c) && Law(m, c.sender)
    ensures Law(Metered(m, c, Tick(ms)), Next(c, Tick(ms)).sender)
  {
    if c.active {
      TickLaw(m, c.sender, ms);
      TickSender(c, ms);
      LawTimer(Metered(m, c, Tick(ms)), c.sender.Tick(ms), Next(c, Tick(ms)).sender);
    }
  }

  lemma StepLaw(m: Meter, c: ConnState, e: Event)
    requires Inv(c) && Law(m, c.sender)
    ensures Law(Metered(m, c, e), Next(c, e).sender)
  {
    if e.Tick? {
      TickStepLaw(m, c, e.ms);
    } else {
      StepSteady(c, e, Next(c, e));
      SteadyLaw(m, c.sender, Next(c, e).sender);
    }
  }

  lemma MeterSnoc(c: ConnState, events: seq<Event>, e: Event)
    requires Inv(c)
    ensures MeterOf(c, events + [e]) == Metered(MeterOf(c, events), Run(c, events), e)
  {
    assert (events + [e])[..|events|] == events;
  }

  /** Over every run the timer obeys the law: the timeout is the initial one doubled per timeout. */
  lemma {:induction false} RunLaw(start: ConnState, events: seq<Event>)
    requires Inv(start) && start.sender.outgoing == 0
    ensures Law(MeterOf(start, events), Run(start, events).sender)
    decreases |events|
  {
    if events == [] {
    } else {
      var before, e := events[..|events| - 1], events[|events| - 1];
      assert events == before + [e];
      RunLaw(start, before);
      RunSnoc(start, before, e);
      MeterSnoc(start, before, e);
      StepLaw(MeterOf(start, before), Run(start, before), e);
    }
  }

  lemma {:induction false} SpentAtLeast(rto0: nat, k: nat, z: nat, n: nat)
    requires n <= k + z
    ensures Spent(rto0, k, z) >= Spent(rto0, 0, n)
    decreases n
  {
    if n == 0 {
    } else {
      TimeoutMonotone(rto0, 0, k);
      if z > 0 {
        SpentAtLeast(rto0, k, z - 1, n - 1);
      } else {
        TimeoutMonotone(rto0, 0, k - 1);
        SpentAtLeast(rto0, k - 1, 0, n - 1);
      }
    }
  }

  /** Nine retransmissions take at least nine timeouts, and 511 of them if none was a window probe. */
  lemma GivingUpCosts(m: Meter, s: SenderState)
    requires Law(m, s) && s.outgoing > 0 && s.retx > MAX_RETX_ATTEMPTS
    ensures m.since >= 9 * s.initialRto
    ensures m.probes == 0 ==> m.since >= 511 * s.initialRto
  {
    NineDoublings(s.initialRto);
    NineProbes(s.initialRto);
    if m.doublings <= 9 {
      SpentAtLeast(s.initialRto, m.doublings, m.probes, 9);
    }
  }

  /**
   * Every active state has at most eight consecutive retransmissions; a tick that gives the
   * connection up comes no sooner than 511 initial timeouts after the timer last restarted, for
   * any granularity of ticks, unless zero-window probes were among the timeouts.
   */
  lemma BackoffBound(start: ConnState, events: seq<Event>, ms: nat)
    requires Inv(start) && start.sender.outgoing == 0
    ensures var c, c' := Run(start, events), Run(start, events + [Tick(ms)]);
            var m := MeterOf(start, events + [Tick(ms)]);
            && (c.active ==> c.sender.retx <= MAX_RETX_ATTEMPTS)
            && (c.active && !c'.active && c'.sender.stream.error ==>
                && m.since >= 9 * c.sender.initialRto
                && (m.probes == 0 ==> m.since >= 511 * c.sender.initialRto))
  {
    RunSnoc(start, events, Tick(ms));
    RunLaw(start, events + [Tick(ms)]);
    TickBound(MeterOf(start, events + [Tick(ms)]), Run(start, events), ms, Run(start, events + [Tick(ms)]));
  }

  lemma TickBound(m: Meter, c: ConnState, ms: nat, c': ConnState)
    requires Inv(c) && Inv(c') && Steps(c, Tick(ms), c') && Law(m, c'.sender)
    ensures c.active ==> c.sender.retx <= MAX_RETX_ATTEMPTS
    ensures c.active && !c'.active && c'.sender.stream.error ==>
              m.since >= 9 * c.sender.initialRto && (m.probes == 0 ==> m.since >= 511 * c.sender.initialRto)
  {
    if c.active && c'.sender.stream.error {
      ResetCosts(m, c, ms);
    }
  }

  lemma ResetCosts(m: Meter, c: ConnState, ms: nat)
    requires Inv(c) && c.active && Law(m, c.Tick(ms).sender)
    requires c.Tick(ms).sender.Valid() && c.Tick(ms).sender.stream.error
    ensures m.since >= 9 * c.sender.initialRto && (m.probes == 0 ==> m.since >= 511 * c.sender.initialRto)
  {
    ResetMeansNine(c, ms);
    InFlightIff(c.Tick(ms).sender);
    GivingUpCosts(m, c.Tick(ms).sender);
  }

  lemma ResetMeansNine(c: ConnState, ms: nat)
    requires Inv(c) && c.active && c.Tick(ms).sender.stream.error
    ensures c.Tick(ms).sender.retx > MAX_RETX_ATTEMPTS && c.Tick(ms).sender.initialRto == c.sender.initialRto
    ensures c.Tick(ms).sender.outstanding != []
  {
    SendHalves(c.Ticked(ms));
  }
}
