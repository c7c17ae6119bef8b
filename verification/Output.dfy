/**
 * What a connection puts on its way out, event by event: which segments, in which order, and with
 * which acknowledgement fields; and when it thereby gives up lingering or stops.
 */
module Output {
  import opened Integers
  import opened Wrapping
  import opened Stream
  import opened Segment
  import opened Receiver
  import opened Sender
  import opened Transfer
  import opened Connection
  import opened Lifecycle
  import opened Closing

  // ---------------------------------------------------------------- sending

  /** `t` is the queued segment `q` as it goes out: only the acknowledgement fields are filled in. */
  predicate Stamped(q: TcpSegment, t: TcpSegment, r: ReceiverState) {
    && t.payload == q.payload
    && t.header == q.header.(ack := t.header.ack, ackno := t.header.ackno, win := t.header.win)
    && if r.syn then
         && t.header.ack && t.header.ackno == Wrap(r.AbsAckno(), r.isn)
         && t.header.win == U16(r.capacity - |r.StreamOut().buf|)
       else t == q
  }

  /** `queue` went out after `before`, all of it, in order. */
  predicate WentOut(before: seq<TcpSegment>, queue: seq<TcpSegment>, r: ReceiverState, after: seq<TcpSegment>) {
    && before <= after && |after| == |before| + |queue|
    && forall i :: 0 <= i < |queue| ==> Stamped(queue[i], after[|before| + i], r)
  }

  /** When sending gives up lingering: the peer's stream is over, ours is not. */
  predicate GivesUpLinger(c: ConnState) { c.receiver.InputEnded() && !c.sender.stream.Eof() }

  /** When sending stops the connection. */
  predicate Stops(c: ConnState) {
    && c.receiver.InputEnded() && c.sender.stream.Eof() && c.sender.outgoing == 0
    && (!c.linger || c.elapsed >= 10 * c.rtTimeout)
  }

  /** All that sending does. */
  predicate Sends(d: ConnState, c: ConnState) {
    && c == d.(sender := d.sender.(out := []), out := c.out, linger := c.linger, active := c.active)
    && WentOut(d.out, d.sender.out, d.receiver, c.out)
    && (c.linger <==> d.linger && !GivesUpLinger(d))
    && (c.active <==> d.active && !Stops(d))
  }

  lemma SendLaw(d: ConnState)
    requires d.receiver.WellFormed()
    ensures Sends(d, d.SendSegments())
  {
    var c := d.SendSegments();
    forall i | 0 <= i < |d.sender.out|
      ensures Stamped(d.sender.out[i], c.out[|d.out| + i], d.receiver)
    {
      assert c.out[|d.out| + i] == d.Stamp(d.sender.out[i]);
    }
  }

  /** Filling the window and sending. */
  lemma FillSendLaw(d: ConnState) returns (launched: seq<Flight>)
    requires d.Usable()
    ensures var c := d.FillAndSend();
            && c.sender.outstanding == d.sender.outstanding + launched
            && Tiles(launched, d.sender.nextSeqno, c.sender.nextSeqno)
            && WentOut(d.out, d.sender.out + Segs(launched), d.receiver, c.out)
            && c.sender.out == [] && c.receiver == d.receiver
  {
    launched := FillLaunches(d.sender);
    SendLaw(d.(sender := d.sender.FillWindow()));
  }

  /** What is written is appended to the stream as far as it fits, and what can be sent is sent at once. */
  lemma WriteOutput(c: ConnState, data: seq<byte>) returns (launched: seq<Flight>)
    requires c.Usable() && !c.sender.fin && data != []
    ensures var c' := c.Write(data);
            && WentOut(c.out, c.sender.out + Segs(launched), c.receiver, c'.out) && c'.sender.out == []
            && Tiles(launched, c.sender.nextSeqno, c'.sender.nextSeqno)
            && c'.sender.stream.totin == c.sender.stream.totin + Min(|data|, c.sender.stream.RemainingCapacity())
  {
    var d := c.WithStream(c.sender.stream.Write(data));
    launched := FillSendLaw(d);
    FillKeeps(d.sender);
    SendHalves(d.(sender := d.sender.FillWindow()));
  }

  lemma EndInputOutput(c: ConnState) returns (launched: seq<Flight>)
    requires c.Usable()
    ensures var c' := c.EndInput();
            && WentOut(c.out, c.sender.out + Segs(launched), c.receiver, c'.out) && c'.sender.out == []
            && Tiles(launched, c.sender.nextSeqno, c'.sender.nextSeqno) && c'.sender.stream.ended
  {
    var d := c.WithStream(c.sender.stream.(ended := true));
    launched := FillSendLaw(d);
    FillKeeps(d.sender);
    SendHalves(d.(sender := d.sender.FillWindow()));
  }

  // ---------------------------------------------------------------- arrivals

  /** The arrivals that the receiver hears of. */
  predicate Hears(b: Branch, h: TcpHeader) {
    match b
    case Listen => h.syn
    case SynSent => h.syn
    case FinWait1 => h.fin || h.ack
    case TimeWait => h.fin
    case _ => true
  }

  /** The arrivals that call for an acknowledgement of their own. */
  predicate Replies(b: Branch, seg: TcpSegment) {
    match b
    case SynSent => seg.header.syn
    case Estab => seg.SeqLen() > 0
    case FinWait1 => seg.header.fin
    case FinWait2 => true
    case TimeWait => seg.header.fin
    case _ => false
  }

  /** The two halves after the segment has been taken in, before anything is sent. */
  function TakenIn(c: ConnState, b: Branch, seg: TcpSegment): ConnState
    requires c.Usable()
  {
    c.(sender := if Reads(b, seg.header) then c.sender.AckReceived(seg.header.ackno, seg.header.win) else c.sender,
       receiver := if Hears(b, seg.header) then c.receiver.SegmentReceived(seg) else c.receiver)
  }

  function Prepared(d: ConnState, b: Branch, seg: TcpSegment): ConnState {
    var e := if Replies(b, seg) then d.Replying() else d;
    e.(sender := if Fills(b) then e.sender.FillWindow() else e.sender)
  }

  lemma TakenInUsable(c: ConnState, b: Branch, seg: TcpSegment)
    requires c.Usable()
    ensures TakenIn(c, b, seg).Usable()
  {
    AckKeeps(c.sender, seg.header.ackno, seg.header.win);
    ReceiveMonotone(c.receiver, seg);
  }

  lemma DispatchForm(c: ConnState, b: Branch, seg: TcpSegment)
    requires c.Usable() && TakenIn(c, b, seg).Usable()
    ensures var d := TakenIn(c, b, seg);
            c.Dispatch(b, seg) == if Answered(b, seg.header) then Prepared(d, b, seg).SendSegments() else d
  {
    match b
    case Listen =>
    case SynSent =>
    case SynRcvd =>
    case Estab =>
    case FinWait1 =>
    case FinWait2 =>
    case TimeWait =>
    case Other =>
  }

  /** An empty segment at absolute number `n`. */
  function EmptyAt(isn: u32, n: nat): TcpSegment { TcpSegment(EMPTY_HEADER.(seqno := Wrap(n, isn)), []) }

  function Reply(b: Branch, seg: TcpSegment, isn: u32, n: nat): seq<TcpSegment> {
    if Replies(b, seg) then [EmptyAt(isn, n)] else []
  }

  lemma FilledLaunchesNothing(s: SenderState)
    requires s.Valid() && s.Filled() && s.syn
    ensures s.FillWindow() == s
  {
    CanEmitIff(s);
  }

  /** Filling the window, or not. */
  lemma RefillQueue(s: SenderState, fill: bool, s': SenderState) returns (launched: seq<Flight>)
    requires s.Valid() && s' == (if fill then s.FillWindow() else s)
    ensures s'.Valid() && s'.out == s.out + Segs(launched) && s'.outstanding == s.outstanding + launched
    ensures Tiles(launched, s.nextSeqno, s'.nextSeqno)
    ensures s'.isn == s.isn && (s.Filled() && s.syn ==> launched == [])
  {
    if fill && !(s.Filled() && s.syn) {
      launched := FillLaunches(s);
      FillKeeps(s);
    } else {
      launched := [];
      assert s.out + Segs([]) == s.out && s.outstanding + [] == s.outstanding;
      if fill {
        FilledLaunchesNothing(s);
      }
    }
  }

  predicate Fills(b: Branch) { b in {Branch.Listen, Branch.Estab, Branch.Other} }

  lemma Replied(d: ConnState, b: Branch, seg: TcpSegment)
    requires d.Usable()
    ensures var e := if Replies(b, seg) then d.Replying() else d;
            e == d.(sender := d.sender.(out := d.sender.out + Reply(b, seg, d.sender.isn, d.sender.nextSeqno)))
  {
    if !Replies(b, seg) {
      assert d.sender.out + [] == d.sender.out;
    }
  }

  /** What waits in the queue when the answer is ready. */
  lemma PreparedQueue(d: ConnState, b: Branch, seg: TcpSegment) returns (launched: seq<Flight>)
    requires d.Usable()
    ensures var e := Prepared(d, b, seg);
            && e.Usable() && e == d.(sender := e.sender) && e.sender.isn == d.sender.isn
            && e.sender.out == d.sender.out + Reply(b, seg, d.sender.isn, d.sender.nextSeqno) + Segs(launched)
            && Tiles(launched, d.sender.nextSeqno, e.sender.nextSeqno)
            && (d.sender.Filled() && d.sender.syn ==> launched == [])
  {
    var t := if Replies(b, seg) then d.Replying() else d;
    Replied(d, b, seg);
    launched := RefillQueue(t.sender, Fills(b), Prepared(d, b, seg).sender);
  }

  /** The segments that a sender has queued since an acknowledgement was read, or not. */
  lemma TakenInQueue(c: ConnState, b: Branch, seg: TcpSegment) returns (launched: seq<Flight>)
    requires c.Usable()
    ensures var d := TakenIn(c, b, seg);
            && d.sender.out == c.sender.out + Segs(launched) && Tiles(launched, c.sender.nextSeqno, d.sender.nextSeqno)
            && d.sender.isn == c.sender.isn && (c.sender.Filled() ==> d.sender.Filled())
            && (c.sender.syn ==> d.sender.syn)
  {
    if Reads(b, seg.header) {
      launched := AckLaunches(c.sender, seg.header.ackno, seg.header.win);
      AckKeeps(c.sender, seg.header.ackno, seg.header.win);
    } else {
      launched := [];
      assert c.sender.out + Segs([]) == c.sender.out;
    }
  }

  /**
   * All that an arrival puts on the wire. If the branch answers: what waited, the segments that the
   * acknowledgement launched, an empty segment if the arrival calls for one, and the segments that
   * filling the window launched; all of it, in this order, acknowledging what the receiver now has.
   * If not, nothing is sent.
   */
  lemma DispatchOutput(c: ConnState, b: Branch, seg: TcpSegment)
    returns (acked: seq<Flight>, mid: nat, filled: seq<Flight>)
    requires c.Usable()
    ensures var c' := c.Dispatch(b, seg);
            && c'.receiver == (if Hears(b, seg.header) then c.receiver.SegmentReceived(seg) else c.receiver)
            && c'.elapsed == c.elapsed && c'.sender.isn == c.sender.isn
            && if Answered(b, seg.header) then Answer(c, b, seg, acked, mid, filled, c')
               else Silence(c, acked, c')
  {
    var d := TakenIn(c, b, seg);
    mid := d.sender.nextSeqno;
    TakenInUsable(c, b, seg);
    DispatchForm(c, b, seg);
    acked := TakenInQueue(c, b, seg);
    filled := PreparedQueue(d, b, seg);
    if Answered(b, seg.header) {
      AnswerSent(c, b, seg, acked, filled, d, Prepared(d, b, seg));
    }
  }

  predicate Answer(c: ConnState, b: Branch, seg: TcpSegment, acked: seq<Flight>, mid: nat, filled: seq<Flight>,
                   c': ConnState)
  {
    && Tiles(acked, c.sender.nextSeqno, mid) && Tiles(filled, mid, c'.sender.nextSeqno)
    && WentOut(c.out, c.sender.out + Segs(acked) + Reply(b, seg, c.sender.isn, mid) + Segs(filled), c'.receiver, c'.out)
    && c'.sender.out == []
    && (c.sender.Filled() && c.sender.syn ==> filled == [])
    && (c'.linger <==> c.linger && !GivesUpLinger(c'))
    && (c'.active <==> c.active && !Stops(c'.(linger := c.linger)))
  }

  /** Nothing is sent; what the acknowledgement launched waits in the queue. */
  predicate Silence(c: ConnState, acked: seq<Flight>, c': ConnState) {
    && c'.sender.out == c.sender.out + Segs(acked) && Tiles(acked, c.sender.nextSeqno, c'.sender.nextSeqno)
    && c'.out == c.out && c'.linger == c.linger && c'.active == c.active
  }

  lemma AnswerSent(c: ConnState, b: Branch, seg: TcpSegment, acked: seq<Flight>, filled: seq<Flight>, d: ConnState,
                   e: ConnState)
    requires c.Usable() && d.Usable() && e.Usable()
    requires d == c.(sender := d.sender, receiver := d.receiver) && e == d.(sender := e.sender)
    requires d.sender.out == c.sender.out + Segs(acked) && Tiles(acked, c.sender.nextSeqno, d.sender.nextSeqno)
    requires e.sender.isn == d.sender.isn == c.sender.isn
    requires e.sender.out == d.sender.out + Reply(b, seg, d.sender.isn, d.sender.nextSeqno) + Segs(filled)
    requires Tiles(filled, d.sender.nextSeqno, e.sender.nextSeqno)
    requires c.sender.Filled() && c.sender.syn ==> filled == []
    ensures var c' := e.SendSegments();
            && Answer(c, b, seg, acked, d.sender.nextSeqno, filled, c')
            && c'.receiver == d.receiver && c'.elapsed == c.elapsed && c'.sender.isn == c.sender.isn
  {
    SendLaw(e);
  }

  /** The same for a whole arrival. */
  lemma ArrivalOutput(c: ConnState, seg: TcpSegment) returns (acked: seq<Flight>, mid: nat, filled: seq<Flight>)
    requires c.Usable() && c.active && !seg.header.rst
    ensures var b, c' := c.GetBranch(), c.SegmentReceived(seg);
            && c'.receiver == (if Hears(b, seg.header) then c.receiver.SegmentReceived(seg) else c.receiver)
            && c'.elapsed == 0 && c'.sender.isn == c.sender.isn
            && if Answered(b, seg.header) then Answer(c, b, seg, acked, mid, filled, c')
               else Silence(c, acked, c')
  {
    HeardSame(c, seg);
    acked, mid, filled := DispatchOutput(c.(elapsed := 0), c.GetBranch(), seg);
  }

  // ---------------------------------------------------------------- what is acknowledged at once

  function Empties(q: seq<TcpSegment>): nat {
    if q == [] then 0 else Empties(q[..|q| - 1]) + (if q[|q| - 1].SeqLen() == 0 then 1 else 0)
  }

  lemma {:induction false} EmptiesConcat(a: seq<TcpSegment>, b: seq<TcpSegment>)
    ensures Empties(a + b) == Empties(a) + Empties(b)
    decreases |b|
  {
    if b == [] {
      assert a + b == a;
    } else {
      EmptiesConcat(a, b[..|b| - 1]);
      assert (a + b)[..|a + b| - 1] == a + b[..|b| - 1];
    }
  }

  lemma {:induction false} EmptiesWentOut(before: seq<TcpSegment>, queue: seq<TcpSegment>, r: ReceiverState,
                                          after: seq<TcpSegment>)
    requires WentOut(before, queue, r, after)
    ensures Empties(after) == Empties(before) + Empties(queue)
    decreases |queue|
  {
    if queue == [] {
      assert after == before;
    } else {
      EmptiesWentOut(before, queue[..|queue| - 1], r, after[..|after| - 1]);
      assert Stamped(queue[|queue| - 1], after[|before| + |queue| - 1], r);
    }
  }

  lemma {:induction false} FlightsNotEmpty(fs: seq<Flight>, lo: nat, hi: nat, i: nat)
    requires Tiles(fs, lo, hi) && i < |fs|
    ensures fs[i].seg.SeqLen() > 0
  {
    if i == 0 {
    } else {
      FlightsNotEmpty(fs[1..], fs[0].End(), hi, i - 1);
    }
  }

  predicate NoneEmpty(q: seq<TcpSegment>) {
    forall i :: 0 <= i < |q| ==> q[i].SeqLen() > 0
  }

  lemma SegsNotEmpty(fs: seq<Flight>, lo: nat, hi: nat)
    requires Tiles(fs, lo, hi)
    ensures NoneEmpty(Segs(fs))
  {
    forall i | 0 <= i < |fs|
      ensures Segs(fs)[i].SeqLen() > 0
    {
      FlightsNotEmpty(fs, lo, hi, i);
    }
  }

  lemma {:induction false} NoEmpties(q: seq<TcpSegment>)
    requires NoneEmpty(q)
    ensures Empties(q) == 0
  {
    if q == [] {
    } else {
      NoEmpties(q[..|q| - 1]);
    }
  }

  lemma AnswerEmpties(c: ConnState, b: Branch, seg: TcpSegment, acked: seq<Flight>, mid: nat, filled: seq<Flight>,
                      c': ConnState)
    requires Answer(c, b, seg, acked, mid, filled, c')
    ensures Empties(c'.out) == Empties(c.out) + Empties(c.sender.out) + (if Replies(b, seg) then 1 else 0)
  {
    var reply := Reply(b, seg, c.sender.isn, mid);
    var q1 := c.sender.out + Segs(acked);
    EmptiesWentOut(c.out, q1 + reply + Segs(filled), c'.receiver, c'.out);
    EmptiesConcat(c.sender.out, Segs(acked));
    EmptiesConcat(q1, reply);
    EmptiesConcat(q1 + reply, Segs(filled));
    SegsNotEmpty(acked, c.sender.nextSeqno, mid);
    SegsNotEmpty(filled, mid, c'.sender.nextSeqno);
    NoEmpties(Segs(acked));
    NoEmpties(Segs(filled));
    ReplyEmpties(b, seg, c.sender.isn, mid);
  }

  lemma ReplyEmpties(b: Branch, seg: TcpSegment, isn: u32, n: nat)
    ensures Empties(Reply(b, seg, isn, n)) == if Replies(b, seg) then 1 else 0
  {
    var q := Reply(b, seg, isn, n);
    if q != [] {
      assert q[..|q| - 1] == [];
    }
  }

  /** An arrival adds an empty segment exactly if the state and its flags call for one. */
  lemma ArrivalEmpties(c: ConnState, seg: TcpSegment)
    requires c.Usable() && c.active && !seg.header.rst
    ensures var b := c.GetBranch();
            Empties(c.SegmentReceived(seg).out) == Empties(c.out) +
            if Answered(b, seg.header) then Empties(c.sender.out) + (if Replies(b, seg) then 1 else 0) else 0
  {
    var acked, mid, filled := ArrivalOutput(c, seg);
    if Answered(c.GetBranch(), seg.header) {
      AnswerEmpties(c, c.GetBranch(), seg, acked, mid, filled, c.SegmentReceived(seg));
    }
  }

  /** A pure acknowledgement of all that `c` has, at its next sequence number. */
  predicate Acknowledgement(t: TcpSegment, c: ConnState) {
    && t.payload == [] && !t.header.syn && !t.header.fin && !t.header.rst
    && t.header.seqno == Wrap(c.sender.nextSeqno, c.sender.isn)
    && c.receiver.syn && t.header.ack && t.header.ackno == Wrap(c.receiver.AbsAckno(), c.receiver.isn)
    && t.header.win == U16(c.receiver.capacity - |c.receiver.StreamOut().buf|)
  }

  /** A connection that replies has the peer's SYN, at the latest from this segment. */
  lemma RepliesSynced(c: ConnState, seg: TcpSegment)
    requires Inv(c) && Replies(c.GetBranch(), seg)
    ensures (c.receiver.syn || seg.header.syn) && c.sender.syn && Answered(c.GetBranch(), seg.header)
    ensures Hears(c.GetBranch(), seg.header)
  {
  }

  lemma AnswerAcknowledges(c: ConnState, b: Branch, seg: TcpSegment, acked: seq<Flight>, mid: nat,
                           filled: seq<Flight>, c': ConnState)
    returns (k: nat)
    requires Answer(c, b, seg, acked, mid, filled, c') && Replies(b, seg) && filled == []
    requires c'.receiver.syn && c'.sender.isn == c.sender.isn
    ensures |c.out| <= k < |c'.out| && Acknowledgement(c'.out[k], c')
  {
    var queue := c.sender.out + Segs(acked) + Reply(b, seg, c.sender.isn, mid) + Segs(filled);
    var i := |c.sender.out| + |acked|;
    k := |c.out| + i;
    assert queue[i] == EmptyAt(c.sender.isn, mid);
    assert Stamped(queue[i], c'.out[k], c'.receiver);
  }

  /** Whatever calls for an acknowledgement gets one, of all that the receiver then has. */
  lemma ArrivalAcknowledged(c: ConnState, seg: TcpSegment) returns (k: nat)
    requires Inv(c) && c.active && !seg.header.rst && Replies(c.GetBranch(), seg)
    ensures var c' := c.SegmentReceived(seg);
            |c.out| <= k < |c'.out| && Acknowledgement(c'.out[k], c')
  {
    RepliesSynced(c, seg);
    var acked, mid, filled := ArrivalOutput(c, seg);
    ReceiveMonotone(c.receiver, seg);
    ReceiveSyn(c.receiver, seg);
    k := AnswerAcknowledges(c, c.GetBranch(), seg, acked, mid, filled, c.SegmentReceived(seg));
  }

  lemma ReceiveSyn(r: ReceiverState, seg: TcpSegment)
    requires r.WellFormed()
    ensures r.SegmentReceived(seg).syn <==> r.syn || seg.header.syn
  {
  }

  // ---------------------------------------------------------------- ticks

  /** The timer has run out on something in flight. */
  predicate Due(s: SenderState, ms: nat) { s.outstanding != [] && U32(s.timecount + ms) >= s.rto }

  function Tries(s: SenderState, ms: nat): nat { s.retx + if Due(s, ms) then 1 else 0 }

  /** The sender after a tick that did not give up, its queue sent. */
  function Waited(s: SenderState, ms: nat): SenderState {
    s.(timecount := if Due(s, ms) then 0 else U32(s.timecount + ms),
       rto := if Due(s, ms) && s.win > 0 then U32(2 * s.rto) else s.rto, retx := Tries(s, ms), out := [])
  }

  /**
   * All that a tick does: it gives up after too many tries, with a RST; otherwise it sends what waited
   * and, if the timer has run out, the oldest flight again, and it may then stop the connection.
   */
  lemma TickOutput(c: ConnState, ms: nat)
    requires c.Usable() && c.active
    ensures var s, c' := c.sender, c.Tick(ms);
            if Tries(s, ms) > MAX_RETX_ATTEMPTS then
              && !c'.active && Errors(c') && c'.out == c.out + [TcpSegment(EMPTY_HEADER.(rst := true), [])]
            else
              && WentOut(c.out, s.out + (if Due(s, ms) then [s.outstanding[0].seg] else []), c.receiver, c'.out)
              && c'.sender == Waited(s, ms) && c'.receiver == c.receiver && c'.elapsed == c.elapsed + ms
              && (c'.linger <==> c.linger && !GivesUpLinger(c'))
              && (c'.active <==> !Stops(c'.(linger := c.linger)))
  {
    var d := c.Ticked(ms);
    SendLaw(d);
    assert c.sender.out + [] == c.sender.out;
  }

  /** A timeout puts the oldest unacknowledged part of the stream on the wire, last, freshly stamped. */
  lemma TickRetransmits(c: ConnState, w: seq<byte>, ms: nat)
    requires c.active && Faithful(c.sender, w) && c.receiver.WellFormed()
    requires Due(c.sender, ms) && c.sender.retx < MAX_RETX_ATTEMPTS
    ensures var c' := c.Tick(ms);
            && |c'.out| == |c.out| + |c.sender.out| + 1 && c'.sender.out == []
            && var t := c'.out[|c'.out| - 1];
            && GenuineAt(t, c.sender.Base(), SourceOf(c.sender, w)) && t.SeqLen() > 0
            && Stamped(c.sender.outstanding[0].seg, t, c.receiver)
  {
    var s, t := c.sender, c.Tick(ms).out[|c.out| + |c.sender.out|];
    TickOutput(c, ms);
    var queue := s.out + [s.outstanding[0].seg];
    assert queue[|s.out|] == s.outstanding[0].seg;
    assert Stamped(s.outstanding[0].seg, t, c.receiver);
    assert s.outstanding[0] in s.outstanding && s.outstanding[0].seqno == s.Base();
  }

  /** A tick stops a connection cleanly exactly if both streams are over and it need not linger any more. */
  lemma TickStopsIff(c: ConnState, ms: nat)
    requires Inv(c) && c.active
    ensures var c' := c.Tick(ms);
            !c'.active && NoError(c') <==>
            && c.receiver.InputEnded() && c.sender.stream.Eof() && c.sender.outgoing == 0
            && (!c.linger || c.elapsed + ms >= 10 * c.rtTimeout)
  {
    TickOutput(c, ms);
    TilesEnd(c.sender.outstanding, c.sender.nextSeqno - c.sender.outgoing, c.sender.nextSeqno);
  }

  // ---------------------------------------------------------------- over whole runs

  lemma ArrivalQueue(c: ConnState, seg: TcpSegment)
    requires c.Usable() && NoneEmpty(c.sender.out)
    ensures NoneEmpty(c.SegmentReceived(seg).sender.out)
  {
    if c.active && !seg.header.rst {
      var acked, mid, filled := ArrivalOutput(c, seg);
      var c' := c.SegmentReceived(seg);
      if !Answered(c.GetBranch(), seg.header) {
        SegsNotEmpty(acked, c.sender.nextSeqno, c'.sender.nextSeqno);
      }
    }
  }

  lemma TickQueue(c: ConnState, ms: nat)
    requires c.Usable() && NoneEmpty(c.sender.out)
    ensures NoneEmpty(c.Tick(ms).sender.out)
  {
    if Due(c.sender, ms) {
      FlightsNotEmpty(c.sender.outstanding, c.sender.Base(), c.sender.nextSeqno, 0);
    }
  }

  /** No empty segment ever waits in the queue: acknowledgements go out at once. */
  lemma StepQueue(c: ConnState, e: Event)
    requires Inv(c) && NoneEmpty(c.sender.out)
    ensures NoneEmpty(Next(c, e).sender.out)
  {
    match e
    case Arrival(seg) => ArrivalQueue(c, seg);
    case Tick(ms) => TickQueue(c, ms);
    case Write(data) => SentQueue(c.WithStream(c.sender.stream.Write(data)));
    case EndInput => SentQueue(c.WithStream(c.sender.stream.(ended := true)));
    case Connect => SentQueue(c);
    case Read(len) =>
  }

  lemma SentQueue(d: ConnState)
    requires d.receiver.WellFormed()
    ensures d.FillAndSend().sender.out == []
  {
    SendHalves(d.(sender := d.sender.FillWindow()));
  }

  lemma {:induction false} RunQueue(c: ConnState, events: seq<Event>)
    requires Inv(c) && NoneEmpty(c.sender.out)
    ensures NoneEmpty(Run(c, events).sender.out)
    decreases |events|
  {
    if events == [] {
    } else {
      StepQueue(c, events[0]);
      RunQueue(Next(c, events[0]), events[1..]);
    }
  }

  lemma ReachableQueue(c: ConnState)
    requires Reachable(c)
    ensures NoneEmpty(c.sender.out)
  {
    var isn, rtTimeout, sendCapacity, recvCapacity, events :|
      ReachedBy(c, isn, rtTimeout, sendCapacity, recvCapacity, events);
    RunQueue(NewConnection(isn, rtTimeout, sendCapacity, recvCapacity), events);
  }

  lemma {:induction false} EmptyCounts(before: seq<TcpSegment>, after: seq<TcpSegment>, k: nat)
    requires before <= after && |before| <= k < |after| && after[k].SeqLen() == 0
    ensures Empties(after) > Empties(before)
  {
    EmptiesConcat(after[..k], after[k..]);
    EmptiesConcat(after[k..k + 1], after[k + 1..]);
    EmptiesConcat(before, after[|before|..k]);
    assert after == after[..k] + after[k..] && after[k..] == after[k..k + 1] + after[k + 1..];
    assert after[..k] == before + after[|before|..k];
    assert after[k..k + 1][..0] == [];
  }

  /**
   * In every reachable state an arrival is acknowledged at once, by exactly one empty segment that
   * acknowledges all that the receiver then has, if and only if the state and its flags call for it.
   */
  lemma AcknowledgedIff(c: ConnState, seg: TcpSegment)
    requires Reachable(c) && Inv(c) && c.active && !seg.header.rst
    ensures var c' := c.SegmentReceived(seg);
            && Empties(c'.out) == Empties(c.out) + (if Replies(c.GetBranch(), seg) then 1 else 0)
            && (Replies(c.GetBranch(), seg) <==>
                exists k :: |c.out| <= k < |c'.out| && Acknowledgement(c'.out[k], c'))
  {
    var c' := c.SegmentReceived(seg);
    ReachableQueue(c);
    NoEmpties(c.sender.out);
    ArrivalEmpties(c, seg);
    if Replies(c.GetBranch(), seg) {
      RepliesSynced(c, seg);
      var k := ArrivalAcknowledged(c, seg);
    } else {
      assert Empties(c'.out) == Empties(c.out);
      ArrivalPrefix(c, seg);
      forall k | |c.out| <= k < |c'.out|
        ensures !Acknowledgement(c'.out[k], c')
      {
        if Acknowledgement(c'.out[k], c') {
          EmptyCounts(c.out, c'.out, k);
        }
      }
    }
  }

  lemma ArrivalPrefix(c: ConnState, seg: TcpSegment)
    requires c.Usable() && c.active && !seg.header.rst
    ensures c.out <= c.SegmentReceived(seg).out
  {
    var acked, mid, filled := ArrivalOutput(c, seg);
  }
}
