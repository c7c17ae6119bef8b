/** The sending half of a connection: segmentation, in-flight tracking and the retransmission timer. */
module Sender {
  import opened Integers
  import opened Wrapping
  import opened Stream
  import opened Segment

  const MAX_PAYLOAD_SIZE: nat := 1000

  /** An in-flight segment under its absolute sequence number. */
  datatype Flight = Flight(seqno: nat, seg: TcpSegment) {
    function End(): nat { seqno + seg.SeqLen() }
  }

  /** The flights lie end to end and fill `[lo, hi)`; none is empty. */
  predicate Tiles(fs: seq<Flight>, lo: nat, hi: nat) {
    if fs == [] then lo == hi
    else fs[0].seqno == lo && fs[0].seg.SeqLen() > 0 && Tiles(fs[1..], fs[0].End(), hi)
  }

  /**
   * `outstanding` is the ordered map of in-flight segments, listed by key. Timer fields are
   * 32-bit and wrap.
   */
  datatype SenderState = SenderState(
    isn: u32, initialRto: u16, stream: StreamState, nextSeqno: nat, rto: u32, timecount: u32, retx: nat,
    outstanding: seq<Flight>, outgoing: nat, syn: bool, fin: bool, win: nat, out: seq<TcpSegment>)
  {
    /** What the operations need. */
    predicate Sound() { stream.Valid() && Tiled() }

    /** What they keep as long as nothing is written after the FIN. */
    predicate Valid() {
      && Sound()
      && nextSeqno == stream.totout + (if syn then 1 else 0) + (if fin then 1 else 0)
      && (!syn ==> stream.totout == 0 && !fin)
      && (fin ==> stream.Eof())
      && (outstanding == [] ==> retx == 0)
    }

    /** First absolute sequence number not yet acknowledged. */
    function Base(): int {
      nextSeqno - outgoing
    }

    /** A zero window is treated as one so that it can be probed. */
    function Window(): nat { if win == 0 then 1 else win }

    /** What is still to be sent: the buffered bytes, and the FIN once the stream has ended. */
    function Available(): nat {
      |stream.buf| + (if stream.ended && !fin then 1 else 0)
    }

    /** Nothing more can be sent now. */
    predicate Filled() {
      outgoing >= Window() || (stream.buf == [] && (stream.ended ==> fin))
    }

    // ------------------------------------------------------------ fill_window

    function NextPayload(): seq<byte>
      requires outgoing < Window()
    {
      stream.Peek(Min(MAX_PAYLOAD_SIZE, Window() - outgoing - (if syn then 0 else 1)))
    }

    /** The segment that one turn of the loop would send; possibly an empty one. */
    function NextSegment(): TcpSegment
      requires outgoing < Window()
    {
      var payload := NextPayload();
      var last := !fin && stream.Pop(|payload|).Eof() && |payload| + outgoing < Window();
      TcpSegment(EMPTY_HEADER.(syn := !syn, seqno := Wrap(nextSeqno, isn), fin := last), payload)
    }

    predicate CanEmit() {
      outgoing < Window() && NextSegment().SeqLen() > 0
    }

    function Emit(): SenderState
      requires CanEmit()
    {
      var seg := NextSegment();
      this.(syn := true, fin := fin || seg.header.fin, stream := stream.Pop(|seg.payload|),
            rto := if outstanding == [] then initialRto else rto,
            timecount := if outstanding == [] then 0 else timecount,
            out := out + [seg], outgoing := outgoing + seg.SeqLen(),
            outstanding := outstanding + [Flight(nextSeqno, seg)], nextSeqno := nextSeqno + seg.SeqLen())
    }

    function FillWindow(): SenderState
      decreases Window() - outgoing
    {
      if !CanEmit() then this
      else if NextSegment().header.fin then Emit()
      else Emit().FillWindow()
    }

    // ------------------------------------------------------------ ack_received, tick, send_empty_segment

    predicate Tiled() {
      outgoing <= nextSeqno && Tiles(outstanding, nextSeqno - outgoing, nextSeqno)
    }

    /** Drop the oldest flight and restart the timer. */
    function DropFirst(): SenderState
      requires Tiled() && outstanding != []
      ensures DropFirst().Tiled()
    {
      TilesEnd(outstanding[1..], outstanding[0].End(), nextSeqno);
      this.(outgoing := outgoing - outstanding[0].seg.SeqLen(), outstanding := outstanding[1..],
            rto := initialRto, timecount := 0)
    }

    /** Drop the flights that end at or before `a`. */
    function Acknowledge(a: nat): SenderState
      requires Tiled()
      decreases |outstanding|
    {
      if outstanding == [] || outstanding[0].End() > a then this else DropFirst().Acknowledge(a)
    }

    function AckReceived(ackno: u32, window: u16): SenderState
      requires Tiled()
    {
      var a := Unwrap(ackno, isn, nextSeqno);
      if a > nextSeqno then this
      else Acknowledge(a).(win := window, retx := 0).FillWindow()
    }

    predicate TimesOut(ms: nat) {
      U32(timecount + ms) >= rto && outstanding != []
    }

    function Tick(ms: nat): SenderState {
      if !TimesOut(ms) then this.(timecount := U32(timecount + ms))
      else this.(timecount := 0, rto := if win > 0 then U32(rto * 2) else rto, retx := retx + 1,
                 out := out + [outstanding[0].seg])
    }

    function SendEmpty(): SenderState {
      this.(out := out + [TcpSegment(EMPTY_HEADER.(seqno := Wrap(nextSeqno, isn)), [])])
    }
  }

  function NewSender(capacity: nat, rtTimeout: u16, isn: u32): SenderState {
    SenderState(isn, rtTimeout, NewStream(capacity), 0, 0, 0, 0, [], 0, false, false, 1, [])
  }

  // ---------------------------------------------------------------- tiling

  lemma {:induction false} TilesEnd(fs: seq<Flight>, lo: nat, hi: nat)
    requires Tiles(fs, lo, hi)
    ensures lo <= hi
    ensures lo == hi <==> fs == []
  {
    if fs == [] {
    } else {
      TilesEnd(fs[1..], fs[0].End(), hi);
    }
  }

  lemma {:induction false} TilesAppend(fs: seq<Flight>, lo: nat, f: Flight)
    requires Tiles(fs, lo, f.seqno) && f.seg.SeqLen() > 0
    ensures Tiles(fs + [f], lo, f.End())
  {
    if fs == [] {
      assert (fs + [f])[1..] == [];
    } else {
      TilesAppend(fs[1..], fs[0].End(), f);
      assert (fs + [f])[1..] == fs[1..] + [f];
    }
  }

  // ---------------------------------------------------------------- what each operation keeps

  /** What sending new segments, one or many, leaves alone or only extends. */
  predicate Extends(s: SenderState, s': SenderState) {
    && s'.isn == s.isn && s'.initialRto == s.initialRto && s'.win == s.win && s'.retx == s.retx
    && s'.nextSeqno - s'.outgoing == s.nextSeqno - s.outgoing
    && s.nextSeqno <= s'.nextSeqno
    && s.stream.totout <= s'.stream.totout
    && s'.stream.totin == s.stream.totin && s'.stream.ended == s.stream.ended
    && s'.stream.error == s.stream.error && s'.stream.capacity == s.stream.capacity
    && (s.syn ==> s'.syn) && (s.fin ==> s'.fin)
    && s.out <= s'.out && s.outstanding <= s'.outstanding
    && (s.outstanding != [] ==> s'.rto == s.rto && s'.timecount == s.timecount)
    && (s.outstanding == [] && s'.outstanding != [] ==> s'.rto == s.initialRto && s'.timecount == 0)
  }

  /** In flight never exceeds the window, but for one excess when a single segment is SYN and FIN. */
  predicate Bounded(s: SenderState, s': SenderState) {
    || s'.outgoing <= Max(s.outgoing, s.Window())
    || (!s.syn && s'.outstanding != [] && s'.outgoing == s.Window() + 1
        && s'.outstanding[|s'.outstanding| - 1].seg.header.syn && s'.outstanding[|s'.outstanding| - 1].seg.header.fin)
  }

  lemma EmitSound(s: SenderState)
    requires s.Sound() && s.CanEmit()
    ensures s.Emit().Sound() && s.Emit().Window() == s.Window()
  {
    TilesAppend(s.outstanding, s.nextSeqno - s.outgoing, Flight(s.nextSeqno, s.NextSegment()));
  }

  lemma EmitKeeps(s: SenderState)
    requires s.Valid() && s.CanEmit()
    ensures s.Emit().Valid() && Extends(s, s.Emit()) && Bounded(s, s.Emit())
    ensures |s.NextSegment().payload| <= MAX_PAYLOAD_SIZE
    ensures s.NextSegment().header.fin || s.Emit().syn == s.syn || s.Emit().outgoing <= s.Window()
  {
    TilesAppend(s.outstanding, s.nextSeqno - s.outgoing, Flight(s.nextSeqno, s.NextSegment()));
  }

  /** `fill_window` ends, keeps the tiling, stays in the window, and sends all the window allows. */
  lemma {:induction false} FillKeeps(s: SenderState)
    requires s.Valid()
    ensures var s' := s.FillWindow();
            && s'.Valid() && Extends(s, s') && Bounded(s, s') && s'.Filled()
            && (s.outgoing < s.Window() ==> s'.syn)
    decreases s.Window() - s.outgoing
  {
    if s.CanEmit() {
      EmitKeeps(s);
      if !s.NextSegment().header.fin {
        FillKeeps(s.Emit());
      }
    }
  }

  lemma {:induction false} FillPayloads(s: SenderState)
    requires s.Valid() && forall seg :: seg in s.out ==> |seg.payload| <= MAX_PAYLOAD_SIZE
    ensures forall seg :: seg in s.FillWindow().out ==> |seg.payload| <= MAX_PAYLOAD_SIZE
    decreases s.Window() - s.outgoing
  {
    if s.CanEmit() {
      EmitKeeps(s);
      if !s.NextSegment().header.fin {
        FillPayloads(s.Emit());
      }
    }
  }

  // ---------------------------------------------------------------- what is queued is what is tracked

  function Segs(fs: seq<Flight>): seq<TcpSegment> {
    seq(|fs|, i requires 0 <= i < |fs| => fs[i].seg)
  }

  /** The payloads of some flights, one after the other. */
  function Payloads(fs: seq<Flight>): seq<byte> {
    if fs == [] then [] else fs[0].seg.payload + Payloads(fs[1..])
  }

  /** Full segments, but for the last one. */
  predicate Packed(fs: seq<Flight>) {
    forall i :: 0 <= i < |fs| - 1 ==> |fs[i].seg.payload| == MAX_PAYLOAD_SIZE
  }

  /**
   * From `s` to `s'` the flights `launched` were launched: they are what was queued, in order and as
   * tracked, they continue the sequence numbers, and they carry the next bytes of the stream.
   */
  predicate Launches(s: SenderState, s': SenderState, launched: seq<Flight>) {
    && s'.out == s.out + Segs(launched)
    && Tiles(launched, s.nextSeqno, s'.nextSeqno)
    && s.stream.buf == Payloads(launched) + s'.stream.buf
    && Packed(launched)
  }

  lemma EmitLaunches(s: SenderState)
    requires s.Valid() && s.CanEmit()
    ensures Launches(s, s.Emit(), [Flight(s.nextSeqno, s.NextSegment())])
  {
    var f := Flight(s.nextSeqno, s.NextSegment());
    assert [f][1..] == [] && Segs([f]) == [f.seg] && Payloads([f]) == f.seg.payload + [];
    assert s.stream.buf == f.seg.payload + s.Emit().stream.buf;
  }

  lemma FullUnlessLast(s: SenderState)
    requires s.Valid() && s.CanEmit() && !s.NextSegment().header.fin && s.Emit().CanEmit()
    ensures |s.NextSegment().payload| == MAX_PAYLOAD_SIZE
  {
    CanEmitIff(s.Emit());
  }

  lemma LaunchesThen(s: SenderState, f: Flight, s1: SenderState, launched: seq<Flight>, s': SenderState)
    requires Launches(s, s1, [f]) && Launches(s1, s', launched) && f.seqno == s.nextSeqno
    requires launched != [] ==> |f.seg.payload| == MAX_PAYLOAD_SIZE
    ensures Launches(s, s', [f] + launched)
  {
    var all := [f] + launched;
    assert all[1..] == launched && [f][1..] == [];
    assert Tiles([], f.End(), s1.nextSeqno);
    assert Segs(all) == Segs([f]) + Segs(launched);
    assert Payloads([f]) == f.seg.payload + [];
  }

  lemma EmitFull(s: SenderState, f: Flight, s1: SenderState, launched: seq<Flight>)
    requires s.Valid() && s.CanEmit() && !s.NextSegment().header.fin && s1 == s.Emit()
    requires f == Flight(s.nextSeqno, s.NextSegment()) && s1.FillWindow().outstanding == s1.outstanding + launched
    ensures launched != [] ==> |f.seg.payload| == MAX_PAYLOAD_SIZE
  {
    if s1.CanEmit() {
      FullUnlessLast(s);
    }
  }

  lemma LaunchStep(s: SenderState, f: Flight, s1: SenderState, launched: seq<Flight>, s': SenderState)
    requires s.Valid() && s.CanEmit() && !s.NextSegment().header.fin && s1 == s.Emit() && s' == s1.FillWindow()
    requires f == Flight(s.nextSeqno, s.NextSegment())
    requires s'.outstanding == s1.outstanding + launched && Launches(s1, s', launched)
    ensures s'.outstanding == s.outstanding + ([f] + launched) && Launches(s, s', [f] + launched)
  {
    EmitLaunches(s);
    EmitFull(s, f, s1, launched);
    LaunchesThen(s, f, s1, launched, s');
  }

  /** All that `fill_window` queues is tracked, and all that it newly tracks is queued. */
  lemma {:induction false} FillLaunches(s: SenderState) returns (launched: seq<Flight>)
    requires s.Valid()
    ensures s.FillWindow().outstanding == s.outstanding + launched && Launches(s, s.FillWindow(), launched)
    decreases s.Window() - s.outgoing
  {
    if !s.CanEmit() {
      launched := [];
      assert s.out + [] == s.out && [] + s.stream.buf == s.stream.buf && s.outstanding + [] == s.outstanding;
    } else if s.NextSegment().header.fin {
      launched := [Flight(s.nextSeqno, s.NextSegment())];
      EmitLaunches(s);
    } else {
      EmitKeeps(s);
      var later := FillLaunches(s.Emit());
      launched := [Flight(s.nextSeqno, s.NextSegment())] + later;
      LaunchStep(s, Flight(s.nextSeqno, s.NextSegment()), s.Emit(), later, s.FillWindow());
    }
  }

  /** A turn of the loop sends something exactly if there is room and anything to send. */
  lemma CanEmitIff(s: SenderState)
    ensures s.CanEmit() <==> s.outgoing < s.Window() && (!s.syn || s.Available() > 0)
  {
  }

  /** One turn moves as much from what is available into the window as it sends. */
  lemma EmitMoves(s: SenderState)
    requires s.Valid() && s.syn && s.CanEmit()
    ensures var s', n := s.Emit(), s.NextSegment().SeqLen();
            && s'.syn && s'.nextSeqno == s.nextSeqno + n && s'.outgoing == s.outgoing + n && s'.Window() == s.Window()
            && s'.Available() == s.Available() - n && (s.NextSegment().header.fin ==> s'.Available() == 0)
            && s'.outgoing <= s'.Window()
  {
  }

  /** `fill_window` sends exactly what is available, up to the room in the window. */
  lemma {:induction false} FillSends(s: SenderState)
    requires s.Valid() && s.syn
    ensures s.FillWindow().nextSeqno == s.nextSeqno + Min(s.Available(), Max(0, s.Window() - s.outgoing))
    decreases s.Window() - s.outgoing
  {
    CanEmitIff(s);
    if s.CanEmit() {
      EmitKeeps(s);
      EmitMoves(s);
      if !s.NextSegment().header.fin {
        FillSends(s.Emit());
      }
    }
  }

  lemma FillQueuesIff(s: SenderState)
    requires s.Valid()
    ensures s.FillWindow().out == s.out <==> !s.CanEmit()
  {
    if s.CanEmit() {
      EmitKeeps(s);
      FillKeeps(s.Emit());
    }
  }

  /** What every operation of the sender respects, acknowledgements and timeouts included. */
  predicate Progress(s: SenderState, s': SenderState) {
    && s'.isn == s.isn && s'.initialRto == s.initialRto
    && s.nextSeqno - s.outgoing <= s'.nextSeqno - s'.outgoing
    && s.nextSeqno <= s'.nextSeqno
    && s.stream.totout <= s'.stream.totout
    && s'.stream.totin == s.stream.totin && s'.stream.ended == s.stream.ended
    && s'.stream.error == s.stream.error && s'.stream.capacity == s.stream.capacity
    && (s.syn ==> s'.syn) && (s.fin ==> s'.fin)
    && s.out <= s'.out
  }

  /** `s'` is `s` without the oldest flights, none of the rest ending by `a`. */
  predicate Drops(s: SenderState, a: nat, s': SenderState) {
    && s' == s.(outgoing := s'.outgoing, outstanding := s'.outstanding, rto := s'.rto, timecount := s'.timecount)
    && s'.outgoing <= s.outgoing && s.nextSeqno - s'.outgoing <= Max(s.nextSeqno - s.outgoing, a)
    && (s'.outstanding != [] ==> s'.outstanding[0].End() > a)
    && (forall f :: f in s'.outstanding ==> f in s.outstanding)
    && (if s'.outgoing < s.outgoing then s'.rto == s.initialRto && s'.timecount == 0 else s' == s)
  }

  lemma DropsStep(s: SenderState, a: nat, s': SenderState)
    requires s.Tiled() && s.outstanding != [] && s.outstanding[0].End() <= a
    requires Drops(s.DropFirst(), a, s')
    ensures Drops(s, a, s')
  {
  }

  /** Dropping acknowledged flights removes a prefix of the tiling, up to `a` and not past it. */
  lemma {:induction false} AcknowledgeKeeps(s: SenderState, a: nat)
    requires s.Tiled()
    ensures s.Acknowledge(a).Tiled() && Drops(s, a, s.Acknowledge(a))
    decreases |s.outstanding|
  {
    if s.outstanding != [] && s.outstanding[0].End() <= a {
      AcknowledgeKeeps(s.DropFirst(), a);
      DropsStep(s, a, s.Acknowledge(a));
    }
  }

  /** The sender state from which an accepted acknowledgement refills the window. */
  function Acked(s: SenderState, a: nat, window: u16): SenderState
    requires s.Tiled()
  {
    s.Acknowledge(a).(win := window, retx := 0)
  }

  lemma AckedValid(s: SenderState, a: nat, window: u16)
    requires s.Valid()
    ensures Acked(s, a, window).Valid() && Progress(s, Acked(s, a, window))
    ensures Acked(s, a, window).Base() <= Max(s.Base(), a)
  {
    AcknowledgeKeeps(s, a);
  }

  /** Any acknowledgement whatever keeps the sender's invariant; beyond `next_seqno` it is ignored. */
  lemma AckKeeps(s: SenderState, ackno: u32, window: u16)
    requires s.Valid()
    ensures var s', a := s.AckReceived(ackno, window), Unwrap(ackno, s.isn, s.nextSeqno);
            && s'.Valid() && Progress(s, s')
            && (if a > s.nextSeqno then s' == s else s'.Filled() && s'.win == window && s'.retx == 0)
            && s'.Base() <= Max(s.Base(), if a > s.nextSeqno then 0 else a)
  {
    var a := Unwrap(ackno, s.isn, s.nextSeqno);
    if a <= s.nextSeqno {
      AckedValid(s, a, window);
      FillKeeps(Acked(s, a, window));
    }
  }

  lemma {:induction false} TilesFirst(fs: seq<Flight>, lo: nat, hi: nat, f: Flight)
    requires Tiles(fs, lo, hi) && f in fs
    ensures fs[0].End() <= f.End()
  {
    if f != fs[0] {
      TilesFirst(fs[1..], fs[0].End(), hi, f);
      assert fs[1].seqno == fs[0].End();
    }
  }

  /** Some flight ends after `limit` and no later than `a`. */
  ghost predicate FlightBetween(fs: seq<Flight>, limit: int, a: int) {
    exists f :: f in fs && limit < f.End() <= a
  }

  /** How far dropping goes: past `limit` exactly if a flight ends between `limit` and `a`. */
  lemma {:induction false} AcknowledgePassesIff(s: SenderState, a: nat, limit: int)
    requires s.Tiled() && s.Base() <= limit
    ensures s.Acknowledge(a).Base() > limit <==> FlightBetween(s.outstanding, limit, a)
    decreases |s.outstanding|
  {
    var fs := s.outstanding;
    if fs == [] {
    } else if fs[0].End() > a {
      forall f | f in fs
        ensures f.End() > a
      {
        TilesFirst(fs, s.nextSeqno - s.outgoing, s.nextSeqno, f);
      }
    } else if fs[0].End() > limit {
      AcknowledgeKeeps(s.DropFirst(), a);
      assert fs[0] in fs;
    } else {
      AcknowledgePassesIff(s.DropFirst(), a, limit);
      assert forall f :: f in fs <==> f == fs[0] || f in fs[1..];
    }
  }

  /** Acknowledging everything leaves nothing in flight. */
  lemma AllAcknowledged(s: SenderState)
    requires s.Tiled()
    ensures s.Acknowledge(s.nextSeqno).outgoing == 0 && s.Acknowledge(s.nextSeqno).outstanding == []
  {
    var t := s.Acknowledge(s.nextSeqno);
    AcknowledgeKeeps(s, s.nextSeqno);
    TilesEnd(t.outstanding, t.nextSeqno - t.outgoing, t.nextSeqno);
    if t.outstanding != [] {
      TilesEnd(t.outstanding[1..], t.outstanding[0].End(), t.nextSeqno);
    }
  }

  lemma {:induction false} AcknowledgeSuffix(s: SenderState, a: nat)
    requires s.Tiled()
    ensures var n := |s.outstanding| - |s.Acknowledge(a).outstanding|;
            n >= 0 && s.Acknowledge(a).outstanding == s.outstanding[n..]
    decreases |s.outstanding|
  {
    if s.outstanding == [] || s.outstanding[0].End() > a {
    } else {
      AcknowledgeSuffix(s.DropFirst(), a);
    }
  }

  /**
   * The same for `ack_received`: it forgets the oldest flights and launches new ones, and every
   * segment it queues is one of those, as tracked.
   */
  lemma AckLaunches(s: SenderState, ackno: u32, window: u16) returns (launched: seq<Flight>)
    requires s.Valid()
    ensures var s', a := s.AckReceived(ackno, window), Unwrap(ackno, s.isn, s.nextSeqno);
            && (if a > s.nextSeqno then s' == s && launched == []
                else s'.outstanding == s.Acknowledge(a).outstanding + launched)
            && Launches(s, s', launched)
  {
    var a := Unwrap(ackno, s.isn, s.nextSeqno);
    if a > s.nextSeqno {
      launched := [];
      assert s.out + [] == s.out && [] + s.stream.buf == s.stream.buf;
    } else {
      launched := AckedLaunches(s, a, window);
    }
  }

  lemma AckedLaunches(s: SenderState, a: nat, window: u16) returns (launched: seq<Flight>)
    requires s.Valid()
    ensures var s' := Acked(s, a, window).FillWindow();
            s'.outstanding == s.Acknowledge(a).outstanding + launched && Launches(s, s', launched)
  {
    AckedValid(s, a, window);
    AcknowledgeKeeps(s, a);
    launched := FillLaunches(Acked(s, a, window));
  }

  /** When an acknowledgement moves the first unacknowledged number past `limit`. */
  lemma AckPassesIff(s: SenderState, ackno: u32, window: u16, limit: int)
    requires s.Valid() && s.Base() <= limit
    ensures var a := Unwrap(ackno, s.isn, s.nextSeqno);
            s.AckReceived(ackno, window).Base() > limit <==> a <= s.nextSeqno && FlightBetween(s.outstanding, limit, a)
  {
    var a := Unwrap(ackno, s.isn, s.nextSeqno);
    if a <= s.nextSeqno {
      AckedValid(s, a, window);
      FillKeeps(Acked(s, a, window));
      AcknowledgePassesIff(s, a, limit);
    }
  }

  /** When an acknowledgement makes the sender queue something. */
  predicate Releases(s: SenderState, ackno: u32, window: u16)
    requires s.Tiled()
  {
    var a := Unwrap(ackno, s.isn, s.nextSeqno);
    a <= s.nextSeqno && s.Acknowledge(a).outgoing < Max(window, 1) && (!s.syn || s.Available() > 0)
  }

  lemma AckQueuesIff(s: SenderState, ackno: u32, window: u16)
    requires s.Valid()
    ensures s.AckReceived(ackno, window).out != s.out <==> Releases(s, ackno, window)
  {
    var a := Unwrap(ackno, s.isn, s.nextSeqno);
    if a <= s.nextSeqno {
      AckedValid(s, a, window);
      AcknowledgeKeeps(s, a);
      CanEmitIff(Acked(s, a, window));
      FillQueuesIff(Acked(s, a, window));
    }
  }

  /** From `next` on, with so much to send and a window up to `limit`. */
  function Reach(next: nat, available: nat, limit: int): int {
    Max(next, Min(next + available, limit))
  }

  lemma RefillSends(s: SenderState)
    requires s.Valid() && s.syn
    ensures s.FillWindow().nextSeqno == Reach(s.nextSeqno, s.Available(), s.Base() + s.Window())
  {
    FillSends(s);
  }

  /** Dropping flights changes nothing about what is still to be sent. */
  lemma AckedSame(s: SenderState, a: nat, window: u16)
    requires s.Valid()
    ensures var t := Acked(s, a, window);
            && t.Valid() && t.syn == s.syn && t.nextSeqno == s.nextSeqno && t.Available() == s.Available()
            && t.Window() == Max(window, 1) && t.Base() == s.Acknowledge(a).Base()
  {
    AckedValid(s, a, window);
    AcknowledgeKeeps(s, a);
  }

  /**
   * Where exactly any acknowledgement takes the sender: as far as there is something to send, up to
   * the window, counted from what is then acknowledged. An outdated one also sets the window, but
   * where the sender now stands, not where it was reported.
   */
  lemma AckSends(s: SenderState, ackno: u32, window: u16)
    requires s.Valid() && s.syn
    ensures s.AckReceived(ackno, window).nextSeqno == ReachOf(s, Unwrap(ackno, s.isn, s.nextSeqno), window)
  {
    AckReceivedAt(s, ackno, window, Unwrap(ackno, s.isn, s.nextSeqno));
  }

  function ReachOf(s: SenderState, a: nat, window: u16): int
    requires s.Tiled()
  {
    if a > s.nextSeqno then s.nextSeqno
    else Reach(s.nextSeqno, s.Available(), s.Acknowledge(a).Base() + Max(window, 1))
  }

  lemma AckReceivedAt(s: SenderState, ackno: u32, window: u16, a: nat)
    requires s.Valid() && s.syn && a == Unwrap(ackno, s.isn, s.nextSeqno)
    ensures s.AckReceived(ackno, window).nextSeqno == ReachOf(s, a, window)
  {
    if a <= s.nextSeqno {
      AckedSends(s, a, window);
    }
  }

  lemma AckedSends(s: SenderState, a: nat, window: u16)
    requires s.Valid() && s.syn
    ensures Acked(s, a, window).FillWindow().nextSeqno
            == Reach(s.nextSeqno, s.Available(), s.Acknowledge(a).Base() + Max(window, 1))
  {
    AckedSame(s, a, window);
    RefillSends(Acked(s, a, window));
  }

  lemma TickKeeps(s: SenderState, ms: nat)
    requires s.Valid()
    ensures s.Tick(ms).Valid() && Progress(s, s.Tick(ms))
    ensures s.Tick(ms).outgoing == s.outgoing && s.Tick(ms).retx <= s.retx + 1
  {
  }

  /** An empty segment stands at the next sequence number and occupies none. */
  lemma EmptyAtNext(s: SenderState, checkpoint: u64)
    requires s.nextSeqno < TWO64 && Recoverable(s.nextSeqno, checkpoint)
    ensures var out := s.SendEmpty().out;
            && |out| == |s.out| + 1 && s.out <= out && out[|s.out|].SeqLen() == 0
            && Unwrap(out[|s.out|].header.seqno, s.isn, checkpoint) == s.nextSeqno
  {
    UnwrapRoundTripIff(s.nextSeqno, s.isn, checkpoint);
  }

  // ---------------------------------------------------------------- the object

  class TcpSender {
    const isn: u32
    const initialRto: u16
    const stream: ByteStream
    var nextSeqno: nat
    var rto: u32
    var timecount: u32
    var retx: nat
    var outstanding: seq<Flight>
    var outgoing: nat
    var syn: bool
    var fin: bool
    var win: nat
    var out: seq<TcpSegment>

    ghost function View(): SenderState
      reads this, stream
    {
      SenderState(isn, initialRto, stream.View(), nextSeqno, rto, timecount, retx, outstanding, outgoing, syn, fin,
                  win, out)
    }

    constructor (capacity: nat, rtTimeout: u16, isn: u32)
      ensures View() == NewSender(capacity, rtTimeout, isn) && View().Valid() && fresh(stream)
    {
      this.isn, initialRto := isn, rtTimeout;
      stream := new ByteStream(capacity);
      nextSeqno, rto, timecount, retx, outstanding, outgoing := 0, 0, 0, 0, [], 0;
      syn, fin, win, out := false, false, 1, [];
    }

    /** The first half of the loop body: make the next segment, possibly an empty one. */
    method MakeSegment(winSize: nat) returns (seg: TcpSegment)
      requires stream.View().Valid() && winSize == View().Window() && outgoing < winSize
      modifies this, stream
      ensures seg == old(View()).NextSegment() && View() == Made(old(View()))
    {
      var header := EMPTY_HEADER;
      if !syn {
        syn := true;
        header := header.(syn := true);
      }
      header := header.(seqno := Wrap(nextSeqno, isn));
      var payload := stream.Read(Min(MAX_PAYLOAD_SIZE, winSize - outgoing - if header.syn then 1 else 0));
      if !fin && stream.Eof() && |payload| + outgoing < winSize {
        fin := true;
        header := header.(fin := true);
      }
      seg := TcpSegment(header, payload);
    }

    /** The second half: queue the segment, track it, and start the timer if nothing was in flight. */
    method Track(seg: TcpSegment)
      modifies this
      ensures View() == Tracked(old(View()), seg)
    {
      if outstanding == [] {
        rto, timecount := initialRto, 0;
      }
      out := out + [seg];
      outgoing := outgoing + seg.SeqLen();
      outstanding := outstanding + [Flight(nextSeqno, seg)];
      nextSeqno := nextSeqno + seg.SeqLen();
    }

    method FillWindow()
      requires View().Sound()
      modifies this, stream
      ensures View() == old(View()).FillWindow() && View().Sound()
    {
      var winSize := if win > 0 then win else 1;
      while winSize > outgoing
        invariant winSize == View().Window() && View().Sound()
        invariant View().FillWindow() == old(View()).FillWindow()
        decreases winSize - outgoing
      {
        ghost var s := View();
        var seg := MakeSegment(winSize);
        TurnIsEmit(s);
        if seg.SeqLen() == 0 {
          break;
        }
        Track(seg);
        if seg.header.fin {
          break;
        }
      }
    }

    method AckReceived(ackno: u32, window: u16)
      requires View().Sound()
      modifies this, stream
      ensures View() == old(View()).AckReceived(ackno, window) && View().Sound()
    {
      var absolute := Unwrap(ackno, isn, nextSeqno);
      if absolute > nextSeqno {
        return;
      }
      AcknowledgeKeeps(View(), absolute);
      DropAcknowledged(absolute);
      win, retx := window, 0;
      assert View() == Acked(old(View()), absolute, window);
      FillWindow();
    }

    /** Drop the flights that end at or before `absolute`, restarting the timer for each. */
    method DropAcknowledged(absolute: nat)
      requires View().Tiled()
      modifies this
      ensures View() == old(View()).Acknowledge(absolute)
    {
      while outstanding != [] && outstanding[0].seqno + outstanding[0].seg.SeqLen() <= absolute
        invariant View().Tiled() && View().Acknowledge(absolute) == old(View()).Acknowledge(absolute)
        decreases |outstanding|
      {
        ghost var s := View();
        TilesEnd(outstanding[1..], outstanding[0].End(), nextSeqno);
        outgoing := outgoing - outstanding[0].seg.SeqLen();
        outstanding := outstanding[1..];
        rto, timecount := initialRto, 0;
        assert View() == s.DropFirst();
      }
    }

    method Tick(ms: nat)
      modifies this
      ensures View() == old(View()).Tick(ms)
    {
      timecount := U32(timecount + ms);
      if timecount >= rto && outstanding != [] {
        if win > 0 {
          rto := U32(rto * 2);
        }
        out := out + [outstanding[0].seg];
        retx := retx + 1;
        timecount := 0;
      }
    }

    method SendEmptySegment()
      modifies this
      ensures View() == old(View()).SendEmpty()
    {
      out := out + [TcpSegment(EMPTY_HEADER.(seqno := Wrap(nextSeqno, isn)), [])];
    }
  }

  /** The state between making a segment and tracking it. */
  function Made(s: SenderState): SenderState
    requires s.outgoing < s.Window()
  {
    var seg := s.NextSegment();
    s.(syn := true, fin := s.fin || seg.header.fin, stream := s.stream.Pop(|seg.payload|))
  }

  function Tracked(s: SenderState, seg: TcpSegment): SenderState {
    s.(rto := if s.outstanding == [] then s.initialRto else s.rto,
       timecount := if s.outstanding == [] then 0 else s.timecount,
       out := s.out + [seg], outgoing := s.outgoing + seg.SeqLen(),
       outstanding := s.outstanding + [Flight(s.nextSeqno, seg)], nextSeqno := s.nextSeqno + seg.SeqLen())
  }

  /** Making and tracking amount to `Emit`; making an empty segment changes nothing. */
  lemma TurnIsEmit(s: SenderState)
    requires s.Sound() && s.outgoing < s.Window()
    ensures s.CanEmit() ==> Tracked(Made(s), s.NextSegment()) == s.Emit() && s.Emit().Sound()
    ensures !s.CanEmit() ==> Made(s) == s
  {
    if s.CanEmit() {
      EmitSound(s);
    }
  }
}
