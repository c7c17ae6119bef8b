/**
 * What arrives is kept: the receiver takes every genuine byte inside its window, acknowledges as far
 * as there is no gap, and ends up with the whole stream whatever the order of arrival.
 */
module Delivery {
  import opened Integers
  import opened Stream
  import opened Segment
  import opened Reassembler
  import opened Receiver
  import opened Transfer

  /** The stream indices a genuine segment brings, up to the end of the window. */
  predicate Brings(r: ReceiverState, seg: TcpSegment, v: nat, i: nat) {
    PayloadIndex(seg, v) <= i < PayloadIndex(seg, v) + |seg.payload| && i < r.StreamOut().totout + r.capacity
  }

  lemma PushTakes(r: ReceiverState, seg: TcpSegment, v: nat, src: Source, i: nat)
    requires Tracks(r, src) && r.syn && seg.SeqLen() > 0 && GenuineAt(seg, v, src) && PayloadIndex(seg, v) < TWO64
    ensures var r' := r.Push(seg, PayloadIndex(seg, v));
            Has(r'.reassembler, i) <==> Has(r.reassembler, i) || Brings(r, seg, v, i)
  {
    var st, index, eof := r.reassembler, PayloadIndex(seg, v), seg.header.fin;
    SliceOfSent(seg, v, src);
    SliceAdmissible(st, Sent(src), seg.payload, index, eof);
    PushHasIff(st, seg.payload, index, eof, i);
    PushSlice(st, Sent(src), seg.payload, index, eof);
  }

  /** After a genuine segment the receiver has exactly what it had and what the segment brings. */
  lemma ReceiveTakes(r: ReceiverState, seg: TcpSegment, v: nat, src: Source, i: nat)
    requires Tracks(r, src) && seg.SeqLen() > 0 && GenuineAt(seg, v, src) && seg.header.syn != r.syn
    ensures Has(r.SegmentReceived(seg).reassembler, i) <==> Has(r.reassembler, i) || Brings(r, seg, v, i)
  {
    ReceiveIsPush(r, seg, v, src);
    NotedTracks(r, src, r.fin || seg.header.fin);
    PushTakes(r.Noted(seg.header), seg, v, src, i);
  }

  lemma ReceiveEnds(r: ReceiverState, seg: TcpSegment, v: nat, src: Source)
    requires Tracks(r, src) && seg.SeqLen() > 0 && GenuineAt(seg, v, src) && seg.header.syn != r.syn
    ensures r.SegmentReceived(seg).reassembler.posEof
            == if seg.header.fin then |Sent(src)| else r.reassembler.posEof
  {
    ReceiveIsPush(r, seg, v, src);
    SliceOfSent(seg, v, src);
    NotedTracks(r, src, r.fin || seg.header.fin);
    PushSlice(r.Noted(seg.header).reassembler, Sent(src), seg.payload, PayloadIndex(seg, v), seg.header.fin);
  }

  /**
   * The acknowledgement number advances exactly to the first byte that the receiver neither had nor
   * was brought; past the FIN too, once that is known and nothing is missing before it.
   */
  lemma ReceiveAdvances(r: ReceiverState, seg: TcpSegment, v: nat, src: Source, n: nat)
    requires Tracks(r, src) && seg.SeqLen() > 0 && GenuineAt(seg, v, src) && seg.header.syn != r.syn
    requires forall i: nat :: i < n ==> Has(r.reassembler, i) || Brings(r, seg, v, i)
    requires !Has(r.reassembler, n) && !Brings(r, seg, v, n)
    ensures var r' := r.SegmentReceived(seg);
            && r'.StreamOut().totin == n
            && (r'.InputEnded() <==> n == if seg.header.fin then |Sent(src)| else r.reassembler.posEof)
            && r'.AbsAckno() == n + 1 + (if r'.InputEnded() then 1 else 0)
  {
    var st' := r.SegmentReceived(seg).reassembler;
    ReceiveGenuine(r, seg, src);
    ReceiveMonotone(r, seg);
    ReceiveEnds(r, seg, v, src);
    forall i: nat | i < n
      ensures Has(st', i)
    {
      ReceiveTakes(r, seg, v, src, i);
    }
    ReceiveTakes(r, seg, v, src, n);
    AdvancedTo(r.SegmentReceived(seg), n);
  }

  lemma AdvancedTo(r: ReceiverState, n: nat)
    requires r.reassembler.Valid() && r.syn
    requires (forall i: nat :: i < n ==> Has(r.reassembler, i)) && !Has(r.reassembler, n)
    ensures r.StreamOut().totin == n && (r.InputEnded() <==> n == r.reassembler.posEof)
    ensures r.AbsAckno() == n + 1 + (if r.InputEnded() then 1 else 0)
  {
    GaplessAssembled(r.reassembler, n);
  }

  // ---------------------------------------------------------------- any order of arrival

  datatype Op = Arrive(seg: TcpSegment) | Read(len: nat)

  function Apply(r: ReceiverState, op: Op): ReceiverState
    requires r.WellFormed()
    ensures Apply(r, op).WellFormed()
  {
    match op
    case Arrive(seg) => ReceiveMonotone(r, seg); r.SegmentReceived(seg)
    case Read(len) => r.Read(len)
  }

  function ApplyAll(r: ReceiverState, ops: seq<Op>): ReceiverState
    requires r.WellFormed()
    ensures ApplyAll(r, ops).WellFormed()
    decreases |ops|
  {
    if ops == [] then r else ApplyAll(Apply(r, ops[0]), ops[1..])
  }

  ghost predicate AllGenuine(ops: seq<Op>, src: Source) {
    forall op :: op in ops && op.Arrive? ==> Genuine(op.seg, src)
  }

  predicate CoversAt(seg: TcpSegment, v: nat, src: Source, i: nat) {
    GenuineAt(seg, v, src) && PayloadIndex(seg, v) <= i < PayloadIndex(seg, v) + |seg.payload|
  }

  /** A segment without SYN that carries index `i`; another SYN is ignored, with what it carries. */
  ghost predicate Covers(op: Op, src: Source, i: nat) {
    op.Arrive? && !op.seg.header.syn && exists v: nat :: CoversAt(op.seg, v, src, i)
  }

  ghost predicate Covered(ops: seq<Op>, src: Source, i: nat) {
    exists op :: op in ops && Covers(op, src, i)
  }

  predicate Ends(op: Op) { op.Arrive? && !op.seg.header.syn && op.seg.header.fin }

  predicate Ended(ops: seq<Op>) {
    exists op :: op in ops && Ends(op)
  }

  lemma ArriveKeeps(r: ReceiverState, seg: TcpSegment, src: Source, i: nat)
    requires Tracks(r, src) && r.syn && src.fin && |src.w| <= r.capacity && Genuine(seg, src)
    ensures var r' := r.SegmentReceived(seg);
            && (Has(r.reassembler, i) || (i < |src.w| && Covers(Arrive(seg), src, i)) ==> Has(r'.reassembler, i))
            && (r.reassembler.posEof == |src.w| || Ends(Arrive(seg)) ==> r'.reassembler.posEof == |src.w|)
  {
    if seg.header.syn {
    } else if seg.SeqLen() == 0 {
      ReceiveEmpty(r, seg);
    } else {
      var v: nat :| GenuineAt(seg, v, src);
      ReceiveEnds(r, seg, v, src);
      ReceiveTakes(r, seg, v, src, i);
      if i < |src.w| && Covers(Arrive(seg), src, i) {
        var u: nat :| CoversAt(seg, u, src, i);
        ReceiveTakes(r, seg, u, src, i);
      }
    }
  }

  lemma ApplyKeeps(r: ReceiverState, op: Op, src: Source, i: nat)
    requires Tracks(r, src) && r.syn && src.fin && |src.w| <= r.capacity && (op.Arrive? ==> Genuine(op.seg, src))
    ensures var r' := Apply(r, op);
            && Tracks(r', src) && r'.syn && r'.capacity == r.capacity
            && (Has(r.reassembler, i) || (i < |src.w| && Covers(op, src, i)) ==> Has(r'.reassembler, i))
            && (r.reassembler.posEof == |src.w| || Ends(op) ==> r'.reassembler.posEof == |src.w|)
  {
    match op
    case Arrive(seg) =>
      ReceiveGenuine(r, seg, src);
      ReceiveMonotone(r, seg);
      ArriveKeeps(r, seg, src, i);
    case Read(len) => ReadTracks(r, len, src);
  }

  lemma {:induction false} ApplyAllKeeps(r: ReceiverState, ops: seq<Op>, src: Source, i: nat)
    requires Tracks(r, src) && r.syn && src.fin && |src.w| <= r.capacity && AllGenuine(ops, src)
    ensures var r' := ApplyAll(r, ops);
            && Tracks(r', src) && r'.syn
            && (Has(r.reassembler, i) || (i < |src.w| && Covered(ops, src, i)) ==> Has(r'.reassembler, i))
            && (r.reassembler.posEof == |src.w| || Ended(ops) ==> r'.reassembler.posEof == |src.w|)
    decreases |ops|
  {
    if ops == [] {
    } else {
      assert forall op :: op in ops <==> op == ops[0] || op in ops[1..];
      ApplyKeeps(r, ops[0], src, i);
      ApplyAllKeeps(Apply(r, ops[0]), ops[1..], src, i);
    }
  }

  /**
   * Genuine segments that cover what is missing of an ended stream, in any order, repeated,
   * overlapping, with reads between, leave the receiver with the whole stream, ended and acknowledged.
   */
  lemma ReceiverOrderIndependence(r: ReceiverState, ops: seq<Op>, src: Source)
    requires Tracks(r, src) && r.syn && src.fin && |src.w| <= r.capacity && AllGenuine(ops, src)
    requires forall i: nat :: i < |src.w| ==> Has(r.reassembler, i) || Covered(ops, src, i)
    requires r.reassembler.posEof == |src.w| || Ended(ops)
    ensures var r' := ApplyAll(r, ops);
            r'.StreamOut().Holds(src.w) && r'.InputEnded() && r'.AbsAckno() == |src.w| + 2
            && r'.reassembler.unassembled == 0
  {
    var r' := ApplyAll(r, ops);
    ApplyAllKeeps(r, ops, src, 0);
    forall i: nat | i < |src.w|
      ensures Has(r'.reassembler, i)
    {
      ApplyAllKeeps(r, ops, src, i);
    }
    GaplessAssembled(r'.reassembler, |src.w|);
    WholeStream(r', src);
  }

  lemma WholeStream(r: ReceiverState, src: Source)
    requires Tracks(r, src) && r.syn && src.fin && r.reassembler.posEof == |src.w| && r.StreamOut().totin >= |src.w|
    ensures r.StreamOut().Holds(src.w) && r.InputEnded() && r.AbsAckno() == |src.w| + 2
    ensures r.reassembler.unassembled == 0
  {
    assert Sent(src) == src.w && src.w[..|src.w|] == src.w;
    TotalBound(r.StreamOut().totin, r.reassembler.chunks, r.reassembler.Limit());
  }

  /** From the very start: the SYN, with whatever it carries, and then the rest in any order. */
  lemma FreshOrderIndependence(capacity: nat, first: TcpSegment, ops: seq<Op>, src: Source)
    requires SourceValid(src) && InRange(src, capacity) && src.fin && |src.w| <= capacity
    requires first.header.syn && Genuine(first, src) && AllGenuine(ops, src)
    requires forall i: nat :: |first.payload| <= i < |src.w| ==> Covered(ops, src, i)
    requires first.header.fin || Ended(ops)
    ensures NewReceiver(capacity).WellFormed()
    ensures var r' := ApplyAll(NewReceiver(capacity), [Arrive(first)] + ops);
            r'.StreamOut().Holds(src.w) && r'.InputEnded() && r'.AbsAckno() == |src.w| + 2
  {
    var r := NewReceiver(capacity);
    NewTracks(capacity, src);
    var v: nat :| GenuineAt(first, v, src);
    ReceiveGenuine(r, first, src);
    ReceiveMonotone(r, first);
    ReceiveEnds(r, first, v, src);
    assert Sent(src) == src.w;
    forall i: nat | i < |first.payload|
      ensures Has(r.SegmentReceived(first).reassembler, i)
    {
      ReceiveTakes(r, first, v, src, i);
    }
    assert ([Arrive(first)] + ops)[1..] == ops;
    ReceiverOrderIndependence(r.SegmentReceived(first), ops, src);
  }

  lemma NewTracks(capacity: nat, src: Source)
    requires SourceValid(src) && InRange(src, capacity)
    ensures Tracks(NewReceiver(capacity), src)
  {
    NewValid(capacity);
    NewAgrees(capacity);
    assert Sent(src)[..0] == [];
  }
}
