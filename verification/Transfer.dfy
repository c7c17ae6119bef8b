/**
 * Reliable transfer: one sender, one receiver, and a network that may lose, duplicate and reorder
 * everything either of them ever sent.
 */
module Transfer {
  import opened Integers
  import opened Wrapping
  import opened Stream
  import opened Segment
  import opened Reassembler
  import opened Receiver
  import opened Sender

  // ---------------------------------------------------------------- genuine segments

  /** What a sender has committed to: its history `w`, how far it has sent, and whether it sent FIN. */
  datatype Source = Source(isn: u32, w: seq<byte>, sent: nat, fin: bool)

  function SourceOf(s: SenderState, w: seq<byte>): Source {
    Source(s.isn, w, s.nextSeqno, s.fin)
  }

  /** A source may only extend what it has committed to. */
  predicate Grows(a: Source, b: Source) {
    && b.isn == a.isn && a.w <= b.w && a.sent <= b.sent
    && (a.fin ==> b.fin && b.w == a.w)
  }

  function PayloadIndex(seg: TcpSegment, v: nat): int {
    if seg.header.syn then 0 else v - 1
  }

  /** `seg` carries the source's own bytes for the absolute sequence numbers from `v` on. */
  predicate GenuineAt(seg: TcpSegment, v: nat, src: Source) {
    var i := PayloadIndex(seg, v);
    && seg.header.seqno == Wrap(v, src.isn)
    && v + seg.SeqLen() <= src.sent
    && (seg.header.syn ==> v == 0)
    && 0 <= i && Slice(src.w, seg.payload, i, seg.header.fin)
    && (seg.header.fin ==> src.fin)
  }

  /** A segment that occupies no sequence number says nothing about the stream. */
  ghost predicate Genuine(seg: TcpSegment, src: Source) {
    seg.SeqLen() == 0 || exists v: nat :: GenuineAt(seg, v, src)
  }

  lemma GenuineAtGrows(seg: TcpSegment, v: nat, a: Source, b: Source)
    requires GenuineAt(seg, v, a) && Grows(a, b)
    ensures GenuineAt(seg, v, b)
  {
  }

  lemma GenuineGrows(seg: TcpSegment, a: Source, b: Source)
    requires Genuine(seg, a) && Grows(a, b)
    ensures Genuine(seg, b)
  {
    if seg.SeqLen() > 0 {
      var v: nat :| GenuineAt(seg, v, a);
      GenuineAtGrows(seg, v, a, b);
    }
  }

  // ---------------------------------------------------------------- the sender is faithful

  /** The stream holds the unsent rest of `w`; everything in flight or queued is genuine. */
  ghost predicate Faithful(s: SenderState, w: seq<byte>) {
    && s.Valid() && s.stream.Holds(w)
    && (forall f :: f in s.outstanding ==> GenuineAt(f.seg, f.seqno, SourceOf(s, w)))
    && (forall seg :: seg in s.out ==> Genuine(seg, SourceOf(s, w)))
  }

  /** Queued and in-flight segments stay genuine while the source grows. */
  lemma FaithfulGrows(s: SenderState, w: seq<byte>, s': SenderState, w': seq<byte>)
    requires Faithful(s, w) && Grows(SourceOf(s, w), SourceOf(s', w'))
    requires s'.Valid() && s'.stream.Holds(w')
    requires forall f :: f in s'.outstanding ==> f in s.outstanding || GenuineAt(f.seg, f.seqno, SourceOf(s', w'))
    requires forall seg :: seg in s'.out ==> seg in s.out || Genuine(seg, SourceOf(s', w'))
    ensures Faithful(s', w')
  {
    forall f | f in s'.outstanding
      ensures GenuineAt(f.seg, f.seqno, SourceOf(s', w'))
    {
      if f in s.outstanding {
        GenuineAtGrows(f.seg, f.seqno, SourceOf(s, w), SourceOf(s', w'));
      }
    }
    forall seg | seg in s'.out
      ensures Genuine(seg, SourceOf(s', w'))
    {
      if seg in s.out {
        GenuineGrows(seg, SourceOf(s, w), SourceOf(s', w'));
      }
    }
  }

  lemma EmitGenuine(s: SenderState, w: seq<byte>)
    requires s.Valid() && s.stream.Holds(w) && s.CanEmit()
    ensures GenuineAt(s.NextSegment(), s.nextSeqno, SourceOf(s.Emit(), w))
  {
    s.stream.PopHolds(w, |s.NextSegment().payload|);
  }

  lemma EmitFaithful(s: SenderState, w: seq<byte>)
    requires Faithful(s, w) && s.CanEmit()
    ensures Faithful(s.Emit(), w)
  {
    EmitKeeps(s);
    EmitGenuine(s, w);
    s.stream.PopHolds(w, |s.NextSegment().payload|);
    FaithfulGrows(s, w, s.Emit(), w);
  }

  lemma {:induction false} FillFaithful(s: SenderState, w: seq<byte>)
    requires Faithful(s, w)
    ensures Faithful(s.FillWindow(), w)
    decreases s.Window() - s.outgoing
  {
    if s.CanEmit() {
      EmitFaithful(s, w);
      if !s.NextSegment().header.fin {
        FillFaithful(s.Emit(), w);
      }
    }
  }

  lemma AckFaithful(s: SenderState, w: seq<byte>, ackno: u32, window: u16)
    requires Faithful(s, w)
    ensures Faithful(s.AckReceived(ackno, window), w)
  {
    var a := Unwrap(ackno, s.isn, s.nextSeqno);
    if a <= s.nextSeqno {
      AckedValid(s, a, window);
      AcknowledgeKeeps(s, a);
      FaithfulGrows(s, w, Acked(s, a, window), w);
      FillFaithful(Acked(s, a, window), w);
    }
  }

  lemma TickFaithful(s: SenderState, w: seq<byte>, ms: nat)
    requires Faithful(s, w)
    ensures Faithful(s.Tick(ms), w)
  {
    TickKeeps(s, ms);
    if s.TimesOut(ms) {
      assert s.outstanding[0] in s.outstanding;
    }
    FaithfulGrows(s, w, s.Tick(ms), w);
  }

  /** A timeout repeats the oldest unacknowledged part of the stream, and nothing else. */
  lemma RetransmitsOldest(s: SenderState, w: seq<byte>, ms: nat)
    requires Faithful(s, w) && s.TimesOut(ms)
    ensures var out := s.Tick(ms).out;
            && |out| == |s.out| + 1 && s.out <= out
            && GenuineAt(out[|s.out|], s.Base(), SourceOf(s, w)) && out[|s.out|].SeqLen() > 0
  {
    assert s.outstanding[0] in s.outstanding;
    assert s.outstanding[0].seqno == s.Base();
  }

  lemma EmptyFaithful(s: SenderState, w: seq<byte>)
    requires Faithful(s, w)
    ensures Faithful(s.SendEmpty(), w)
  {
    FaithfulGrows(s, w, s.SendEmpty(), w);
  }

  lemma WriteFaithful(s: SenderState, w: seq<byte>, data: seq<byte>)
    requires Faithful(s, w) && !s.fin
    ensures Faithful(s.(stream := s.stream.Write(data)), w + s.stream.Accepted(data))
  {
    s.stream.WriteHolds(w, data);
    FaithfulGrows(s, w, s.(stream := s.stream.Write(data)), w + s.stream.Accepted(data));
  }

  /** Writing extends the history soundly exactly until the FIN is sent, or if nothing fits. */
  lemma WriteFaithfulIff(s: SenderState, w: seq<byte>, data: seq<byte>)
    requires Faithful(s, w)
    ensures Faithful(s.(stream := s.stream.Write(data)), w + s.stream.Accepted(data))
            <==> !s.fin || s.stream.Accepted(data) == []
  {
    if !s.fin {
      WriteFaithful(s, w, data);
    } else if s.stream.Accepted(data) == [] {
      assert s.stream.Write(data) == s.stream && w + [] == w;
    }
  }

  /** Bytes written after the FIN go out one place beyond where they belong. */
  lemma LateWriteDisplaced(s: SenderState, w: seq<byte>, data: seq<byte>)
    requires Faithful(s, w) && s.fin && s.outgoing < s.Window() && s.stream.Accepted(data) != []
    ensures var t := s.(stream := s.stream.Write(data));
            t.CanEmit() &&
            var seg, w' := t.NextSegment(), w + s.stream.Accepted(data);
            0 < |seg.payload| <= |w'| - |w| && seg.payload == w'[|w|..|w| + |seg.payload|]
            && PayloadIndex(seg, t.nextSeqno) == |w| + 1
  {
    var t := s.(stream := s.stream.Write(data));
    s.stream.WriteHolds(w, data);
    t.stream.PopHolds(w + s.stream.Accepted(data), |t.NextSegment().payload|);
  }

  // ---------------------------------------------------------------- the receiver tracks the source

  predicate SourceValid(src: Source) {
    src.sent <= |src.w| + 1 + (if src.fin then 1 else 0) && (src.fin ==> src.sent == |src.w| + 2)
  }

  /** Absolute sequence numbers of the whole stream, SYN and FIN included, fit into 32 bits. */
  predicate InRange(src: Source, capacity: nat) {
    |src.w| + 2 <= TWO32 && capacity <= TWO31
  }

  /** The part of the history that has been put into segments. */
  function Sent(src: Source): seq<byte> {
    if src.sent == 0 then [] else src.w[..Min(|src.w|, src.sent - 1)]
  }

  lemma SentPrefix(src: Source)
    ensures Sent(src) <= src.w
  {
  }

  /** Everything the receiver has is what the source has sent, in its place. */
  ghost predicate Tracks(r: ReceiverState, src: Source) {
    && SourceValid(src) && InRange(src, r.capacity)
    && r.WellFormed() && r.reassembler.Valid() && Agrees(r.reassembler, Sent(src))
    && (r.syn ==> r.isn == src.isn && src.sent > 0)
    && (r.reassembler.posEof != MAX64 ==> src.fin && r.syn)
    && (!r.syn ==> r.reassembler.output.totin == 0)
  }

  lemma AgreesGrows(st: ReassemblerState, w: seq<byte>, w': seq<byte>)
    requires Agrees(st, w) && w <= w' && |w'| < MAX64 && (st.posEof == MAX64 || w' == w)
    ensures Agrees(st, w')
  {
    assert w'[..st.output.totin] == w[..st.output.totin];
  }

  lemma TracksGrows(r: ReceiverState, a: Source, b: Source)
    requires Tracks(r, a) && Grows(a, b) && SourceValid(b) && InRange(b, r.capacity)
    ensures Tracks(r, b)
  {
    assert Sent(a) <= Sent(b);
    AgreesGrows(r.reassembler, Sent(a), Sent(b));
  }

  /** The receiver computes the right stream index for a genuine segment. */
  lemma IndexOfGenuine(r: ReceiverState, seg: TcpSegment, v: nat, src: Source)
    requires Tracks(r, src) && r.syn && !seg.header.syn && seg.SeqLen() > 0 && GenuineAt(seg, v, src)
    ensures r.Index(seg.header) == v - 1
  {
    assert v < TWO32;
    WithinCapacity(r.reassembler);
    IndexExactIff(v, src.isn, r.reassembler.unassembled);
  }

  /**
   * The receiver's checkpoint is its number of unassembled bytes. The stream index it computes is
   * right exactly for the numbers recoverable from there; up to 2^31 unassembled bytes, those below
   * 2^32.
   */
  lemma IndexExactIff(v: u64, isn: u32, unassembled: u64)
    requires 1 <= v
    ensures U64(Unwrap(Wrap(v, isn), isn, unassembled) - 1) == v - 1 <==> Recoverable(v, unassembled)
    ensures unassembled <= TWO31 ==> (Recoverable(v, unassembled) <==> v < TWO32)
  {
    UnwrapRoundTripIff(v, isn, unassembled);
    LessOne(Unwrap(Wrap(v, isn), isn, unassembled), v);
    if unassembled <= TWO31 {
      LowRing(v, unassembled);
    }
  }

  lemma LessOne(x: u64, v: u64)
    requires 1 <= v
    ensures U64(x - 1) == v - 1 <==> x == v
  {
  }

  lemma SliceOfSent(seg: TcpSegment, v: nat, src: Source)
    requires GenuineAt(seg, v, src) && SourceValid(src) && seg.SeqLen() > 0
    ensures Slice(Sent(src), seg.payload, PayloadIndex(seg, v), seg.header.fin)
  {
  }

  /** A segment that occupies no sequence number leaves the receiver as it was. */
  lemma ReceiveEmpty(r: ReceiverState, seg: TcpSegment)
    requires r.WellFormed() && r.reassembler.Valid() && seg.SeqLen() == 0
    ensures r.SegmentReceived(seg) == r
  {
  }

  lemma SynIsFirst(r: ReceiverState, seg: TcpSegment, v: nat, src: Source)
    requires seg.header.syn && !r.syn && GenuineAt(seg, v, src) && r.WellFormed()
    ensures r.Noted(seg.header) == r.(syn := true, isn := src.isn, fin := r.fin || seg.header.fin)
    ensures r.Noted(seg.header).Index(seg.header) == PayloadIndex(seg, v)
  {
    assert Wrap(0, src.isn) == src.isn;
  }

  /** Which push a genuine segment becomes. */
  lemma ReceiveIsPush(r: ReceiverState, seg: TcpSegment, v: nat, src: Source)
    requires Tracks(r, src) && seg.SeqLen() > 0 && GenuineAt(seg, v, src) && seg.header.syn != r.syn
    ensures r.Noted(seg.header) == r.(syn := true, isn := src.isn, fin := r.fin || seg.header.fin)
    ensures r.Noted(seg.header).Index(seg.header) == PayloadIndex(seg, v)
  {
    if seg.header.syn {
      SynIsFirst(r, seg, v, src);
    } else {
      IndexOfGenuine(r.(fin := r.fin || seg.header.fin), seg, v, src);
    }
  }

  lemma NotedTracks(r: ReceiverState, src: Source, fin: bool)
    requires Tracks(r, src) && src.sent > 0
    ensures Tracks(r.(syn := true, isn := src.isn, fin := fin), src)
    ensures r.AbsAckno() <= r.(syn := true, isn := src.isn, fin := fin).AbsAckno()
  {
  }

  lemma TracksPush(r: ReceiverState, src: Source, st: ReassemblerState, eof: bool)
    requires Tracks(r, src) && r.syn && (eof ==> src.fin)
    requires st.Valid() && Agrees(st, Sent(src)) && st.capacity == r.capacity
    requires r.reassembler.output.totin <= st.output.totin
    requires st.posEof == if eof then |Sent(src)| else r.reassembler.posEof
    ensures var r' := r.(reassembler := st);
            Tracks(r', src) && r.AbsAckno() <= r'.AbsAckno() && (r.InputEnded() ==> r'.InputEnded())
  {
  }

  lemma PushGenuine(r: ReceiverState, seg: TcpSegment, v: nat, src: Source)
    requires Tracks(r, src) && r.syn && seg.SeqLen() > 0 && GenuineAt(seg, v, src)
    requires PayloadIndex(seg, v) < TWO64
    ensures var r' := r.Push(seg, PayloadIndex(seg, v));
            && Tracks(r', src) && r.AbsAckno() <= r'.AbsAckno() && (r.InputEnded() ==> r'.InputEnded())
            && r'.reassembler.output.totout == r.reassembler.output.totout
  {
    var i, eof := PayloadIndex(seg, v), seg.header.fin;
    SliceOfSent(seg, v, src);
    PushSlice(r.reassembler, Sent(src), seg.payload, i, eof);
    TracksPush(r, src, r.reassembler.PushSubstring(seg.payload, i, eof), eof);
  }

  /** Receiving a genuine segment keeps the receiver on track and never takes anything back. */
  lemma ReceiveGenuine(r: ReceiverState, seg: TcpSegment, src: Source)
    requires Tracks(r, src) && Genuine(seg, src)
    ensures var r' := r.SegmentReceived(seg);
            && Tracks(r', src)
            && r.AbsAckno() <= r'.AbsAckno() && (r.InputEnded() ==> r'.InputEnded())
            && r'.reassembler.output.totout == r.reassembler.output.totout
  {
    if seg.SeqLen() == 0 {
      ReceiveEmpty(r, seg);
    } else if seg.header.syn != r.syn {
      var v: nat :| GenuineAt(seg, v, src);
      ReceiveIsPush(r, seg, v, src);
      NotedTracks(r, src, r.fin || seg.header.fin);
      PushGenuine(r.Noted(seg.header), seg, v, src);
    }
  }

  lemma ReadTracks(r: ReceiverState, len: nat, src: Source)
    requires Tracks(r, src)
    ensures Tracks(r.Read(len), src)
  {
    r.reassembler.output.PopHolds(Sent(src)[..r.reassembler.output.totin], len);
    ReadKeeps(r.reassembler, len);
  }

  /** What is read next continues the part of the history that was read before. */
  lemma ReadsOn(out: StreamState, sent: seq<byte>, w: seq<byte>, len: nat)
    requires sent <= w && out.totin <= |sent| && out.Holds(sent[..out.totin])
    ensures out.Pop(len).totout <= |w|
    ensures w[..out.totout] + out.Peek(len) == w[..out.Pop(len).totout]
  {
    out.PopHolds(sent[..out.totin], len);
    assert sent[..out.totin] == w[..out.totin];
  }

  /** What was read and what can still be read make up all that is assembled. */
  lemma ReadAndBuffered(out: StreamState, sent: seq<byte>, w: seq<byte>)
    requires sent <= w && out.totin <= |sent| && out.Holds(sent[..out.totin])
    ensures w[..out.totout] + out.buf == w[..out.totin]
  {
    assert sent[..out.totin] == w[..out.totin];
  }

  /** However stale, an ackno that the receiver reported acknowledges no more than it has assembled. */
  lemma AckWithin(s: SenderState, v: nat, window: u16, rack: nat)
    requires s.Valid() && 1 <= v <= rack <= s.nextSeqno <= TWO32 && s.Base() <= rack
    ensures s.AckReceived(Wrap(v, s.isn), window).Base() <= rack
  {
    UnwrapStale(v, s.isn, s.nextSeqno);
    AckKeeps(s, Wrap(v, s.isn), window);
  }

  lemma SourceOfValid(s: SenderState, w: seq<byte>)
    requires s.Valid() && s.stream.Holds(w)
    ensures SourceValid(SourceOf(s, w))
  {
  }

  /** The receiver never acknowledges what has not been sent. */
  lemma AcknoSent(r: ReceiverState, src: Source)
    requires Tracks(r, src)
    ensures r.AbsAckno() <= src.sent
  {
  }
}
