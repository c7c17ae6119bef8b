/** The receiving half of a connection: unwraps sequence numbers and feeds the reassembler. */
module Receiver {
  import opened Integers
  import opened Wrapping
  import opened Stream
  import opened Segment
  import opened Reassembler

  datatype ReceiverState = ReceiverState(
    capacity: nat, reassembler: ReassemblerState, isn: u32, syn: bool, fin: bool)
  {
    predicate WellFormed() {
      reassembler.WellFormed() && reassembler.capacity == capacity
    }

    function StreamOut(): StreamState { reassembler.output }

    predicate InputEnded() { reassembler.output.ended }

    function SetError(): ReceiverState {
      this.(reassembler := reassembler.(output := reassembler.output.(error := true)))
    }

    function Read(len: nat): ReceiverState {
      this.(reassembler := reassembler.(output := reassembler.output.Pop(len)))
    }

    /** Stream index of a segment's first byte; a non-SYN segment at sequence number 0 underflows. */
    function Index(header: TcpHeader): u64 {
      if header.syn then 0 else U64(Unwrap(header.seqno, isn, reassembler.unassembled) - 1)
    }

    /** The flags a segment leaves behind; a SYN brings the initial sequence number. */
    function Noted(header: TcpHeader): ReceiverState {
      this.(syn := true, isn := if header.syn then header.seqno else isn, fin := fin || header.fin)
    }

    function Push(seg: TcpSegment, index: u64): ReceiverState
      requires WellFormed()
    {
      this.(reassembler := reassembler.PushSubstring(seg.payload, index, seg.header.fin))
    }

    function SegmentReceived(seg: TcpSegment): ReceiverState
      requires WellFormed()
    {
      if seg.header.syn == syn then this
      else Noted(seg.header).Push(seg, Noted(seg.header).Index(seg.header))
    }

    /** The absolute sequence number the receiver waits for. */
    function AbsAckno(): nat {
      if !syn then 0 else reassembler.output.totin + 1 + (if reassembler.output.ended then 1 else 0)
    }

    function Ackno(): Option<u32> {
      if syn then Some(Wrap(AbsAckno(), isn)) else None
    }

    function WindowSize(): nat
      requires WellFormed()
    {
      capacity - |reassembler.output.buf|
    }
  }

  function NewReceiver(capacity: nat): ReceiverState {
    ReceiverState(capacity, NewReassembler(capacity), 0, false, false)
  }

  /** Any segment at all: the receiver stays well formed and takes nothing back. */
  lemma ReceiveMonotone(r: ReceiverState, seg: TcpSegment)
    requires r.WellFormed()
    ensures var r' := r.SegmentReceived(seg);
            && r'.WellFormed() && r'.capacity == r.capacity
            && (r.syn || seg.header.syn ==> r'.syn) && (r'.syn ==> r.syn || seg.header.syn)
            && (r.syn ==> r'.isn == r.isn)
            && (r.InputEnded() ==> r'.InputEnded())
            && (!r'.syn ==> r' == r)
            && r'.StreamOut().totout == r.StreamOut().totout && r.StreamOut().totin <= r'.StreamOut().totin
            && r'.StreamOut().error == r.StreamOut().error
  {
    if seg.header.syn != r.syn {
      var i := r.Noted(seg.header).Index(seg.header);
      PushWellFormed(r.reassembler, seg.payload, i, seg.header.fin);
      PushMonotone(r.reassembler, seg.payload, i, seg.header.fin);
    }
  }

  /** The right edge of the advertised window, as an absolute sequence number. */
  function RightEdge(r: ReceiverState): nat
    requires r.WellFormed()
  {
    r.AbsAckno() + r.WindowSize()
  }

  /** The advertised window ends where the reassembler's capacity does, or one after it at the end. */
  lemma WindowAgreement(r: ReceiverState)
    requires r.WellFormed() && r.syn
    ensures RightEdge(r) == r.StreamOut().totout + r.capacity + 1 + (if r.InputEnded() then 1 else 0)
    ensures r.StreamOut().totout + r.capacity <= r.reassembler.posEof ==>
              RightEdge(r) == r.reassembler.Limit() + 1 + (if r.InputEnded() then 1 else 0)
  {
  }

  /** The advertised right edge never retreats. */
  lemma EdgeNeverRetreats(r: ReceiverState, seg: TcpSegment, len: nat)
    requires r.WellFormed() && r.syn
    ensures r.SegmentReceived(seg).WellFormed() && RightEdge(r) <= RightEdge(r.SegmentReceived(seg))
    ensures r.Read(len).WellFormed() && RightEdge(r) <= RightEdge(r.Read(len))
  {
    ReceiveMonotone(r, seg);
    WindowAgreement(r.SegmentReceived(seg));
    WindowAgreement(r);
  }

  class TcpReceiver {
    const reassembler: StreamReassembler
    const capacity: nat
    var isn: u32
    var syn: bool
    var fin: bool

    ghost function View(): ReceiverState
      reads this, reassembler, reassembler.output
    {
      ReceiverState(capacity, reassembler.View(), isn, syn, fin)
    }

    constructor (capacity: nat)
      ensures View() == NewReceiver(capacity) && View().WellFormed()
      ensures fresh(reassembler) && fresh(reassembler.output)
    {
      reassembler := new StreamReassembler(capacity);
      this.capacity := capacity;
      isn, syn, fin := 0, false, false;
    }

    method SegmentReceived(seg: TcpSegment)
      requires View().WellFormed()
      modifies this, reassembler, reassembler.output
      ensures View() == old(View()).SegmentReceived(seg) && View().WellFormed()
    {
      var header := seg.header;
      if !header.syn && !syn {
        return;
      }
      if header.syn && syn {
        return;
      }
      if header.syn {
        syn, isn := true, header.seqno;
      }
      if header.fin {
        fin := true;
      }
      ReceiveMonotone(old(View()), seg);
      ghost var r := View();
      assert r == old(View()).Noted(header);
      var index: int := Unwrap(header.seqno, isn, reassembler.unassembled);
      index := if header.syn then 0 else U64(index - 1);
      assert index == r.Index(header);
      reassembler.PushSubstring(seg.payload, index, header.fin);
      assert View() == r.Push(seg, index);
    }

    /** The ackno to report, once a SYN has been seen. */
    function Ackno(): (r: Option<u32>)
      reads this, reassembler, reassembler.output
      ensures r == View().Ackno()
    {
      if !syn then None
      else
        var absolute := reassembler.output.totin + 1;
        Some(Wrap(if reassembler.output.ended then absolute + 1 else absolute, isn))
    }

    function WindowSize(): (r: nat)
      requires View().WellFormed()
      reads this, reassembler, reassembler.output
      ensures r == View().WindowSize()
      ensures syn ==> View().AbsAckno() + r == reassembler.output.totout + capacity + 1
                                               + (if reassembler.output.ended then 1 else 0)
    {
      capacity - |reassembler.output.buf|
    }
  }
}
