/** One endpoint of a connection: dispatch of arriving segments, shutdown, timers. */
module Connection {
  import opened Integers
  import opened Stream
  import opened Segment
  import Reassembler
  import Wrapping
  import opened Receiver
  import opened Sender

  const MAX_RETX_ATTEMPTS: nat := 8

  /** The branches of `segment_received`, in the order they are tried. */
  datatype Branch = Listen | SynSent | SynRcvd | Estab | FinWait1 | FinWait2 | TimeWait | Other

  datatype ConnState = ConnState(
    sender: SenderState, receiver: ReceiverState, active: bool, linger: bool, elapsed: nat, rtTimeout: u16,
    out: seq<TcpSegment>)
  {
    /** What the operations need; it also survives a write after the FIN. */
    predicate Sound() {
      sender.Sound() && receiver.WellFormed()
    }

    predicate Usable() {
      sender.Valid() && receiver.WellFormed()
    }

    /** An outgoing segment picks up the receiver's ackno and window once a SYN has been seen. */
    function Stamp(seg: TcpSegment): TcpSegment
      requires receiver.WellFormed()
    {
      if receiver.Ackno().None? then seg
      else seg.(header := seg.header.(ack := true, ackno := receiver.Ackno().value, win := U16(receiver.WindowSize())))
    }

    function Flushed(): ConnState
      requires receiver.WellFormed()
    {
      this.(out := out + seq(|sender.out|, i requires 0 <= i < |sender.out| => Stamp(sender.out[i])),
            sender := sender.(out := []))
    }

    /** Both streams are over and everything we sent is acknowledged. */
    predicate Finished() {
      receiver.InputEnded() && sender.stream.Eof() && sender.outgoing == 0
    }

    function SendSegments(): ConnState
      requires receiver.WellFormed()
    {
      if receiver.InputEnded() && !sender.stream.Eof() then Flushed().(linger := false)
      else if Finished() && (!linger || elapsed >= 10 * rtTimeout) then Flushed().(active := false)
      else Flushed()
    }

    function FillAndSend(): ConnState
      requires receiver.WellFormed()
    {
      this.(sender := sender.FillWindow()).SendSegments()
    }

    function SetErrors(): ConnState {
      this.(sender := sender.(stream := sender.stream.(error := true)), receiver := receiver.SetError(),
            active := false)
    }

    function Reset(): ConnState {
      SetErrors().(out := out + [TcpSegment(EMPTY_HEADER.(rst := true), [])])
    }

    function GetBranch(): Branch {
      var next, inFlight, ended := sender.nextSeqno, sender.outgoing, receiver.InputEnded();
      if next == 0 then Listen
      else if next == inFlight && receiver.Ackno().None? then SynSent
      else if next == inFlight && receiver.Ackno().Some? && !ended then SynRcvd
      else if next > inFlight && !sender.stream.Eof() then Estab
      else if sender.stream.Eof() && next == sender.stream.totin + 2 && inFlight > 0 && !ended then FinWait1
      else if sender.stream.Eof() && next == sender.stream.totin + 2 && inFlight == 0 && !ended then FinWait2
      else if sender.stream.Eof() && next == sender.stream.totin + 2 && inFlight == 0 && ended then TimeWait
      else Other
    }

    function Acked(seg: TcpSegment): ConnState
      requires sender.Tiled()
    {
      this.(sender := sender.AckReceived(seg.header.ackno, seg.header.win))
    }

    function Received(seg: TcpSegment): ConnState
      requires receiver.WellFormed()
    {
      this.(receiver := receiver.SegmentReceived(seg))
    }

    function Replying(): ConnState {
      this.(sender := sender.SendEmpty())
    }

    /** The connection's answer to an arriving segment without RST, by branch. */
    function Dispatch(b: Branch, seg: TcpSegment): ConnState
      requires Sound()
    {
      ReceiveMonotone(receiver, seg);
      var h := seg.header;
      match b
      case Listen => if h.syn then Received(seg).FillAndSend() else this
      case SynSent =>
        if h.syn && h.ack then Acked(seg).Received(seg).Replying().SendSegments()
        else if h.syn then Received(seg).Replying().SendSegments()
        else this
      case SynRcvd => Acked(seg).Received(seg)
      case Estab =>
        var c := Acked(seg).Received(seg);
        (if seg.SeqLen() > 0 then c.Replying() else c).FillAndSend()
      case FinWait1 =>
        if h.fin then Acked(seg).Received(seg).Replying().SendSegments()
        else if h.ack then Acked(seg).Received(seg).SendSegments()
        else this
      case FinWait2 => Acked(seg).Received(seg).Replying().SendSegments()
      case TimeWait => if h.fin then Acked(seg).Received(seg).Replying().SendSegments() else this
      case Other => Acked(seg).Received(seg).FillAndSend()
    }

    function SegmentReceived(seg: TcpSegment): ConnState
      requires Sound()
    {
      if !active then this
      else
        var c := this.(elapsed := 0);
        if seg.header.rst then c.SetErrors() else c.Dispatch(c.GetBranch(), seg)
    }

    function WithStream(stream: StreamState): ConnState {
      this.(sender := sender.(stream := stream))
    }

    function Ticked(ms: nat): ConnState {
      this.(elapsed := elapsed + ms, sender := sender.Tick(ms))
    }

    function Write(data: seq<byte>): ConnState
      requires Sound()
    {
      if data == [] then this else WithStream(sender.stream.Write(data)).FillAndSend()
    }

    function Tick(ms: nat): ConnState
      requires Sound()
    {
      if !active then this
      else
        var c := Ticked(ms);
        if c.sender.retx > MAX_RETX_ATTEMPTS then c.Reset() else c.SendSegments()
    }

    function EndInput(): ConnState
      requires receiver.WellFormed()
    {
      WithStream(sender.stream.(ended := true)).FillAndSend()
    }

    function ReadInbound(len: nat): ConnState {
      this.(receiver := receiver.Read(len))
    }
  }

  function NewConnection(isn: u32, rtTimeout: u16, sendCapacity: nat, recvCapacity: nat): ConnState {
    ConnState(NewSender(sendCapacity, rtTimeout, isn), NewReceiver(recvCapacity), true, true, 0, rtTimeout, [])
  }

  /** The oldest queued segment goes out, stamped. */
  function Forwarded(c: ConnState): ConnState
    requires c.receiver.WellFormed() && c.sender.out != []
  {
    c.(sender := c.sender.(out := c.sender.out[1..]), out := c.out + [c.Stamp(c.sender.out[0])])
  }

  /** Sending the queue one by one is sending it at once. */
  lemma ForwardFlushes(c: ConnState)
    requires c.receiver.WellFormed() && c.sender.out != []
    ensures Forwarded(c).Flushed() == c.Flushed()
  {
    var all, one := c.Flushed().out, Forwarded(c).Flushed().out;
    assert |all| == |one|;
    forall k | 0 <= k < |all|
      ensures all[k] == one[k]
    {
    }
  }

  lemma FlushedAlready(c: ConnState)
    requires c.receiver.WellFormed() && c.sender.out == []
    ensures c.Flushed() == c
  {
  }

  /** The 16-bit header field carries every window of a receiver exactly up to a capacity of 65535. */
  lemma WindowFieldIff(capacity: nat)
    ensures (forall r: ReceiverState :: r.WellFormed() && r.capacity == capacity ==>
               U16(r.WindowSize()) == r.WindowSize())
            <==> capacity <= 65535
  {
    var r := NewReceiver(capacity);
    Reassembler.NewValid(capacity);
    assert r.WellFormed() && r.WindowSize() == capacity;
  }

  /** The peer reads the right edge of our window back from any segment we stamp. */
  lemma StampAdvertises(c: ConnState, seg: TcpSegment, checkpoint: u64)
    requires c.receiver.WellFormed() && c.receiver.syn && c.receiver.capacity <= 65535
    requires c.receiver.AbsAckno() < TWO64 && Wrapping.Recoverable(c.receiver.AbsAckno(), checkpoint)
    ensures var h, out := c.Stamp(seg).header, c.receiver.StreamOut();
            h.ack && Wrapping.Unwrap(h.ackno, c.receiver.isn, checkpoint) + h.win
                     == out.totout + c.receiver.capacity + 1 + (if out.ended then 1 else 0)
  {
    AcknoUnwraps(c.receiver, checkpoint);
    WindowAgreement(c.receiver);
    WindowFits(c.receiver);
  }

  lemma AcknoUnwraps(r: ReceiverState, checkpoint: u64)
    requires r.syn && r.AbsAckno() < TWO64 && Wrapping.Recoverable(r.AbsAckno(), checkpoint)
    ensures Wrapping.Unwrap(r.Ackno().value, r.isn, checkpoint) == r.AbsAckno()
  {
    Wrapping.UnwrapRoundTripIff(r.AbsAckno(), r.isn, checkpoint);
  }

  lemma WindowFits(r: ReceiverState)
    requires r.WellFormed() && r.capacity <= 65535
    ensures U16(r.WindowSize()) == r.WindowSize()
  {
  }

  class TcpConnection {
    const sender: TcpSender
    const receiver: TcpReceiver
    const rtTimeout: u16
    var active: bool
    var linger: bool
    var elapsed: nat
    var out: seq<TcpSegment>

    /** The two halves are parts of this object; in particular they share no stream. */
    ghost predicate Valid()
      reads this, sender, sender.stream, receiver, receiver.reassembler, receiver.reassembler.output
    {
      sender.stream != receiver.reassembler.output && View().Sound()
    }

    ghost function View(): ConnState
      reads this, sender, sender.stream, receiver, receiver.reassembler, receiver.reassembler.output
    {
      ConnState(sender.View(), receiver.View(), active, linger, elapsed, rtTimeout, out)
    }

    constructor (isn: u32, rtTimeout: u16, sendCapacity: nat, recvCapacity: nat)
      ensures Valid() && View() == NewConnection(isn, rtTimeout, sendCapacity, recvCapacity)
      ensures fresh(sender) && fresh(sender.stream)
      ensures fresh(receiver) && fresh(receiver.reassembler) && fresh(receiver.reassembler.output)
    {
      sender := new TcpSender(sendCapacity, rtTimeout, isn);
      receiver := new TcpReceiver(recvCapacity);
      this.rtTimeout := rtTimeout;
      active, linger, elapsed, out := true, true, 0, [];
    }

    method StampSegment(seg: TcpSegment) returns (stamped: TcpSegment)
      requires Valid()
      ensures stamped == View().Stamp(seg)
    {
      stamped := seg;
      if receiver.Ackno().Some? {
        stamped := seg.(header := seg.header.(ack := true, ackno := receiver.Ackno().value,
                                              win := U16(receiver.WindowSize())));
      }
    }

    /** Move the sender's queue to our own, stamping each segment with the receiver's ackno and window. */
    method Flush()
      requires Valid()
      modifies this`out, sender`out
      ensures View() == old(View()).Flushed()
    {
      while sender.out != []
        invariant Valid() && View().Flushed() == old(View()).Flushed()
        decreases |sender.out|
      {
        ForwardFlushes(View());
        ForwardOne();
      }
      FlushedAlready(View());
    }

    /** One turn of that loop. */
    method ForwardOne()
      requires Valid() && sender.out != []
      modifies this`out, sender`out
      ensures Valid() && View() == Forwarded(old(View())) && |sender.out| < old(|sender.out|)
    {
      var seg := sender.out[0];
      sender.out := sender.out[1..];
      seg := StampSegment(seg);
      out := out + [seg];
    }

    method SendSegments()
      requires Valid()
      modifies this, sender`out
      ensures Valid() && View() == old(View()).SendSegments()
    {
      Flush();
      if receiver.reassembler.output.ended {
        if !sender.stream.Eof() {
          linger := false;
        } else if sender.outgoing == 0 {
          if !linger || elapsed >= 10 * rtTimeout {
            active := false;
          }
        }
      }
    }

    method Connect()
      requires Valid()
      modifies this, sender, sender.stream
      ensures Valid() && View() == old(View()).FillAndSend()
    {
      sender.FillWindow();
      SendSegments();
    }

    method Write(data: seq<byte>) returns (n: nat)
      requires Valid()
      modifies this, sender, sender.stream
      ensures Valid() && View() == old(View()).Write(data)
      ensures n == |old(sender.stream.View()).Accepted(data)|
    {
      if data == [] {
        return 0;
      }
      n := sender.stream.Write(data);
      Connect();
    }

    method EndInputStream()
      requires Valid()
      modifies this, sender, sender.stream
      ensures Valid() && View() == old(View()).EndInput()
    {
      sender.stream.EndInput();
      Connect();
    }

    method ResetConnection()
      requires Valid()
      modifies this, sender.stream, receiver.reassembler.output
      ensures Valid() && View() == old(View()).Reset()
    {
      receiver.reassembler.output.SetError();
      sender.stream.SetError();
      active := false;
      out := out + [TcpSegment(EMPTY_HEADER.(rst := true), [])];
    }

    method Tick(ms: nat)
      requires Valid()
      modifies this, sender, sender.stream, receiver.reassembler.output
      ensures Valid() && View() == old(View()).Tick(ms)
    {
      if !active {
        return;
      }
      elapsed := elapsed + ms;
      sender.Tick(ms);
      assert View() == old(View()).Ticked(ms);
      if sender.retx > MAX_RETX_ATTEMPTS {
        ResetConnection();
        return;
      }
      SendSegments();
    }

    /** Which branch of `segment_received` is taken. */
    method Classify() returns (b: Branch)
      requires Valid()
      ensures b == View().GetBranch()
    {
      var next, inFlight, eof := sender.nextSeqno, sender.outgoing, sender.stream.Eof();
      var ended := receiver.reassembler.output.ended;
      if next == 0 {
        return Listen;
      }
      if next == inFlight && receiver.Ackno().None? {
        return SynSent;
      }
      if next == inFlight && receiver.Ackno().Some? && !ended {
        return SynRcvd;
      }
      if next > inFlight && !eof {
        return Estab;
      }
      if eof && next == sender.stream.totin + 2 && inFlight > 0 && !ended {
        return FinWait1;
      }
      if eof && next == sender.stream.totin + 2 && inFlight == 0 && !ended {
        return FinWait2;
      }
      if eof && next == sender.stream.totin + 2 && inFlight == 0 && ended {
        return TimeWait;
      }
      return Other;
    }

    method AckAndReceive(seg: TcpSegment)
      requires Valid()
      modifies sender, sender.stream, receiver, receiver.reassembler, receiver.reassembler.output
      ensures Valid() && View() == old(View()).Acked(seg).Received(seg)
    {
      sender.AckReceived(seg.header.ackno, seg.header.win);
      receiver.SegmentReceived(seg);
    }

    method Reply()
      requires Valid()
      modifies this, sender
      ensures Valid() && View() == old(View()).Replying().SendSegments()
    {
      sender.SendEmptySegment();
      SendSegments();
    }

    /** The bodies of the branches before the connection is established. */
    method HandleOpening(b: Branch, seg: TcpSegment)
      requires Valid() && b in {Listen, SynSent, SynRcvd}
      modifies this, sender, sender.stream, receiver, receiver.reassembler, receiver.reassembler.output
      ensures Valid() && View() == old(View()).Dispatch(b, seg)
    {
      if b == Listen {
        if seg.header.syn {
          receiver.SegmentReceived(seg);
          Connect();
        }
      } else if b == SynSent {
        if seg.header.syn && seg.header.ack {
          AckAndReceive(seg);
          Reply();
        } else if seg.header.syn {
          receiver.SegmentReceived(seg);
          Reply();
        }
      } else {
        AckAndReceive(seg);
      }
    }

    /** The bodies of the branches after that. */
    method HandleOpen(b: Branch, seg: TcpSegment)
      requires Valid() && b !in {Listen, SynSent, SynRcvd}
      modifies this, sender, sender.stream, receiver, receiver.reassembler, receiver.reassembler.output
      ensures Valid() && View() == old(View()).Dispatch(b, seg)
    {
      if (b == FinWait1 && !seg.header.fin && !seg.header.ack) || (b == TimeWait && !seg.header.fin) {
        return;
      }
      AckAndReceive(seg);
      if b == Estab {
        if seg.SeqLen() > 0 {
          sender.SendEmptySegment();
        }
        Connect();
      } else if b == Other {
        Connect();
      } else if b == FinWait1 && !seg.header.fin {
        SendSegments();
      } else {
        Reply();
      }
    }

    /** What an arriving RST does. */
    method Abort()
      requires Valid()
      modifies this, sender.stream, receiver.reassembler.output
      ensures Valid() && View() == old(View()).SetErrors()
    {
      sender.stream.SetError();
      receiver.reassembler.output.SetError();
      active := false;
    }

    method SegmentReceived(seg: TcpSegment)
      requires Valid()
      modifies this, sender, sender.stream, receiver, receiver.reassembler, receiver.reassembler.output
      ensures Valid() && View() == old(View()).SegmentReceived(seg)
    {
      if !active {
        return;
      }
      elapsed := 0;
      if seg.header.rst {
        Abort();
        return;
      }
      var b := Classify();
      if b in {Listen, SynSent, SynRcvd} {
        HandleOpening(b, seg);
      } else {
        HandleOpen(b, seg);
      }
    }
  }
}
