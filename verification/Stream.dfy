/** The flow-controlled byte stream: its value and its object. */
module Stream {
  import opened Integers

  datatype StreamState = StreamState(
    capacity: nat, buf: seq<byte>, totin: nat, totout: nat, ended: bool, error: bool)
  {
    predicate Valid() {
      |buf| <= capacity && totin == totout + |buf|
    }

    function RemainingCapacity(): nat
      requires Valid()
    {
      capacity - |buf|
    }

    predicate Eof() {
      ended && buf == []
    }

    /** The bytes of `data` that fit. */
    function Accepted(data: seq<byte>): seq<byte>
      requires Valid()
    {
      data[..Min(|data|, RemainingCapacity())]
    }

    function Write(data: seq<byte>): StreamState
      requires Valid()
    {
      this.(buf := buf + Accepted(data), totin := totin + |Accepted(data)|)
    }

    function Peek(len: nat): seq<byte> {
      buf[..Min(len, |buf|)]
    }

    function Pop(len: nat): StreamState {
      this.(buf := buf[Min(len, |buf|)..], totout := totout + Min(len, |buf|))
    }

    /** The stream holds what has been written and not yet read of the history `w`. */
    predicate Holds(w: seq<byte>) {
      |w| == totin && totout <= |w| && buf == w[totout..]
    }

    /** First in, first out: what is popped next is the next unread part of the history. */
    lemma PopHolds(w: seq<byte>, len: nat)
      requires Holds(w)
      ensures Pop(len).Holds(w)
      ensures Peek(len) == w[totout..Pop(len).totout] && |Peek(len)| == Min(len, |buf|)
    {
      assert w[totout..][Min(len, |buf|)..] == w[Pop(len).totout..];
      assert w[totout..][..Min(len, |buf|)] == w[totout..Pop(len).totout];
    }

    /** A write appends the longest prefix of the data that fits, and changes nothing else. */
    lemma WriteAppends(data: seq<byte>)
      requires Valid()
      ensures var s, n := Write(data), |Write(data).buf| - |buf|;
              && 0 <= n <= |data| && s == this.(buf := buf + data[..n], totin := totin + n)
              && (n == |data| || |s.buf| == capacity) && |s.buf| <= capacity && Accepted(data) == data[..n]
    {
    }

    lemma WriteHolds(w: seq<byte>, data: seq<byte>)
      requires Valid() && Holds(w)
      ensures Write(data).Valid() && Write(data).Holds(w + Accepted(data))
    {
      assert (w + Accepted(data))[totout..] == w[totout..] + Accepted(data);
    }
  }

  function NewStream(capacity: nat): StreamState {
    StreamState(capacity, [], 0, 0, false, false)
  }

  class ByteStream {
    const capacity: nat
    var buf: seq<byte>
    var totin: nat
    var totout: nat
    var ended: bool
    var error: bool

    ghost function View(): StreamState
      reads this
    {
      StreamState(capacity, buf, totin, totout, ended, error)
    }

    constructor (capacity: nat)
      ensures View() == NewStream(capacity)
    {
      this.capacity := capacity;
      buf, totin, totout, ended, error := [], 0, 0, false, false;
    }

    method Write(data: seq<byte>) returns (n: nat)
      requires View().Valid()
      modifies this
      ensures View() == old(View()).Write(data) && View().Valid()
      ensures n == |old(View()).Accepted(data)|
    {
      n := Min(|data|, capacity - |buf|);
      totin := totin + n;
      buf := buf + data[..n];
    }

    method PopOutput(len: nat)
      requires View().Valid()
      modifies this
      ensures View() == old(View()).Pop(len) && View().Valid()
    {
      var n := Min(len, |buf|);
      totout := totout + n;
      buf := buf[n..];
    }

    method Read(len: nat) returns (data: seq<byte>)
      requires View().Valid()
      modifies this
      ensures data == old(View()).Peek(len)
      ensures View() == old(View()).Pop(len) && View().Valid()
    {
      data := buf[..Min(len, |buf|)];
      PopOutput(|data|);
    }

    method EndInput()
      modifies this
      ensures View() == old(View()).(ended := true)
    {
      ended := true;
    }

    method SetError()
      modifies this
      ensures View() == old(View()).(error := true)
    {
      error := true;
    }

    predicate Eof()
      reads this
      ensures Eof() == View().Eof()
    {
      ended && buf == []
    }
  }
}
