/** Big-endian integers on the wire: the parser with its sticky error, and the unparser. */
module Codec {
  import opened Integers

  datatype ParseResult =
    | NoError | BadChecksum | PacketTooShort | WrongIPVersion | HeaderTooShort | TruncatedPacket | Unsupported

  /** The integer that `bytes` spell in network order. */
  function BigEndian(bytes: seq<byte>): nat {
    if bytes == [] then 0 else BigEndian(bytes[..|bytes| - 1]) * 256 + bytes[|bytes| - 1]
  }

  /** The low `len` bytes of `val` in network order. */
  function Bytes(val: nat, len: nat): seq<byte> {
    if len == 0 then [] else Bytes(val / 256, len - 1) + [val % 256]
  }

  function Pow256(k: nat): nat {
    if k == 0 then 1 else 256 * Pow256(k - 1)
  }

  datatype ParserState = ParserState(buffer: seq<byte>, error: ParseResult) {
    function Checked(size: nat): ParserState {
      if size > |buffer| then this.(error := PacketTooShort) else this
    }

    function RemovePrefix(n: nat): ParserState {
      if Checked(n).error != NoError then Checked(n) else this.(buffer := buffer[n..])
    }

    /** The value of the next `len` bytes, or 0 after an error. */
    function Int(len: nat): (val: nat)
      ensures val < Pow256(len)
    {
      Pow256Positive(len);
      if Checked(len).error != NoError then 0 else BigEndianBound(buffer[..len]); BigEndian(buffer[..len])
    }
  }

  /** Two bytes, two words and two double words in a row. */
  function TwoBytes(p: ParserState): (u8, u8, ParserState) {
    Powers();
    (p.Int(1), p.RemovePrefix(1).Int(1), p.RemovePrefix(1).RemovePrefix(1))
  }

  function TwoWords(p: ParserState): (u16, u16, ParserState) {
    Powers();
    (p.Int(2), p.RemovePrefix(2).Int(2), p.RemovePrefix(2).RemovePrefix(2))
  }

  function TwoDoubles(p: ParserState): (u32, u32, ParserState) {
    Powers();
    (p.Int(4), p.RemovePrefix(4).Int(4), p.RemovePrefix(4).RemovePrefix(4))
  }

  function OneWord(p: ParserState): (u16, ParserState) {
    Powers();
    (p.Int(2), p.RemovePrefix(2))
  }

  class NetParser {
    var buffer: seq<byte>
    var error: ParseResult

    ghost function View(): ParserState
      reads this
    {
      ParserState(buffer, error)
    }

    constructor (buffer: seq<byte>)
      ensures View() == ParserState(buffer, NoError)
    {
      this.buffer, error := buffer, NoError;
    }

    method CheckSize(size: nat)
      modifies this
      ensures View() == old(View()).Checked(size)
    {
      if size > |buffer| {
        error := PacketTooShort;
      }
    }

    method ParseInt(len: nat) returns (val: nat)
      modifies this
      ensures View() == old(View()).RemovePrefix(len) && val == old(View()).Int(len)
    {
      CheckSize(len);
      if error != NoError {
        return 0;
      }
      val := 0;
      var i := 0;
      while i < len
        invariant 0 <= i <= len && val == BigEndian(buffer[..i])
      {
        assert buffer[..i + 1][..i] == buffer[..i];
        val := val * 256 + buffer[i];
        i := i + 1;
      }
      buffer := buffer[len..];
    }

    method ParseTwoBytes() returns (x: u8, y: u8)
      modifies this
      ensures (x, y, View()) == TwoBytes(old(View()))
    {
      Powers();
      x := ParseInt(1);
      y := ParseInt(1);
    }

    method ParseTwoWords() returns (x: u16, y: u16)
      modifies this
      ensures (x, y, View()) == TwoWords(old(View()))
    {
      Powers();
      x := ParseInt(2);
      y := ParseInt(2);
    }

    method ParseTwoDoubles() returns (x: u32, y: u32)
      modifies this
      ensures (x, y, View()) == TwoDoubles(old(View()))
    {
      Powers();
      x := ParseInt(4);
      y := ParseInt(4);
    }

    method ParseWord() returns (x: u16)
      modifies this
      ensures (x, View()) == OneWord(old(View()))
    {
      Powers();
      x := ParseInt(2);
    }

    method RemovePrefix(n: nat)
      modifies this
      ensures View() == old(View()).RemovePrefix(n)
    {
      CheckSize(n);
      if error == NoError {
        buffer := buffer[n..];
      }
    }
  }

  /** `val >> (8 * k)` */
  function ShiftRight(val: nat, k: nat): nat {
    if k == 0 then val else ShiftRight(val / 256, k - 1)
  }

  lemma {:induction false} ShiftOnce(val: nat, k: nat)
    ensures ShiftRight(val, k + 1) == ShiftRight(val, k) / 256
  {
    if k == 0 {
    } else {
      ShiftOnce(val / 256, k - 1);
    }
  }

  method UnparseInt(s: seq<byte>, val: nat, len: nat) returns (s': seq<byte>)
    ensures s' == s + Bytes(val, len)
  {
    s' := s;
    var i := 0;
    while i < len
      invariant 0 <= i <= len && s' == s + Bytes(ShiftRight(val, len - i), i)
    {
      ShiftOnce(val, len - i - 1);
      s' := s' + [ShiftRight(val, len - i - 1) % 256];
      i := i + 1;
    }
  }

  lemma {:induction false} Pow256Positive(k: nat)
    ensures Pow256(k) > 0
  {
    if k == 0 {
    } else {
      Pow256Positive(k - 1);
    }
  }

  lemma {:induction false} BigEndianBound(bytes: seq<byte>)
    ensures BigEndian(bytes) < Pow256(|bytes|)
  {
    if bytes == [] {
    } else {
      BigEndianBound(bytes[..|bytes| - 1]);
    }
  }

  lemma {:induction false} BytesLength(val: nat, len: nat)
    ensures |Bytes(val, len)| == len
  {
    if len == 0 {
    } else {
      BytesLength(val / 256, len - 1);
    }
  }

  /** Parsing undoes unparsing for every value that fits. */
  lemma {:induction false} BytesRoundTrip(val: nat, len: nat)
    requires val < Pow256(len)
    ensures |Bytes(val, len)| == len && BigEndian(Bytes(val, len)) == val
  {
    if len == 0 {
    } else {
      BytesRoundTrip(val / 256, len - 1);
      assert Bytes(val, len)[..len - 1] == Bytes(val / 256, len - 1);
    }
  }

  /** The field at the front of the buffer is read back, and only that. */
  lemma TakeField(val: nat, len: nat, rest: seq<byte>)
    requires val < Pow256(len)
    ensures var p := ParserState(Bytes(val, len) + rest, NoError);
            p.Int(len) == val && p.RemovePrefix(len) == ParserState(rest, NoError)
  {
    BytesRoundTrip(val, len);
    var buffer := Bytes(val, len) + rest;
    assert buffer[..len] == Bytes(val, len) && buffer[len..] == rest;
  }

  /** The field at offset `i` of `b`, and what follows it. */
  lemma Peel(b: seq<byte>, i: nat, val: nat, len: nat, rest: seq<byte>)
    requires i <= |b| && b[i..] == Bytes(val, len) + rest && val < Pow256(len)
    ensures i + len <= |b| && BigEndian(b[i..i + len]) == val && b[i + len..] == rest
  {
    BytesRoundTrip(val, len);
    assert b[i..i + len] == b[i..][..len] == Bytes(val, len);
    assert b[i + len..] == b[i..][len..] == rest;
  }

  lemma TakeBytes(x: u8, y: u8, rest: seq<byte>)
    ensures TwoBytes(ParserState(Bytes(x, 1) + (Bytes(y, 1) + rest), NoError)) == (x, y, ParserState(rest, NoError))
  {
    Powers();
    TakeField(x, 1, Bytes(y, 1) + rest);
    TakeField(y, 1, rest);
  }

  lemma TakeWords(x: u16, y: u16, rest: seq<byte>)
    ensures TwoWords(ParserState(Bytes(x, 2) + (Bytes(y, 2) + rest), NoError)) == (x, y, ParserState(rest, NoError))
  {
    Powers();
    TakeField(x, 2, Bytes(y, 2) + rest);
    TakeField(y, 2, rest);
  }

  lemma TakeDoubles(x: u32, y: u32, rest: seq<byte>)
    ensures TwoDoubles(ParserState(Bytes(x, 4) + (Bytes(y, 4) + rest), NoError)) == (x, y, ParserState(rest, NoError))
  {
    Powers();
    TakeField(x, 4, Bytes(y, 4) + rest);
    TakeField(y, 4, rest);
  }

  lemma TakeWord(x: u16, rest: seq<byte>)
    ensures OneWord(ParserState(Bytes(x, 2) + rest, NoError)) == (x, ParserState(rest, NoError))
  {
    Powers();
    TakeField(x, 2, rest);
  }

  lemma Powers()
    ensures Pow256(1) == 0x100 && Pow256(2) == 0x1_0000 && Pow256(4) == 0x1_0000_0000
  {
    assert Pow256(3) == 0x100_0000;
  }
}
