/** IPv4 headers and datagrams on the wire (section 3.1 of RFC 791). */
module Ipv4 {
  import opened Integers
  import opened Checksum
  import opened Codec
  import TcpWire

  datatype Ipv4Header = Ipv4Header(
    ver: u8, hlen: u8, tos: u8, len: u16, id: u16, df: bool, mf: bool, offset: u16,
    ttl: u8, proto: u8, cksum: u16, src: u32, dst: u32)
  {
    /** A 16-bit difference, which wraps. */
    function PayloadLength(): u16 { U16(len - 4 * hlen) }

    /** What the pseudo-header contributes to the checksum of an encapsulated segment. */
    function PseudoCksum(): u32 {
      src / 65536 + src % 65536 + dst / 65536 + dst % 65536 + proto + PayloadLength()
    }
  }

  const PROTO_TCP: u8 := 6
  const DEFAULT_HEADER := Ipv4Header(4, 5, 0, 0, 0, true, false, 0, 128, PROTO_TCP, 0, 0, 0)

  function FirstByte(h: Ipv4Header): u8 { U8(U8(h.ver * 16) + h.hlen % 16) }

  function FragmentWord(h: Ipv4Header): u16 {
    TcpWire.Flag(h.df, 0x4000) + TcpWire.Flag(h.mf, 0x2000) + h.offset % 0x2000
  }

  /** The first ten bytes, up to the checksum, followed by `tail`. */
  function Lead(h: Ipv4Header, tail: seq<byte>): seq<byte> {
    Bytes(FirstByte(h), 1) + (Bytes(h.tos, 1) + (Bytes(h.len, 2) + (Bytes(h.id, 2)
    + (Bytes(FragmentWord(h), 2) + (Bytes(h.ttl, 1) + (Bytes(h.proto, 1) + tail))))))
  }

  function HeaderBytes(h: Ipv4Header, tail: seq<byte>): seq<byte> {
    Lead(h, Bytes(h.cksum, 2) + (Bytes(h.src, 4) + (Bytes(h.dst, 4) + tail)))
  }

  /** `IPv4Header::serialize`; it throws on a wrong version or a short header. */
  function SerializeHeader(h: Ipv4Header): Option<seq<byte>> {
    if h.ver != 4 || 4 * h.hlen < 20 then None else Some(HeaderBytes(h, TcpWire.Zeros(4 * h.hlen - 20)))
  }

  datatype HeaderParse = HeaderParse(header: Ipv4Header, result: ParseResult, rest: ParserState)

  /** `IPv4Header::parse`; `prior` is what the header held before, kept if the data is too short. */
  function ParseHeader(p: ParserState, prior: Ipv4Header): HeaderParse {
    if |p.buffer| < 20 then HeaderParse(prior, PacketTooShort, p)
    else FinishParse(Fields(p).0, p.buffer, Fields(p).1)
  }

  function MakeHeader(first: u8, tos: u8, len: u16, id: u16, fo: u16, ttl: u8, proto: u8, cksum: u16, src: u32,
                      dst: u32): Ipv4Header
  {
    Ipv4Header(first / 16, first % 16, tos, len, id, fo / 0x4000 % 2 == 1, fo / 0x2000 % 2 == 1, fo % 0x2000,
               ttl, proto, cksum, src, dst)
  }

  /** The checks on the fields of a header in a buffer of `size` bytes. */
  function Screened(h: Ipv4Header, size: nat): ParseResult {
    if size < 4 * h.hlen then PacketTooShort
    else if h.ver != 4 then WrongIPVersion
    else if h.hlen < 5 then HeaderTooShort
    else if size != h.len then TruncatedPacket
    else NoError
  }

  /** What follows once the fields have been read from `original`. */
  function FinishParse(h: Ipv4Header, original: seq<byte>, p: ParserState): HeaderParse {
    if Screened(h, |original|) != NoError then HeaderParse(h, Screened(h, |original|), p)
    else
      var p' := p.RemovePrefix(h.hlen * 4 - 20);
      if p'.error != NoError then HeaderParse(h, p'.error, p')
      else if Complement(U32(WordSum(original[..4 * h.hlen], false))) != 0 then HeaderParse(h, BadChecksum, p')
      else HeaderParse(h, NoError, p')
  }

  /** `IPv4Header::parse` on the parser. */
  method ReadHeader(p: NetParser, prior: Ipv4Header) returns (h: Ipv4Header, result: ParseResult)
    modifies p
    ensures HeaderParse(h, result, p.View()) == ParseHeader(old(p.View()), prior)
  {
    var original := p.buffer;
    if |original| < 20 {
      return prior, PacketTooShort;
    }
    h := ReadFields(p);
    result := CheckHeader(h, original, p);
  }

  method CheckHeader(h: Ipv4Header, original: seq<byte>, p: NetParser) returns (result: ParseResult)
    modifies p
    ensures HeaderParse(h, result, p.View()) == FinishParse(h, original, old(p.View()))
  {
    result := Screened(h, |original|);
    if result != NoError {
      return;
    }
    p.RemovePrefix(h.hlen * 4 - 20);
    if p.error != NoError {
      return p.error;
    }
    var sum := ChecksumOf(0, original[..4 * h.hlen]);
    result := if sum != 0 then BadChecksum else NoError;
  }

  /** The fixed part of the header. */
  function Fields(p: ParserState): (Ipv4Header, ParserState) {
    var (first, tos, p1) := TwoBytes(p);
    var (len, id, p2) := TwoWords(p1);
    var (fo, p3) := OneWord(p2);
    var (ttl, proto, p4) := TwoBytes(p3);
    var (cksum, p5) := OneWord(p4);
    var (src, dst, p6) := TwoDoubles(p5);
    (MakeHeader(first, tos, len, id, fo, ttl, proto, cksum, src, dst), p6)
  }

  method ReadFields(p: NetParser) returns (h: Ipv4Header)
    modifies p
    ensures (h, p.View()) == Fields(old(p.View()))
  {
    var first, tos := p.ParseTwoBytes();
    var len, id := p.ParseTwoWords();
    var fo := p.ParseWord();
    var ttl, proto := p.ParseTwoBytes();
    var cksum := p.ParseWord();
    var src, dst := p.ParseTwoDoubles();
    h := MakeHeader(first, tos, len, id, fo, ttl, proto, cksum, src, dst);
  }

  method WriteLead(h: Ipv4Header) returns (ret: seq<byte>)
    ensures ret == Lead(h, [])
  {
    ret := UnparseInt([], FirstByte(h), 1);
    ret := UnparseInt(ret, h.tos, 1);
    ret := UnparseInt(ret, h.len, 2);
    ret := UnparseInt(ret, h.id, 2);
    ret := UnparseInt(ret, FragmentWord(h), 2);
    ret := UnparseInt(ret, h.ttl, 1);
    ret := UnparseInt(ret, h.proto, 1);
    TcpWire.Regroup(Bytes(FirstByte(h), 1), Bytes(h.tos, 1), Bytes(h.len, 2), Bytes(h.id, 2),
                    Bytes(FragmentWord(h), 2), Bytes(h.ttl, 1), Bytes(h.proto, 1), ret);
  }

  lemma Resized(h: Ipv4Header, n: nat, ret: seq<byte>)
    requires ret == Lead(h, []) + Bytes(h.cksum, 2) + Bytes(h.src, 4) + Bytes(h.dst, 4)
    ensures |ret| == 20 && ret + TcpWire.Zeros(n) == HeaderBytes(h, TcpWire.Zeros(n))
  {
    var x, y, z, tail := Bytes(h.cksum, 2), Bytes(h.src, 4), Bytes(h.dst, 4), TcpWire.Zeros(n);
    LeadLength(h, []);
    BytesLength(h.cksum, 2);
    BytesLength(h.src, 4);
    BytesLength(h.dst, 4);
    TcpWire.Assoc(Lead(h, []) + x + y, z, tail);
    TcpWire.Assoc(Lead(h, []) + x, y, z + tail);
    TcpWire.Assoc(Lead(h, []), x, y + (z + tail));
    LeadAppend(h, [], x + (y + (z + tail)));
    assert [] + (x + (y + (z + tail))) == x + (y + (z + tail));
  }

  /** `IPv4Header::serialize` into a growing string. */
  method WriteHeader(h: Ipv4Header) returns (r: Option<seq<byte>>)
    ensures r == SerializeHeader(h)
  {
    if h.ver != 4 || 4 * h.hlen < 20 {
      return None;
    }
    var ret := WriteLead(h);
    ret := UnparseInt(ret, h.cksum, 2);
    ret := UnparseInt(ret, h.src, 4);
    ret := UnparseInt(ret, h.dst, 4);
    Resized(h, 4 * h.hlen - 20, ret);
    r := Some(ret + TcpWire.Zeros(4 * h.hlen - |ret|));
  }

  datatype Datagram = Datagram(header: Ipv4Header, payload: seq<byte>)

  function HeaderChecksum(h: Ipv4Header): u16
    requires SerializeHeader(h).Some?
  {
    Complement(U32(WordSum(SerializeHeader(h.(cksum := 0)).value, false)))
  }

  /** `IPv4Datagram::serialize`; it throws if the payload is not as long as the header says. */
  function SerializeDatagram(d: Datagram): Option<seq<byte>> {
    if |d.payload| != d.header.PayloadLength() || SerializeHeader(d.header).None? then None
    else Some(SerializeHeader(d.header.(cksum := HeaderChecksum(d.header))).value + d.payload)
  }

  /** `IPv4Datagram::parse`: the header's own verdict is dropped, only the parser's error counts. */
  function ParseDatagram(buffer: seq<byte>, prior: Ipv4Header): (Datagram, ParseResult) {
    DatagramOf(ParseHeader(ParserState(buffer, NoError), prior))
  }

  function DatagramOf(r: HeaderParse): (Datagram, ParseResult) {
    (Datagram(r.header, r.rest.buffer),
     if |r.rest.buffer| != r.header.PayloadLength() then PacketTooShort else r.rest.error)
  }

  method ReadDatagram(buffer: seq<byte>, prior: Ipv4Header) returns (d: Datagram, result: ParseResult)
    ensures (d, result) == ParseDatagram(buffer, prior)
  {
    var p := new NetParser(buffer);
    var header, _ := ReadHeader(p, prior);
    d := Datagram(header, p.buffer);
    result := if |d.payload| != header.PayloadLength() then PacketTooShort else p.error;
  }

  method WriteDatagram(d: Datagram) returns (r: Option<seq<byte>>)
    ensures r == SerializeDatagram(d)
  {
    if |d.payload| != d.header.PayloadLength() {
      return None;
    }
    var zeroed := WriteHeader(d.header.(cksum := 0));
    if zeroed.None? {
      return None;
    }
    var cksum := ChecksumOf(0, zeroed.value);
    var filled := WriteHeader(d.header.(cksum := cksum));
    r := Some(filled.value + d.payload);
  }

  // ---------------------------------------------------------------- layout

  lemma LeadAppend(h: Ipv4Header, x: seq<byte>, y: seq<byte>)
    ensures Lead(h, x) + y == Lead(h, x + y)
  {
    var x1 := Bytes(h.proto, 1) + x;
    var x2 := Bytes(h.ttl, 1) + x1;
    var x3 := Bytes(FragmentWord(h), 2) + x2;
    var x4 := Bytes(h.id, 2) + x3;
    var x5 := Bytes(h.len, 2) + x4;
    var x6 := Bytes(h.tos, 1) + x5;
    TcpWire.Assoc(Bytes(h.proto, 1), x, y);
    TcpWire.Assoc(Bytes(h.ttl, 1), x1, y);
    TcpWire.Assoc(Bytes(FragmentWord(h), 2), x2, y);
    TcpWire.Assoc(Bytes(h.id, 2), x3, y);
    TcpWire.Assoc(Bytes(h.len, 2), x4, y);
    TcpWire.Assoc(Bytes(h.tos, 1), x5, y);
    TcpWire.Assoc(Bytes(FirstByte(h), 1), x6, y);
  }

  lemma HeaderAppend(h: Ipv4Header, x: seq<byte>, y: seq<byte>)
    ensures HeaderBytes(h, x) + y == HeaderBytes(h, x + y)
  {
    var x1 := Bytes(h.dst, 4) + x;
    var x2 := Bytes(h.src, 4) + x1;
    TcpWire.Assoc(Bytes(h.dst, 4), x, y);
    TcpWire.Assoc(Bytes(h.src, 4), x1, y);
    TcpWire.Assoc(Bytes(h.cksum, 2), x2, y);
    LeadAppend(h, Bytes(h.cksum, 2) + x2, y);
  }

  lemma LeadLength(h: Ipv4Header, tail: seq<byte>)
    ensures |Lead(h, tail)| == 10 + |tail|
  {
    BytesLength(FirstByte(h), 1);
    BytesLength(h.tos, 1);
    BytesLength(h.len, 2);
    BytesLength(h.id, 2);
    BytesLength(FragmentWord(h), 2);
    BytesLength(h.ttl, 1);
    BytesLength(h.proto, 1);
  }

  lemma HeaderLength(h: Ipv4Header, tail: seq<byte>)
    ensures |HeaderBytes(h, tail)| == 20 + |tail|
  {
    LeadLength(h, Bytes(h.cksum, 2) + (Bytes(h.src, 4) + (Bytes(h.dst, 4) + tail)));
    BytesLength(h.cksum, 2);
    BytesLength(h.src, 4);
    BytesLength(h.dst, 4);
  }

  lemma LeadSplit(h: Ipv4Header, cksum: u16, tail: seq<byte>)
    requires h.cksum == cksum
    ensures WordSum(HeaderBytes(h, tail), false) ==
            WordSum(Lead(h, []), false) + cksum + WordSum(Bytes(h.src, 4) + (Bytes(h.dst, 4) + tail), false)
  {
    var rest := Bytes(h.src, 4) + (Bytes(h.dst, 4) + tail);
    LeadLength(h, []);
    LeadAppend(h, [], Bytes(cksum, 2) + rest);
    assert [] + (Bytes(cksum, 2) + rest) == Bytes(cksum, 2) + rest;
    WordSumConcat(Lead(h, []), Bytes(cksum, 2) + rest, false);
    WordSumConcat(Bytes(cksum, 2), rest, false);
    TcpWire.WordOf(cksum);
  }

  /** The checksum field adds its own value to the sum of the header. */
  lemma ChecksumAdds(h: Ipv4Header, tail: seq<byte>)
    ensures WordSum(HeaderBytes(h, tail), false) == WordSum(HeaderBytes(h.(cksum := 0), tail), false) + h.cksum
  {
    LeadSplit(h, h.cksum, tail);
    LeadSplit(h.(cksum := 0), 0, tail);
  }

  /** Where section 3.1 of RFC 791 puts the fields. */
  ghost predicate Layout(b: seq<byte>, h: Ipv4Header)
    requires |b| >= 20
  {
    Placed(b, h, h.ver % 16 * 16 + h.hlen % 16,
           (if h.df then 0x4000 else 0) + (if h.mf then 0x2000 else 0) + h.offset % 0x2000)
  }

  ghost predicate Placed(b: seq<byte>, h: Ipv4Header, first: nat, fragment: nat)
    requires |b| >= 20
  {
    && BigEndian(b[0..1]) == first && BigEndian(b[1..2]) == h.tos
    && BigEndian(b[2..4]) == h.len && BigEndian(b[4..6]) == h.id && BigEndian(b[6..8]) == fragment
    && BigEndian(b[8..9]) == h.ttl && BigEndian(b[9..10]) == h.proto && BigEndian(b[10..12]) == h.cksum
    && BigEndian(b[12..16]) == h.src && BigEndian(b[16..20]) == h.dst
  }

  lemma FirstByteIs(h: Ipv4Header)
    ensures FirstByte(h) == h.ver % 16 * 16 + h.hlen % 16
  {
  }

  /** A serialized header has the layout of the standard, padded with zeros to its advertised size. */
  lemma HeaderLayout(h: Ipv4Header)
    requires SerializeHeader(h).Some?
    ensures var b := SerializeHeader(h).value;
            |b| == 4 * h.hlen && Layout(b, h) && forall k :: 20 <= k < |b| ==> b[k] == 0
  {
    var zeros := TcpWire.Zeros(4 * h.hlen - 20);
    HeaderLength(h, zeros);
    FirstByteIs(h);
    FieldOffsets(h, zeros, HeaderBytes(h, zeros));
  }

  lemma FieldOffsets(h: Ipv4Header, tail: seq<byte>, b: seq<byte>)
    requires b == HeaderBytes(h, tail)
    ensures |b| == 20 + |tail| && Placed(b, h, FirstByte(h), FragmentWord(h)) && b[20..] == tail
  {
    var x9 := Bytes(h.dst, 4) + tail;
    var x8 := Bytes(h.src, 4) + x9;
    var x7 := Bytes(h.cksum, 2) + x8;
    var x6 := Bytes(h.proto, 1) + x7;
    var x5 := Bytes(h.ttl, 1) + x6;
    var x4 := Bytes(FragmentWord(h), 2) + x5;
    var x3 := Bytes(h.id, 2) + x4;
    var x2 := Bytes(h.len, 2) + x3;
    var x1 := Bytes(h.tos, 1) + x2;
    Powers();
    HeaderLength(h, tail);
    assert b[0..] == Bytes(FirstByte(h), 1) + x1;
    Peel(b, 0, FirstByte(h), 1, x1);
    Peel(b, 1, h.tos, 1, x2);
    Peel(b, 2, h.len, 2, x3);
    Peel(b, 4, h.id, 2, x4);
    Peel(b, 6, FragmentWord(h), 2, x5);
    Peel(b, 8, h.ttl, 1, x6);
    Peel(b, 9, h.proto, 1, x7);
    Peel(b, 10, h.cksum, 2, x8);
    Peel(b, 12, h.src, 4, x9);
    Peel(b, 16, h.dst, 4, tail);
  }

  // ---------------------------------------------------------------- the pseudo-header

  /** What the checksum of a TCP segment covers besides the segment (section 3.1 of RFC 793). */
  function PseudoHeader(src: u32, dst: u32, proto: u8, length: u16): seq<byte> {
    Bytes(src, 4) + (Bytes(dst, 4) + ([0, proto] + Bytes(length, 2)))
  }

  lemma DoubleOf(val: u32)
    ensures WordSum(Bytes(val, 4), false) == val / 65536 + val % 65536 && |Bytes(val, 4)| == 4
  {
    var hi, lo := val / 65536, val % 65536;
    assert Bytes(val, 4) == Bytes(val / 256, 3) + [val % 256] && Bytes(val / 256, 3) == Bytes(hi, 2) + [lo / 256] by {
      assert val / 256 / 256 == hi && val / 256 % 256 == lo / 256;
    }
    assert Bytes(lo, 2) == [lo / 256, val % 256] by {
      assert lo / 256 / 256 == 0 && lo % 256 == val % 256;
      assert Bytes(lo, 2) == Bytes(lo / 256, 1) + [lo % 256] && Bytes(lo / 256, 1) == Bytes(0, 0) + [lo / 256];
    }
    assert Bytes(val, 4) == Bytes(hi, 2) + Bytes(lo, 2);
    TcpWire.WordOf(hi);
    TcpWire.WordOf(lo);
    WordSumConcat(Bytes(hi, 2), Bytes(lo, 2), false);
  }

  /** `pseudo_cksum` adds up the twelve bytes of the pseudo-header. */
  lemma PseudoHeaderSum(h: Ipv4Header)
    ensures var ph := PseudoHeader(h.src, h.dst, h.proto, h.PayloadLength());
            |ph| == 12 && WordSum(ph, false) == h.PseudoCksum()
  {
    var third := [0, h.proto] + Bytes(h.PayloadLength(), 2);
    DoubleOf(h.src);
    DoubleOf(h.dst);
    TcpWire.WordOf(h.PayloadLength());
    assert [0, h.proto][1..] == [h.proto] && [h.proto][1..] == [];
    assert WordSum([h.proto], true) == h.proto;
    WordSumConcat([0, h.proto], Bytes(h.PayloadLength(), 2), false);
    WordSumConcat(Bytes(h.dst, 4), third, false);
    WordSumConcat(Bytes(h.src, 4), Bytes(h.dst, 4) + third, false);
  }

  // ---------------------------------------------------------------- round trips

  lemma MakeRoundTrip(h: Ipv4Header)
    requires h.ver == 4 && h.hlen <= 15 && h.offset < 0x2000
    ensures MakeHeader(FirstByte(h), h.tos, h.len, h.id, FragmentWord(h), h.ttl, h.proto, h.cksum, h.src, h.dst) == h
  {
    FirstByteRoundTrip(h.hlen);
    FragmentRoundTrip(h.df, h.mf, h.offset);
  }

  lemma FirstByteRoundTrip(hlen: u8)
    requires hlen <= 15
    ensures var first := U8(U8(4 * 16) + hlen % 16); first / 16 == 4 && first % 16 == hlen
  {
  }

  lemma FragmentRoundTrip(df: bool, mf: bool, offset: u16)
    requires offset < 0x2000
    ensures var fo := TcpWire.Flag(df, 0x4000) + TcpWire.Flag(mf, 0x2000) + offset % 0x2000;
            (fo / 0x4000 % 2 == 1 <==> df) && (fo / 0x2000 % 2 == 1 <==> mf) && fo % 0x2000 == offset
  {
    var fo := TcpWire.Flag(df, 0x4000) + TcpWire.Flag(mf, 0x2000) + offset;
    assert fo / 0x2000 == TcpWire.Flag(df, 2) + TcpWire.Flag(mf, 1);
    assert fo / 0x4000 == TcpWire.Flag(df, 1);
  }

  /** The fields come back in order, whatever follows them. */
  lemma FieldsRoundTrip(h: Ipv4Header, tail: seq<byte>, prior: Ipv4Header)
    requires h.ver == 4 && h.hlen <= 15 && h.offset < 0x2000
    ensures ParseHeader(ParserState(HeaderBytes(h, tail), NoError), prior)
         == FinishParse(h, HeaderBytes(h, tail), ParserState(tail, NoError))
  {
    var x5 := Bytes(h.src, 4) + (Bytes(h.dst, 4) + tail);
    var x4 := Bytes(h.cksum, 2) + x5;
    var x3 := Bytes(h.ttl, 1) + (Bytes(h.proto, 1) + x4);
    var x2 := Bytes(FragmentWord(h), 2) + x3;
    var x1 := Bytes(h.len, 2) + (Bytes(h.id, 2) + x2);
    HeaderLength(h, tail);
    TakeBytes(FirstByte(h), h.tos, x1);
    TakeWords(h.len, h.id, x2);
    TakeWord(FragmentWord(h), x3);
    TakeBytes(h.ttl, h.proto, x4);
    TakeWord(h.cksum, x5);
    TakeDoubles(h.src, h.dst, tail);
    MakeRoundTrip(h);
  }

  lemma HeaderSums(h: Ipv4Header, cksum: u16)
    requires SerializeHeader(h).Some?
    ensures var head := SerializeHeader(h.(cksum := 0)).value;
            var bytes := SerializeHeader(h.(cksum := cksum)).value;
            && |head| == 4 * h.hlen && |bytes| == 4 * h.hlen
            && WordSum(bytes, false) == WordSum(head, false) + cksum
  {
    var zeros := TcpWire.Zeros(4 * h.hlen - 20);
    HeaderLength(h.(cksum := 0), zeros);
    HeaderLength(h.(cksum := cksum), zeros);
    ChecksumAdds(h.(cksum := cksum), zeros);
  }

  /** The header verifies with its checksum filled in. */
  lemma HeaderVerifies(h: Ipv4Header)
    requires SerializeHeader(h).Some?
    ensures var bytes := SerializeHeader(h.(cksum := HeaderChecksum(h))).value;
            |bytes| == 4 * h.hlen && Complement(U32(WordSum(bytes, false))) == 0
  {
    HeaderSums(h, HeaderChecksum(h));
    VerifiesAlone(SerializeHeader(h.(cksum := 0)).value, SerializeHeader(h.(cksum := HeaderChecksum(h))).value,
                  HeaderChecksum(h));
  }

  lemma VerifiesAlone(head: seq<byte>, whole: seq<byte>, cksum: u16)
    requires |head| <= 65535 && !Odd(|head|) && cksum == Complement(U32(WordSum(head, false)))
    requires WordSum(whole, false) == WordSum(head, false) + cksum
    ensures Complement(U32(WordSum(whole, false))) == 0
  {
    WordSumBound(head, false);
    assert head + [] == head;
    Fits(WordSum(head, false));
    ChecksumVerifies(0, head, [], whole, cksum);
  }

  lemma FinishVerified(h: Ipv4Header, bytes: seq<byte>, payload: seq<byte>)
    requires h.ver == 4 && 5 <= h.hlen <= 15 && |bytes| == 4 * h.hlen && |bytes| + |payload| == h.len
    requires Complement(U32(WordSum(bytes, false))) == 0
    ensures FinishParse(h, bytes + payload, ParserState(TcpWire.Zeros(4 * h.hlen - 20) + payload, NoError))
         == HeaderParse(h, NoError, ParserState(payload, NoError))
  {
    TcpWire.SkipZeros(4 * h.hlen - 20, payload);
    assert (bytes + payload)[..4 * h.hlen] == bytes;
  }

  lemma VerifiedParses(h: Ipv4Header, payload: seq<byte>, prior: Ipv4Header)
    requires h.ver == 4 && 5 <= h.hlen <= 15 && h.offset < 0x2000 && h.len == 4 * h.hlen + |payload|
    requires var bytes := SerializeHeader(h).value; |bytes| == 4 * h.hlen && Complement(U32(WordSum(bytes, false))) == 0
    ensures ParseHeader(ParserState(SerializeHeader(h).value + payload, NoError), prior)
         == HeaderParse(h, NoError, ParserState(payload, NoError))
  {
    var zeros := TcpWire.Zeros(4 * h.hlen - 20);
    HeaderAppend(h, zeros, payload);
    FieldsRoundTrip(h, zeros + payload, prior);
    FinishVerified(h, HeaderBytes(h, zeros), payload);
  }

  lemma SerializedIs(d: Datagram)
    requires SerializeHeader(d.header).Some? && d.header.len == 4 * d.header.hlen + |d.payload|
    ensures SerializeDatagram(d) ==
            Some(SerializeHeader(d.header.(cksum := HeaderChecksum(d.header))).value + d.payload)
  {
    PayloadLengthIs(d.header, |d.payload|);
  }

  /** A serialized datagram parses back to itself, with the header checksum filled in and verified. */
  lemma DatagramRoundTrip(d: Datagram, prior: Ipv4Header)
    requires d.header.ver == 4 && 5 <= d.header.hlen <= 15 && d.header.offset < 0x2000
    requires d.header.len == 4 * d.header.hlen + |d.payload|
    ensures SerializeDatagram(d).Some?
    ensures var bytes := SerializeDatagram(d).value;
            && |bytes| == d.header.len
            && ParseHeader(ParserState(bytes, NoError), prior).result == NoError
            && ParseDatagram(bytes, prior) == (d.(header := d.header.(cksum := HeaderChecksum(d.header))), NoError)
  {
    var h := d.header.(cksum := HeaderChecksum(d.header));
    HeaderVerifies(d.header);
    SerializedIs(d);
    VerifiedParses(h, d.payload, prior);
    ParsedIs(SerializeDatagram(d).value, prior, h, d.payload);
  }

  lemma PayloadLengthIs(h: Ipv4Header, n: nat)
    requires h.len == 4 * h.hlen + n
    ensures h.PayloadLength() == n
  {
  }

  lemma ParsedIs(bytes: seq<byte>, prior: Ipv4Header, h: Ipv4Header, payload: seq<byte>)
    requires ParseHeader(ParserState(bytes, NoError), prior) == HeaderParse(h, NoError, ParserState(payload, NoError))
    requires h.len == 4 * h.hlen + |payload|
    ensures ParseDatagram(bytes, prior) == (Datagram(h, payload), NoError)
  {
    PayloadLengthIs(h, |payload|);
  }

  // ---------------------------------------------------------------- the header's verdict

  lemma FieldsLeave(p: ParserState)
    requires p.error == NoError && |p.buffer| >= 20
    ensures Fields(p).1.error == NoError && |Fields(p).1.buffer| == |p.buffer| - 20
  {
  }

  /** What the datagram parser makes of the rest, once 20 bytes of fields have been read. */
  lemma FinishAccepts(h: Ipv4Header, original: seq<byte>, p: ParserState)
    requires p.error == NoError && |original| == 20 + |p.buffer|
    ensures var r := FinishParse(h, original, p);
            && r.header == h && r.rest.error == NoError
            && (DatagramOf(r).1 == NoError <==> Screened(h, |original|) == NoError || |p.buffer| == h.PayloadLength())
  {
    if Screened(h, |original|) == NoError {
      PayloadLengthIs(h, |original| - 4 * h.hlen);
    }
  }

  /** The header's checksum, over the length that the header claims. */
  predicate ChecksumHolds(h: Ipv4Header, buffer: seq<byte>)
    requires 4 * h.hlen <= |buffer|
  {
    Complement(U32(WordSum(buffer[..4 * h.hlen], false))) == 0
  }

  /** A header that `IPv4Header::parse` accepts: fields and checksum in order. */
  predicate SoundHeader(h: Ipv4Header, buffer: seq<byte>) {
    Screened(h, |buffer|) == NoError && ChecksumHolds(h, buffer)
  }

  /** The fields that a buffer of at least 20 bytes holds. */
  function FieldsOf(buffer: seq<byte>): Ipv4Header { Fields(ParserState(buffer, NoError)).0 }

  /** `IPv4Header::parse` reports no error exactly for sound headers. */
  lemma HeaderAcceptedIff(buffer: seq<byte>, prior: Ipv4Header)
    ensures ParseHeader(ParserState(buffer, NoError), prior).result == NoError
            <==> |buffer| >= 20 && SoundHeader(FieldsOf(buffer), buffer)
  {
    if |buffer| >= 20 {
      FieldsLeave(ParserState(buffer, NoError));
    }
  }

  /**
   * `IPv4Datagram::parse` drops the header's verdict. It reports no error exactly if the fields pass
   * the checks, whatever the checksum, or if what remains has the length that the fields claim,
   * whatever the checks say; for under 20 bytes, if it has the length the prior header claims.
   */
  lemma DatagramAcceptedIff(buffer: seq<byte>, prior: Ipv4Header)
    ensures ParseDatagram(buffer, prior).1 == NoError <==>
            if |buffer| < 20 then |buffer| == prior.PayloadLength()
            else
              var h := FieldsOf(buffer);
              || (h.ver == 4 && 5 <= h.hlen && 4 * h.hlen <= |buffer| == h.len)
              || |buffer| - 20 == U16(h.len - 4 * h.hlen)
  {
    var p := ParserState(buffer, NoError);
    if |buffer| >= 20 {
      FieldsLeave(p);
      FinishAccepts(Fields(p).0, buffer, Fields(p).1);
    }
  }

  /** Which datagrams are accepted although their header is not sound. */
  lemma WronglyAcceptedIff(buffer: seq<byte>, prior: Ipv4Header)
    ensures ParseDatagram(buffer, prior).1 == NoError
            && ParseHeader(ParserState(buffer, NoError), prior).result != NoError
            <==>
            if |buffer| < 20 then |buffer| == prior.PayloadLength()
            else
              var h := FieldsOf(buffer);
              if h.ver == 4 && 5 <= h.hlen && 4 * h.hlen <= |buffer| == h.len then !ChecksumHolds(h, buffer)
              else |buffer| - 20 == U16(h.len - 4 * h.hlen)
  {
    DatagramAcceptedIff(buffer, prior);
    HeaderAcceptedIff(buffer, prior);
  }

  /** What remains of the checks' own verdict. */
  lemma FinishVerdict(h: Ipv4Header, original: seq<byte>, p: ParserState)
    requires p.error == NoError && |original| == 20 + |p.buffer|
    ensures var r := FinishParse(h, original, p);
            DatagramOf(r).1 == r.result <==>
            if |original| < 4 * h.hlen then |p.buffer| != h.PayloadLength()
            else h.ver == 4 && 5 <= h.hlen && |original| == h.len && ChecksumHolds(h, original)
  {
    if Screened(h, |original|) == NoError {
      PayloadLengthIs(h, |original| - 4 * h.hlen);
    }
  }

  /** When the datagram's verdict is the header's, error for error. */
  lemma VerdictKeptIff(buffer: seq<byte>, prior: Ipv4Header)
    ensures ParseDatagram(buffer, prior).1 == ParseHeader(ParserState(buffer, NoError), prior).result <==>
            if |buffer| < 20 then |buffer| != prior.PayloadLength()
            else
              var h := FieldsOf(buffer);
              if |buffer| < 4 * h.hlen then |buffer| - 20 != U16(h.len - 4 * h.hlen)
              else h.ver == 4 && 5 <= h.hlen && |buffer| == h.len && ChecksumHolds(h, buffer)
  {
    var p := ParserState(buffer, NoError);
    if |buffer| >= 20 {
      FieldsLeave(p);
      FinishVerdict(Fields(p).0, buffer, Fields(p).1);
    }
  }

  lemma FieldAt(p: ParserState, b: seq<byte>, i: nat, n: nat)
    requires i + n <= |b| && p == ParserState(b[i..], NoError)
    ensures p.Int(n) == BigEndian(b[i..i + n]) && p.RemovePrefix(n) == ParserState(b[i + n..], NoError)
  {
    assert b[i..][..n] == b[i..i + n] && b[i..][n..] == b[i + n..];
  }

  /** The fields by their offsets in the buffer. */
  ghost predicate FieldsFrom(h: Ipv4Header, b: seq<byte>)
    requires |b| >= 20
  {
    && h.ver == BigEndian(b[0..1]) / 16 && h.hlen == BigEndian(b[0..1]) % 16 && h.tos == BigEndian(b[1..2])
    && h.len == BigEndian(b[2..4]) && h.id == BigEndian(b[4..6]) && h.offset == BigEndian(b[6..8]) % 0x2000
    && h.ttl == BigEndian(b[8..9]) && h.proto == BigEndian(b[9..10]) && h.cksum == BigEndian(b[10..12])
    && h.src == BigEndian(b[12..16]) && h.dst == BigEndian(b[16..20])
  }

  lemma FieldsByOffset(b: seq<byte>)
    requires |b| >= 20
    ensures FieldsFrom(FieldsOf(b), b)
  {
    assert b[0..] == b;
    FieldAt(ParserState(b, NoError), b, 0, 1);
    FieldAt(ParserState(b[1..], NoError), b, 1, 1);
    FieldAt(ParserState(b[2..], NoError), b, 2, 2);
    FieldAt(ParserState(b[4..], NoError), b, 4, 2);
    FieldAt(ParserState(b[6..], NoError), b, 6, 2);
    FieldAt(ParserState(b[8..], NoError), b, 8, 1);
    FieldAt(ParserState(b[9..], NoError), b, 9, 1);
    FieldAt(ParserState(b[10..], NoError), b, 10, 2);
    FieldAt(ParserState(b[12..], NoError), b, 12, 4);
    FieldAt(ParserState(b[16..], NoError), b, 16, 4);
  }

  lemma PrefixDetected(buffer: seq<byte>, n: nat, i: nat, b: byte)
    requires i < n <= |buffer| && n <= 65535 && b != buffer[i]
    requires Complement(U32(WordSum(buffer[..n], false))) == 0
    ensures Complement(U32(WordSum(buffer[i := b][..n], false))) != 0
  {
    assert buffer[i := b][..n] == buffer[..n][i := b];
    SingleByteDetected(0, buffer[..n], i, b);
  }

  lemma SoundnessLost(h: Ipv4Header, h': Ipv4Header, buffer: seq<byte>, i: nat, b: byte)
    requires h'.ver == h.ver && h'.hlen == h.hlen && h'.len == h.len
    requires SoundHeader(h, buffer) && i < 4 * h.hlen && b != buffer[i]
    ensures Screened(h', |buffer|) == NoError && !SoundHeader(h', buffer[i := b])
  {
    PrefixDetected(buffer, 4 * h.hlen, i, b);
  }

  /** A datagram whose header checksum was changed in transit is accepted, although its header says otherwise. */
  lemma WrongChecksumAccepted(buffer: seq<byte>, prior: Ipv4Header, i: nat, b: byte)
    requires |buffer| >= 20 && SoundHeader(FieldsOf(buffer), buffer) && 10 <= i < 12 && b != buffer[i]
    ensures ParseHeader(ParserState(buffer[i := b], NoError), prior).result != NoError
    ensures ParseDatagram(buffer[i := b], prior).1 == NoError
  {
    SameLengths(buffer, i, b);
    SoundnessLost(FieldsOf(buffer), FieldsOf(buffer[i := b]), buffer, i, b);
    UnsoundAccepted(buffer[i := b], prior);
  }

  lemma UnsoundAccepted(buffer: seq<byte>, prior: Ipv4Header)
    requires |buffer| >= 20 && Screened(FieldsOf(buffer), |buffer|) == NoError && !SoundHeader(FieldsOf(buffer), buffer)
    ensures ParseHeader(ParserState(buffer, NoError), prior).result != NoError
    ensures ParseDatagram(buffer, prior).1 == NoError
  {
    HeaderAcceptedIff(buffer, prior);
    DatagramAcceptedIff(buffer, prior);
  }

  lemma SameLengths(buffer: seq<byte>, i: nat, b: byte)
    requires |buffer| >= 20 && 10 <= i < 12
    ensures var h, h' := FieldsOf(buffer), FieldsOf(buffer[i := b]);
            h'.ver == h.ver && h'.hlen == h.hlen && h'.len == h.len
  {
    FieldsByOffset(buffer);
    FieldsByOffset(buffer[i := b]);
    assert buffer[i := b][0..1] == buffer[0..1] && buffer[i := b][2..4] == buffer[2..4];
  }

  /** A wrong version is no reason to refuse a datagram whose lengths are in order. */
  lemma WrongVersionAccepted(buffer: seq<byte>, prior: Ipv4Header)
    requires |buffer| >= 20
    requires var h := FieldsOf(buffer); h.ver != 4 && h.hlen == 5 && h.len == |buffer|
    ensures ParseHeader(ParserState(buffer, NoError), prior).result == WrongIPVersion
    ensures ParseDatagram(buffer, prior).1 == NoError
  {
    DatagramAcceptedIff(buffer, prior);
  }

  lemma FirstFields(b: seq<byte>)
    requires |b| >= 20
    ensures var h := FieldsOf(b); h.ver == b[0] / 16 && h.hlen == b[0] % 16 && h.len == b[2] as int * 256 + b[3]
  {
    FieldsByOffset(b);
    assert b[0..1] == [b[0]] && b[2..4] == [b[2], b[3]];
    SmallNumbers(b[0], b[2], b[3]);
  }

  /** For example any 20 bytes that begin with 0x65 (version 6) and give 20 as their length. */
  lemma VersionSixAccepted(b: seq<byte>, prior: Ipv4Header)
    requires |b| == 20 && b[0] == 0x65 && b[2] == 0 && b[3] == 20
    ensures ParseHeader(ParserState(b, NoError), prior).result == WrongIPVersion
    ensures ParseDatagram(b, prior).1 == NoError
  {
    FirstFields(b);
    WrongVersionAccepted(b, prior);
  }

  lemma SmallNumbers(x: byte, y: byte, z: byte)
    ensures BigEndian([x]) == x && BigEndian([y, z]) == y as int * 256 + z
  {
    assert [x][..0] == [] && [y, z][..1] == [y] && [y][..0] == [];
    assert BigEndian([y]) == y;
  }

  // ---------------------------------------------------------------- what does not fit its field

  lemma FieldsFit(buffer: seq<byte>, prior: Ipv4Header)
    requires |buffer| >= 20
    ensures var h := ParseDatagram(buffer, prior).0.header; h.hlen <= 15 && h.offset < 0x2000
  {
  }

  lemma SerializedLength(d: Datagram)
    requires SerializeDatagram(d).Some?
    ensures |SerializeDatagram(d).value| == 4 * d.header.hlen + |d.payload| >= 20
  {
    HeaderVerifies(d.header);
  }

  lemma FinishShort(h: Ipv4Header, original: seq<byte>, p: ParserState)
    requires h.ver == 4 && 5 <= h.hlen && h.len < 4 * h.hlen <= |original|
    ensures FinishParse(h, original, p) == HeaderParse(h, TruncatedPacket, p)
  {
  }

  /** The fields of a datagram whose length field is smaller than its header come back, and what then remains. */
  lemma ShortLengthParses(h: Ipv4Header, payload: seq<byte>, prior: Ipv4Header, bytes: seq<byte>)
    requires h.ver == 4 && 5 <= h.hlen <= 15 && h.offset < 0x2000 && h.len < 4 * h.hlen
    requires bytes == HeaderBytes(h, TcpWire.Zeros(4 * h.hlen - 20)) + payload
    ensures ParseHeader(ParserState(bytes, NoError), prior)
         == HeaderParse(h, TruncatedPacket, ParserState(TcpWire.Zeros(4 * h.hlen - 20) + payload, NoError))
  {
    var zeros := TcpWire.Zeros(4 * h.hlen - 20);
    HeaderAppend(h, zeros, payload);
    HeaderLength(h, zeros + payload);
    FieldsRoundTrip(h, zeros + payload, prior);
    FinishShort(h, bytes, ParserState(zeros + payload, NoError));
  }

  lemma RemainsIff(h: Ipv4Header, zeros: seq<byte>, payload: seq<byte>)
    requires |payload| == h.PayloadLength()
    ensures DatagramOf(HeaderParse(h, TruncatedPacket, ParserState(zeros + payload, NoError)))
              == (Datagram(h, payload), NoError)
            <==> zeros == []
  {
    if zeros == [] {
      assert zeros + payload == payload;
    }
  }

  lemma ShortLengthIff(h: Ipv4Header, payload: seq<byte>, prior: Ipv4Header, bytes: seq<byte>)
    requires h.ver == 4 && 5 <= h.hlen <= 15 && h.offset < 0x2000 && h.len < 4 * h.hlen
    requires bytes == HeaderBytes(h, TcpWire.Zeros(4 * h.hlen - 20)) + payload && |payload| == h.PayloadLength()
    ensures ParseDatagram(bytes, prior) == (Datagram(h, payload), NoError) <==> h.hlen == 5
  {
    ShortLengthParses(h, payload, prior, bytes);
    RemainsIff(h, TcpWire.Zeros(4 * h.hlen - 20), payload);
  }

  /**
   * `IPv4Header::serialize` accepts header lengths and fragment offsets that do not fit their fields,
   * and a length field smaller than the header passes the length check modulo 2^16. A datagram that
   * serializes parses back to itself exactly if both fit and the length covers the header; or, with
   * the truncation unnoticed, if the header has no options.
   */
  lemma DatagramRoundTripIff(d: Datagram, prior: Ipv4Header)
    requires SerializeDatagram(d).Some?
    ensures ParseDatagram(SerializeDatagram(d).value, prior)
              == (d.(header := d.header.(cksum := HeaderChecksum(d.header))), NoError)
            <==> d.header.hlen <= 15 && d.header.offset < 0x2000
                 && (4 * d.header.hlen <= d.header.len || d.header.hlen == 5)
  {
    SerializedLength(d);
    if d.header.hlen > 15 || d.header.offset >= 0x2000 {
      FieldsFit(SerializeDatagram(d).value, prior);
    } else if 4 * d.header.hlen <= d.header.len {
      PayloadLengthIs(d.header, d.header.len - 4 * d.header.hlen);
      DatagramRoundTrip(d, prior);
    } else {
      ShortLengthIff(d.header.(cksum := HeaderChecksum(d.header)), d.payload, prior, SerializeDatagram(d).value);
    }
  }
}
