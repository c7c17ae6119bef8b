/** TCP headers and segments on the wire (section 3.1 of RFC 793). */
module TcpWire {
  import opened Integers
  import opened Segment
  import opened Checksum
  import opened Codec

  // ---------------------------------------------------------------- header

  function Flag(b: bool, weight: nat): nat { if b then weight else 0 }

  /** The flags by bit number. */
  function FlagBits(h: TcpHeader): seq<bool> { [h.fin, h.syn, h.rst, h.psh, h.ack, h.urg] }

  function FromBits(bits: seq<bool>): nat {
    if bits == [] then 0 else Flag(bits[0], 1) + 2 * FromBits(bits[1..])
  }

  lemma {:induction false} FromBitsBound(bits: seq<bool>)
    ensures |bits| <= 6 ==> FromBits(bits) < 64
    ensures |bits| <= 5 ==> FromBits(bits) < 32
    ensures |bits| <= 4 ==> FromBits(bits) < 16
    ensures |bits| <= 3 ==> FromBits(bits) < 8
    ensures |bits| <= 2 ==> FromBits(bits) < 4
    ensures |bits| <= 1 ==> FromBits(bits) < 2
  {
    if bits == [] {
    } else {
      FromBitsBound(bits[1..]);
    }
  }

  function FlagByte(h: TcpHeader): u8 {
    FromBitsBound(FlagBits(h));
    FromBits(FlagBits(h))
  }

  function Zeros(n: nat): seq<byte> { seq(n, _ => 0) }

  /** The first 16 bytes, up to the checksum, followed by `tail`. */
  function Lead(h: TcpHeader, tail: seq<byte>): seq<byte> {
    Bytes(h.sport, 2) + (Bytes(h.dport, 2) + (Bytes(h.seqno, 4) + (Bytes(h.ackno, 4)
    + (Bytes(U8(h.doff * 16), 1) + (Bytes(FlagByte(h), 1) + (Bytes(h.win, 2) + tail))))))
  }

  function HeaderBytes(h: TcpHeader, tail: seq<byte>): seq<byte> {
    Lead(h, Bytes(h.cksum, 2) + (Bytes(h.uptr, 2) + tail))
  }

  /** `TCPHeader::serialize`; it throws on a data offset below five. */
  function SerializeHeader(h: TcpHeader): Option<seq<byte>> {
    if h.doff < 5 then None else Some(HeaderBytes(h, Zeros(4 * h.doff - 20)))
  }

  datatype HeaderParse = HeaderParse(header: TcpHeader, result: ParseResult, rest: ParserState)

  /** `TCPHeader::parse`: after an error every further field reads as zero. */
  function ParseHeader(p: ParserState): HeaderParse {
    var (sport, dport, p1) := TwoWords(p);
    var (seqno, ackno, p2) := TwoDoubles(p1);
    var (offset, fl, p3) := TwoBytes(p2);
    var (win, cksum, p4) := TwoWords(p3);
    var (uptr, p5) := OneWord(p4);
    FinishParse(MakeHeader(sport, dport, seqno, ackno, offset, fl, win, cksum, uptr), p5)
  }

  /** Skip the options that the data offset announces. */
  function FinishParse(h: TcpHeader, p: ParserState): HeaderParse {
    if h.doff < 5 then HeaderParse(h, HeaderTooShort, p)
    else HeaderParse(h, p.RemovePrefix(h.doff * 4 - 20).error, p.RemovePrefix(h.doff * 4 - 20))
  }

  function MakeHeader(sport: u16, dport: u16, seqno: u32, ackno: u32, offset: u8, fl: u8, win: u16, cksum: u16,
                      uptr: u16): TcpHeader
  {
    TcpHeader(sport, dport, seqno, ackno, offset / 16,
              Bit(fl, 5), Bit(fl, 4), Bit(fl, 3), Bit(fl, 2), Bit(fl, 1), Bit(fl, 0), win, cksum, uptr)
  }

  /** Bit number `k` of `b`. */
  predicate Bit(b: nat, k: nat) {
    if k == 0 then b % 2 == 1 else Bit(b / 2, k - 1)
  }

  lemma {:induction false} BitOfBits(bits: seq<bool>, k: nat)
    requires k < |bits|
    ensures Bit(FromBits(bits), k) == bits[k]
  {
    assert FromBits(bits) / 2 == FromBits(bits[1..]);
    if k == 0 {
    } else {
      BitOfBits(bits[1..], k - 1);
    }
  }

  lemma FlagsRoundTrip(h: TcpHeader)
    ensures var fl := FlagByte(h);
            && Bit(fl, 5) == h.urg && Bit(fl, 4) == h.ack && Bit(fl, 3) == h.psh
            && Bit(fl, 2) == h.rst && Bit(fl, 1) == h.syn && Bit(fl, 0) == h.fin
  {
    BitOfBits(FlagBits(h), 0);
    BitOfBits(FlagBits(h), 1);
    BitOfBits(FlagBits(h), 2);
    BitOfBits(FlagBits(h), 3);
    BitOfBits(FlagBits(h), 4);
    BitOfBits(FlagBits(h), 5);
  }

  lemma Assoc(a: seq<byte>, b: seq<byte>, c: seq<byte>)
    ensures (a + b) + c == a + (b + c)
  {
  }

  /** Seven fields appended one after the other, and the same fields nested to the right. */
  lemma Regroup(a: seq<byte>, b: seq<byte>, c: seq<byte>, d: seq<byte>, e: seq<byte>, f: seq<byte>, g: seq<byte>,
                all: seq<byte>)
    requires all == [] + a + b + c + d + e + f + g
    ensures all == a + (b + (c + (d + (e + (f + (g + []))))))
  {
    Assoc(e, f, g);
    Assoc(d, e + f, g);
    Assoc(c, d + (e + f), g);
    Assoc(d, e, f);
    Assoc(c, d + e, f);
    Assoc(c, d, e);
    Assoc(b, c, d);
    assert all == a + b + c + d + e + f + g;
    assert a + b + c + d == a + (b + (c + d));
    assert all == a + (b + (c + d)) + (e + (f + g));
    assert g + [] == g;
  }

  lemma LeadAppend(h: TcpHeader, x: seq<byte>, y: seq<byte>)
    ensures Lead(h, x) + y == Lead(h, x + y)
  {
    var x1 := Bytes(h.win, 2) + x;
    var x2 := Bytes(FlagByte(h), 1) + x1;
    var x3 := Bytes(U8(h.doff * 16), 1) + x2;
    var x4 := Bytes(h.ackno, 4) + x3;
    var x5 := Bytes(h.seqno, 4) + x4;
    var x6 := Bytes(h.dport, 2) + x5;
    Assoc(Bytes(h.win, 2), x, y);
    Assoc(Bytes(FlagByte(h), 1), x1, y);
    Assoc(Bytes(U8(h.doff * 16), 1), x2, y);
    Assoc(Bytes(h.ackno, 4), x3, y);
    Assoc(Bytes(h.seqno, 4), x4, y);
    Assoc(Bytes(h.dport, 2), x5, y);
    Assoc(Bytes(h.sport, 2), x6, y);
  }

  lemma HeaderAppend(h: TcpHeader, x: seq<byte>, y: seq<byte>)
    ensures HeaderBytes(h, x) + y == HeaderBytes(h, x + y)
  {
    Assoc(Bytes(h.uptr, 2), x, y);
    Assoc(Bytes(h.cksum, 2), Bytes(h.uptr, 2) + x, y);
    LeadAppend(h, Bytes(h.cksum, 2) + (Bytes(h.uptr, 2) + x), y);
  }

  lemma LeadLength(h: TcpHeader, tail: seq<byte>)
    ensures |Lead(h, tail)| == 16 + |tail|
  {
    BytesLength(h.sport, 2);
    BytesLength(h.dport, 2);
    BytesLength(h.seqno, 4);
    BytesLength(h.ackno, 4);
    BytesLength(U8(h.doff * 16), 1);
    BytesLength(FlagByte(h), 1);
    BytesLength(h.win, 2);
  }

  lemma MakeRoundTrip(h: TcpHeader)
    ensures MakeHeader(h.sport, h.dport, h.seqno, h.ackno, U8(h.doff * 16), FlagByte(h), h.win, h.cksum, h.uptr)
         == h.(doff := h.doff % 16)
  {
    FlagsRoundTrip(h);
    OffsetRoundTrip(h.doff);
    MadeHeader(h, U8(h.doff * 16), FlagByte(h));
  }

  lemma OffsetRoundTrip(doff: u8)
    ensures U8(doff * 16) / 16 == doff % 16
  {
  }

  lemma MadeHeader(h: TcpHeader, offset: u8, fl: u8)
    requires offset / 16 == h.doff % 16
    requires Bit(fl, 5) == h.urg && Bit(fl, 4) == h.ack && Bit(fl, 3) == h.psh
    requires Bit(fl, 2) == h.rst && Bit(fl, 1) == h.syn && Bit(fl, 0) == h.fin
    ensures MakeHeader(h.sport, h.dport, h.seqno, h.ackno, offset, fl, h.win, h.cksum, h.uptr)
         == h.(doff := h.doff % 16)
  {
  }

  /** The fields come back in order, whatever follows them, but for a data offset cut to four bits. */
  lemma FieldsRoundTrip(h: TcpHeader, tail: seq<byte>)
    ensures ParseHeader(ParserState(HeaderBytes(h, tail), NoError))
         == FinishParse(h.(doff := h.doff % 16), ParserState(tail, NoError))
  {
    var x4 := Bytes(h.uptr, 2) + tail;
    var x3 := Bytes(h.win, 2) + (Bytes(h.cksum, 2) + x4);
    var x2 := Bytes(U8(h.doff * 16), 1) + (Bytes(FlagByte(h), 1) + x3);
    var x1 := Bytes(h.seqno, 4) + (Bytes(h.ackno, 4) + x2);
    TakeWords(h.sport, h.dport, x1);
    TakeDoubles(h.seqno, h.ackno, x2);
    TakeBytes(U8(h.doff * 16), FlagByte(h), x3);
    TakeWords(h.win, h.cksum, x4);
    TakeWord(h.uptr, tail);
    MakeRoundTrip(h);
  }

  lemma SkipZeros(n: nat, payload: seq<byte>)
    ensures ParserState(Zeros(n) + payload, NoError).RemovePrefix(n) == ParserState(payload, NoError)
  {
    assert (Zeros(n) + payload)[n..] == payload;
  }

  lemma SerializedFields(h: TcpHeader, payload: seq<byte>)
    requires 5 <= h.doff
    ensures ParseHeader(ParserState(SerializeHeader(h).value + payload, NoError))
         == FinishParse(h.(doff := h.doff % 16), ParserState(Zeros(4 * h.doff - 20) + payload, NoError))
  {
    HeaderAppend(h, Zeros(4 * h.doff - 20), payload);
    FieldsRoundTrip(h, Zeros(4 * h.doff - 20) + payload);
  }

  lemma FinishIff(h: TcpHeader, payload: seq<byte>, r: HeaderParse)
    requires 5 <= h.doff
    requires r == FinishParse(h.(doff := h.doff % 16), ParserState(Zeros(4 * h.doff - 20) + payload, NoError))
    ensures (r == HeaderParse(h, NoError, ParserState(payload, NoError))) <==> h.doff <= 15
  {
    if h.doff <= 15 {
      SkipZeros(4 * h.doff - 20, payload);
    }
  }

  /** A header that can be serialized parses back exactly when its data offset fits into four bits. */
  lemma HeaderRoundTripIff(h: TcpHeader, payload: seq<byte>)
    requires SerializeHeader(h).Some?
    ensures var r := ParseHeader(ParserState(SerializeHeader(h).value + payload, NoError));
            (r == HeaderParse(h, NoError, ParserState(payload, NoError))) <==> h.doff <= 15
  {
    SerializedFields(h, payload);
    FinishIff(h, payload, ParseHeader(ParserState(SerializeHeader(h).value + payload, NoError)));
  }

  /** `TCPHeader::parse` on the parser. */
  method ReadHeader(p: NetParser) returns (h: TcpHeader, result: ParseResult)
    modifies p
    ensures HeaderParse(h, result, p.View()) == ParseHeader(old(p.View()))
  {
    var sport, dport := p.ParseTwoWords();
    var seqno, ackno := p.ParseTwoDoubles();
    var offset, fl := p.ParseTwoBytes();
    var win, cksum := p.ParseTwoWords();
    var uptr := p.ParseWord();
    h := MakeHeader(sport, dport, seqno, ackno, offset, fl, win, cksum, uptr);
    if h.doff < 5 {
      return h, HeaderTooShort;
    }
    p.RemovePrefix(h.doff * 4 - 20);
    result := p.error;
  }

  method WriteLead(h: TcpHeader) returns (ret: seq<byte>)
    ensures ret == Lead(h, [])
  {
    ret := UnparseInt([], h.sport, 2);
    ret := UnparseInt(ret, h.dport, 2);
    ret := UnparseInt(ret, h.seqno, 4);
    ret := UnparseInt(ret, h.ackno, 4);
    ret := UnparseInt(ret, U8(h.doff * 16), 1);
    ret := UnparseInt(ret, FlagByte(h), 1);
    ret := UnparseInt(ret, h.win, 2);
    Regroup(Bytes(h.sport, 2), Bytes(h.dport, 2), Bytes(h.seqno, 4), Bytes(h.ackno, 4),
            Bytes(U8(h.doff * 16), 1), Bytes(FlagByte(h), 1), Bytes(h.win, 2), ret);
  }

  lemma Resized(h: TcpHeader, n: nat, ret: seq<byte>)
    requires ret == Lead(h, []) + Bytes(h.cksum, 2) + Bytes(h.uptr, 2)
    ensures |ret| == 20 && ret + Zeros(n) == HeaderBytes(h, Zeros(n))
  {
    var x, y := Bytes(h.cksum, 2), Bytes(h.uptr, 2);
    LeadLength(h, []);
    BytesLength(h.cksum, 2);
    BytesLength(h.uptr, 2);
    Assoc(Lead(h, []), x, y);
    Assoc(Lead(h, []), x + y, Zeros(n));
    Assoc(x, y, Zeros(n));
    LeadAppend(h, [], x + (y + Zeros(n)));
    assert [] + (x + (y + Zeros(n))) == x + (y + Zeros(n));
  }

  /** `TCPHeader::serialize` into a growing string. */
  method WriteHeader(h: TcpHeader) returns (r: Option<seq<byte>>)
    ensures r == SerializeHeader(h)
  {
    if h.doff < 5 {
      return None;
    }
    var ret := WriteLead(h);
    ret := UnparseInt(ret, h.cksum, 2);
    ret := UnparseInt(ret, h.uptr, 2);
    Resized(h, 4 * h.doff - 20, ret);
    r := Some(ret + Zeros(4 * h.doff - |ret|));
  }

  /** Where section 3.1 of RFC 793 puts the fields. */
  ghost predicate Layout(b: seq<byte>, h: TcpHeader)
    requires |b| >= 20
  {
    Placed(b, h, h.doff % 16 * 16, FlagSum(h))
  }

  function FlagSum(h: TcpHeader): nat {
    Flag(h.urg, 32) + Flag(h.ack, 16) + Flag(h.psh, 8) + Flag(h.rst, 4) + Flag(h.syn, 2) + Flag(h.fin, 1)
  }

  ghost predicate Placed(b: seq<byte>, h: TcpHeader, offset: nat, flags: nat)
    requires |b| >= 20
  {
    && BigEndian(b[0..2]) == h.sport && BigEndian(b[2..4]) == h.dport
    && BigEndian(b[4..8]) == h.seqno && BigEndian(b[8..12]) == h.ackno
    && BigEndian(b[12..13]) == offset && BigEndian(b[13..14]) == flags
    && BigEndian(b[14..16]) == h.win && BigEndian(b[16..18]) == h.cksum && BigEndian(b[18..20]) == h.uptr
  }

  lemma ThreeBits(a: bool, b: bool, c: bool, rest: seq<bool>)
    ensures FromBits([a, b, c] + rest) == Flag(a, 1) + Flag(b, 2) + Flag(c, 4) + 8 * FromBits(rest)
  {
    FromBitsCons(c, rest);
    FromBitsCons(b, [c] + rest);
    FromBitsCons(a, [b] + ([c] + rest));
    assert [a] + ([b] + ([c] + rest)) == [a, b, c] + rest;
  }

  lemma FromBitsCons(b: bool, bits: seq<bool>)
    ensures FromBits([b] + bits) == Flag(b, 1) + 2 * FromBits(bits)
  {
    assert ([b] + bits)[1..] == bits;
  }

  lemma FlagWeights(h: TcpHeader)
    ensures FlagByte(h) == FlagSum(h)
  {
    ThreeBits(h.psh, h.ack, h.urg, []);
    ThreeBits(h.fin, h.syn, h.rst, [h.psh, h.ack, h.urg] + []);
    assert FlagBits(h) == [h.fin, h.syn, h.rst] + ([h.psh, h.ack, h.urg] + []);
  }

  lemma OffsetByte(doff: u8)
    ensures U8(doff * 16) == doff % 16 * 16
  {
  }

  /** A serialized header has the layout of the standard, padded with zeros to its advertised size. */
  lemma HeaderLayout(h: TcpHeader)
    requires SerializeHeader(h).Some?
    ensures var b := SerializeHeader(h).value;
            |b| == 4 * h.doff && Layout(b, h) && forall k :: 20 <= k < |b| ==> b[k] == 0
  {
    var zeros := Zeros(4 * h.doff - 20);
    HeaderLength(h, zeros);
    FlagWeights(h);
    OffsetByte(h.doff);
    FieldOffsets(h, zeros, HeaderBytes(h, zeros));
  }

  lemma FieldOffsets(h: TcpHeader, tail: seq<byte>, b: seq<byte>)
    requires b == HeaderBytes(h, tail)
    ensures |b| == 20 + |tail| && Placed(b, h, U8(h.doff * 16), FlagByte(h)) && b[20..] == tail
  {
    var x8 := Bytes(h.uptr, 2) + tail;
    var x7 := Bytes(h.cksum, 2) + x8;
    var x6 := Bytes(h.win, 2) + x7;
    var x5 := Bytes(FlagByte(h), 1) + x6;
    var x4 := Bytes(U8(h.doff * 16), 1) + x5;
    var x3 := Bytes(h.ackno, 4) + x4;
    var x2 := Bytes(h.seqno, 4) + x3;
    var x1 := Bytes(h.dport, 2) + x2;
    Powers();
    HeaderLength(h, tail);
    assert b[0..] == Bytes(h.sport, 2) + x1;
    Peel(b, 0, h.sport, 2, x1);
    Peel(b, 2, h.dport, 2, x2);
    Peel(b, 4, h.seqno, 4, x3);
    Peel(b, 8, h.ackno, 4, x4);
    Peel(b, 12, U8(h.doff * 16), 1, x5);
    Peel(b, 13, FlagByte(h), 1, x6);
    Peel(b, 14, h.win, 2, x7);
    Peel(b, 16, h.cksum, 2, x8);
    Peel(b, 18, h.uptr, 2, tail);
  }

  // ---------------------------------------------------------------- segment

  /** `TCPSegment::serialize`: the checksum covers the pseudo-header sum, the header and the payload. */
  function SegmentChecksum(h: TcpHeader, payload: seq<byte>, pseudo: u32): u16
    requires h.doff >= 5
  {
    var bytes := SerializeHeader(h.(cksum := 0)).value;
    Complement(U32(U32(pseudo + WordSum(bytes, false)) + WordSum(payload, Odd(|bytes|))))
  }

  function SerializeSegment(seg: TcpSegment, pseudo: u32): Option<seq<byte>> {
    if seg.header.doff < 5 then None
    else
      var cksum := SegmentChecksum(seg.header, seg.payload, pseudo);
      Some(SerializeHeader(seg.header.(cksum := cksum)).value + seg.payload)
  }

  /** `TCPSegment::parse`: the header's own verdict is dropped, only the parser's error counts. */
  function ParseSegment(buffer: seq<byte>, pseudo: u32): (Option<TcpSegment>, ParseResult) {
    if Complement(U32(pseudo + WordSum(buffer, false))) != 0 then (None, BadChecksum)
    else
      SegmentOf(ParseHeader(ParserState(buffer, NoError)))
  }

  function SegmentOf(r: HeaderParse): (Option<TcpSegment>, ParseResult) {
    (Some(TcpSegment(r.header, r.rest.buffer)), r.rest.error)
  }

  method ReadSegment(buffer: seq<byte>, pseudo: u32) returns (seg: Option<TcpSegment>, result: ParseResult)
    ensures (seg, result) == ParseSegment(buffer, pseudo)
  {
    var sum := ChecksumOf(pseudo, buffer);
    if sum != 0 {
      return None, BadChecksum;
    }
    var p := new NetParser(buffer);
    var header, _ := ReadHeader(p);
    return Some(TcpSegment(header, p.buffer)), p.error;
  }

  method WriteSegment(seg: TcpSegment, pseudo: u32) returns (r: Option<seq<byte>>)
    ensures r == SerializeSegment(seg, pseudo)
  {
    var headerOut := seg.header.(cksum := 0);
    var zeroed := WriteHeader(headerOut);
    if zeroed.None? {
      return None;
    }
    var check := new InternetChecksum(pseudo);
    check.Add(zeroed.value);
    check.Add(seg.payload);
    var cksum := check.Value();
    var filled := WriteHeader(seg.header.(cksum := cksum));
    r := Some(filled.value + seg.payload);
  }

  lemma WordOf(val: u16)
    ensures WordSum(Bytes(val, 2), false) == val && |Bytes(val, 2)| == 2
  {
    var hi, lo := val / 256, val % 256;
    assert hi % 256 == hi && Bytes(hi / 256, 0) == [] && Bytes(hi, 1) == [hi] && Bytes(val, 2) == [hi, lo];
    assert [hi, lo][1..] == [lo] && [lo][1..] == [];
    assert WordSum([lo], true) == lo;
  }

  /** The checksum field adds its own value to the sum of the header, wherever else it changes nothing. */
  lemma ChecksumAdds(h: TcpHeader, tail: seq<byte>)
    ensures WordSum(HeaderBytes(h, tail), false) == WordSum(HeaderBytes(h.(cksum := 0), tail), false) + h.cksum
  {
    LeadSplit(h, h.cksum, tail);
    LeadSplit(h.(cksum := 0), 0, tail);
  }

  lemma LeadSplit(h: TcpHeader, cksum: u16, tail: seq<byte>)
    requires h.cksum == cksum
    ensures WordSum(HeaderBytes(h, tail), false) ==
            WordSum(Lead(h, []), false) + cksum + WordSum(Bytes(h.uptr, 2) + tail, false)
  {
    var rest := Bytes(h.uptr, 2) + tail;
    LeadLength(h, []);
    LeadAppend(h, [], Bytes(cksum, 2) + rest);
    assert [] + (Bytes(cksum, 2) + rest) == Bytes(cksum, 2) + rest;
    WordSumConcat(Lead(h, []), Bytes(cksum, 2) + rest, false);
    WordSumConcat(Bytes(cksum, 2), rest, false);
    WordOf(cksum);
  }

  lemma HeaderLength(h: TcpHeader, tail: seq<byte>)
    ensures |HeaderBytes(h, tail)| == 20 + |tail|
  {
    LeadLength(h, Bytes(h.cksum, 2) + (Bytes(h.uptr, 2) + tail));
    BytesLength(h.cksum, 2);
    BytesLength(h.uptr, 2);
  }

  /** The serialized segment adds up to its parts with a zero checksum, plus the checksum. */
  lemma SerializedSum(h: TcpHeader, payload: seq<byte>, cksum: u16)
    requires h.doff >= 5
    ensures var head := SerializeHeader(h.(cksum := 0)).value;
            var bytes := SerializeHeader(h.(cksum := cksum)).value + payload;
            && |head| == 4 * h.doff && |bytes| == |head| + |payload|
            && WordSum(bytes, false) == WordSum(head + payload, false) + cksum
  {
    var h0, h1, zeros := h.(cksum := 0), h.(cksum := cksum), Zeros(4 * h.doff - 20);
    HeaderAppend(h0, zeros, payload);
    HeaderAppend(h1, zeros, payload);
    HeaderLength(h0, zeros);
    HeaderLength(h1, zeros);
    ChecksumAdds(h1, zeros + payload);
  }

  /** The receiving side's checksum over a serialized segment comes out as zero. */
  lemma SegmentVerifies(seg: TcpSegment, pseudo: u32)
    requires 5 <= seg.header.doff && 4 * seg.header.doff + |seg.payload| <= 65535 && pseudo < 0x7FFF_0000
    ensures var bytes := SerializeSegment(seg, pseudo).value;
            |bytes| == 4 * seg.header.doff + |seg.payload| && Complement(U32(pseudo + WordSum(bytes, false))) == 0
  {
    var h, cksum := seg.header, SegmentChecksum(seg.header, seg.payload, pseudo);
    var head, bytes := SerializeHeader(h.(cksum := 0)).value, SerializeHeader(h.(cksum := cksum)).value + seg.payload;
    SerializedSum(h, seg.payload, cksum);
    assert |head| == 2 * (2 * h.doff);
    ChecksumVerifies(pseudo, head, seg.payload, bytes, cksum);
  }

  lemma HeaderSplit(h: TcpHeader, tail: seq<byte>, rest: seq<byte>)
    requires rest == Bytes(h.uptr, 2) + tail
    ensures |Lead(h, [])| == 16 && HeaderBytes(h, tail) == Lead(h, []) + (Bytes(h.cksum, 2) + rest)
  {
    LeadLength(h, []);
    LeadAppend(h, [], Bytes(h.cksum, 2) + rest);
    assert [] + (Bytes(h.cksum, 2) + rest) == Bytes(h.cksum, 2) + rest;
  }

  lemma LeadSkipsCksum(h: TcpHeader, cksum: u16)
    ensures Lead(h.(cksum := cksum), []) == Lead(h, [])
  {
    assert FlagBits(h.(cksum := cksum)) == FlagBits(h);
  }

  lemma ZeroField(lead: seq<byte>, field: seq<byte>, rest: seq<byte>, payload: seq<byte>, bytes: seq<byte>)
    requires |lead| == 16 && |field| == 2 && bytes == lead + (field + rest) + payload
    ensures bytes[16..18] == field && bytes[16 := 0][17 := 0] == lead + ([0, 0] + rest) + payload
  {
  }

  /** The checksum field is bytes 16 and 17; zeroing it is serializing with a zero checksum. */
  lemma ChecksumField(h: TcpHeader, payload: seq<byte>, bytes: seq<byte>)
    requires h.doff >= 5 && bytes == SerializeHeader(h).value + payload
    ensures |bytes| == 4 * h.doff + |payload| && BigEndian(bytes[16..18]) == h.cksum
    ensures bytes[16 := 0][17 := 0] == SerializeHeader(h.(cksum := 0)).value + payload
  {
    var h0, zeros := h.(cksum := 0), Zeros(4 * h.doff - 20);
    var rest := Bytes(h.uptr, 2) + zeros;
    HeaderLength(h, zeros);
    HeaderSplit(h, zeros, rest);
    HeaderSplit(h0, zeros, rest);
    LeadSkipsCksum(h, 0);
    Powers();
    BytesRoundTrip(h.cksum, 2);
    ZeroField(Lead(h, []), Bytes(h.cksum, 2), rest, payload, bytes);
    assert Bytes(0, 2) == [0, 0];
  }

  /** The checksum is that of what `pseudo` adds up and the segment with a zero checksum. */
  lemma SegmentChecksumIs(h: TcpHeader, payload: seq<byte>, pseudo: u32, head: seq<byte>, total: nat)
    requires 5 <= h.doff && 4 * h.doff + |payload| <= 65535 && pseudo < 0x7FFF_0000
    requires head == SerializeHeader(h.(cksum := 0)).value && total == pseudo + WordSum(head + payload, false)
    ensures SegmentChecksum(h, payload, pseudo) == Complement(total)
  {
    SerializedSum(h, payload, 0);
    PiecesAddUp(pseudo, head, payload, WordSum(head, false), WordSum(payload, Odd(|head|)));
  }

  lemma ParseSerialized(h: TcpHeader, payload: seq<byte>, bytes: seq<byte>, pseudo: u32)
    requires 5 <= h.doff <= 15 && bytes == SerializeHeader(h).value + payload
    requires Complement(U32(pseudo + WordSum(bytes, false))) == 0
    ensures ParseSegment(bytes, pseudo) == (Some(TcpSegment(h, payload)), NoError)
  {
    HeaderRoundTripIff(h, payload);
    ParseVerified(bytes, pseudo, HeaderParse(h, NoError, ParserState(payload, NoError)));
  }

  lemma ParseVerified(bytes: seq<byte>, pseudo: u32, r: HeaderParse)
    requires Complement(U32(pseudo + WordSum(bytes, false))) == 0 && r == ParseHeader(ParserState(bytes, NoError))
    ensures ParseSegment(bytes, pseudo) == SegmentOf(r)
  {
  }

  /** A serialized segment parses back to itself, with the checksum filled in and verified. */
  lemma SegmentRoundTrip(seg: TcpSegment, pseudo: u32)
    requires 5 <= seg.header.doff <= 15 && 4 * seg.header.doff + |seg.payload| <= 65535 && pseudo < 0x7FFF_0000
    ensures SerializeSegment(seg, pseudo).Some?
    ensures var cksum := SegmentChecksum(seg.header, seg.payload, pseudo);
            ParseSegment(SerializeSegment(seg, pseudo).value, pseudo)
              == (Some(seg.(header := seg.header.(cksum := cksum))), NoError)
  {
    SegmentVerifies(seg, pseudo);
    ParseSerialized(seg.header.(cksum := SegmentChecksum(seg.header, seg.payload, pseudo)), seg.payload,
                    SerializeSegment(seg, pseudo).value, pseudo);
  }

  /** A segment that parses is refused after a change to any one of its bytes. */
  lemma CorruptionDetected(buffer: seq<byte>, pseudo: u32, i: nat, b: byte)
    requires |buffer| <= 65535 && pseudo < 0x7FFF_0000 && i < |buffer| && b != buffer[i]
    requires ParseSegment(buffer, pseudo).0.Some?
    ensures ParseSegment(buffer[i := b], pseudo) == (None, BadChecksum)
  {
    SingleByteDetected(pseudo, buffer, i, b);
  }

  /** The header's verdict survives into the segment's exactly when the data offset is at least five. */
  lemma VerdictKeptIff(buffer: seq<byte>, pseudo: u32)
    requires Complement(U32(pseudo + WordSum(buffer, false))) == 0
    ensures var r := ParseHeader(ParserState(buffer, NoError));
            (ParseSegment(buffer, pseudo).1 == r.result) <==> r.header.doff >= 5
  {
    var r := ParseHeader(ParserState(buffer, NoError));
    ParseVerified(buffer, pseudo, r);
    PrefixErrors(ParserState(buffer, NoError));
  }

  lemma PrefixErrors(p: ParserState)
    requires p.error in {NoError, PacketTooShort}
    ensures ParseHeader(p).rest.error in {NoError, PacketTooShort}
  {
  }
}
