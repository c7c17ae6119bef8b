/** TCP segments in IPv4 datagrams: encapsulation, and the adapter's filter on what comes back. */
module TcpOverIp {
  import opened Integers
  import opened Segment
  import opened Checksum
  import opened Codec
  import Ipv4
  import TcpWire

  datatype Address = Address(ip: u32, port: u16)

  datatype Config = Config(source: Address, destination: Address)

  datatype AdapterState = AdapterState(config: Config, listening: bool)

  function WithPorts(c: Config, seg: TcpSegment): TcpSegment {
    seg.(header := seg.header.(sport := c.source.port, dport := c.destination.port))
  }

  /** The datagram header for a segment: fixed-size, with the 16-bit total length. */
  function WrapHeader(c: Config, seg: TcpSegment): Ipv4.Ipv4Header {
    Ipv4.DEFAULT_HEADER.(src := c.source.ip, dst := c.destination.ip,
                    len := U16(20 + seg.header.doff * 4 + |seg.payload|))
  }

  /** `wrap_tcp_in_ip`; it throws with the segment's serialization. */
  function WrapTcpInIp(c: Config, seg: TcpSegment): Option<Ipv4.Datagram> {
    var h := WrapHeader(c, seg);
    match TcpWire.SerializeSegment(WithPorts(c, seg), h.PseudoCksum())
    case Some(bytes) => Some(Ipv4.Datagram(h, bytes))
    case None => None
  }

  /** `unwrap_tcp_in_ip`, from the check of the parsed segment on. */
  function Admit(a: AdapterState, h: Ipv4.Ipv4Header, seg: TcpSegment): (AdapterState, Option<TcpSegment>) {
    if seg.header.dport != a.config.source.port then (a, None)
    else if a.listening then
      if seg.header.syn && !seg.header.rst then
        (AdapterState(Config(Address(h.dst, a.config.source.port), Address(h.src, seg.header.sport)), false), Some(seg))
      else (a, None)
    else if seg.header.sport != a.config.destination.port then (a, None)
    else (a, Some(seg))
  }

  function UnwrapTcpInIp(a: AdapterState, d: Ipv4.Datagram): (AdapterState, Option<TcpSegment>) {
    if !a.listening && d.header.dst != a.config.source.ip then (a, None)
    else if !a.listening && d.header.src != a.config.destination.ip then (a, None)
    else if d.header.proto != Ipv4.PROTO_TCP then (a, None)
    else
      match TcpWire.ParseSegment(d.payload, d.header.PseudoCksum())
      case (Some(seg), NoError) => Admit(a, d.header, seg)
      case _ => (a, None)
  }

  class Adapter {
    var config: Config
    var listening: bool

    ghost function View(): AdapterState
      reads this
    {
      AdapterState(config, listening)
    }

    constructor (config: Config, listening: bool)
      ensures View() == AdapterState(config, listening)
    {
      this.config, this.listening := config, listening;
    }

    /** The ports are set in the caller's segment, which comes back as `seg'`. */
    method Wrap(seg: TcpSegment) returns (d: Option<Ipv4.Datagram>, seg': TcpSegment)
      ensures d == WrapTcpInIp(config, seg) && seg' == WithPorts(config, seg)
    {
      seg' := seg.(header := seg.header.(sport := config.source.port, dport := config.destination.port));
      var header := Ipv4.DEFAULT_HEADER.(src := config.source.ip, dst := config.destination.ip);
      header := header.(len := U16(header.hlen * 4 + seg.header.doff * 4 + |seg.payload|));
      var bytes := TcpWire.WriteSegment(seg', header.PseudoCksum());
      d := if bytes.None? then None else Some(Ipv4.Datagram(header, bytes.value));
    }

    method Unwrap(d: Ipv4.Datagram) returns (r: Option<TcpSegment>)
      modifies this
      ensures (View(), r) == UnwrapTcpInIp(old(View()), d)
    {
      if !listening && d.header.dst != config.source.ip {
        return None;
      }
      if !listening && d.header.src != config.destination.ip {
        return None;
      }
      if d.header.proto != Ipv4.PROTO_TCP {
        return None;
      }
      var parsed, result := TcpWire.ReadSegment(d.payload, d.header.PseudoCksum());
      if result != NoError {
        return None;
      }
      var seg := parsed.value;
      if seg.header.dport != config.source.port {
        return None;
      }
      if listening {
        if !seg.header.syn || seg.header.rst {
          return None;
        }
        config := Config(Address(d.header.dst, config.source.port), Address(d.header.src, seg.header.sport));
        listening := false;
      }
      if seg.header.sport != config.destination.port {
        return None;
      }
      r := Some(seg);
    }
  }

  /** Which adapters take a segment sent under configuration `c`. */
  predicate Accepts(a: AdapterState, c: Config, seg: TcpSegment) {
    if a.listening then a.config.source.port == c.destination.port && seg.header.syn && !seg.header.rst
    else a.config == Config(c.destination, c.source)
  }

  /** The segment as it travels: ports set and checksum filled in. */
  function Stamped(c: Config, seg: TcpSegment): TcpSegment
    requires seg.header.doff >= 5
  {
    Checksummed(WithPorts(c, seg), WrapHeader(c, seg).PseudoCksum())
  }

  function Checksummed(seg: TcpSegment, pseudo: u32): TcpSegment
    requires seg.header.doff >= 5
  {
    seg.(header := seg.header.(cksum := TcpWire.SegmentChecksum(seg.header, seg.payload, pseudo)))
  }

  lemma PseudoSmall(h: Ipv4.Ipv4Header)
    ensures h.PseudoCksum() < 0x7FFF_0000
  {
  }

  /** `d` carries `seg` from one end of `c` to the other. */
  predicate Carries(d: Ipv4.Datagram, c: Config, seg: TcpSegment) {
    && d.header.src == c.source.ip && d.header.dst == c.destination.ip && d.header.proto == Ipv4.PROTO_TCP
    && seg.header.sport == c.source.port && seg.header.dport == c.destination.port
    && TcpWire.ParseSegment(d.payload, d.header.PseudoCksum()) == (Some(seg), NoError)
  }

  lemma WrapIs(c: Config, seg: TcpSegment, bytes: seq<byte>)
    requires TcpWire.SerializeSegment(WithPorts(c, seg), WrapHeader(c, seg).PseudoCksum()) == Some(bytes)
    ensures WrapTcpInIp(c, seg) == Some(Ipv4.Datagram(WrapHeader(c, seg), bytes))
  {
  }

  lemma SerializedCarries(s: TcpSegment, pseudo: u32)
    requires 5 <= s.header.doff <= 15 && 4 * s.header.doff + |s.payload| <= 65535 && pseudo < 0x7FFF_0000
    ensures TcpWire.SerializeSegment(s, pseudo).Some?
    ensures var bytes := TcpWire.SerializeSegment(s, pseudo).value;
            && |bytes| == 4 * s.header.doff + |s.payload|
            && TcpWire.ParseSegment(bytes, pseudo) == (Some(Checksummed(s, pseudo)), NoError)
  {
    TcpWire.SegmentVerifies(s, pseudo);
    TcpWire.SegmentRoundTrip(s, pseudo);
  }

  lemma WrapSucceeds(c: Config, seg: TcpSegment)
    requires 5 <= seg.header.doff <= 15 && 20 + 4 * seg.header.doff + |seg.payload| <= 65535
    ensures WrapTcpInIp(c, seg).Some?
    ensures var d := WrapTcpInIp(c, seg).value;
            d.header == WrapHeader(c, seg) && d.header.len == 20 + |d.payload| && Carries(d, c, Stamped(c, seg))
  {
    var s, pseudo := WithPorts(c, seg), WrapHeader(c, seg).PseudoCksum();
    PseudoSmall(WrapHeader(c, seg));
    SerializedCarries(s, pseudo);
    WrapIs(c, seg, TcpWire.SerializeSegment(s, pseudo).value);
    WrapLength(c, seg);
  }

  lemma WrapLength(c: Config, seg: TcpSegment)
    requires 20 + 4 * seg.header.doff + |seg.payload| <= 65535
    ensures WrapHeader(c, seg).len == 20 + 4 * seg.header.doff + |seg.payload|
  {
  }

  /** The pseudo-header of a segment of `size` bytes from one end of `c` to the other. */
  function PseudoHeaderOf(c: Config, size: u16): seq<byte> {
    Ipv4.PseudoHeader(c.source.ip, c.destination.ip, Ipv4.PROTO_TCP, size)
  }

  lemma WrapPseudo(c: Config, seg: TcpSegment)
    requires 20 + 4 * seg.header.doff + |seg.payload| <= 65535
    ensures var ph := PseudoHeaderOf(c, 4 * seg.header.doff + |seg.payload|);
            |ph| == 12 && WordSum(ph, false) == WrapHeader(c, seg).PseudoCksum()
  {
    WrapLength(c, seg);
    Ipv4.PseudoHeaderSum(WrapHeader(c, seg));
  }

  lemma AfterPseudo(ph: seq<byte>, data: seq<byte>, pseudo: u32)
    requires |ph| == 12 && WordSum(ph, false) == pseudo
    ensures WordSum(ph + data, false) == pseudo + WordSum(data, false)
  {
    WordSumConcat(ph, data, false);
  }

  lemma NoWrap(pseudo: u32, data: seq<byte>)
    requires |data| <= 65535 && pseudo < 0x7FFF_0000
    ensures U32(pseudo + WordSum(data, false)) == pseudo + WordSum(data, false)
  {
    WordSumBound(data, false);
    Fits(pseudo + WordSum(data, false));
  }

  /** The checksum field of `b` is the checksum of `ph` and `b` with that field zero. */
  predicate ChecksumSet(b: seq<byte>, ph: seq<byte>)
    requires |b| >= 20
  {
    BigEndian(b[16..18]) == Complement(WordSum(ph + b[16 := 0][17 := 0], false))
  }

  lemma SerializedChecksum(s: TcpSegment, ph: seq<byte>, pseudo: u32)
    requires 5 <= s.header.doff && 4 * s.header.doff + |s.payload| <= 65535
    requires |ph| == 12 && WordSum(ph, false) == pseudo && pseudo < 0x7FFF_0000
    ensures TcpWire.SerializeSegment(s, pseudo).Some?
    ensures var b := TcpWire.SerializeSegment(s, pseudo).value;
            |b| == 4 * s.header.doff + |s.payload| && ChecksumSet(b, ph)
  {
    var b := TcpWire.SerializeSegment(s, pseudo).value;
    var head := TcpWire.SerializeHeader(s.header.(cksum := 0)).value;
    AfterPseudo(ph, head + s.payload, pseudo);
    assert Checksummed(s, pseudo).header.(cksum := 0) == s.header.(cksum := 0);
    TcpWire.ChecksumField(Checksummed(s, pseudo).header, s.payload, b);
    TcpWire.SegmentChecksumIs(s.header, s.payload, pseudo, head, WordSum(ph + (head + s.payload), false));
  }

  lemma SerializedVerifies(s: TcpSegment, ph: seq<byte>, pseudo: u32)
    requires 5 <= s.header.doff && 4 * s.header.doff + |s.payload| <= 65535
    requires |ph| == 12 && WordSum(ph, false) == pseudo && pseudo < 0x7FFF_0000
    ensures Complement(WordSum(ph + TcpWire.SerializeSegment(s, pseudo).value, false)) == 0
  {
    var b := TcpWire.SerializeSegment(s, pseudo).value;
    TcpWire.SegmentVerifies(s, pseudo);
    NoWrap(pseudo, b);
    AfterPseudo(ph, b, pseudo);
  }

  lemma SerializedWith(s: TcpSegment, ph: seq<byte>, pseudo: u32) returns (b: seq<byte>)
    requires 5 <= s.header.doff && 4 * s.header.doff + |s.payload| <= 65535
    requires |ph| == 12 && WordSum(ph, false) == pseudo && pseudo < 0x7FFF_0000
    ensures TcpWire.SerializeSegment(s, pseudo) == Some(b) && |b| == 4 * s.header.doff + |s.payload|
    ensures ChecksumSet(b, ph) && Complement(WordSum(ph + b, false)) == 0
  {
    SerializedChecksum(s, ph, pseudo);
    SerializedVerifies(s, ph, pseudo);
    b := TcpWire.SerializeSegment(s, pseudo).value;
  }

  /**
   * The checksum in a wrapped segment is the Internet checksum of pseudo-header and segment, the
   * checksum field zeroed; with it filled in, pseudo-header and segment verify.
   */
  lemma WrappedChecksum(c: Config, seg: TcpSegment)
    requires 5 <= seg.header.doff && 20 + 4 * seg.header.doff + |seg.payload| <= 65535
    ensures WrapTcpInIp(c, seg).Some?
    ensures var b := WrapTcpInIp(c, seg).value.payload;
            && |b| == 4 * seg.header.doff + |seg.payload|
            && ChecksumSet(b, PseudoHeaderOf(c, |b|)) && Complement(WordSum(PseudoHeaderOf(c, |b|) + b, false)) == 0
  {
    var pseudo, size := WrapHeader(c, seg).PseudoCksum(), 4 * seg.header.doff + |seg.payload|;
    WrapPseudo(c, seg);
    PseudoSmall(WrapHeader(c, seg));
    var b := SerializedWith(WithPorts(c, seg), PseudoHeaderOf(c, size), pseudo);
    WrapIs(c, seg, b);
  }

  /** What an adapter makes of a datagram that carries such a segment. */
  lemma UnwrapOutcome(a: AdapterState, d: Ipv4.Datagram, c: Config, seg: TcpSegment)
    requires Carries(d, c, seg)
    ensures Delivered(a, UnwrapTcpInIp(a, d), c, seg)
  {
  }

  /** The adapters meant by `c` hand over `seg` and are bound to its sender; others do nothing. */
  predicate Delivered(a: AdapterState, outcome: (AdapterState, Option<TcpSegment>), c: Config, seg: TcpSegment) {
    if Accepts(a, c, seg) then outcome == (AdapterState(Config(c.destination, c.source), false), Some(seg))
    else outcome == (a, None)
  }

  lemma PseudoSkipsCksum(h: Ipv4.Ipv4Header, cksum: u16)
    ensures h.(cksum := cksum).PseudoCksum() == h.PseudoCksum()
  {
  }

  lemma TransitKeeps(d: Ipv4.Datagram, c: Config, seg: TcpSegment, cksum: u16)
    requires Carries(d, c, seg)
    ensures Carries(d.(header := d.header.(cksum := cksum)), c, seg)
  {
    PseudoSkipsCksum(d.header, cksum);
  }

  lemma Transit(d: Ipv4.Datagram, c: Config, seg: TcpSegment, a: AdapterState, prior: Ipv4.Ipv4Header)
    requires Carries(d, c, seg)
    requires d.header.ver == 4 && d.header.hlen == 5 && d.header.offset == 0 && d.header.len == 20 + |d.payload|
    ensures Ipv4.SerializeDatagram(d).Some?
    ensures Ipv4.ParseHeader(ParserState(Ipv4.SerializeDatagram(d).value, NoError), prior).result == NoError
    ensures var (d', result) := Ipv4.ParseDatagram(Ipv4.SerializeDatagram(d).value, prior);
            result == NoError && Delivered(a, UnwrapTcpInIp(a, d'), c, seg)
  {
    Ipv4.DatagramRoundTrip(d, prior);
    TransitKeeps(d, c, seg, Ipv4.HeaderChecksum(d.header));
    UnwrapOutcome(a, d.(header := d.header.(cksum := Ipv4.HeaderChecksum(d.header))), c, seg);
  }

  /**
   * Encapsulation round trip: wrapped, serialized, parsed and unwrapped, a segment comes out as it
   * went in, ports and checksum set and both checksums verified, at exactly the adapters it is meant
   * for; a listening adapter is then bound to the sender.
   */
  lemma EncapsulationRoundTrip(c: Config, seg: TcpSegment, a: AdapterState, prior: Ipv4.Ipv4Header)
    requires 5 <= seg.header.doff <= 15 && 20 + 4 * seg.header.doff + |seg.payload| <= 65535
    ensures WrapTcpInIp(c, seg).Some? && Ipv4.SerializeDatagram(WrapTcpInIp(c, seg).value).Some?
    ensures var bytes := Ipv4.SerializeDatagram(WrapTcpInIp(c, seg).value).value;
            Ipv4.ParseHeader(ParserState(bytes, NoError), prior).result == NoError
    ensures var (d, result) := Ipv4.ParseDatagram(Ipv4.SerializeDatagram(WrapTcpInIp(c, seg).value).value, prior);
            result == NoError && Delivered(a, UnwrapTcpInIp(a, d), c, Stamped(c, seg))
  {
    WrapSucceeds(c, seg);
    Transit(WrapTcpInIp(c, seg).value, c, Stamped(c, seg), a, prior);
  }

  // ---------------------------------------------------------------- what the adapter lets through

  /** `d` carries, checksum verified, a TCP segment between the two ends of `c`, towards its source. */
  predicate Between(d: Ipv4.Datagram, c: Config) {
    var parsed := TcpWire.ParseSegment(d.payload, d.header.PseudoCksum());
    && d.header.proto == Ipv4.PROTO_TCP && parsed.0.Some? && parsed.1 == NoError
    && c.source == Address(d.header.dst, parsed.0.value.header.dport)
    && c.destination == Address(d.header.src, parsed.0.value.header.sport)
  }

  /**
   * A bound adapter admits exactly what comes from its peer, a listening one exactly the SYNs to its
   * port; either is then bound to the ends of what it admitted. Anything else changes nothing.
   */
  lemma AdmittedIff(a: AdapterState, d: Ipv4.Datagram)
    ensures var (a', r) := UnwrapTcpInIp(a, d);
            var parsed := TcpWire.ParseSegment(d.payload, d.header.PseudoCksum());
            && (r.Some? <==>
                if a.listening then
                  && d.header.proto == Ipv4.PROTO_TCP && parsed.0.Some? && parsed.1 == NoError
                  && var h := parsed.0.value.header; h.dport == a.config.source.port && h.syn && !h.rst
                else Between(d, a.config))
            && (if r.Some? then r == parsed.0 && Between(d, a'.config) && !a'.listening else a' == a)
            && (!a.listening ==> a' == a)
  {
  }

  /** The adapter after some datagrams, and those of them that it admitted. */
  function Filtered(a: AdapterState, ds: seq<Ipv4.Datagram>): (AdapterState, seq<Ipv4.Datagram>) {
    if ds == [] then (a, [])
    else
      var (before, admitted) := Filtered(a, ds[..|ds| - 1]);
      var (after, r) := UnwrapTcpInIp(before, ds[|ds| - 1]);
      (after, if r.Some? then admitted + [ds[|ds| - 1]] else admitted)
  }

  /** Over any run, all that one adapter admits runs between the same two ends. */
  lemma {:induction false} OnePeer(a: AdapterState, ds: seq<Ipv4.Datagram>)
    ensures var (after, admitted) := Filtered(a, ds);
            && (after.listening ==> admitted == [])
            && forall d :: d in admitted ==> Between(d, after.config)
    decreases |ds|
  {
    if ds == [] {
    } else {
      var init := ds[..|ds| - 1];
      OnePeer(a, init);
      AdmittedIff(Filtered(a, init).0, ds[|ds| - 1]);
    }
  }
}
