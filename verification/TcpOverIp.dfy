/** TCP segments carried in IPv4 datagrams, and the adapter that filters what belongs to its connection. */
module TcpOverIp {
  import opened Prelude
  import opened Checksums
  import opened NetParsers
  import opened Segments
  import TC = TcpCodec
  import IP = Ipv4Codec

  /** An IPv4 address and a port. */
  datatype Endpoint = Endpoint(ip: u32, port: u16)

  /** The adapter's configuration and its listening flag. */
  datatype Adapter = Adapter(source: Endpoint, destination: Endpoint, listening: bool)

  /** `wrap_tcp_in_ip`: sets the ports and addresses and the 16-bit total length. */
  function WithPorts(a: Adapter, seg: Segment): Segment {
    seg.(header := seg.header.(sport := a.source.port, dport := a.destination.port))
  }

  function OuterHeader(a: Adapter, seg: Segment): IP.IPv4Header {
    IP.DEFAULT_IP_HEADER.(src := a.source.ip, dst := a.destination.ip,
                          len := (IP.DEFAULT_IP_HEADER.hlen * 4 + seg.header.doff * 4 + |seg.payload|) % TWO16)
  }

  function WrapInIp(a: Adapter, seg: Segment): Option<IP.IPv4Datagram> {
    if seg.header.doff < 5 then None else
    var h := OuterHeader(a, seg);
    Some(IP.IPv4Datagram(h, TC.EncodeSegment(WithPorts(a, seg), h.PseudoSum())))
  }

  /** Which datagrams the adapter looks at. */
  predicate ForUs(a: Adapter, d: IP.IPv4Datagram) {
    && (a.listening || (d.header.dst == a.source.ip && d.header.src == a.destination.ip))
    && d.header.proto == IP.PROTO_TCP
  }

  /** `unwrap_tcp_in_ip`: the segment, if it belongs to the connection, and the adapter afterwards. */
  function UnwrapFromIp(a: Adapter, d: IP.IPv4Datagram): (Option<Segment>, Adapter) {
    if !ForUs(a, d) then (None, a) else
    var (seg, res) := TC.DecodeSegment(d.payload, d.header.PseudoSum());
    if res != NoError || seg.header.dport != a.source.port then (None, a)
    else if a.listening then
      if seg.header.syn && !seg.header.rst then
        (Some(seg), Adapter(Endpoint(d.header.dst, a.source.port), Endpoint(d.header.src, seg.header.sport), false))
      else (None, a)
    else if seg.header.sport != a.destination.port then (None, a)
    else (Some(seg), a)
  }

  class TCPOverIPv4Adapter {
    var source: Endpoint
    var destination: Endpoint
    var listen: bool

    function Abs(): Adapter
      reads this
    {
      Adapter(source, destination, listen)
    }

    constructor (src: Endpoint, dst: Endpoint, listening: bool)
      ensures Abs() == Adapter(src, dst, listening)
    {
      source, destination, listen := src, dst, listening;
    }

    method WrapTcpInIp(seg: Segment) returns (d: Option<IP.IPv4Datagram>, sent: Segment)
      ensures sent == WithPorts(Abs(), seg)
      ensures d == WrapInIp(Abs(), seg)
    {
      hide TC.EncodeSegment;
      sent := seg.(header := seg.header.(sport := source.port, dport := destination.port));
      var h := IP.DEFAULT_IP_HEADER;
      h := h.(src := source.ip);
      h := h.(dst := destination.ip);
      h := h.(len := (h.hlen * 4 + sent.header.doff * 4 + |sent.payload|) % TWO16);
      var bytes := TC.SerializeSegment(sent, h.PseudoSum());
      if bytes == None {
        return None, sent;
      }
      d := Some(IP.IPv4Datagram(h, bytes.value));
    }

    method UnwrapTcpInIp(d: IP.IPv4Datagram) returns (seg: Option<Segment>)
      modifies this
      ensures (seg, Abs()) == UnwrapFromIp(old(Abs()), d)
    {
      hide TC.DecodeSegment;
      if !listen && d.header.dst != source.ip {
        return None;
      }
      if !listen && d.header.src != destination.ip {
        return None;
      }
      if d.header.proto != IP.PROTO_TCP {
        return None;
      }
      var s, res := TC.ParseSegment(d.payload, d.header.PseudoSum());
      if res != NoError {
        return None;
      }
      if s.header.dport != source.port {
        return None;
      }
      if listen {
        if s.header.syn && !s.header.rst {
          source := Endpoint(d.header.dst, source.port);
          destination := Endpoint(d.header.src, s.header.sport);
          listen := false;
        } else {
          return None;
        }
      }
      if s.header.sport != destination.port {
        return None;
      }
      seg := Some(s);
    }
  }

  /** `b` is at the other end of `a`, or waits for a connection to the port `a` talks to. */
  predicate Peers(a: Adapter, b: Adapter, seg: Segment) {
    if b.listening then b.source.port == a.destination.port && seg.header.syn && !seg.header.rst
    else b.source == a.destination && b.destination == a.source
  }

  /** Everything fits into one datagram. */
  predicate Fits(seg: Segment) {
    5 <= seg.header.doff <= 15 && 20 + 4 * seg.header.doff + |seg.payload| <= 0xffff
  }

  lemma OuterHeaderFacts(a: Adapter, seg: Segment)
    requires Fits(seg)
    ensures var h := OuterHeader(a, seg);
            && h.WellFormed() && h.len == 20 + 4 * seg.header.doff + |seg.payload|
            && h.PayloadLength() == 4 * seg.header.doff + |seg.payload|
  {
  }

  /** The datagram around a segment: version 4, no options, unfragmented, protocol 6, from here to the peer. */
  lemma WrapExactly(a: Adapter, seg: Segment)
    requires Fits(seg)
    ensures var d := WrapInIp(a, seg);
            && d.Some?
            && var h := d.value.header;
            && h.ver == 4 && h.hlen == 5 && h.tos == 0 && h.id == 0 && h.df && !h.mf && h.offset == 0
            && h.ttl == 128 && h.proto == 6
            && h.src == a.source.ip && h.dst == a.destination.ip
            && h.len == 20 + |d.value.payload|
            && |d.value.payload| == 4 * seg.header.doff + |seg.payload|
  {
    hide TC.EncodeSegment;
    EncodedLength(WithPorts(a, seg), OuterHeader(a, seg).PseudoSum());
  }

  lemma EncodedLength(seg: Segment, pseudo: u32)
    requires seg.header.doff >= 5
    ensures |TC.EncodeSegment(seg, pseudo)| == 4 * seg.header.doff + |seg.payload|
  {
    hide TC.EncodeTcpHeader, TC.SegmentChecksum;
    TC.TcpChecksumField(seg.header.(cksum := TC.SegmentChecksum(seg, pseudo)), 0, []);
  }

  /**
    The encapsulation round trip: wrapping, serializing, parsing and unwrapping at the peer succeeds and
    returns the segment with its ports set and its checksum filled in; everything else -- flags,
    numbers, window, urgent pointer, data offset, payload -- is unchanged.  A listening peer locks on.
   */
  lemma EncapsulationRoundTrip(a: Adapter, b: Adapter, seg: Segment)
    requires Fits(seg) && Peers(a, b, seg)
    ensures var d := WrapInIp(a, seg);
            && d.Some?
            && IP.EncodeDatagram(d.value).Some?
            && var (e, res) := IP.DecodeDatagram(IP.EncodeDatagram(d.value).value);
            && res == NoError
            && var s := WithPorts(a, seg);
            && UnwrapFromIp(b, e)
               == (Some(s.(header := s.header.(cksum := TC.SegmentChecksum(s, OuterHeader(a, seg).PseudoSum())))),
                   Adapter(a.destination, a.source, false))
  {
    hide TC.EncodeSegment, TC.DecodeSegment, TC.SegmentChecksum, IP.EncodeDatagram, IP.DecodeDatagram, IP.IpChecksum;
    var s := WithPorts(a, seg);
    var h := OuterHeader(a, seg);
    OuterHeaderFacts(a, seg);
    var d := WrapInIp(a, seg).value;
    EncodedLength(s, h.PseudoSum());
    IP.DatagramRoundTrip(d);
    var (e, res) := IP.DecodeDatagram(IP.EncodeDatagram(d).value);
    assert e.header.PseudoSum() == h.PseudoSum();
    TC.SegmentRoundTrip(s, h.PseudoSum());
  }

  /** Both checksums on the wire verify to zero. */
  lemma ChecksumsVerify(a: Adapter, seg: Segment, d: IP.IPv4Datagram, bytes: seq<byte>)
    requires Fits(seg)
    ensures WrapInIp(a, seg) == Some(d) && IP.EncodeDatagram(d) == Some(bytes) ==>
              && ChecksumOf((d.header.PseudoSum() + WordSum(d.payload, false)) % TWO32) == 0
              && |bytes| >= 20 && ChecksumOf(WordSum(bytes[..20], false) % TWO32) == 0
  {
    hide TC.EncodeSegment, TC.DecodeSegment, TC.SegmentChecksum, IP.EncodeIpHeader, IP.IpChecksum, WordSum, ChecksumOf;
    var s := WithPorts(a, seg);
    var h := OuterHeader(a, seg);
    TC.SegmentRoundTrip(s, h.PseudoSum());
    IP.IpHeaderVerifies(h);
    var summed := h.(cksum := IP.IpChecksum(h));
    IP.IpChecksumField(summed, 0);
    if WrapInIp(a, seg) == Some(d) && IP.EncodeDatagram(d) == Some(bytes) {
      assert bytes[..20] == IP.EncodeIpHeader(summed);
    }
  }

  /**
    Only the connection's own traffic gets through: the checksum verifies, the ports and (unless the
    adapter was listening) the addresses are those configured, and from then on the adapter talks to
    the sender of this very segment.
   */
  lemma AcceptedIsOurs(a: Adapter, d: IP.IPv4Datagram)
    ensures var (seg, b) := UnwrapFromIp(a, d);
            if seg == None then b == a
            else
              && ChecksumOf((d.header.PseudoSum() + WordSum(d.payload, false)) % TWO32) == 0
              && seg.value.header.dport == b.source.port == a.source.port
              && b == Adapter(Endpoint(d.header.dst, a.source.port), Endpoint(d.header.src, seg.value.header.sport), false)
              && (a.listening ==> seg.value.header.syn && !seg.value.header.rst)
              && (!a.listening ==> b == a)
  {
    hide ChecksumOf, WordSum, TC.DecodeTcpHeader;
  }
}
