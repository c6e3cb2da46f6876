/** The IPv4 wire format (section 3.1 of RFC 791). */
module Ipv4Codec {
  import opened Prelude
  import opened Checksums
  import opened NetParsers
  import TC = TcpCodec

  const IP_HEADER_LENGTH: nat := 20
  const PROTO_TCP: byte := 6
  const DEFAULT_TTL: byte := 128
  const IP_WIDTHS: seq<nat> := [1, 1, 2, 2, 2, 1, 1, 2, 4, 4]

  datatype IPv4Header = IPv4Header(
    ver: byte, hlen: byte, tos: byte, len: u16, id: u16, df: bool, mf: bool, offset: u16,
    ttl: byte, proto: byte, cksum: u16, src: u32, dst: u32)
  {
    /** `payload_length`, in 16-bit arithmetic. */
    function PayloadLength(): u16 {
      (len - 4 * hlen) % TWO16
    }

    /** The pseudo-header's contribution to the TCP checksum. */
    function PseudoSum(): (s: u32)
      ensures s <= 0x7fff_0000
    {
      src / TWO16 + src % TWO16 + (dst / TWO16 + dst % TWO16) + proto + PayloadLength()
    }

    /** Serializable, and every field fits the bits the format has for it. */
    predicate WellFormed() {
      ver == 4 && 5 <= hlen <= 15 && offset < 0x2000
    }
  }

  const DEFAULT_IP_HEADER: IPv4Header :=
    IPv4Header(4, 5, 0, 0, 0, true, false, 0, DEFAULT_TTL, PROTO_TCP, 0, 0, 0)

  datatype IPv4Datagram = IPv4Datagram(header: IPv4Header, payload: seq<byte>)

  function FirstByte(h: IPv4Header): byte {
    (h.ver * 0x10 + h.hlen % 0x10) % 0x100
  }

  function FlagsAndOffset(h: IPv4Header): u16 {
    TC.Bit(h.df, 0x4000) + TC.Bit(h.mf, 0x2000) + h.offset % 0x2000
  }

  /** The fields before the checksum: ten bytes. */
  function IpFront(h: IPv4Header): seq<Field> {
    [Field(FirstByte(h), 1), Field(h.tos, 1), Field(h.len, 2), Field(h.id, 2),
     Field(FlagsAndOffset(h), 2), Field(h.ttl, 1), Field(h.proto, 1)]
  }

  function IpBack(h: IPv4Header): seq<Field> {
    [Field(h.src, 4), Field(h.dst, 4)]
  }

  function IpFields(h: IPv4Header): seq<Field> {
    IpFront(h) + [Field(h.cksum, 2)] + IpBack(h)
  }

  function HeaderFrom(vs: seq<nat>): IPv4Header
    requires |vs| == 10
  {
    var b, f := vs[0] % 0x100, vs[4] % TWO16;
    IPv4Header(b / 0x10, b % 0x10, vs[1] % 0x100, vs[2] % TWO16, vs[3] % TWO16,
               TC.HasBit(f, 0x4000), TC.HasBit(f, 0x2000), f % 0x2000,
               vs[5] % 0x100, vs[6] % 0x100, vs[7] % TWO16, vs[8] % TWO32, vs[9] % TWO32)
  }

  /** `IPv4Header::parse` on a header object that holds `before`. */
  function DecodeIpHeader(c: Cursor, before: IPv4Header): (IPv4Header, ParseResult, Cursor) {
    var size := |c.buffer|;
    if size < IP_HEADER_LENGTH then (before, PacketTooShort, c) else
    var (vs, d) := TakeAll(c, IP_WIDTHS);
    var h := HeaderFrom(vs);
    if size < 4 * h.hlen then (h, PacketTooShort, d)
    else if h.ver != 4 then (h, WrongIPVersion, d)
    else if h.hlen < 5 then (h, HeaderTooShort, d)
    else if size != h.len then (h, TruncatedPacket, d)
    else
      var e := SkipBytes(d, h.hlen * 4 - IP_HEADER_LENGTH);
      if e.error != NoError then (h, e.error, e)
      else if ChecksumOf(WordSum(c.buffer[..4 * h.hlen], false) % TWO32) != 0 then (h, BadChecksum, e)
      else (h, NoError, e)
  }

  function EncodeIpHeader(h: IPv4Header): seq<byte>
    requires h.hlen >= 5
  {
    Encode(IpFields(h)) + TC.Zeros(4 * h.hlen - IP_HEADER_LENGTH)
  }

  function IpChecksum(h: IPv4Header): u16
    requires h.hlen >= 5
  {
    ChecksumOf(WordSum(EncodeIpHeader(h.(cksum := 0)), false) % TWO32)
  }

  /** `IPv4Datagram::serialize`; `None` stands for the exceptions it throws. */
  function EncodeDatagram(d: IPv4Datagram): Option<seq<byte>> {
    if |d.payload| != d.header.PayloadLength() || d.header.ver != 4 || d.header.hlen < 5 then None
    else Some(EncodeIpHeader(d.header.(cksum := IpChecksum(d.header))) + d.payload)
  }

  /** `IPv4Datagram::parse` into a fresh object; the header parser's own verdict is ignored. */
  function DecodeDatagram(bytes: seq<byte>): (IPv4Datagram, ParseResult) {
    var (h, _, c) := DecodeIpHeader(Cursor(bytes, NoError), DEFAULT_IP_HEADER);
    (IPv4Datagram(h, c.buffer), if |c.buffer| != h.PayloadLength() then PacketTooShort else c.error)
  }

  // ---------------------------------------------------------------- the implementation

  method ParseFront(p: NetParser) returns (b: nat, tos: nat, len: nat, id: nat, f: nat)
    requires p.Valid() && p.widths == [] && p.values == []
    modifies p
    ensures p.Valid() && p.widths == [1, 1, 2, 2, 2] && p.values == [b, tos, len, id, f]
  {
    hide NetParser.Valid, TakeInt;
    b := p.ParseInt(1);
    tos := p.ParseInt(1);
    len := p.ParseInt(2);
    id := p.ParseInt(2);
    f := p.ParseInt(2);
  }

  method ParseBack(p: NetParser, ghost vs: seq<nat>) returns (ttl: nat, proto: nat, cksum: nat, src: nat, dst: nat)
    requires p.Valid() && p.widths == [1, 1, 2, 2, 2] && p.values == vs
    modifies p
    ensures p.Valid() && p.widths == IP_WIDTHS && p.values == vs + [ttl, proto, cksum, src, dst]
  {
    hide NetParser.Valid, TakeInt;
    ttl := p.ParseInt(1);
    proto := p.ParseInt(1);
    cksum := p.ParseInt(2);
    src := p.ParseInt(4);
    dst := p.ParseInt(4);
  }

  method ParseIpFields(p: NetParser) returns (h: IPv4Header)
    requires p.Valid() && p.widths == []
    modifies p
    ensures var (vs, d) := TakeAll(old(Cursor(p.buffer, p.error)), IP_WIDTHS);
            h == HeaderFrom(vs) && Cursor(p.buffer, p.error) == d
  {
    assert p.start == Cursor(p.buffer, p.error) && p.values == [];
    hide TakeAll, TakeInt, TC.HasBit;
    var first, tos, len, id, fo := ParseFront(p);
    var ttl, proto, cksum, src, dst := ParseBack(p, [first, tos, len, id, fo]);
    var b, f := first % 0x100, fo % TWO16;
    h := IPv4Header(b / 0x10, b % 0x10, tos % 0x100, len % TWO16, id % TWO16,
                    TC.HasBit(f, 0x4000), TC.HasBit(f, 0x2000), f % 0x2000,
                    ttl % 0x100, proto % 0x100, cksum % TWO16, src % TWO32, dst % TWO32);
    assert HeaderFrom(p.values) == h;
  }

  method ParseIpHeader(p: NetParser, before: IPv4Header) returns (h: IPv4Header, res: ParseResult)
    requires p.Valid() && p.widths == []
    modifies p
    ensures (h, res, Cursor(p.buffer, p.error)) == DecodeIpHeader(old(Cursor(p.buffer, p.error)), before)
  {
    hide TakeAll, TakeInt, TC.HasBit, HeaderFrom, WordSum, ChecksumOf;
    var original := p.buffer;
    var size := |p.buffer|;
    if size < IP_HEADER_LENGTH {
      return before, PacketTooShort;
    }
    h := ParseIpFields(p);
    if size < 4 * h.hlen {
      return h, PacketTooShort;
    }
    if h.ver != 4 {
      return h, WrongIPVersion;
    }
    if h.hlen < 5 {
      return h, HeaderTooShort;
    }
    if size != h.len {
      return h, TruncatedPacket;
    }
    p.RemovePrefix(h.hlen * 4 - IP_HEADER_LENGTH);
    if p.error != NoError {
      return h, p.error;
    }
    var check := new InternetChecksum(0);
    check.Add(original[..4 * h.hlen]);
    var v := check.Value();
    if v != 0 {
      return h, BadChecksum;
    }
    res := NoError;
  }

  method ParseDatagram(bytes: seq<byte>) returns (d: IPv4Datagram, res: ParseResult)
    ensures (d, res) == DecodeDatagram(bytes)
  {
    hide DecodeIpHeader;
    var p := new NetParser(bytes);
    var h, _ := ParseIpHeader(p, DEFAULT_IP_HEADER);
    d := IPv4Datagram(h, p.buffer);
    if |d.payload| != h.PayloadLength() {
      return d, PacketTooShort;
    }
    res := p.error;
  }

  method UnparseIpFront(h: IPv4Header) returns (r: seq<byte>)
    ensures r == Encode(IpFront(h))
  {
    hide Encode, FirstByte, FlagsAndOffset;
    r := UnparseField([], FirstByte(h), 1, []) by { TC.EncodeNothing(); }
    ghost var fs := [Field(FirstByte(h), 1)];
    assert [] + fs == fs;
    r := UnparseField(r, h.tos, 1, fs);
    r := UnparseField(r, h.len, 2, fs + [Field(h.tos, 1)]);
    fs := fs + [Field(h.tos, 1)] + [Field(h.len, 2)];
    r := UnparseField(r, h.id, 2, fs);
    r := UnparseField(r, FlagsAndOffset(h), 2, fs + [Field(h.id, 2)]);
    fs := fs + [Field(h.id, 2)] + [Field(FlagsAndOffset(h), 2)];
    r := UnparseField(r, h.ttl, 1, fs);
    r := UnparseField(r, h.proto, 1, fs + [Field(h.ttl, 1)]);
    fs := fs + [Field(h.ttl, 1)] + [Field(h.proto, 1)];
    assert fs == IpFront(h);
  }

  /** `IPv4Header::serialize`; `None` stands for the exceptions it throws. */
  method SerializeIpHeader(h: IPv4Header) returns (bytes: Option<seq<byte>>)
    ensures bytes == if h.ver != 4 || h.hlen < 5 then None else Some(EncodeIpHeader(h))
  {
    hide Encode, IpFront;
    if h.ver != 4 || 4 * h.hlen < IP_HEADER_LENGTH {
      return None;
    }
    var r := UnparseIpFront(h);
    r := UnparseField(r, h.cksum, 2, IpFront(h));
    r := UnparseField(r, h.src, 4, IpFront(h) + [Field(h.cksum, 2)]);
    r := UnparseField(r, h.dst, 4, IpFront(h) + [Field(h.cksum, 2)] + [Field(h.src, 4)]);
    assert IpFields(h) == IpFront(h) + [Field(h.cksum, 2)] + [Field(h.src, 4)] + [Field(h.dst, 4)];
    bytes := Some(r + TC.Zeros(4 * h.hlen - IP_HEADER_LENGTH));
  }

  method SerializeDatagram(d: IPv4Datagram) returns (bytes: Option<seq<byte>>)
    ensures bytes == EncodeDatagram(d)
  {
    hide EncodeIpHeader, WordSum, ChecksumOf;
    if |d.payload| != d.header.PayloadLength() {
      return None;
    }
    var h0 := SerializeIpHeader(d.header.(cksum := 0));
    if h0 == None {
      return None;
    }
    var check := new InternetChecksum(0);
    check.Add(h0.value);
    var v := check.Value();
    var h1 := SerializeIpHeader(d.header.(cksum := v));
    bytes := Some(h1.value + d.payload);
  }

  // ---------------------------------------------------------------- round trip

  lemma FlagsAndOffsetRoundTrip(h: IPv4Header)
    requires h.offset < 0x2000
    ensures var f := FlagsAndOffset(h);
            TC.HasBit(f, 0x4000) == h.df && TC.HasBit(f, 0x2000) == h.mf && f % 0x2000 == h.offset
  {
  }

  lemma HeaderFromValues(h: IPv4Header)
    requires h.ver <= 15 && h.hlen <= 15 && h.offset < 0x2000
    ensures HeaderFrom(Values(IpFields(h))) == h
  {
    hide FlagsAndOffset, TC.HasBit;
    FlagsAndOffsetRoundTrip(h);
    assert Values(IpFields(h)) == [FirstByte(h), h.tos, h.len, h.id, FlagsAndOffset(h), h.ttl, h.proto, h.cksum, h.src, h.dst];
  }

  lemma FieldsFit(h: IPv4Header)
    ensures Widths(IpFields(h)) == IP_WIDTHS
    ensures Fit(IpFields(h))
  {
    hide FlagsAndOffset, FirstByte, Pow256;
    PowersOf256();
  }

  lemma FieldsLength(h: IPv4Header)
    ensures |Encode(IpFields(h))| == IP_HEADER_LENGTH
  {
    hide BigEndian;
    var front, mid, back := IpFront(h), [Field(h.cksum, 2)], IpBack(h);
    TC.SevenFieldsLength(front);
    EncodeConcat(front + mid, back);
    EncodeConcat(front, mid);
    EncodeOne(Field(h.cksum, 2));
    BackLength(h);
  }

  lemma IpHeaderSplit(h: IPv4Header, c: u16)
    requires h.hlen >= 5
    ensures EncodeIpHeader(h.(cksum := c))
            == Encode(IpFront(h)) + BigEndian(c, 2) + (Encode(IpBack(h)) + TC.Zeros(4 * h.hlen - IP_HEADER_LENGTH))
  {
    hide BigEndian;
    var front, mid, back := IpFront(h), [Field(c, 2)], IpBack(h);
    assert IpFields(h.(cksum := c)) == front + mid + back;
    EncodeConcat(front + mid, back);
    EncodeConcat(front, mid);
    assert Encode(mid) == BigEndian(c, 2) by { assert mid[1..] == []; }
  }

  lemma IpChecksumField(h: IPv4Header, c: u16)
    requires h.hlen >= 5
    ensures WordSum(EncodeIpHeader(h.(cksum := c)), false) == WordSum(EncodeIpHeader(h.(cksum := 0)), false) + c
    ensures |EncodeIpHeader(h)| == 4 * h.hlen
  {
    hide WordSum;
    TC.SevenFieldsLength(IpFront(h));
    IpHeaderSplit(h, c);
    IpHeaderSplit(h, 0);
    IpHeaderSplit(h, h.cksum);
    TC.ChecksumFieldInSum(IpFront(h), c, Encode(IpBack(h)) + TC.Zeros(4 * h.hlen - IP_HEADER_LENGTH));
    BackLength(h);
  }

  lemma BackLength(h: IPv4Header)
    ensures |Encode(IpBack(h))| == 8
  {
    var fs := IpBack(h);
    var gs := fs[1..];
    assert gs == [Field(h.dst, 4)] && gs[1..] == [];
    assert Encode(gs) == BigEndian(h.dst, 4) + Encode([]);
    assert Encode(fs) == BigEndian(h.src, 4) + Encode(gs);
  }

  /** The checksum put into the header makes it verify to zero. */
  lemma IpHeaderVerifies(h: IPv4Header)
    requires 5 <= h.hlen <= 15
    ensures ChecksumOf(WordSum(EncodeIpHeader(h.(cksum := IpChecksum(h))), false) % TWO32) == 0
  {
    hide EncodeIpHeader, ChecksumOf, WordSum;
    var c := IpChecksum(h);
    IpChecksumField(h, c);
    IpChecksumField(h.(cksum := 0), 0);
    var zeroed := EncodeIpHeader(h.(cksum := 0));
    NoOverflow(zeroed, 0);
    ComplementVerifies(WordSum(zeroed, false));
  }

  /** A well-formed header followed by as much payload as it announces is read back, checksum included. */
  lemma IpHeaderRoundTrip(h: IPv4Header, payload: seq<byte>, before: IPv4Header)
    requires h.WellFormed() && h.cksum == IpChecksum(h) && h.len == 4 * h.hlen + |payload|
    ensures DecodeIpHeader(Cursor(EncodeIpHeader(h) + payload, NoError), before) == (h, NoError, Cursor(payload, NoError))
  {
    hide WordSum, ChecksumOf, TakeAll, HeaderFrom;
    var pad := TC.Zeros(4 * h.hlen - IP_HEADER_LENGTH);
    var bytes := EncodeIpHeader(h) + payload;
    assert bytes == Encode(IpFields(h)) + (pad + payload);
    HeaderFromValues(h);
    FieldsFit(h);
    FieldsRoundTrip(IpFields(h), pad + payload);
    assert (pad + payload)[|pad|..] == payload;
    IpChecksumField(h, h.cksum);
    assert bytes[..4 * h.hlen] == EncodeIpHeader(h);
    assert h.(cksum := h.cksum) == h;
    IpHeaderVerifies(h);
  }

  /** Parsing a serialized datagram returns it, with its header checksum filled in. */
  lemma DatagramRoundTrip(d: IPv4Datagram)
    requires d.header.WellFormed() && d.header.len == 4 * d.header.hlen + |d.payload|
    ensures EncodeDatagram(d).Some?
    ensures DecodeDatagram(EncodeDatagram(d).value)
            == (d.(header := d.header.(cksum := IpChecksum(d.header))), NoError)
  {
    hide EncodeIpHeader, IpChecksum, DecodeIpHeader;
    var h := d.header.(cksum := IpChecksum(d.header));
    assert IpChecksum(h) == IpChecksum(d.header) by { ChecksumIgnoresField(d.header, h); }
    IpHeaderRoundTrip(h, d.payload, DEFAULT_IP_HEADER);
  }

  lemma ChecksumIgnoresField(g: IPv4Header, h: IPv4Header)
    requires g.hlen >= 5 && h == g.(cksum := h.cksum)
    ensures IpChecksum(h) == IpChecksum(g)
  {
  }
}
