/** The TCP wire format (section 3.1 of RFC 793): header, checksum over a pseudo-header, payload. */
module TcpCodec {
  import opened Prelude
  import opened Checksums
  import opened NetParsers
  import opened Segments

  const TCP_HEADER_LENGTH: nat := 20
  const TCP_WIDTHS: seq<nat> := [2, 2, 4, 4, 1, 1, 2, 2, 2]

  function Bit(b: bool, weight: nat): nat {
    if b then weight else 0
  }

  function FlagByte(h: TCPHeader): byte {
    Bit(h.urg, 0x20) + Bit(h.ack, 0x10) + Bit(h.psh, 0x08) + Bit(h.rst, 0x04) + Bit(h.syn, 0x02) + Bit(h.fin, 0x01)
  }

  /** `byte & weight` for a power of two. */
  predicate HasBit(b: nat, weight: nat)
    requires weight > 0
  {
    b / weight % 2 == 1
  }

  /** The fields before the checksum: 16 bytes. */
  function TcpFront(h: TCPHeader): seq<Field> {
    [Field(h.sport, 2), Field(h.dport, 2), Field(h.seqno, 4), Field(h.ackno, 4),
     Field(h.doff * 0x10 % 0x100, 1), Field(FlagByte(h), 1), Field(h.win, 2)]
  }

  function TcpFields(h: TCPHeader): seq<Field> {
    TcpFront(h) + [Field(h.cksum, 2)] + [Field(h.uptr, 2)]
  }

  function HeaderFrom(vs: seq<nat>): TCPHeader
    requires |vs| == 9
  {
    var f := vs[5];
    TCPHeader(vs[0] % TWO16, vs[1] % TWO16, vs[2] % TWO32, vs[3] % TWO32, vs[4] % 0x100 / 0x10,
              HasBit(f, 0x20), HasBit(f, 0x10), HasBit(f, 0x08), HasBit(f, 0x04), HasBit(f, 0x02), HasBit(f, 0x01),
              vs[6] % TWO16, vs[7] % TWO16, vs[8] % TWO16)
  }

  /** `TCPHeader::parse`: the header read, the result it reports, and where the parser then stands. */
  function DecodeTcpHeader(c: Cursor): (TCPHeader, ParseResult, Cursor) {
    var (vs, d) := TakeAll(c, TCP_WIDTHS);
    var h := HeaderFrom(vs);
    if h.doff < 5 then (h, HeaderTooShort, d)
    else var e := SkipBytes(d, h.doff * 4 - TCP_HEADER_LENGTH); (h, e.error, e)
  }

  function Zeros(n: nat): seq<byte> {
    seq(n, _ => 0)
  }

  /** `TCPHeader::serialize`, which refuses a data offset below five. */
  function EncodeTcpHeader(h: TCPHeader): seq<byte>
    requires h.doff >= 5
  {
    Encode(TcpFields(h)) + Zeros(4 * h.doff - TCP_HEADER_LENGTH)
  }

  /** The sum the checksum of a segment is computed from: pseudo-header, header, payload. */
  function SegmentSum(h: TCPHeader, payload: seq<byte>, pseudo: u32): u32
    requires h.doff >= 5
  {
    (pseudo + WordSum(EncodeTcpHeader(h) + payload, false)) % TWO32
  }

  function SegmentChecksum(seg: Segment, pseudo: u32): u16
    requires seg.header.doff >= 5
  {
    ChecksumOf(SegmentSum(seg.header.(cksum := 0), seg.payload, pseudo))
  }

  function EncodeSegment(seg: Segment, pseudo: u32): seq<byte>
    requires seg.header.doff >= 5
  {
    EncodeTcpHeader(seg.header.(cksum := SegmentChecksum(seg, pseudo))) + seg.payload
  }

  /** `TCPSegment::parse`; the header parser's own verdict is ignored. */
  function DecodeSegment(bytes: seq<byte>, pseudo: u32): (Segment, ParseResult) {
    if ChecksumOf((pseudo + WordSum(bytes, false)) % TWO32) != 0 then
      (Segment(DEFAULT_HEADER, []), BadChecksum)
    else
      var (h, _, c) := DecodeTcpHeader(Cursor(bytes, NoError));
      (Segment(h, c.buffer), c.error)
  }

  // ---------------------------------------------------------------- the implementation

  /** Ports and sequence numbers. */
  method ParseNumbers(p: NetParser) returns (sport: nat, dport: nat, seqno: nat, ackno: nat)
    requires p.Valid() && p.widths == [] && p.values == []
    modifies p
    ensures p.Valid() && p.widths == [2, 2, 4, 4] && p.values == [sport, dport, seqno, ackno]
  {
    hide NetParser.Valid, TakeInt;
    sport := p.ParseInt(2);
    dport := p.ParseInt(2);
    seqno := p.ParseInt(4);
    ackno := p.ParseInt(4);
  }

  /** Data offset, flags, window, checksum and urgent pointer. */
  method ParseControl(p: NetParser, ghost vs: seq<nat>) returns (d: nat, f: nat, win: nat, cksum: nat, uptr: nat)
    requires p.Valid() && p.widths == [2, 2, 4, 4] && p.values == vs
    modifies p
    ensures p.Valid() && p.widths == TCP_WIDTHS && p.values == vs + [d, f, win, cksum, uptr]
  {
    hide NetParser.Valid, TakeInt;
    d := p.ParseInt(1);
    f := p.ParseInt(1);
    win := p.ParseInt(2);
    cksum := p.ParseInt(2);
    uptr := p.ParseInt(2);
  }

  method ParseTcpHeader(p: NetParser) returns (h: TCPHeader, res: ParseResult)
    requires p.Valid() && p.widths == []
    modifies p
    ensures (h, res, Cursor(p.buffer, p.error)) == DecodeTcpHeader(old(Cursor(p.buffer, p.error)))
  {
    assert p.start == Cursor(p.buffer, p.error) && p.values == [];
    hide TakeAll, TakeInt, HasBit;
    var sport, dport, seqno, ackno := ParseNumbers(p);
    var d, f, win, cksum, uptr := ParseControl(p, [sport, dport, seqno, ackno]);
    h := TCPHeader(sport % TWO16, dport % TWO16, seqno % TWO32, ackno % TWO32, d % 0x100 / 0x10,
                   HasBit(f, 0x20), HasBit(f, 0x10), HasBit(f, 0x08), HasBit(f, 0x04), HasBit(f, 0x02), HasBit(f, 0x01),
                   win % TWO16, cksum % TWO16, uptr % TWO16);
    assert HeaderFrom(p.values) == h;
    if h.doff < 5 {
      return h, HeaderTooShort;
    }
    p.RemovePrefix(h.doff * 4 - TCP_HEADER_LENGTH);
    res := p.error;
  }

  method UnparseFront(h: TCPHeader) returns (r: seq<byte>)
    ensures r == Encode(TcpFront(h))
  {
    hide Encode, FlagByte;
    r := UnparseField([], h.sport, 2, []) by { EncodeNothing(); }
    ghost var fs := [Field(h.sport, 2)];
    assert [] + fs == fs;
    r := UnparseField(r, h.dport, 2, fs);
    r := UnparseField(r, h.seqno, 4, fs + [Field(h.dport, 2)]);
    fs := fs + [Field(h.dport, 2)] + [Field(h.seqno, 4)];
    r := UnparseField(r, h.ackno, 4, fs);
    r := UnparseField(r, h.doff * 0x10 % 0x100, 1, fs + [Field(h.ackno, 4)]);
    fs := fs + [Field(h.ackno, 4)] + [Field(h.doff * 0x10 % 0x100, 1)];
    r := UnparseField(r, FlagByte(h), 1, fs);
    r := UnparseField(r, h.win, 2, fs + [Field(FlagByte(h), 1)]);
    fs := fs + [Field(FlagByte(h), 1)] + [Field(h.win, 2)];
    assert fs == TcpFront(h);
  }

  lemma EncodeNothing()
    ensures Encode([]) == []
  {
  }

  method SerializeTcpHeader(h: TCPHeader) returns (bytes: Option<seq<byte>>)
    ensures bytes == if h.doff < 5 then None else Some(EncodeTcpHeader(h))
  {
    hide Encode, TcpFront;
    if h.doff < 5 {
      return None;
    }
    var r := UnparseFront(h);
    r := UnparseField(r, h.cksum, 2, TcpFront(h));
    r := UnparseField(r, h.uptr, 2, TcpFront(h) + [Field(h.cksum, 2)]);
    bytes := Some(r + Zeros(4 * h.doff - TCP_HEADER_LENGTH));
  }

  method SerializeSegment(seg: Segment, pseudo: u32) returns (bytes: Option<seq<byte>>)
    ensures bytes == if seg.header.doff < 5 then None else Some(EncodeSegment(seg, pseudo))
  {
    var zeroed := seg.header.(cksum := 0);
    var h0 := SerializeTcpHeader(zeroed);
    if h0 == None {
      return None;
    }
    var check := new InternetChecksum(pseudo);
    check.Add(h0.value);
    check.Add(seg.payload);
    SumInTwoParts(pseudo, h0.value, seg.payload);
    var v := check.Value();
    var h1 := SerializeTcpHeader(seg.header.(cksum := v));
    bytes := Some(h1.value + seg.payload);
  }

  lemma SumInTwoParts(initial: u32, a: seq<byte>, b: seq<byte>)
    ensures ((initial + WordSum(a, false)) % TWO32 + WordSum(b, ParityAfter(false, |a|))) % TWO32
            == (initial + WordSum(a + b, false)) % TWO32
  {
    hide WordSum;
    WordSumConcat(a, b, false);
    Add32Counts(initial + WordSum(a, false), WordSum(b, ParityAfter(false, |a|)));
  }

  method ParseSegment(bytes: seq<byte>, pseudo: u32) returns (seg: Segment, res: ParseResult)
    ensures (seg, res) == DecodeSegment(bytes, pseudo)
  {
    var check := new InternetChecksum(pseudo);
    check.Add(bytes);
    var v := check.Value();
    if v != 0 {
      return Segment(DEFAULT_HEADER, []), BadChecksum;
    }
    var p := new NetParser(bytes);
    var h, _ := ParseTcpHeader(p);
    seg, res := Segment(h, p.buffer), p.error;
  }

  // ---------------------------------------------------------------- round trip

  lemma FlagsRoundTrip(h: TCPHeader)
    ensures var f := FlagByte(h);
            && HasBit(f, 0x20) == h.urg && HasBit(f, 0x10) == h.ack && HasBit(f, 0x08) == h.psh
            && HasBit(f, 0x04) == h.rst && HasBit(f, 0x02) == h.syn && HasBit(f, 0x01) == h.fin
  {
  }

  lemma HeaderFromValues(h: TCPHeader)
    requires h.doff <= 15
    ensures HeaderFrom(Values(TcpFields(h))) == h
  {
    hide FlagByte, HasBit;
    FlagsRoundTrip(h);
    assert Values(TcpFields(h)) == [h.sport, h.dport, h.seqno, h.ackno, h.doff * 0x10 % 0x100, FlagByte(h), h.win, h.cksum, h.uptr];
  }

  lemma FieldsFit(h: TCPHeader)
    ensures Widths(TcpFields(h)) == TCP_WIDTHS
    ensures Fit(TcpFields(h))
  {
    hide FlagByte, Pow256;
    PowersOf256();
  }

  /** Whatever the options (skipped as padding), a parsed header is the serialized one. */
  lemma TcpHeaderRoundTrip(h: TCPHeader, payload: seq<byte>)
    requires 5 <= h.doff <= 15
    ensures DecodeTcpHeader(Cursor(EncodeTcpHeader(h) + payload, NoError)) == (h, NoError, Cursor(payload, NoError))
  {
    var pad := Zeros(4 * h.doff - TCP_HEADER_LENGTH);
    assert EncodeTcpHeader(h) + payload == Encode(TcpFields(h)) + (pad + payload);
    HeaderFromValues(h);
    FieldsFit(h);
    FieldsRoundTrip(TcpFields(h), pad + payload);
    assert (pad + payload)[|pad|..] == payload;
  }

  lemma SevenFieldsLength(fs: seq<Field>)
    requires |fs| == 7
    ensures |Encode(fs)| == fs[0].width + fs[1].width + fs[2].width + fs[3].width + fs[4].width + fs[5].width + fs[6].width
  {
    assert |Encode(fs[6..])| == fs[6].width by { assert fs[6..][1..] == []; }
    forall i | 0 <= i < 6
      ensures |Encode(fs[i..])| == fs[i].width + |Encode(fs[i + 1..])|
    {
      assert fs[i..][1..] == fs[i + 1..];
    }
    assert fs[0..] == fs;
  }

  /** A checksum field at an even offset contributes exactly its value to the sum. */
  lemma ChecksumFieldInSum(front: seq<Field>, c: u16, rest: seq<byte>)
    requires |Encode(front)| % 2 == 0
    ensures WordSum(Encode(front) + BigEndian(c, 2) + rest, false)
            == WordSum(Encode(front) + BigEndian(0, 2) + rest, false) + c
  {
    ChecksumFieldSplit(front, c, rest);
    ChecksumFieldSplit(front, 0, rest);
  }

  lemma ChecksumFieldSplit(front: seq<Field>, c: u16, rest: seq<byte>)
    requires |Encode(front)| % 2 == 0
    ensures WordSum(Encode(front) + BigEndian(c, 2) + rest, false) == WordSum(Encode(front), false) + c + WordSum(rest, false)
  {
    hide WordSum, BigEndian, Encode;
    var a, b := Encode(front), BigEndian(c, 2);
    WordSumConcat(a + b, rest, false);
    WordSumConcat(a, b, false);
    WordSumOfTwo(c);
  }

  lemma WordSumOfTwo(c: u16)
    ensures WordSum(BigEndian(c, 2), false) == c
  {
    assert BigEndian(c / 0x100, 1) == BigEndian(c / 0x100 / 0x100, 0) + [c / 0x100 % 0x100];
    var b := [c / 0x100, c % 0x100];
    assert BigEndian(c, 2) == b;
    assert b[1..] == [c % 0x100] && b[1..][1..] == [];
    assert WordSum(b[1..], true) == c % 0x100 + WordSum([], false);
  }

  lemma TcpChecksumField(h: TCPHeader, c: u16, payload: seq<byte>)
    requires h.doff >= 5
    ensures WordSum(EncodeTcpHeader(h.(cksum := c)) + payload, false)
            == WordSum(EncodeTcpHeader(h.(cksum := 0)) + payload, false) + c
    ensures |EncodeTcpHeader(h)| == 4 * h.doff
  {
    var front := TcpFront(h);
    var post := [Field(h.uptr, 2)];
    var rest := Encode(post) + Zeros(4 * h.doff - TCP_HEADER_LENGTH) + payload;
    SevenFieldsLength(front);
    TcpHeaderSplit(h, c, payload);
    TcpHeaderSplit(h, 0, payload);
    TcpHeaderSplit(h, h.cksum, []);
    ChecksumFieldInSum(front, c, rest);
    assert |Encode(post)| == 2 by { assert post[1..] == []; }
  }

  lemma TcpHeaderSplit(h: TCPHeader, c: u16, payload: seq<byte>)
    requires h.doff >= 5
    ensures EncodeTcpHeader(h.(cksum := c)) + payload
            == Encode(TcpFront(h)) + BigEndian(c, 2)
               + (Encode([Field(h.uptr, 2)]) + Zeros(4 * h.doff - TCP_HEADER_LENGTH) + payload)
  {
    hide BigEndian;
    var front, mid, post := TcpFront(h), [Field(c, 2)], [Field(h.uptr, 2)];
    assert TcpFields(h.(cksum := c)) == front + mid + post;
    EncodeConcat(front + mid, post);
    EncodeConcat(front, mid);
    assert Encode(mid) == BigEndian(c, 2) by { assert mid[1..] == []; }
  }

  /** Parsing a serialized segment under the same pseudo-header returns it, with its checksum filled in. */
  lemma SegmentRoundTrip(seg: Segment, pseudo: u32)
    requires 5 <= seg.header.doff <= 15 && 4 * seg.header.doff + |seg.payload| <= 0xffff
    requires pseudo <= 0x7fff_0000
    ensures var c := SegmentChecksum(seg, pseudo);
            && ChecksumOf((pseudo + WordSum(EncodeSegment(seg, pseudo), false)) % TWO32) == 0
            && DecodeSegment(EncodeSegment(seg, pseudo), pseudo)
               == (Segment(seg.header.(cksum := c), seg.payload), NoError)
  {
    hide EncodeTcpHeader, ChecksumOf, WordSum, DecodeTcpHeader;
    var c := SegmentChecksum(seg, pseudo);
    var zeroed := EncodeTcpHeader(seg.header.(cksum := 0)) + seg.payload;
    TcpChecksumField(seg.header, c, seg.payload);
    TcpChecksumField(seg.header.(cksum := 0), 0, seg.payload);
    NoOverflow(zeroed, pseudo);
    var x := pseudo + WordSum(zeroed, false);
    assert SegmentSum(seg.header.(cksum := 0), seg.payload, pseudo) == x;
    ComplementVerifies(x);
    TcpHeaderRoundTrip(seg.header.(cksum := c), seg.payload);
  }
}
