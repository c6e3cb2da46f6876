/**
  The wire formats byte by byte, as the figures of section 3.1 of RFC 793 and section 3.1 of RFC 791 draw
  them: where each field lies in what is serialized, and from where it is read in arbitrary bytes.
 */
module WireLayout {
  import opened Prelude
  import opened Checksums
  import opened NetParsers
  import opened Segments
  import TC = TcpCodec
  import IP = Ipv4Codec

  /** The 16-bit number at offset `i`, high byte first. */
  function U16At(b: seq<byte>, i: nat): (v: int)
    requires i + 2 <= |b|
    ensures 0 <= v < TWO16
  {
    var high: int := b[i];
    high * 0x100 + b[i + 1]
  }

  /** The 32-bit number at offset `i`, high byte first. */
  function U32At(b: seq<byte>, i: nat): (v: int)
    requires i + 4 <= |b|
    ensures 0 <= v < TWO32
  {
    U16At(b, i) * 0x1_0000 + U16At(b, i + 2)
  }

  // ---------------------------------------------------------------- network byte order

  lemma EncodedByte(v: byte)
    ensures BigEndian(v, 1) == [v]
  {
    assert BigEndian(v, 1) == BigEndian(v / 0x100, 0) + [v % 0x100];
  }

  lemma EncodedU16(v: u16)
    ensures U16At(BigEndian(v, 2), 0) == v
  {
    EncodedByte(v / 0x100);
    assert BigEndian(v, 2) == BigEndian(v / 0x100, 1) + [v % 0x100];
  }

  lemma EncodedU32(v: u32)
    ensures U32At(BigEndian(v, 4), 0) == v
  {
    var a, b, c := v / 0x100, v / 0x100 / 0x100, v / 0x100 / 0x100 / 0x100;
    EncodedByte(c);
    assert BigEndian(b, 2) == BigEndian(c, 1) + [b % 0x100];
    assert BigEndian(a, 3) == BigEndian(b, 2) + [a % 0x100];
    assert BigEndian(v, 4) == BigEndian(a, 3) + [v % 0x100];
  }

  lemma DecodedByte(s: seq<byte>)
    requires |s| == 1
    ensures FromBigEndian(s) == s[0]
  {
    assert s[..0] == [];
  }

  lemma DecodedU16(s: seq<byte>)
    requires |s| == 2
    ensures FromBigEndian(s) == U16At(s, 0)
  {
    DecodedByte(s[..1]);
  }

  lemma DecodedU32(s: seq<byte>)
    requires |s| == 4
    ensures FromBigEndian(s) == U32At(s, 0)
  {
    DecodedU16(s[..2]);
    assert s[..3][..2] == s[..2];
    assert FromBigEndian(s[..3]) == FromBigEndian(s[..2]) * 0x100 + s[2];
  }

  // ---------------------------------------------------------------- fields and offsets

  /** Where field `i` starts. */
  function Offset(ws: seq<nat>, i: nat): nat
    requires i <= |ws|
  {
    if i == 0 then 0 else Offset(ws, i - 1) + ws[i - 1]
  }

  lemma {:induction false} OffsetOfFront(ws: seq<nat>, n: nat, i: nat)
    requires i <= n <= |ws|
    ensures Offset(ws[..n], i) == Offset(ws, i)
    decreases i
  {
    if i > 0 {
      OffsetOfFront(ws, n, i - 1);
    }
  }

  lemma {:induction false} OffsetGrows(ws: seq<nat>, i: nat, j: nat)
    requires i <= j <= |ws|
    ensures Offset(ws, i) <= Offset(ws, j)
    decreases j
  {
    if i < j {
      OffsetGrows(ws, i, j - 1);
    }
  }

  /** The bytes of field `i`. */
  function FieldBytes(b: seq<byte>, ws: seq<nat>, i: nat): seq<byte>
    requires i < |ws| && Offset(ws, i + 1) <= |b|
  {
    b[Offset(ws, i)..Offset(ws, i + 1)]
  }

  lemma {:induction false} EncodedLength(fs: seq<Field>)
    ensures |Encode(fs)| == Offset(Widths(fs), |fs|)
    decreases |fs|
  {
    hide BigEndian;
    if fs != [] {
      var n := |fs| - 1;
      EncodedLength(fs[..n]);
      LastFieldApart(fs, []);
      assert Widths(fs[..n]) == Widths(fs)[..n];
      OffsetOfFront(Widths(fs), n, n);
    }
  }

  /** Serialized fields lie one behind the other. */
  lemma {:induction false} EncodedAt(fs: seq<Field>, i: nat)
    requires i < |fs|
    ensures |Encode(fs)| == Offset(Widths(fs), |fs|) && Offset(Widths(fs), i + 1) <= |Encode(fs)|
    ensures FieldBytes(Encode(fs), Widths(fs), i) == BigEndian(fs[i].value, fs[i].width)
    decreases |fs|
  {
    hide Encode, BigEndian;
    var n, ws := |fs| - 1, Widths(fs);
    EncodedLength(fs);
    EncodedLength(fs[..n]);
    OffsetGrows(ws, i + 1, |fs|);
    LastFieldApart(fs, []);
    assert Widths(fs[..n]) == ws[..n];
    OffsetOfFront(ws, n, n);
    var a, z := Encode(fs[..n]), BigEndian(fs[n].value, fs[n].width);
    assert Encode(fs) == a + z by { assert Encode(fs) + [] == Encode(fs) && z + [] == z; }
    if i < n {
      EncodedAt(fs[..n], i);
      OffsetOfFront(ws, n, i);
      OffsetOfFront(ws, n, i + 1);
      SliceOfFront(a, z, Offset(ws, i), Offset(ws, i + 1));
    } else {
      assert (a + z)[|a|..|a| + |z|] == z;
    }
  }

  lemma SliceOfFront(a: seq<byte>, z: seq<byte>, lo: nat, hi: nat)
    requires lo <= hi <= |a|
    ensures (a + z)[lo..hi] == a[lo..hi]
  {
  }

  /** Enough bytes are read up to where the fields end. */
  lemma {:induction false} TakenRest(b: seq<byte>, ws: seq<nat>)
    requires Offset(ws, |ws|) <= |b|
    ensures TakeAll(Cursor(b, NoError), ws).1 == Cursor(b[Offset(ws, |ws|)..], NoError)
    decreases |ws|
  {
    hide FromBigEndian;
    if ws == [] {
      assert b[0..] == b;
    } else {
      var n := |ws| - 1;
      OffsetOfFront(ws, n, n);
      TakenRest(b, ws[..n]);
      var at := Offset(ws, n);
      assert b[at..][ws[n]..] == b[at + ws[n]..];
    }
  }

  /** Each field is read from where it lies. */
  lemma {:induction false} TakenAt(b: seq<byte>, ws: seq<nat>, i: nat)
    requires Offset(ws, |ws|) <= |b| && i < |ws|
    ensures Offset(ws, i + 1) <= |b| && TakeAll(Cursor(b, NoError), ws).0[i] == FromBigEndian(FieldBytes(b, ws, i))
    decreases |ws|
  {
    hide FromBigEndian;
    var n := |ws| - 1;
    OffsetGrows(ws, i + 1, |ws|);
    OffsetOfFront(ws, n, n);
    if i < n {
      OffsetOfFront(ws, n, i);
      OffsetOfFront(ws, n, i + 1);
      TakenAt(b, ws[..n], i);
    } else {
      TakenRest(b, ws[..n]);
      var at := Offset(ws, n);
      assert b[at..][..ws[n]] == b[at..at + ws[n]];
    }
  }

  /** Once a field does not fit, the error stays. */
  lemma {:induction false} TooShort(c: Cursor, ws: seq<nat>)
    requires c.error == NoError && |c.buffer| < Offset(ws, |ws|)
    ensures TakeAll(c, ws).1.error == PacketTooShort
    decreases |ws|
  {
    var n := |ws| - 1;
    OffsetOfFront(ws, n, n);
    if |c.buffer| < Offset(ws, n) {
      TooShort(c, ws[..n]);
    } else {
      TakenRest(c.buffer, ws[..n]);
    }
  }

  // ---------------------------------------------------------------- TCP

  lemma TcpOffsets()
    ensures var o := i requires 0 <= i <= 9 => Offset(TC.TCP_WIDTHS, i);
            && o(0) == 0 && o(1) == 2 && o(2) == 4 && o(3) == 8 && o(4) == 12 && o(5) == 13 && o(6) == 14
            && o(7) == 16 && o(8) == 18 && o(9) == 20
  {
    var ws := TC.TCP_WIDTHS;
    assert Offset(ws, 3) == 8;
    assert Offset(ws, 6) == 14;
    assert Offset(ws, 8) == 18;
  }

  /** The header occupies these bytes in this order. */
  ghost predicate TcpHeaderAt(b: seq<byte>, h: TCPHeader)
    requires |b| >= 20
  {
    && U16At(b, 0) == h.sport && U16At(b, 2) == h.dport
    && U32At(b, 4) == h.seqno
    && U32At(b, 8) == h.ackno
    && b[12] / 0x10 == h.doff
    && b[13] / 32 % 2 == (if h.urg then 1 else 0) && b[13] / 16 % 2 == (if h.ack then 1 else 0)
    && b[13] / 8 % 2 == (if h.psh then 1 else 0) && b[13] / 4 % 2 == (if h.rst then 1 else 0)
    && b[13] / 2 % 2 == (if h.syn then 1 else 0) && b[13] % 2 == (if h.fin then 1 else 0)
    && U16At(b, 14) == h.win
    && U16At(b, 16) == h.cksum && U16At(b, 18) == h.uptr
  }

  /** What the nine fields of a header are serialized to. */
  lemma TcpFieldBytes(h: TCPHeader, b: seq<byte>)
    requires b == Encode(TC.TcpFields(h))
    ensures |b| == 20
    ensures b[0..2] == BigEndian(h.sport, 2) && b[2..4] == BigEndian(h.dport, 2)
    ensures b[4..8] == BigEndian(h.seqno, 4) && b[8..12] == BigEndian(h.ackno, 4)
    ensures b[12..13] == BigEndian(h.doff * 0x10 % 0x100, 1) && b[13..14] == BigEndian(TC.FlagByte(h), 1)
    ensures b[14..16] == BigEndian(h.win, 2) && b[16..18] == BigEndian(h.cksum, 2) && b[18..20] == BigEndian(h.uptr, 2)
  {
    hide Encode, BigEndian, TC.FlagByte, Offset;
    var fs := TC.TcpFields(h);
    assert Widths(fs) == TC.TCP_WIDTHS;
    TcpOffsets();
    EncodedAt(fs, 0);
    EncodedAt(fs, 1);
    EncodedAt(fs, 2);
    EncodedAt(fs, 3);
    EncodedAt(fs, 4);
    EncodedAt(fs, 5);
    EncodedAt(fs, 6);
    EncodedAt(fs, 7);
    EncodedAt(fs, 8);
  }

  /** A serialized header has its fields where the format puts them, and zeros behind. */
  lemma TcpHeaderLayout(h: TCPHeader)
    requires 5 <= h.doff <= 15
    ensures var b := TC.EncodeTcpHeader(h);
            |b| == 4 * h.doff && TcpHeaderAt(b, h) && forall i :: 20 <= i < |b| ==> b[i] == 0
  {
    hide Encode, BigEndian, TC.TcpFields, TC.FlagByte;
    var b := Encode(TC.TcpFields(h));
    TcpFieldBytes(h, b);
    TcpNumbers(h, b);
    TcpControl(h, b);
    var all := TC.EncodeTcpHeader(h);
    assert forall i :: 0 <= i < 20 ==> all[i] == b[i];
  }

  lemma TcpNumbers(h: TCPHeader, b: seq<byte>)
    requires |b| == 20
    requires b[0..2] == BigEndian(h.sport, 2) && b[2..4] == BigEndian(h.dport, 2)
    requires b[4..8] == BigEndian(h.seqno, 4) && b[8..12] == BigEndian(h.ackno, 4)
    requires b[14..16] == BigEndian(h.win, 2) && b[16..18] == BigEndian(h.cksum, 2) && b[18..20] == BigEndian(h.uptr, 2)
    ensures U16At(b, 0) == h.sport && U16At(b, 2) == h.dport && U32At(b, 4) == h.seqno && U32At(b, 8) == h.ackno
    ensures U16At(b, 14) == h.win && U16At(b, 16) == h.cksum && U16At(b, 18) == h.uptr
  {
    hide BigEndian;
    EncodedU16(h.sport);
    EncodedU16(h.dport);
    EncodedU32(h.seqno);
    EncodedU32(h.ackno);
    EncodedU16(h.win);
    EncodedU16(h.cksum);
    EncodedU16(h.uptr);
  }

  lemma TcpControl(h: TCPHeader, b: seq<byte>)
    requires |b| == 20 && h.doff <= 15
    requires b[12..13] == BigEndian(h.doff * 0x10 % 0x100, 1) && b[13..14] == BigEndian(TC.FlagByte(h), 1)
    ensures b[12] / 0x10 == h.doff
    ensures b[13] / 32 % 2 == (if h.urg then 1 else 0) && b[13] / 16 % 2 == (if h.ack then 1 else 0)
    ensures b[13] / 8 % 2 == (if h.psh then 1 else 0) && b[13] / 4 % 2 == (if h.rst then 1 else 0)
    ensures b[13] / 2 % 2 == (if h.syn then 1 else 0) && b[13] % 2 == (if h.fin then 1 else 0)
  {
    hide BigEndian;
    EncodedByte(h.doff * 0x10 % 0x100);
    EncodedByte(TC.FlagByte(h));
    assert b[12] == b[12..13][0] && b[13] == b[13..14][0];
  }

  /** From any bytes at all the fields are read from where the format puts them. */
  lemma TcpHeaderRead(b: seq<byte>)
    requires |b| >= 20
    ensures var (h, res, c) := TC.DecodeTcpHeader(Cursor(b, NoError));
            && TcpHeaderAt(b, h)
            && (if h.doff < 5 then res == HeaderTooShort && c == Cursor(b[20..], NoError)
                else if |b| < 4 * h.doff then res == PacketTooShort && c == Cursor(b[20..], PacketTooShort)
                else res == NoError && c == Cursor(b[4 * h.doff..], NoError))
  {
    hide TakeAll, FromBigEndian, Offset, TC.HeaderFrom;
    var ws := TC.TCP_WIDTHS;
    TcpOffsets();
    TakenRest(b, ws);
    TakenAt(b, ws, 0);
    TakenAt(b, ws, 1);
    TakenAt(b, ws, 2);
    TakenAt(b, ws, 3);
    TakenAt(b, ws, 4);
    TakenAt(b, ws, 5);
    TakenAt(b, ws, 6);
    TakenAt(b, ws, 7);
    TakenAt(b, ws, 8);
    var vs := TakeAll(Cursor(b, NoError), ws).0;
    TcpValues(b, vs);
    TcpHeaderFrom(b, vs);
    var h := TC.HeaderFrom(vs);
    if 5 <= h.doff && 4 * h.doff <= |b| {
      assert b[20..][4 * h.doff - 20..] == b[4 * h.doff..];
    }
  }

  lemma TcpValues(b: seq<byte>, vs: seq<nat>)
    requires |b| >= 20 && |vs| == 9
    requires vs[0] == FromBigEndian(b[0..2]) && vs[1] == FromBigEndian(b[2..4])
    requires vs[2] == FromBigEndian(b[4..8]) && vs[3] == FromBigEndian(b[8..12])
    requires vs[4] == FromBigEndian(b[12..13]) && vs[5] == FromBigEndian(b[13..14])
    requires vs[6] == FromBigEndian(b[14..16]) && vs[7] == FromBigEndian(b[16..18]) && vs[8] == FromBigEndian(b[18..20])
    ensures vs[0] == U16At(b, 0) && vs[1] == U16At(b, 2) && vs[2] == U32At(b, 4) && vs[3] == U32At(b, 8)
    ensures vs[4] == b[12] && vs[5] == b[13]
    ensures vs[6] == U16At(b, 14) && vs[7] == U16At(b, 16) && vs[8] == U16At(b, 18)
  {
    hide FromBigEndian;
    DecodedU16(b[0..2]);
    DecodedU16(b[2..4]);
    DecodedU32(b[4..8]);
    DecodedU32(b[8..12]);
    DecodedByte(b[12..13]);
    DecodedByte(b[13..14]);
    DecodedU16(b[14..16]);
    DecodedU16(b[16..18]);
    DecodedU16(b[18..20]);
  }

  lemma TcpHeaderFrom(b: seq<byte>, vs: seq<nat>)
    requires |b| >= 20 && |vs| == 9
    requires vs[0] == U16At(b, 0) && vs[1] == U16At(b, 2) && vs[2] == U32At(b, 4) && vs[3] == U32At(b, 8)
    requires vs[4] == b[12] && vs[5] == b[13]
    requires vs[6] == U16At(b, 14) && vs[7] == U16At(b, 16) && vs[8] == U16At(b, 18)
    ensures TcpHeaderAt(b, TC.HeaderFrom(vs))
  {
    hide U16At, U32At;
  }

  /** Fewer than twenty bytes are an error of the parser. */
  lemma TcpHeaderTooShort(b: seq<byte>)
    requires |b| < 20
    ensures TC.DecodeTcpHeader(Cursor(b, NoError)).2.error == PacketTooShort
  {
    hide TakeAll, Offset, TC.HeaderFrom;
    TcpOffsets();
    TooShort(Cursor(b, NoError), TC.TCP_WIDTHS);
  }

  /** A serialized segment: the header, whose checksum makes everything sum up, then the payload. */
  lemma SegmentLayout(seg: Segment, pseudo: u32)
    requires 5 <= seg.header.doff <= 15
    ensures var b := TC.EncodeSegment(seg, pseudo);
            && |b| == 4 * seg.header.doff + |seg.payload|
            && TcpHeaderAt(b, seg.header.(cksum := TC.SegmentChecksum(seg, pseudo)))
            && b[4 * seg.header.doff..] == seg.payload
  {
    hide TC.EncodeTcpHeader, TC.SegmentChecksum;
    var h := seg.header.(cksum := TC.SegmentChecksum(seg, pseudo));
    TcpHeaderLayout(h);
    var a, b := TC.EncodeTcpHeader(h), TC.EncodeSegment(seg, pseudo);
    assert forall i :: 0 <= i < |a| ==> b[i] == a[i];
  }

  // ---------------------------------------------------------------- IPv4

  lemma IpOffsets()
    ensures var o := i requires 0 <= i <= 10 => Offset(IP.IP_WIDTHS, i);
            && o(0) == 0 && o(1) == 1 && o(2) == 2 && o(3) == 4 && o(4) == 6 && o(5) == 8 && o(6) == 9
            && o(7) == 10 && o(8) == 12 && o(9) == 16 && o(10) == 20
  {
    var ws := IP.IP_WIDTHS;
    assert Offset(ws, 3) == 4;
    assert Offset(ws, 6) == 9;
    assert Offset(ws, 9) == 16;
  }

  ghost predicate IpHeaderAt(b: seq<byte>, h: IP.IPv4Header)
    requires |b| >= 20
  {
    && b[0] / 0x10 == h.ver && b[0] % 0x10 == h.hlen
    && b[1] == h.tos
    && U16At(b, 2) == h.len
    && U16At(b, 4) == h.id
    && b[6] / 64 % 2 == (if h.df then 1 else 0) && b[6] / 32 % 2 == (if h.mf then 1 else 0)
    && U16At(b, 6) % 0x2000 == h.offset
    && b[8] == h.ttl && b[9] == h.proto
    && U16At(b, 10) == h.cksum
    && U32At(b, 12) == h.src
    && U32At(b, 16) == h.dst
  }

  lemma IpFieldBytes(h: IP.IPv4Header, b: seq<byte>)
    requires b == Encode(IP.IpFields(h))
    ensures |b| == 20
    ensures b[0..1] == BigEndian(IP.FirstByte(h), 1) && b[1..2] == BigEndian(h.tos, 1)
    ensures b[2..4] == BigEndian(h.len, 2) && b[4..6] == BigEndian(h.id, 2)
    ensures b[6..8] == BigEndian(IP.FlagsAndOffset(h), 2)
    ensures b[8..9] == BigEndian(h.ttl, 1) && b[9..10] == BigEndian(h.proto, 1)
    ensures b[10..12] == BigEndian(h.cksum, 2)
    ensures b[12..16] == BigEndian(h.src, 4) && b[16..20] == BigEndian(h.dst, 4)
  {
    hide Encode, BigEndian, IP.FirstByte, IP.FlagsAndOffset, Offset;
    var fs := IP.IpFields(h);
    assert Widths(fs) == IP.IP_WIDTHS;
    IpOffsets();
    EncodedAt(fs, 0);
    EncodedAt(fs, 1);
    EncodedAt(fs, 2);
    EncodedAt(fs, 3);
    EncodedAt(fs, 4);
    EncodedAt(fs, 5);
    EncodedAt(fs, 6);
    EncodedAt(fs, 7);
    EncodedAt(fs, 8);
    EncodedAt(fs, 9);
  }

  lemma IpNumbers(h: IP.IPv4Header, b: seq<byte>)
    requires |b| == 20
    requires b[1..2] == BigEndian(h.tos, 1)
    requires b[2..4] == BigEndian(h.len, 2) && b[4..6] == BigEndian(h.id, 2)
    requires b[8..9] == BigEndian(h.ttl, 1) && b[9..10] == BigEndian(h.proto, 1)
    requires b[10..12] == BigEndian(h.cksum, 2)
    requires b[12..16] == BigEndian(h.src, 4) && b[16..20] == BigEndian(h.dst, 4)
    ensures b[1] == h.tos && U16At(b, 2) == h.len && U16At(b, 4) == h.id && b[8] == h.ttl && b[9] == h.proto
    ensures U16At(b, 10) == h.cksum && U32At(b, 12) == h.src && U32At(b, 16) == h.dst
  {
    hide BigEndian;
    EncodedByte(h.tos);
    EncodedU16(h.len);
    EncodedU16(h.id);
    EncodedByte(h.ttl);
    EncodedByte(h.proto);
    EncodedU16(h.cksum);
    EncodedU32(h.src);
    EncodedU32(h.dst);
    assert b[1] == b[1..2][0] && b[8] == b[8..9][0] && b[9] == b[9..10][0];
  }

  lemma IpBits(h: IP.IPv4Header, b: seq<byte>)
    requires |b| == 20 && h.ver <= 15 && h.hlen <= 15 && h.offset < 0x2000
    requires b[0..1] == BigEndian(IP.FirstByte(h), 1) && b[6..8] == BigEndian(IP.FlagsAndOffset(h), 2)
    ensures b[0] / 0x10 == h.ver && b[0] % 0x10 == h.hlen
    ensures b[6] / 64 % 2 == (if h.df then 1 else 0) && b[6] / 32 % 2 == (if h.mf then 1 else 0)
    ensures U16At(b, 6) % 0x2000 == h.offset
  {
    hide BigEndian;
    EncodedByte(IP.FirstByte(h));
    EncodedU16(IP.FlagsAndOffset(h));
    assert b[0] == b[0..1][0] && b[6] == b[6..8][0] && b[7] == b[6..8][1];
  }

  lemma IpHeaderLayout(h: IP.IPv4Header)
    requires h.ver <= 15 && 5 <= h.hlen <= 15 && h.offset < 0x2000
    ensures var b := IP.EncodeIpHeader(h);
            |b| == 4 * h.hlen && IpHeaderAt(b, h) && forall i :: 20 <= i < |b| ==> b[i] == 0
  {
    hide Encode, BigEndian, IP.IpFields, IP.FirstByte, IP.FlagsAndOffset;
    var b := Encode(IP.IpFields(h));
    IpFieldBytes(h, b);
    IpNumbers(h, b);
    IpBits(h, b);
    var all := IP.EncodeIpHeader(h);
    assert forall i :: 0 <= i < 20 ==> all[i] == b[i];
  }

  lemma IpValues(b: seq<byte>, vs: seq<nat>)
    requires |b| >= 20 && |vs| == 10
    requires vs[0] == FromBigEndian(b[0..1]) && vs[1] == FromBigEndian(b[1..2])
    requires vs[2] == FromBigEndian(b[2..4]) && vs[3] == FromBigEndian(b[4..6]) && vs[4] == FromBigEndian(b[6..8])
    requires vs[5] == FromBigEndian(b[8..9]) && vs[6] == FromBigEndian(b[9..10]) && vs[7] == FromBigEndian(b[10..12])
    requires vs[8] == FromBigEndian(b[12..16]) && vs[9] == FromBigEndian(b[16..20])
    ensures vs[0] == b[0] && vs[1] == b[1] && vs[2] == U16At(b, 2) && vs[3] == U16At(b, 4) && vs[4] == U16At(b, 6)
    ensures vs[5] == b[8] && vs[6] == b[9] && vs[7] == U16At(b, 10)
    ensures vs[8] == U32At(b, 12) && vs[9] == U32At(b, 16)
  {
    hide FromBigEndian;
    DecodedByte(b[0..1]);
    DecodedByte(b[1..2]);
    DecodedU16(b[2..4]);
    DecodedU16(b[4..6]);
    DecodedU16(b[6..8]);
    DecodedByte(b[8..9]);
    DecodedByte(b[9..10]);
    DecodedU16(b[10..12]);
    DecodedU32(b[12..16]);
    DecodedU32(b[16..20]);
  }

  lemma HighBits(high: byte, low: byte, f: int)
    requires f == 0x100 * (high as int) + low
    ensures TC.HasBit(f, 0x4000) == (high / 64 % 2 == 1) && TC.HasBit(f, 0x2000) == (high / 32 % 2 == 1)
  {
    assert f / 0x4000 == high / 64;
    assert f / 0x2000 == high / 32;
  }

  lemma IpBitsFrom(b: seq<byte>, vs: seq<nat>)
    requires |b| >= 20 && |vs| == 10 && vs[0] == b[0] && vs[4] == U16At(b, 6)
    ensures var h := IP.HeaderFrom(vs);
            && b[0] / 0x10 == h.ver && b[0] % 0x10 == h.hlen
            && h.df == (b[6] / 64 % 2 == 1) && h.mf == (b[6] / 32 % 2 == 1) && U16At(b, 6) % 0x2000 == h.offset
  {
    HighBits(b[6], b[7], U16At(b, 6));
    hide TC.HasBit, U16At;
    assert vs[0] % 0x100 == b[0] && vs[4] % TWO16 == U16At(b, 6);
  }

  lemma IpNumbersFrom(b: seq<byte>, vs: seq<nat>)
    requires |b| >= 20 && |vs| == 10
    requires vs[1] == b[1] && vs[2] == U16At(b, 2) && vs[3] == U16At(b, 4)
    requires vs[5] == b[8] && vs[6] == b[9] && vs[7] == U16At(b, 10)
    requires vs[8] == U32At(b, 12) && vs[9] == U32At(b, 16)
    ensures var h := IP.HeaderFrom(vs);
            && b[1] == h.tos && U16At(b, 2) == h.len && U16At(b, 4) == h.id && b[8] == h.ttl && b[9] == h.proto
            && U16At(b, 10) == h.cksum && U32At(b, 12) == h.src && U32At(b, 16) == h.dst
  {
    hide TC.HasBit, U16At, U32At;
  }

  lemma IpHeaderFrom(b: seq<byte>, vs: seq<nat>)
    requires |b| >= 20 && |vs| == 10
    requires vs[0] == b[0] && vs[1] == b[1] && vs[2] == U16At(b, 2) && vs[3] == U16At(b, 4) && vs[4] == U16At(b, 6)
    requires vs[5] == b[8] && vs[6] == b[9] && vs[7] == U16At(b, 10)
    requires vs[8] == U32At(b, 12) && vs[9] == U32At(b, 16)
    ensures IpHeaderAt(b, IP.HeaderFrom(vs))
  {
    hide IP.HeaderFrom, U16At, U32At;
    IpBitsFrom(b, vs);
    IpNumbersFrom(b, vs);
  }

  /** Any twenty bytes are read as a header, whatever the verdict on it is. */
  lemma IpHeaderRead(b: seq<byte>, before: IP.IPv4Header)
    requires |b| >= 20
    ensures IpHeaderAt(b, IP.DecodeIpHeader(Cursor(b, NoError), before).0)
  {
    hide TakeAll, FromBigEndian, Offset, IP.HeaderFrom, WordSum, ChecksumOf;
    IpOffsets();
    TakenRest(b, IP.IP_WIDTHS);
    TakenAt(b, IP.IP_WIDTHS, 0);
    TakenAt(b, IP.IP_WIDTHS, 1);
    TakenAt(b, IP.IP_WIDTHS, 2);
    TakenAt(b, IP.IP_WIDTHS, 3);
    TakenAt(b, IP.IP_WIDTHS, 4);
    TakenAt(b, IP.IP_WIDTHS, 5);
    TakenAt(b, IP.IP_WIDTHS, 6);
    TakenAt(b, IP.IP_WIDTHS, 7);
    TakenAt(b, IP.IP_WIDTHS, 8);
    TakenAt(b, IP.IP_WIDTHS, 9);
    var vs := TakeAll(Cursor(b, NoError), IP.IP_WIDTHS).0;
    IpValues(b, vs);
    IpHeaderFrom(b, vs);
  }

  /** The verdict on a header, test by test, and where the parser then stands. */
  lemma IpVerdictExactly(b: seq<byte>, before: IP.IPv4Header)
    ensures var (h, res, c) := IP.DecodeIpHeader(Cursor(b, NoError), before);
            if |b| < 20 then h == before && res == PacketTooShort && c == Cursor(b, NoError)
            else
              var words := b[0] % 0x10;
              if |b| < 4 * words then res == PacketTooShort && c == Cursor(b[20..], NoError)
              else if b[0] / 0x10 != 4 then res == WrongIPVersion && c == Cursor(b[20..], NoError)
              else if words < 5 then res == HeaderTooShort && c == Cursor(b[20..], NoError)
              else if |b| != U16At(b, 2) then res == TruncatedPacket && c == Cursor(b[20..], NoError)
              else
                && c == Cursor(b[4 * words..], NoError)
                && res == if ChecksumOf(WordSum(b[..4 * words], false) % TWO32) == 0 then NoError else BadChecksum
  {
    hide TakeAll, FromBigEndian, Offset, IP.HeaderFrom, WordSum, ChecksumOf, U16At;
    if |b| >= 20 {
      IpHeaderRead(b, before);
      IpOffsets();
      TakenRest(b, IP.IP_WIDTHS);
      var h := IP.DecodeIpHeader(Cursor(b, NoError), before).0;
      if 5 <= h.hlen && 4 * h.hlen <= |b| {
        assert b[20..][4 * h.hlen - 20..] == b[4 * h.hlen..];
      }
    }
  }

  /**
    Which bytes pass as a datagram: the length left behind the header parser must be the announced one. The
    rest of the header's verdict plays no part.
   */
  lemma DatagramVerdictExactly(b: seq<byte>)
    ensures var (d, res) := IP.DecodeDatagram(b);
            if |b| < 20 then res == PacketTooShort
            else
              var words := b[0] % 0x10;
              && IpHeaderAt(b, d.header)
              && d.payload == (if b[0] / 0x10 == 4 && words >= 5 && |b| == U16At(b, 2) && |b| >= 4 * words
                               then b[4 * words..] else b[20..])
              && (res == NoError <==> |d.payload| == (U16At(b, 2) - 4 * words) % TWO16)
  {
    hide IP.DecodeIpHeader, WordSum, ChecksumOf, U16At, U32At;
    IpVerdictExactly(b, IP.DEFAULT_IP_HEADER);
    if |b| >= 20 {
      IpHeaderRead(b, IP.DEFAULT_IP_HEADER);
    }
  }

  /** A serialized datagram: the header with its checksum filled in, then the payload. */
  lemma DatagramLayout(d: IP.IPv4Datagram, b: seq<byte>)
    requires IP.EncodeDatagram(d) == Some(b) && d.header.hlen <= 15 && d.header.offset < 0x2000
    ensures |b| == 4 * d.header.hlen + |d.payload| && |b| >= 20
    ensures IpHeaderAt(b, d.header.(cksum := IP.IpChecksum(d.header))) && b[4 * d.header.hlen..] == d.payload
  {
    hide IP.EncodeIpHeader, IP.IpChecksum;
    var h := d.header.(cksum := IP.IpChecksum(d.header));
    IpHeaderLayout(h);
    var a := IP.EncodeIpHeader(h);
    assert forall i :: 0 <= i < |a| ==> b[i] == a[i];
  }

  // ---------------------------------------------------------------- sums

  /** Sums go word by word, high byte first; a last odd byte counts as the high byte of a word. */
  lemma SumOfWords(b: seq<byte>)
    ensures WordSum(b, false) ==
            if |b| == 0 then 0
            else if |b| == 1 then 0x100 * b[0]
            else U16At(b, 0) + WordSum(b[2..], false)
  {
    if |b| >= 2 {
      assert b[1..][1..] == b[2..];
    }
  }

  /** The pseudo-header: both addresses, a zero, the protocol, and the length of what the datagram carries. */
  function PseudoHeader(h: IP.IPv4Header): seq<byte> {
    BigEndian(h.src, 4) + BigEndian(h.dst, 4) + [0, h.proto] + BigEndian(h.PayloadLength(), 2)
  }

  lemma SumOfU32(v: u32, rest: seq<byte>)
    ensures WordSum(BigEndian(v, 4) + rest, false) == v / TWO16 + v % TWO16 + WordSum(rest, false)
  {
    hide BigEndian, WordSum;
    EncodedU32(v);
    var b := BigEndian(v, 4) + rest;
    SumOfWords(b);
    SumOfWords(b[2..]);
    assert b[2..][2..] == rest;
    assert U16At(b, 0) == v / TWO16 && U16At(b[2..], 0) == v % TWO16;
  }

  /** What the checksum of a segment starts from is the sum of its pseudo-header. */
  lemma PseudoSumIsSum(h: IP.IPv4Header)
    ensures h.PseudoSum() == WordSum(PseudoHeader(h), false)
  {
    hide BigEndian, WordSum;
    var len := BigEndian(h.PayloadLength(), 2);
    var tail := [0, h.proto] + len;
    var b := BigEndian(h.src, 4) + (BigEndian(h.dst, 4) + tail);
    assert PseudoHeader(h) == b;
    SumOfU32(h.src, BigEndian(h.dst, 4) + tail);
    SumOfU32(h.dst, tail);
    SumOfWords(tail);
    assert tail[2..] == len;
    EncodedU16(h.PayloadLength());
    SumOfWords(len);
    SumOfWords(len[2..]);
  }
}
