/** The network interface: datagrams in, Ethernet frames out, with address resolution (RFC 826) in between. */
module NetworkInterfaces {
  import opened Prelude
  import opened NetParsers
  import IP = Ipv4Codec

  type eth = x: int | 0 <= x < 0x1_0000_0000_0000
  const ETHERNET_BROADCAST: eth := 0xffff_ffff_ffff

  /** How long a mapping lives and how long a request stays unrepeated, in milliseconds. */
  const MAPPING_LIFETIME: nat := 30000
  const REQUEST_INTERVAL: nat := 5000

  datatype Opcode = Request | Reply
  datatype ArpMessage = ArpMessage(opcode: Opcode, senderEth: eth, senderIp: u32, targetEth: eth, targetIp: u32)

  /** What a frame carries; `Garbled` is an ARP payload that does not parse. */
  datatype Payload = IPv4(bytes: seq<byte>) | Arp(msg: ArpMessage) | Garbled | OtherType
  datatype Frame = Frame(dst: eth, src: eth, payload: Payload)

  datatype Mapping = Mapping(addr: eth, since: nat)

  datatype Iface = Iface(
    addr: eth, ip: u32, now: nat,
    mapped: map<u32, Mapping>,
    requested: map<u32, nat>,
    queued: map<u32, seq<seq<byte>>>,
    out: seq<Frame>)

  function NewIface(addr: eth, ip: u32): Iface {
    Iface(addr, ip, 0, map[], map[], map[], [])
  }

  function QueueFor(s: Iface, hop: u32): seq<seq<byte>> {
    if hop in s.queued then s.queued[hop] else []
  }

  /** No request for the hop is outstanding, or it is more than five seconds old. */
  predicate AsksAgain(s: Iface, hop: u32) {
    hop !in s.requested || s.requested[hop] + REQUEST_INTERVAL < s.now
  }

  function RequestFrame(s: Iface, hop: u32): Frame {
    Frame(ETHERNET_BROADCAST, s.addr, Arp(ArpMessage(Request, s.addr, s.ip, 0, hop)))
  }

  function ReplyFrame(s: Iface, msg: ArpMessage): Frame {
    Frame(msg.senderEth, s.addr, Arp(ArpMessage(Reply, s.addr, s.ip, msg.senderEth, msg.senderIp)))
  }

  function DataFrames(src: eth, dst: eth, payloads: seq<seq<byte>>): (fs: seq<Frame>)
    ensures |fs| == |payloads|
  {
    seq(|payloads|, i requires 0 <= i < |payloads| => Frame(dst, src, IPv4(payloads[i])))
  }

  /** The datagram as bytes, or nothing if serializing it throws. */
  function Bytes(d: IP.IPv4Datagram): seq<seq<byte>> {
    match IP.EncodeDatagram(d)
    case Some(b) => [b]
    case None => []
  }

  function Submit(s: Iface, d: IP.IPv4Datagram, hop: u32): Iface {
    if hop in s.mapped then
      s.(out := s.out + DataFrames(s.addr, s.mapped[hop].addr, Bytes(d)))
    else
      s.(out := s.out + if AsksAgain(s, hop) then [RequestFrame(s, hop)] else [],
         requested := if hop in s.requested then s.requested else s.requested[hop := s.now],
         queued := s.queued[hop := QueueFor(s, hop) + Bytes(d)])
  }

  /** The frame is addressed to this interface or to everybody. */
  predicate Addressed(s: Iface, f: Frame) {
    f.dst == ETHERNET_BROADCAST || f.dst == s.addr
  }

  function Learn(s: Iface, msg: ArpMessage): Iface {
    var reply := if msg.opcode == Request && msg.targetIp == s.ip then [ReplyFrame(s, msg)] else [];
    s.(mapped := s.mapped[msg.senderIp := Mapping(msg.senderEth, s.now)],
       out := s.out + reply + DataFrames(s.addr, msg.senderEth, QueueFor(s, msg.senderIp)),
       requested := if msg.senderIp in s.queued then s.requested - {msg.senderIp} else s.requested,
       queued := s.queued - {msg.senderIp})
  }

  function Accept(s: Iface, f: Frame): (Option<IP.IPv4Datagram>, Iface) {
    if !Addressed(s, f) then (None, s) else
    match f.payload
    case Arp(msg) => (None, Learn(s, msg))
    case IPv4(bytes) =>
      var (d, res) := IP.DecodeDatagram(bytes);
      (if res == NoError then Some(d) else None, s)
    case _ => (None, s)
  }

  predicate Alive(m: Mapping, now: nat) {
    m.since + MAPPING_LIFETIME >= now
  }

  function Age(s: Iface, ms: nat): Iface {
    s.(now := s.now + ms,
       mapped := map hop | hop in s.mapped && Alive(s.mapped[hop], s.now + ms) :: s.mapped[hop])
  }

  // ---------------------------------------------------------------- the implementation

  class NetworkInterface {
    const addr: eth
    const ip: u32
    var now: nat
    var mapped: map<u32, Mapping>
    var requested: map<u32, nat>
    var queued: map<u32, seq<seq<byte>>>
    var framesOut: seq<Frame>

    function Abs(): Iface
      reads this
    {
      Iface(addr, ip, now, mapped, requested, queued, framesOut)
    }

    constructor (ethernetAddress: eth, ipAddress: u32)
      ensures Abs() == NewIface(ethernetAddress, ipAddress)
    {
      addr, ip := ethernetAddress, ipAddress;
      now, mapped, requested, queued, framesOut := 0, map[], map[], map[], [];
    }

    /** Throws where serializing does: with a mapping nothing goes out, without one the request still does. */
    method SendDatagram(d: IP.IPv4Datagram, nextHop: u32) returns (thrown: bool)
      modifies this
      ensures Abs() == Submit(old(Abs()), d, nextHop)
      ensures thrown <==> IP.EncodeDatagram(d) == None
    {
      hide IP.EncodeDatagram, DataFrames;
      if nextHop in mapped {
        var bytes := IP.SerializeDatagram(d);
        if bytes == None {
          return true;
        }
        SendIPv4Frame(mapped[nextHop].addr, bytes.value);
      } else {
        ghost var waiting := QueueFor(Abs(), nextHop);
        assert waiting + [] == waiting && framesOut + [] == framesOut;
        var known := nextHop in requested;
        if !known || requested[nextHop] + REQUEST_INTERVAL < now {
          framesOut := framesOut + [Frame(ETHERNET_BROADCAST, addr, Arp(ArpMessage(Request, addr, ip, 0, nextHop)))];
        }
        if !known {
          requested := requested[nextHop := now];
        }
        if nextHop !in queued {
          queued := queued[nextHop := []];
        }
        assert queued == old(queued)[nextHop := waiting];
        var bytes := IP.SerializeDatagram(d);
        if bytes == None {
          return true;
        }
        queued := queued[nextHop := queued[nextHop] + [bytes.value]];
      }
      thrown := false;
    }

    method SendIPv4Frame(dst: eth, payload: seq<byte>)
      modifies `framesOut
      ensures framesOut == old(framesOut) + DataFrames(addr, dst, [payload])
    {
      framesOut := framesOut + [Frame(dst, addr, IPv4(payload))];
    }

    method RecvFrame(f: Frame) returns (d: Option<IP.IPv4Datagram>)
      requires IfaceInv(Abs())
      modifies this
      ensures (d, Abs()) == Accept(old(Abs()), f)
    {
      hide IP.DecodeDatagram, DataFrames;
      d := None;
      if f.dst == ETHERNET_BROADCAST || f.dst == addr {
        match f.payload
        case Arp(msg) =>
          assert framesOut + [] == framesOut;
          mapped := mapped[msg.senderIp := Mapping(msg.senderEth, now)];
          if msg.opcode == Request && msg.targetIp == ip {
            framesOut := framesOut + [Frame(msg.senderEth, addr, Arp(ArpMessage(Reply, addr, ip, msg.senderEth, msg.senderIp)))];
          }
          SendNotSentDatagrams(msg.senderIp, msg.senderEth);
        case IPv4(bytes) =>
          var dgram, res := IP.ParseDatagram(bytes);
          if res == NoError {
            d := Some(dgram);
          }
        case _ =>
      }
    }

    /** Flushes the queue of a hop whose address has become known; the request it erases must exist. */
    method SendNotSentDatagrams(hop: u32, dst: eth)
      requires hop in queued ==> hop in requested
      modifies `framesOut, `queued, `requested
      ensures framesOut == old(framesOut) + DataFrames(addr, dst, QueueFor(old(Abs()), hop))
      ensures queued == old(queued) - {hop}
      ensures requested == if hop in old(queued) then old(requested) - {hop} else old(requested)
    {
      if hop !in queued {
        assert queued - {hop} == queued;
        return;
      }
      var waiting := queued[hop];
      for i := 0 to |waiting|
        invariant framesOut == old(framesOut) + DataFrames(addr, dst, waiting[..i])
        invariant unchanged(`queued, `requested)
      {
        SendIPv4Frame(dst, waiting[i]);
        assert DataFrames(addr, dst, waiting[..i + 1]) == DataFrames(addr, dst, waiting[..i]) + DataFrames(addr, dst, [waiting[i]]);
      }
      assert waiting[..|waiting|] == waiting;
      queued := queued - {hop};
      requested := requested - {hop};
    }

    method Tick(msSinceLastTick: nat)
      modifies this
      ensures Abs() == Age(old(Abs()), msSinceLastTick)
    {
      now := now + msSinceLastTick;
      var rest := mapped.Keys;
      while rest != {}
        invariant rest <= old(mapped).Keys
        invariant mapped == map hop | hop in old(mapped) && (hop in rest || Alive(old(mapped)[hop], now)) :: old(mapped)[hop]
        invariant unchanged(`requested, `queued, `framesOut) && now == old(now) + msSinceLastTick
        decreases rest
      {
        var hop :| hop in rest;
        if mapped[hop].since + MAPPING_LIFETIME < now {
          mapped := mapped - {hop};
        }
        rest := rest - {hop};
      }
    }
  }

  // ---------------------------------------------------------------- what every step keeps

  /** A hop is either resolved or waiting, never both; waiting hops have a request and a queue; mappings are fresh. */
  ghost predicate IfaceInv(s: Iface) {
    && s.requested.Keys == s.queued.Keys
    && s.requested.Keys !! s.mapped.Keys
    && (forall hop :: hop in s.mapped ==> s.mapped[hop].since <= s.now && Alive(s.mapped[hop], s.now))
    && (forall hop :: hop in s.requested ==> s.requested[hop] <= s.now)
  }

  datatype Op = Send(d: IP.IPv4Datagram, hop: u32) | Recv(f: Frame) | Elapse(ms: nat)

  function Step(s: Iface, op: Op): Iface {
    match op
    case Send(d, hop) => Submit(s, d, hop)
    case Recv(f) => Accept(s, f).1
    case Elapse(ms) => Age(s, ms)
  }

  lemma LearnInv(s: Iface, msg: ArpMessage)
    requires IfaceInv(s)
    ensures IfaceInv(Learn(s, msg))
  {
  }

  lemma StepInv(s: Iface, op: Op)
    requires IfaceInv(s)
    ensures IfaceInv(Step(s, op))
  {
    hide IP.EncodeDatagram, IP.DecodeDatagram, DataFrames;
    match op {
      case Send(d, hop) =>
      case Recv(f) =>
        if Addressed(s, f) && f.payload.Arp? {
          LearnInv(s, f.payload.msg);
        }
      case Elapse(ms) =>
    }
  }

  /** The payloads a step hands to the link for a given hop. */
  function EmittedFor(s: Iface, op: Op, hop: u32): seq<seq<byte>> {
    match op
    case Send(d, h) => if h == hop && h in s.mapped then Bytes(d) else []
    case Recv(f) => if Addressed(s, f) && f.payload.Arp? && f.payload.msg.senderIp == hop then QueueFor(s, hop) else []
    case Elapse(_) => []
  }

  function SubmittedFor(op: Op, hop: u32): seq<seq<byte>> {
    if op.Send? && op.hop == hop then Bytes(op.d) else []
  }

  /** The hop a step emits payloads for, if any. */
  function HopOf(op: Op): u32 {
    match op
    case Send(_, h) => h
    case Recv(f) => if f.payload.Arp? then f.payload.msg.senderIp else 0
    case Elapse(_) => 0
  }

  function ArpFrames(s: Iface, op: Op): seq<Frame> {
    match op
    case Send(_, hop) => if hop !in s.mapped && AsksAgain(s, hop) then [RequestFrame(s, hop)] else []
    case Recv(f) =>
      if Addressed(s, f) && f.payload.Arp? && f.payload.msg.opcode == Request && f.payload.msg.targetIp == s.ip
      then [ReplyFrame(s, f.payload.msg)] else []
    case Elapse(_) => []
  }

  /** The frame brings the payload to the hop: from this interface, to the address the hop is mapped to. */
  predicate Carries(f: Frame, s: Iface, hop: u32, payload: seq<byte>) {
    && hop in s.mapped && f.dst == s.mapped[hop].addr && s.now - s.mapped[hop].since <= MAPPING_LIFETIME
    && f.src == s.addr
    && f.payload == IPv4(payload)
  }

  /** From `s` to `t` first the ARP frames appear, then one frame for each payload. */
  ghost predicate Emits(s: Iface, arp: seq<Frame>, hop: u32, sent: seq<seq<byte>>, t: Iface) {
    var start := |s.out| + |arp|;
    && |t.out| == start + |sent| && s.out + arp <= t.out
    && forall i :: 0 <= i < |sent| ==> Carries(t.out[start + i], t, hop, sent[i])
  }

  /**
    What a step puts on the link: at most one ARP frame, then the payloads it emits for one hop, each in
    a frame of its own from this interface to the address of a mapping of that hop at most 30000 ms old.
   */
  lemma FramesOfStep(s: Iface, op: Op)
    requires IfaceInv(s)
    ensures Emits(s, ArpFrames(s, op), HopOf(op), EmittedFor(s, op, HopOf(op)), Step(s, op))
    ensures |ArpFrames(s, op)| <= 1 && forall h :: h != HopOf(op) ==> EmittedFor(s, op, h) == []
  {
    hide Submit, Accept, Age, IP.EncodeDatagram, Emits;
    match op {
      case Send(d, hop) => FramesOfSend(s, d, hop);
      case Recv(f) => FramesOfRecv(s, f);
      case Elapse(ms) => FramesOfWait(s, ms);
    }
  }

  lemma FramesOfSend(s: Iface, d: IP.IPv4Datagram, hop: u32)
    requires IfaceInv(s)
    ensures var op := Send(d, hop); Emits(s, ArpFrames(s, op), hop, EmittedFor(s, op, hop), Submit(s, d, hop))
  {
    hide Submit, IP.EncodeDatagram;
    if hop in s.mapped {
      SendToKnown(s, d, hop);
    } else {
      SendToUnknown(s, d, hop);
    }
  }

  lemma FramesOfRecv(s: Iface, f: Frame)
    requires IfaceInv(s)
    ensures var op := Recv(f); Emits(s, ArpFrames(s, op), HopOf(op), EmittedFor(s, op, HopOf(op)), Accept(s, f).1)
  {
    hide Accept, QueueFor, IfaceInv;
    if Addressed(s, f) && f.payload.Arp? {
      LearnedExactly(s, f, f.payload.msg);
    } else {
      OtherFrames(s, f);
    }
  }

  lemma FramesOfWait(s: Iface, ms: nat)
    ensures Emits(s, [], 0, [], Age(s, ms))
  {
    assert s.out + [] == s.out;
  }

  lemma DataFramesAre(src: eth, dst: eth, payloads: seq<seq<byte>>)
    ensures forall i :: 0 <= i < |payloads| ==> DataFrames(src, dst, payloads)[i] == Frame(dst, src, IPv4(payloads[i]))
  {
  }

  /** A datagram for a hop that is known goes out at once; one that cannot be serialized goes nowhere. */
  lemma SendToKnown(s: Iface, d: IP.IPv4Datagram, hop: u32)
    requires hop in s.mapped
    ensures var b := IP.EncodeDatagram(d);
            Submit(s, d, hop) ==
            if b == None then s else s.(out := s.out + [Frame(s.mapped[hop].addr, s.addr, IPv4(b.value))])
  {
    hide IP.EncodeDatagram;
    assert s.out + [] == s.out;
  }

  /**
    Asking for a hop: a broadcast from this interface that names its own addresses as the sender's and the
    hop as the target. The datagram waits, and no hop that is known or asked for already is touched.
   */
  lemma SendToUnknown(s: Iface, d: IP.IPv4Datagram, hop: u32)
    requires IfaceInv(s) && hop !in s.mapped
    ensures var t, b := Submit(s, d, hop), IP.EncodeDatagram(d);
            && t.mapped == s.mapped && t.now == s.now
            && t.requested == (if hop in s.requested then s.requested else s.requested[hop := s.now])
            && t.queued == s.queued[hop := QueueFor(s, hop) + if b == None then [] else [b.value]]
            && t.out == s.out +
                 if hop in s.requested && s.now - s.requested[hop] <= 5000 then []
                 else [Frame(0xffff_ffff_ffff, s.addr, Arp(ArpMessage(Request, s.addr, s.ip, 0, hop)))]
  {
    hide IP.EncodeDatagram;
  }

  /**
    Learning: an ARP message maps its sender's addresses to each other from now on and leaves all other
    mappings alone; a request for this interface is answered first, then what waited for the sender goes out.
   */
  lemma LearnedExactly(s: Iface, f: Frame, msg: ArpMessage)
    requires (f.dst == 0xffff_ffff_ffff || f.dst == s.addr) && f.payload == Arp(msg)
    ensures var (d, t) := Accept(s, f);
            var asked := msg.opcode == Request && msg.targetIp == s.ip;
            var reply := if asked then 1 else 0;
            var waiting := QueueFor(s, msg.senderIp);
            && d == None && t.now == s.now && t.addr == s.addr && t.ip == s.ip
            && t.mapped == s.mapped[msg.senderIp := Mapping(msg.senderEth, s.now)]
            && msg.senderIp !in t.queued
            && s.out <= t.out && |t.out| == |s.out| + reply + |waiting|
            && (asked ==> t.out[|s.out|] == Frame(
                  msg.senderEth, s.addr, Arp(ArpMessage(Reply, s.addr, s.ip, msg.senderEth, msg.senderIp))))
            && forall i :: 0 <= i < |waiting| ==>
                 t.out[|s.out| + reply + i] == Frame(msg.senderEth, s.addr, IPv4(waiting[i]))
  {
    DataFramesAre(s.addr, msg.senderEth, QueueFor(s, msg.senderIp));
  }

  /** Frames for somebody else, garbled ARP payloads and other types change nothing; datagrams are only passed up. */
  lemma OtherFrames(s: Iface, f: Frame)
    requires (f.dst != 0xffff_ffff_ffff && f.dst != s.addr) || !f.payload.Arp?
    ensures var (d, t) := Accept(s, f);
            && t == s
            && (d.Some? <==> (f.dst == 0xffff_ffff_ffff || f.dst == s.addr) && f.payload.IPv4?
                             && IP.DecodeDatagram(f.payload.bytes).1 == NoError)
            && (d.Some? ==> d.value == IP.DecodeDatagram(f.payload.bytes).0)
  {
    hide IP.DecodeDatagram;
  }

  /** Time passes: exactly the mappings older than 30000 ms are forgotten, the others stay as they are. */
  lemma AgedExactly(s: Iface, ms: nat)
    ensures var t := Age(s, ms);
            && t == s.(now := s.now + ms, mapped := t.mapped)
            && (forall hop :: hop in t.mapped <==> hop in s.mapped && s.now + ms - s.mapped[hop].since <= 30000)
            && (forall hop :: hop in t.mapped ==> t.mapped[hop] == s.mapped[hop])
  {
  }

  /** Per hop, what was queued and what is submitted is what is emitted and what is queued then. */
  lemma StepConserves(s: Iface, op: Op, hop: u32)
    requires IfaceInv(s)
    ensures QueueFor(s, hop) + SubmittedFor(op, hop) == EmittedFor(s, op, hop) + QueueFor(Step(s, op), hop)
  {
    hide IP.EncodeDatagram, IP.DecodeDatagram, DataFrames;
  }

  function After(s: Iface, ops: seq<Op>): Iface
    decreases |ops|
  {
    if ops == [] then s else After(Step(s, ops[0]), ops[1..])
  }

  function Emitted(s: Iface, ops: seq<Op>, hop: u32): seq<seq<byte>>
    decreases |ops|
  {
    if ops == [] then [] else EmittedFor(s, ops[0], hop) + Emitted(Step(s, ops[0]), ops[1..], hop)
  }

  function Submitted(ops: seq<Op>, hop: u32): seq<seq<byte>> {
    if ops == [] then [] else SubmittedFor(ops[0], hop) + Submitted(ops[1..], hop)
  }

  lemma {:induction false} RunInv(s: Iface, ops: seq<Op>)
    requires IfaceInv(s)
    ensures IfaceInv(After(s, ops))
    decreases |ops|
  {
    if ops != [] {
      StepInv(s, ops[0]);
      RunInv(Step(s, ops[0]), ops[1..]);
    }
  }

  lemma {:induction false} RunConserves(s: Iface, ops: seq<Op>, hop: u32)
    requires IfaceInv(s)
    ensures QueueFor(s, hop) + Submitted(ops, hop) == Emitted(s, ops, hop) + QueueFor(After(s, ops), hop)
    decreases |ops|
  {
    hide Step, EmittedFor, SubmittedFor, QueueFor;
    if ops != [] {
      var t := Step(s, ops[0]);
      StepInv(s, ops[0]);
      StepConserves(s, ops[0], hop);
      RunConserves(t, ops[1..], hop);
      Regroup(QueueFor(s, hop), SubmittedFor(ops[0], hop), Submitted(ops[1..], hop),
              EmittedFor(s, ops[0], hop), QueueFor(t, hop),
              Emitted(t, ops[1..], hop), QueueFor(After(s, ops), hop));
    }
  }

  lemma Regroup<T>(q: seq<T>, a: seq<T>, b: seq<T>, e: seq<T>, m: seq<T>, f: seq<T>, r: seq<T>)
    requires q + a == e + m && m + b == f + r
    ensures q + (a + b) == (e + f) + r
  {
    assert q + (a + b) == (q + a) + b;
    assert (e + m) + b == e + (m + b);
    assert (e + f) + r == e + (f + r);
  }

  /** The frames a step puts on the link: ARP first, then the payloads it emits. */
  function FramesFor(s: Iface, op: Op): seq<Frame> {
    var hop := HopOf(op);
    ArpFrames(s, op) +
    if hop in Step(s, op).mapped then DataFrames(s.addr, Step(s, op).mapped[hop].addr, EmittedFor(s, op, hop)) else []
  }

  function Frames(s: Iface, ops: seq<Op>): seq<Frame>
    decreases |ops|
  {
    if ops == [] then [] else FramesFor(s, ops[0]) + Frames(Step(s, ops[0]), ops[1..])
  }

  lemma EmitsAreFrames(s: Iface, arp: seq<Frame>, hop: u32, sent: seq<seq<byte>>, t: Iface)
    requires Emits(s, arp, hop, sent, t) && t.addr == s.addr
    ensures hop in t.mapped ==> t.out == s.out + (arp + DataFrames(s.addr, t.mapped[hop].addr, sent))
    ensures hop !in t.mapped ==> t.out == s.out + (arp + [])
  {
    assert sent != [] ==> Carries(t.out[|s.out| + |arp| + 0], t, hop, sent[0]);
    if hop in t.mapped {
      var data := DataFrames(s.addr, t.mapped[hop].addr, sent);
      DataFramesAre(s.addr, t.mapped[hop].addr, sent);
      forall i | 0 <= i < |sent|
        ensures t.out[|s.out + arp| + i] == data[i]
      {
        assert Carries(t.out[|s.out| + |arp| + i], t, hop, sent[i]);
      }
      hide Emits, Carries, DataFrames;
      SplitAt(t.out, s.out + arp, data);
      Reassociate(s.out, arp, data);
    }
  }

  lemma SplitAt<T>(all: seq<T>, front: seq<T>, back: seq<T>)
    requires front <= all && |all| == |front| + |back|
    requires forall i :: 0 <= i < |back| ==> all[|front| + i] == back[i]
    ensures all == front + back
  {
  }

  lemma DataFrameSource(src: eth, dst: eth, payloads: seq<seq<byte>>)
    ensures forall f :: f in DataFrames(src, dst, payloads) ==> f.src == src
  {
  }

  lemma StepFrames(s: Iface, op: Op)
    requires IfaceInv(s)
    ensures Step(s, op).out == s.out + FramesFor(s, op)
    ensures forall f :: f in FramesFor(s, op) ==> f.src == s.addr
  {
    hide Step, ArpFrames, EmittedFor, HopOf, IfaceInv, DataFrames, Emits;
    FramesOfStep(s, op);
    StepKeepsAddress(s, op);
    ArpFrameSource(s, op);
    var t, hop := Step(s, op), HopOf(op);
    EmitsAreFrames(s, ArpFrames(s, op), hop, EmittedFor(s, op, hop), t);
    if hop in t.mapped {
      DataFrameSource(s.addr, t.mapped[hop].addr, EmittedFor(s, op, hop));
    }
  }

  lemma ArpFrameSource(s: Iface, op: Op)
    ensures forall f :: f in ArpFrames(s, op) ==> f.src == s.addr
  {
  }

  lemma StepKeepsAddress(s: Iface, op: Op)
    ensures Step(s, op).addr == s.addr && Step(s, op).ip == s.ip
  {
    hide IP.EncodeDatagram, IP.DecodeDatagram, DataFrames;
  }

  /** What is on the link after a run is what its steps put there, in order, all of it from this interface. */
  lemma {:induction false} FramesOfRun(s: Iface, ops: seq<Op>)
    requires IfaceInv(s)
    ensures After(s, ops).out == s.out + Frames(s, ops) && After(s, ops).addr == s.addr
    ensures forall f :: f in Frames(s, ops) ==> f.src == s.addr
    decreases |ops|
  {
    hide Step, FramesFor, IfaceInv;
    if ops != [] {
      var t := Step(s, ops[0]);
      StepInv(s, ops[0]);
      StepFrames(s, ops[0]);
      StepKeepsAddress(s, ops[0]);
      FramesOfRun(t, ops[1..]);
      Reassociate(s.out, FramesFor(s, ops[0]), Frames(t, ops[1..]));
    }
  }

  /**
    Conservation and order over every run of a new interface: for each hop, the datagrams emitted so
    far followed by those still queued are the datagrams submitted for it, in order and exactly once.
   */
  lemma EachDatagramOnceInOrder(addr: eth, ip: u32, ops: seq<Op>, hop: u32)
    ensures var s := NewIface(addr, ip);
            && IfaceInv(After(s, ops))
            && Emitted(s, ops, hop) + QueueFor(After(s, ops), hop) == Submitted(ops, hop)
  {
    var s := NewIface(addr, ip);
    RunInv(s, ops);
    RunConserves(s, ops, hop);
    assert QueueFor(s, hop) + Submitted(ops, hop) == Submitted(ops, hop);
  }

  // ---------------------------------------------------------------- how often requests are repeated

  predicate Asks(s: Iface, op: Op, hop: u32) {
    op.Send? && op.hop == hop && hop !in s.mapped && AsksAgain(s, hop)
  }

  /** An ARP message from the hop that the interface takes in: it ends the wait. */
  predicate Answers(s: Iface, op: Op, hop: u32) {
    op.Recv? && Addressed(s, op.f) && op.f.payload.Arp? && op.f.payload.msg.senderIp == hop
  }

  ghost predicate Unanswered(s: Iface, ops: seq<Op>, hop: u32) {
    forall op :: op in ops ==> !Answers(s, op, hop)
  }

  function Elapsed(ops: seq<Op>): nat {
    if ops == [] then 0 else (if ops[0].Elapse? then ops[0].ms else 0) + Elapsed(ops[1..])
  }

  lemma StepWaits(s: Iface, op: Op, hop: u32)
    requires IfaceInv(s) && hop in s.requested && !Answers(s, op, hop)
    ensures var t := Step(s, op);
            && hop in t.requested && t.requested[hop] == s.requested[hop] && t.addr == s.addr
            && t.now == s.now + Elapsed([op])
  {
    hide IP.EncodeDatagram, IP.DecodeDatagram, DataFrames;
    assert [op][1..] == [];
  }

  lemma UnansweredRest(s: Iface, t: Iface, ops: seq<Op>, hop: u32)
    requires ops != [] && Unanswered(s, ops, hop) && t.addr == s.addr
    ensures Unanswered(t, ops[1..], hop)
  {
    forall op | op in ops[1..]
      ensures !Answers(t, op, hop)
    {
      assert !Answers(s, op, hop);
    }
  }

  /** Until the hop answers it stays unresolved, and the time of its first request is never renewed. */
  lemma {:induction false} FirstRequestKept(s: Iface, ops: seq<Op>, hop: u32)
    requires IfaceInv(s) && hop in s.requested && Unanswered(s, ops, hop)
    ensures var t := After(s, ops);
            && IfaceInv(t) && hop in t.requested && hop !in t.mapped
            && t.requested[hop] == s.requested[hop]
            && t.now == s.now + Elapsed(ops)
    decreases |ops|
  {
    hide Step;
    if ops != [] {
      assert ops[0] in ops && [ops[0]][1..] == [];
      StepInv(s, ops[0]);
      StepWaits(s, ops[0], hop);
      UnansweredRest(s, Step(s, ops[0]), ops, hop);
      FirstRequestKept(Step(s, ops[0]), ops[1..], hop);
    }
  }

  /** So a send to a waiting hop repeats the request if and only if the hop has waited more than five seconds. */
  lemma SecondRequestExactly(s: Iface, ops: seq<Op>, e: IP.IPv4Datagram, hop: u32)
    requires IfaceInv(s) && hop in s.requested && Unanswered(s, ops, hop)
    ensures Asks(After(s, ops), Send(e, hop), hop) <==> s.now + Elapsed(ops) - s.requested[hop] > 5000
  {
    hide After, Elapsed, IfaceInv;
    FirstRequestKept(s, ops, hop);
  }

  /** How many requests for a hop a run puts on the link. */
  function Requests(s: Iface, ops: seq<Op>, hop: u32): nat
    decreases |ops|
  {
    if ops == [] then 0 else (if Asks(s, ops[0], hop) then 1 else 0) + Requests(Step(s, ops[0]), ops[1..], hop)
  }

  /** How many sends to a hop come when it has waited more than five seconds, `waited` being the start. */
  function LateSends(ops: seq<Op>, hop: u32, waited: nat): nat {
    if ops == [] then 0 else
    match ops[0]
    case Elapse(ms) => LateSends(ops[1..], hop, waited + ms)
    case Send(_, h) => (if h == hop && waited > REQUEST_INTERVAL then 1 else 0) + LateSends(ops[1..], hop, waited)
    case Recv(_) => LateSends(ops[1..], hop, waited)
  }

  lemma {:induction false} RequestsAreLateSends(s: Iface, ops: seq<Op>, hop: u32)
    requires IfaceInv(s) && hop in s.requested && Unanswered(s, ops, hop)
    ensures Requests(s, ops, hop) == LateSends(ops, hop, s.now - s.requested[hop])
    decreases |ops|
  {
    hide Step;
    if ops != [] {
      assert ops[0] in ops && [ops[0]][1..] == [];
      StepInv(s, ops[0]);
      StepWaits(s, ops[0], hop);
      UnansweredRest(s, Step(s, ops[0]), ops, hop);
      RequestsAreLateSends(Step(s, ops[0]), ops[1..], hop);
    }
  }

  /**
    One waiting period, from the first send to an unknown hop until it answers: that send asks, no other
    does during the first five seconds, and afterwards every single one does.
   */
  lemma WaitingPeriod(s: Iface, d: IP.IPv4Datagram, ops: seq<Op>, hop: u32)
    requires IfaceInv(s) && hop !in s.mapped && hop !in s.requested && Unanswered(s, ops, hop)
    ensures Asks(s, Send(d, hop), hop)
    ensures Requests(Step(s, Send(d, hop)), ops, hop) == LateSends(ops, hop, 0)
    ensures Elapsed(ops) <= 5000 ==> Requests(Step(s, Send(d, hop)), ops, hop) == 0
  {
    hide Requests, LateSends, Bytes;
    var t := Step(s, Send(d, hop));
    StepInv(s, Send(d, hop));
    assert t.addr == s.addr && t.requested[hop] == t.now;
    assert Unanswered(t, ops, hop);
    RequestsAreLateSends(t, ops, hop);
    NoneLate(ops, hop, 0);
  }

  lemma {:induction false} NoneLate(ops: seq<Op>, hop: u32, waited: nat)
    ensures waited + Elapsed(ops) <= REQUEST_INTERVAL ==> LateSends(ops, hop, waited) == 0
    decreases |ops|
  {
    if ops != [] {
      NoneLate(ops[1..], hop, waited + if ops[0].Elapse? then ops[0].ms else 0);
    }
  }

  /** The limit is broken: after 5001 ms of waiting two requests go out in the same millisecond. */
  lemma RequestsPileUp(d: IP.IPv4Datagram)
    ensures var s := After(NewIface(1, 1), [Send(d, 2), Elapse(5001)]);
            Asks(s, Send(d, 2), 2) && Asks(Step(s, Send(d, 2)), Send(d, 2), 2)
  {
    hide IP.EncodeDatagram;
    var s0 := NewIface(1, 1);
    var ops := [Send(d, 2), Elapse(5001)];
    assert ops[1..] == [Elapse(5001)] && ops[1..][1..] == [];
    var s1 := Step(s0, Send(d, 2));
    assert After(s0, ops) == After(s1, ops[1..]);
    assert After(s1, ops[1..]) == After(Step(s1, Elapse(5001)), []);
    var s := Step(s1, Elapse(5001));
    assert s.requested == map[2 := 0] && s.now == 5001 && 2 !in s.mapped;
  }
}
