/**
  Two complete connection endpoints over the same hostile network.  Everything an endpoint ever sent
  stays available for delivery.  Each direction of data is a link, its acknowledgments riding on the
  segments of the other direction, so every result about links holds for both directions at once.
 */
module TcpDuplex {
  import opened Prelude
  import opened ReassemblyOrder
  import opened Segments
  import opened TcpReceivers
  import opened TcpSending
  import SI = SenderInvariant
  import opened SenderProperties
  import opened TcpConnecting
  import opened TwoParty
  import opened FlowControl
  import TL = TcpLink

  /** `seenA` and `seenB` are the segments from the peer whose acknowledgment was taken last. */
  datatype Duplex = Duplex(a: Conn, b: Conn, seenA: nat, seenB: nat) {
    function Swap(): Duplex {
      Duplex(b, a, seenB, seenA)
    }

    /** The direction from `a` to `b`. */
    function Forward(): TL.Link {
      TL.Link(a.sender, b.receiver, a.out, b.out, seenA)
    }

    /** The direction from `b` to `a`. */
    function Backward(): TL.Link {
      TL.Link(b.sender, a.receiver, b.out, a.out, seenB)
    }
  }

  ghost predicate Holds(d: TL.Discipline, x: Duplex) {
    TL.Holds(d, x.Forward()) && TL.Holds(d, x.Backward())
  }

  datatype Op =
    | Connect
    | Write(data: seq<byte>)
    | End
    | Elapse(ms: nat)
    | Read(n: nat)
    | Arrive(k: nat)   // the k-th segment the peer ever sent

  datatype Event = Event(atA: bool, op: Op)

  /** The segment is looked at rather than dropped or taken as a reset. */
  predicate Absorbed(c: Conn, seg: Segment) {
    !seg.header.rst && (c.sentSyn || !seg.header.ack)
  }

  predicate EnabledA(x: Duplex, op: Op)
    requires x.a.sender.stream.Valid() && x.a.receiver.reasm.out.Valid()
  {
    match op
    case Write(data) => SI.MayWrite(x.a.sender, data) && |x.a.sender.stream.Write(data).written| <= LIMIT
    case Read(n) => n <= x.a.receiver.reasm.out.BufferSize()
    case Arrive(k) => k < |x.b.out|
    case _ => true
  }

  predicate PermittedA(d: TL.Discipline, x: Duplex, op: Op)
    requires op.Arrive? ==> op.k < |x.b.out|
  {
    op.Arrive? && Absorbed(x.a, x.b.out[op.k]) ==>
      var seg := x.b.out[op.k];
      match d
      case Anything => true
      case FinGuarded => FinGuard(x.a.receiver, seg)
      case AcksInOrder => NoOvertake(x.a.receiver, seg) && (seg.header.ack ==> x.seenA <= op.k)
  }

  function StepA(x: Duplex, op: Op): Duplex
    requires ConnInv(x.a) && EnabledA(x, op)
  {
    match op
    case Connect => x.(a := TcpConnecting.Connect(x.a))
    case Write(data) => x.(a := WriteTo(x.a, data))
    case End => x.(a := EndInputStream(x.a))
    case Elapse(ms) => x.(a := TickConn(x.a, ms))
    case Read(n) => x.(a := ReadFrom(x.a, n))
    case Arrive(k) =>
      var seg := x.b.out[k];
      x.(a := SegmentReceived(x.a, seg),
         seenA := if Absorbed(x.a, seg) && seg.header.ack then k else x.seenA)
  }

  // ---------------------------------------------------------------- what the connection glue does to a link

  /** Stamping does not touch what the segment says about the stream. */
  lemma StampStaysGenuine(s: Sender, r: Receiver, seg: Segment, rst: bool)
    requires SI.Genuine(s, seg) && r.reasm.out.Valid()
    ensures SI.Genuine(s, Stamp(r, seg, rst))
  {
    var at: nat :| SI.Carries(s, at, seg);
    assert SI.Carries(s, at, Stamp(r, seg, rst));
  }

  /** Handing the stamped queue to the network, seen from the link it carries data for. */
  lemma FlushData(d: TL.Discipline, l: TL.Link, r: Receiver, setRst: bool)
    requires TL.Holds(d, l) && r.reasm.out.Valid()
    ensures TL.Holds(d, l.(data := l.data + StampAll(r, l.s.out, setRst), s := l.s.(out := [])))
  {
    hide SI.Extends, NoLossInv, FlowInv, SI.FlightInv, SI.TimerInv, Stamp, SI.Genuine;
    var stamped := StampAll(r, l.s.out, setRst);
    forall seg | seg in stamped
      ensures SI.Genuine(l.s, seg)
    {
      var i :| 0 <= i < |stamped| && seg == stamped[i];
      assert l.s.out[i] in l.s.out;
      StampStaysGenuine(l.s, r, l.s.out[i], setRst && i == |l.s.out| - 1);
    }
    WireGrowsSafe(l.s, l.r, l.data, stamped);
    TL.TransmitHolds(d, l);
    var t := l.s.(out := []);
    SI.DrainInv(l.s);
    SenderStepSafe(l.s, t, l.r, l.data + stamped);
  }

  /** The same seen from the link whose acknowledgments it carries. */
  lemma {:induction false} FlushAcks(d: TL.Discipline, l: TL.Link, segs: seq<Segment>, setRst: bool, n: nat)
    requires TL.Holds(d, l) && l.r.reasm.out.Valid() && n <= |segs|
    requires forall seg :: seg in segs ==> !seg.header.ack
    ensures TL.Holds(d, l.(acks := l.acks + StampAll(l.r, segs, setRst)[..n]))
    decreases n
  {
    hide TL.Holds, Stamp;
    var stamped := StampAll(l.r, segs, setRst);
    if n == 0 {
      assert l.acks + stamped[..0] == l.acks;
    } else {
      FlushAcks(d, l, segs, setRst, n - 1);
      assert segs[n - 1] in segs;
      OneMoreAck(d, l.(acks := l.acks + stamped[..n - 1]), segs[n - 1], setRst && n - 1 == |segs| - 1);
      assert l.acks + stamped[..n] == l.acks + stamped[..n - 1] + [stamped[n - 1]];
    }
  }

  lemma OneMoreAck(d: TL.Discipline, l: TL.Link, seg: Segment, rst: bool)
    requires TL.Holds(d, l) && l.r.reasm.out.Valid() && !seg.header.ack
    ensures TL.Holds(d, l.(acks := l.acks + [Stamp(l.r, seg, rst)]))
  {
    hide SI.SenderInv, Agrees, InOrder, Fresh, Stamp;
    if d != TL.Anything {
      TL.AckHonestly(l.s, l.r, l.data, l.acks, seg, rst);
    }
    if d == TL.AcksInOrder {
      TL.AckPosSmall(l.s, l.r, l.data);
      StampAdvertises(l.r, seg, rst);
      EmitFlow(l.s, l.r, l.acks, l.seen, Stamp(l.r, seg, rst));
    }
  }

  lemma LinkParts(d: TL.Discipline, l: TL.Link)
    requires TL.Holds(d, l)
    ensures SI.SenderInv(l.s) && l.r.reasm.Valid() && l.s.stream.Valid()
    ensures |l.s.stream.written| <= LIMIT
    ensures forall seg :: seg in l.s.out ==> !seg.header.ack
  {
  }

  lemma HoldsConnInv(d: TL.Discipline, x: Duplex)
    requires Holds(d, x)
    ensures ConnInv(x.a) && ConnInv(x.b)
    ensures x.a.sender.stream.Valid() && x.a.receiver.reasm.out.Valid()
    ensures x.b.sender.stream.Valid() && x.b.receiver.reasm.out.Valid()
  {
    LinkParts(d, x.Forward());
    LinkParts(d, x.Backward());
  }

  /** `_send_segments` keeps both directions intact. */
  lemma SendSegmentsHolds(d: TL.Discipline, x: Duplex, setRst: bool)
    requires Holds(d, x) && x.a.sender.stream.Valid() && x.a.receiver.reasm.out.Valid()
    ensures Holds(d, x.(a := SendSegments(x.a, setRst)))
  {
    hide TL.Holds, SI.SenderInv, FillWindow, StampAll, ConnInv;
    var f := x.Forward();
    LinkParts(d, f);
    LinkParts(d, x.Backward());
    FillWindowFrame(f.s);
    TL.SenderEventHolds(d, f, SI.Fill);
    var filled := f.(s := FillWindow(f.s));
    LinkParts(d, filled);
    FlushData(d, filled, x.a.receiver, setRst);
    var segs := filled.s.out;
    FlushAcks(d, x.Backward(), segs, setRst, |segs|);
    assert StampAll(x.a.receiver, segs, setRst)[..|segs|] == StampAll(x.a.receiver, segs, setRst);
    var y := x.(a := SendSegments(x.a, setRst));
    assert y.Forward() == filled.(data := filled.data + StampAll(x.a.receiver, segs, setRst), s := filled.s.(out := []));
    assert y.Backward() == x.Backward().(acks := x.Backward().acks + StampAll(x.a.receiver, segs, setRst));
  }

  /** A step of `a`'s sender that takes no acknowledgment and sends nothing. */
  lemma LocalHolds(d: TL.Discipline, x: Duplex, e: SI.Event)
    requires Holds(d, x) && x.a.sender.stream.Valid() && x.b.receiver.reasm.out.Valid()
    requires TL.Enabled(x.Forward(), TL.AtSender(e))
    ensures Holds(d, x.(a := x.a.(sender := SI.Step(x.a.sender, e))))
  {
    hide TL.Holds, SI.Step, SI.Enabled;
    TL.SenderEventHolds(d, x.Forward(), e);
    var y := x.(a := x.a.(sender := SI.Step(x.a.sender, e)));
    assert y.Backward() == x.Backward();
    assert y.Forward() == x.Forward().(s := SI.Step(x.a.sender, e));
  }

  lemma KillHolds(d: TL.Discipline, x: Duplex)
    requires Holds(d, x)
    ensures Holds(d, x.(a := Kill(x.a)))
  {
    hide TL.Holds;
    HoldsConnInv(d, x);
    SenderErrorHolds(d, x.Forward());
    ReceiverErrorHolds(d, x.Backward());
  }

  lemma SenderErrorHolds(d: TL.Discipline, l: TL.Link)
    requires TL.Holds(d, l)
    ensures TL.Holds(d, l.(s := l.s.(stream := l.s.stream.SetError())))
  {
    hide SI.Genuine, SI.Carries, Agrees, Fresh, InOrder, RightEdge, EofBacked;
    var t := l.s.(stream := l.s.stream.SetError());
    SI.FlightKept(l.s, t);
    SI.OutKept(l.s, t);
    SenderStepSafe(l.s, t, l.r, l.data);
    if d == TL.AcksInOrder {
      SenderStepFlow(l.s, t, l.r, l.acks, l.seen);
    }
  }

  lemma ReceiverErrorHolds(d: TL.Discipline, l: TL.Link)
    requires TL.Holds(d, l)
    ensures TL.Holds(d, l.(r := l.r.(reasm := l.r.reasm.(out := l.r.reasm.out.SetError()))))
  {
    hide SI.SenderInv, SI.Genuine, Fresh, InOrder;
    var t := l.r.(reasm := l.r.reasm.(out := l.r.reasm.out.SetError()));
    KnowsSame(l.r.reasm, t.reasm, Sent(l.s)) by { LinkParts(d, l); }
    if d == TL.AcksInOrder {
      FlowReceiverMoves(l.s, l.r, t, l.acks, l.seen);
    }
  }

  /** Taking in a segment from the peer: its data for one direction, its acknowledgment for the other. */
  lemma AbsorbHolds(d: TL.Discipline, x: Duplex, k: nat)
    requires Holds(d, x) && k < |x.b.out| && PermittedA(d, x, Arrive(k)) && Absorbed(x.a, x.b.out[k])
    requires x.a.sender.stream.Valid() && x.a.receiver.reasm.out.Valid()
    ensures var seg := x.b.out[k];
            Holds(d, x.(a := Absorb(x.a, seg), seenA := if seg.header.ack then k else x.seenA))
  {
    hide TL.Holds, SI.SenderInv, AckReceived, Receive, FinGuard, NoOvertake, ConnInv, SendEmpty;
    HoldsConnInv(d, x);
    var seg := x.b.out[k];
    TL.DeliverHolds(d, x.Backward(), k);
    AbsorbForward(d, x.Forward(), k, WantsAnswer(x.a, seg));
    var y := x.(a := Absorb(x.a, seg), seenA := if seg.header.ack then k else x.seenA);
    assert y.Forward() == Acked(x.Forward(), k, WantsAnswer(x.a, seg));
    assert y.Backward() == x.Backward().(r := Receive(x.a.receiver, seg));
  }

  /** The acknowledging half of a segment, and the answer it may provoke. */
  function Acked(l: TL.Link, k: nat, answer: bool): TL.Link
    requires l.s.stream.Valid() && k < |l.acks|
  {
    var h := l.acks[k].header;
    var f := if h.ack then l.(s := AckReceived(l.s, h.ackno, h.win), seen := k) else l;
    if answer then f.(s := SendEmpty(f.s)) else f
  }

  lemma AbsorbForward(d: TL.Discipline, l: TL.Link, k: nat, answer: bool)
    requires TL.Holds(d, l) && l.s.stream.Valid() && l.r.reasm.out.Valid() && k < |l.acks|
    requires d == TL.AcksInOrder && l.acks[k].header.ack ==> l.seen <= k
    ensures TL.Holds(d, Acked(l, k, answer))
  {
    hide TL.Holds, SI.SenderInv, AckReceived, SendEmpty;
    var h := l.acks[k].header;
    var f := l;
    if h.ack {
      TL.TakeAckHolds(d, l, k);
      f := l.(s := AckReceived(l.s, h.ackno, h.win), seen := k);
    }
    LinkParts(d, f);
    SendEmptyKeepsStream(f.s);
    TL.SenderEventHolds(d, f, SI.Empty);
  }

  lemma SendEmptyKeepsStream(s: Sender)
    ensures SendEmpty(s).stream == s.stream
  {
  }

  lemma UncleanShutdownHolds(d: TL.Discipline, x: Duplex)
    requires Holds(d, x) && x.a.sender.stream.Valid() && x.a.receiver.reasm.out.Valid()
    ensures Holds(d, x.(a := UncleanShutdown(x.a)))
  {
    hide TL.Holds, SI.SenderInv, SendSegments, ConnInv;
    KillHolds(d, x);
    var y := x.(a := Kill(x.a));
    HoldsConnInv(d, y);
    LinkParts(d, y.Forward());
    LocalHolds(d, y, SI.Empty);
    var z := if y.a.sender.out == [] then y.(a := y.a.(sender := SendEmpty(y.a.sender))) else y;
    SendSegmentsHolds(d, z, true);
  }

  /** Time passing and linger flags are not part of any link. */
  lemma ClockHolds(d: TL.Discipline, x: Duplex, c: Conn)
    requires Holds(d, x) && c == x.a.(sinceLast := c.sinceLast, linger := c.linger, active := c.active, sentSyn := c.sentSyn)
    ensures Holds(d, x.(a := c))
  {
    hide TL.Holds;
    assert x.(a := c).Forward() == x.Forward() && x.(a := c).Backward() == x.Backward();
  }

  lemma ElapseHolds(d: TL.Discipline, x: Duplex, ms: nat)
    requires Holds(d, x) && ConnInv(x.a)
    ensures Holds(d, x.(a := TickConn(x.a, ms)))
  {
    hide TL.Holds, SI.SenderInv, SendSegments, UncleanShutdown, Tick;
    HoldsConnInv(d, x);
    LinkParts(d, x.Forward());
    TickKeepsStream(x.a.sender, ms);
    LocalHolds(d, x, SI.Elapse(ms));
    var c1 := x.a.(sender := Tick(x.a.sender, ms), sinceLast := x.a.sinceLast + ms);
    ClockHolds(d, x.(a := x.a.(sender := Tick(x.a.sender, ms))), c1);
    var y := x.(a := c1);
    HoldsConnInv(d, y);
    UncleanShutdownHolds(d, y);
    var z := if c1.sender.retx > MAX_RETX_ATTEMPTS then y.(a := UncleanShutdown(c1)) else y;
    HoldsConnInv(d, z);
    SendSegmentsHolds(d, z, false);
  }

  lemma ArriveHolds(d: TL.Discipline, x: Duplex, k: nat)
    requires Holds(d, x) && ConnInv(x.a) && k < |x.b.out| && PermittedA(d, x, Arrive(k))
    ensures Holds(d, StepA(x, Arrive(k)))
  {
    hide TL.Holds, SI.SenderInv, SendSegments, Absorb, FinGuard, NoOvertake;
    HoldsConnInv(d, x);
    var seg := x.b.out[k];
    var c0 := x.a.(sinceLast := 0);
    var y := x.(a := c0);
    ClockHolds(d, x, c0);
    if seg.header.rst {
      KillHolds(d, y);
    } else if Absorbed(x.a, seg) {
      AbsorbHolds(d, y, k);
      var z := y.(a := Absorb(c0, seg), seenA := if seg.header.ack then k else x.seenA);
      HoldsConnInv(d, z);
      SendSegmentsHolds(d, z, false);
    }
  }

  lemma StepAHolds(d: TL.Discipline, x: Duplex, op: Op)
    requires Holds(d, x) && ConnInv(x.a) && EnabledA(x, op) && PermittedA(d, x, op)
    ensures Holds(d, StepA(x, op))
  {
    hide TL.Holds, SI.SenderInv, SendSegments, TickConn, SegmentReceived, Receive;
    HoldsConnInv(d, x);
    LinkParts(d, x.Forward());
    match op {
      case Connect =>
        SendSegmentsHolds(d, x, false);
      case Write(data) =>
        LocalHolds(d, x, SI.Write(data));
        var y := x.(a := x.a.(sender := WriteOut(x.a.sender, data)));
        HoldsConnInv(d, y);
        SendSegmentsHolds(d, y, false);
      case End =>
        LocalHolds(d, x, SI.EndInput);
        var y := x.(a := x.a.(sender := EndOut(x.a.sender)));
        HoldsConnInv(d, y);
        SendSegmentsHolds(d, y, false);
      case Elapse(ms) => ElapseHolds(d, x, ms);
      case Read(n) =>
        TL.ReadHolds(d, x.Backward(), n);
        var y := x.(a := ReadFrom(x.a, n));
        assert y.Forward() == x.Forward();
      case Arrive(k) => ArriveHolds(d, x, k);
    }
  }

  // ---------------------------------------------------------------- runs

  predicate Enabled(x: Duplex, e: Event)
    requires x.a.sender.stream.Valid() && x.a.receiver.reasm.out.Valid()
    requires x.b.sender.stream.Valid() && x.b.receiver.reasm.out.Valid()
  {
    EnabledA(if e.atA then x else x.Swap(), e.op)
  }

  predicate Permitted(d: TL.Discipline, x: Duplex, e: Event)
    requires x.a.sender.stream.Valid() && x.a.receiver.reasm.out.Valid()
    requires x.b.sender.stream.Valid() && x.b.receiver.reasm.out.Valid()
    requires Enabled(x, e)
  {
    PermittedA(d, if e.atA then x else x.Swap(), e.op)
  }

  function Step(x: Duplex, e: Event): Duplex
    requires ConnInv(x.a) && ConnInv(x.b) && Enabled(x, e)
  {
    if e.atA then StepA(x, e.op) else StepA(x.Swap(), e.op).Swap()
  }

  lemma StepHolds(d: TL.Discipline, x: Duplex, e: Event)
    requires Holds(d, x) && ConnInv(x.a) && ConnInv(x.b) && Enabled(x, e) && Permitted(d, x, e)
    ensures Holds(d, Step(x, e))
  {
    hide TL.Holds, ConnInv, StepA, EnabledA, PermittedA;
    StepAHolds(d, if e.atA then x else x.Swap(), e.op);
  }

  ghost predicate IsRun(d: TL.Discipline, x: Duplex, es: seq<Event>)
    requires Holds(d, x)
    decreases |es|
  {
    es == [] ||
    (HoldsConnInv(d, x);
     Enabled(x, es[0]) && Permitted(d, x, es[0]) && (StepHolds(d, x, es[0]); IsRun(d, Step(x, es[0]), es[1..])))
  }

  ghost function After(d: TL.Discipline, x: Duplex, es: seq<Event>): Duplex
    requires Holds(d, x) && IsRun(d, x, es)
    decreases |es|
  {
    if es == [] then x else
      HoldsConnInv(d, x);
      StepHolds(d, x, es[0]);
      After(d, Step(x, es[0]), es[1..])
  }

  lemma {:induction false} RunHolds(d: TL.Discipline, x: Duplex, es: seq<Event>)
    requires Holds(d, x) && IsRun(d, x, es)
    ensures Holds(d, After(d, x, es))
    decreases |es|
  {
    if es != [] {
      HoldsConnInv(d, x);
      StepHolds(d, x, es[0]);
      RunHolds(d, Step(x, es[0]), es[1..]);
    }
  }

  /** The part of `TCPConfig` that matters, and the initial sequence number. */
  datatype Config = Config(sendCapacity: nat, recvCapacity: nat, rtTimeout: u16, isn: u32) {
    function New(): Conn {
      NewConn(sendCapacity, recvCapacity, rtTimeout, isn)
    }
  }

  /** Two fresh endpoints satisfy every invariant. */
  function NewPair(a: Config, b: Config): (x: Duplex)
    ensures Holds(TL.Anything, x) && Holds(TL.FinGuarded, x)
    ensures a.recvCapacity <= 65535 && b.recvCapacity <= 65535 ==> Holds(TL.AcksInOrder, x)
  {
    var x := Duplex(a.New(), b.New(), 0, 0);
    assert x.Forward() == TL.NewLink(a.sendCapacity, b.recvCapacity, a.rtTimeout, a.isn);
    assert x.Backward() == TL.NewLink(b.sendCapacity, a.recvCapacity, b.rtTimeout, b.isn);
    x
  }

  /** What both applications have received is a prefix of what the other one has written, in every run. */
  lemma BothDirectionsSafe(a: Config, b: Config, es: seq<Event>)
    requires IsRun(TL.Anything, NewPair(a, b), es)
    ensures var y := After(TL.Anything, NewPair(a, b), es);
            && y.b.receiver.reasm.out.written <= y.a.sender.stream.written
            && y.a.receiver.reasm.out.written <= y.b.sender.stream.written
  {
    var x := NewPair(a, b);
    RunHolds(TL.Anything, x, es);
    var y := After(TL.Anything, x, es);
    DeliveredIsPrefix(y.a.sender, y.b.receiver, y.a.out);
    DeliveredIsPrefix(y.b.sender, y.a.receiver, y.b.out);
  }

  /** With acknowledgments taken in order and no bare FIN overtaking data, neither side overruns its window. */
  lemma BothWindowsRespected(a: Config, b: Config, es: seq<Event>)
    requires a.recvCapacity <= 65535 && b.recvCapacity <= 65535
    requires IsRun(TL.AcksInOrder, NewPair(a, b), es)
    ensures var y := After(TL.AcksInOrder, NewPair(a, b), es);
            && Outstanding(y.a.sender) <= Window(y.a.sender)
            && Outstanding(y.b.sender) <= Window(y.b.sender)
  {
    RunHolds(TL.AcksInOrder, NewPair(a, b), es);
  }

  /** The operation makes endpoint `a` inactive without a stream error. */
  ghost predicate StopsCleanly(x: Duplex, op: Op)
    requires ConnInv(x.a) && EnabledA(x, op)
  {
    x.a.active && !StepA(x, op).a.active && !StepA(x, op).a.sender.stream.error
  }

  /**
    When an endpoint stops cleanly after a guarded run, the peer's application has -- or can read --
    everything this side ever wrote, and this side has everything the peer wrote.
   */
  lemma CleanStopMeansAllDelivered(a: Config, b: Config, es: seq<Event>, op: Op)
    requires IsRun(TL.FinGuarded, NewPair(a, b), es)
    ensures var y := After(TL.FinGuarded, NewPair(a, b), es);
            && ConnInv(y.a)
            && (EnabledA(y, op) && PermittedA(TL.FinGuarded, y, op) && StopsCleanly(y, op) ==>
                  var z := StepA(y, op);
                  && z.b.receiver.reasm.out.written == z.a.sender.stream.written
                  && z.a.receiver.reasm.out.written == z.b.sender.stream.written)
  {
    hide StepA, TL.Holds, IsRun, After, NewPair;
    RunHolds(TL.FinGuarded, NewPair(a, b), es);
    var y := After(TL.FinGuarded, NewPair(a, b), es);
    HoldsConnInv(TL.FinGuarded, y);
    if EnabledA(y, op) && PermittedA(TL.FinGuarded, y, op) && StopsCleanly(y, op) {
      StepAHolds(TL.FinGuarded, y, op);
      var z := StepA(y, op);
      StepStopsSoundly(y, op);
      DoneMeansDelivered(z.Forward());
      EndedMeansAll(z.Backward());
    }
  }

  lemma StepStopsSoundly(x: Duplex, op: Op)
    requires ConnInv(x.a) && EnabledA(x, op)
    ensures StopsSoundly(x.a, StepA(x, op).a)
  {
    hide TcpConnecting.Connect, WriteTo, EndInputStream, TickConn, SegmentReceived, ReadFrom, ConnInv;
    match op {
      case Connect => ShutdownIsSound(x.a, CallConnect);
      case Write(data) => ShutdownIsSound(x.a, CallWrite(data));
      case End => ShutdownIsSound(x.a, CallEnd);
      case Elapse(ms) => ShutdownIsSound(x.a, CallTick(ms));
      case Read(n) => ShutdownIsSound(x.a, CallRead(n));
      case Arrive(k) => ShutdownIsSound(x.a, CallReceive(x.b.out[k]));
    }
  }

  lemma DoneMeansDelivered(l: TL.Link)
    requires TL.Holds(TL.FinGuarded, l) && OutboundDone(l.s)
    ensures l.r.reasm.out.written == l.s.stream.written
  {
    hide SI.FlightInv, SI.OutInv, SI.TimerInv, Agrees, AcksHonest, EofBacked;
    DeliveredIsPrefix(l.s, l.r, l.data);
    if l.r.syn {
      AckIsExact(l.s, l.r, l.data);
    }
  }

  lemma EndedMeansAll(l: TL.Link)
    requires TL.Holds(TL.FinGuarded, l) && l.r.reasm.out.ended
    ensures l.r.reasm.out.written == l.s.stream.written
  {
    DeliveredIsPrefix(l.s, l.r, l.data);
  }
}
