/** A connection endpoint as a value: a sender, a receiver, and the rules that tie them together. */
module TcpConnecting {
  import opened Prelude
  import opened WrappingIntegers
  import opened ByteStreams
  import opened Reassembly
  import opened Segments
  import opened TcpReceivers
  import opened TcpSending
  import opened SenderInvariant

  const MAX_RETX_ATTEMPTS: nat := 8

  datatype Conn = Conn(
    sender: Sender, receiver: Receiver, out: seq<Segment>,
    rtTimeout: u16, linger: bool, sinceLast: nat, active: bool, sentSyn: bool)

  function NewConn(sendCapacity: nat, recvCapacity: nat, rtTimeout: u16, isn: u32): Conn {
    Conn(NewSender(sendCapacity, rtTimeout, isn),
         Receiver(Reasm(Stream(recvCapacity, [], 0, false, false), false, map[]), 0, false, false),
         [], rtTimeout, true, 0, true, false)
  }

  ghost predicate ConnInv(c: Conn) {
    SenderInv(c.sender) && c.receiver.reasm.Valid()
  }

  /** Fills in what the receiving half has to say: acknowledgment and a 16-bit window. */
  function Stamp(r: Receiver, seg: Segment, rst: bool): Segment
    requires r.reasm.out.Valid()
  {
    var h := seg.header;
    var acked := match r.Ackno()
      case Some(a) => h.(ack := true, ackno := a)
      case None => h;
    seg.(header := acked.(win := r.WindowSize() % TWO16, rst := h.rst || rst))
  }

  /** All queued segments stamped; only the last one resets. */
  function StampAll(r: Receiver, segs: seq<Segment>, setRst: bool): (out: seq<Segment>)
    requires r.reasm.out.Valid()
    ensures |out| == |segs|
    ensures forall i :: 0 <= i < |segs| ==> out[i] == Stamp(r, segs[i], setRst && i == |segs| - 1)
  {
    seq(|segs|, i requires 0 <= i < |segs| => Stamp(r, segs[i], setRst && i == |segs| - 1))
  }

  /** Both streams are over and nothing is outstanding. */
  predicate Finished(c: Conn) {
    && c.receiver.reasm.out.ended && c.receiver.reasm.pending == map[]
    && c.sender.stream.ended
    && c.sender.bytesInFlight == 0
  }

  function CleanShutdown(c: Conn): Conn
    requires c.sender.stream.Valid()
  {
    var linger := c.linger && !(c.receiver.reasm.out.ended && !c.sender.stream.Eof());
    var stop := Finished(c) && (!linger || c.sinceLast >= 10 * c.rtTimeout);
    c.(linger := linger, active := c.active && !stop)
  }

  /** Hands everything the sender wants sent to the network. */
  function Flush(c: Conn, setRst: bool): Conn
    requires c.receiver.reasm.out.Valid()
  {
    c.(sender := c.sender.(out := []),
       sentSyn := true,
       out := c.out + StampAll(c.receiver, c.sender.out, setRst))
  }

  function SendSegments(c: Conn, setRst: bool): Conn
    requires c.sender.stream.Valid() && c.receiver.reasm.out.Valid()
  {
    FillWindowFrame(c.sender);
    CleanShutdown(Flush(c.(sender := FillWindow(c.sender)), setRst))
  }

  function Kill(c: Conn): Conn {
    c.(sender := c.sender.(stream := c.sender.stream.SetError()),
       receiver := c.receiver.(reasm := c.receiver.reasm.(out := c.receiver.reasm.out.SetError())),
       active := false)
  }

  function UncleanShutdown(c: Conn): Conn
    requires c.sender.stream.Valid() && c.receiver.reasm.out.Valid()
  {
    var k := Kill(c);
    SendSegments(if k.sender.out == [] then k.(sender := SendEmpty(k.sender)) else k, true)
  }

  /** The segment asks for an answer: it occupies sequence space. */
  predicate WantsAnswer(c: Conn, seg: Segment) {
    (seg.header.syn && c.sentSyn) || seg.header.fin || seg.payload != []
  }

  /** The segment's effect on both halves, before anything is sent in return. */
  function Absorb(c: Conn, seg: Segment): Conn
    requires c.sender.stream.Valid() && c.receiver.reasm.out.Valid()
  {
    var s1 := if seg.header.ack then AckReceived(c.sender, seg.header.ackno, seg.header.win) else c.sender;
    var s2 := if WantsAnswer(c, seg) then SendEmpty(s1) else s1;
    c.(receiver := Receive(c.receiver, seg), sender := s2)
  }

  function SegmentReceived(c: Conn, seg: Segment): Conn
    requires ConnInv(c)
  {
    var c0 := c.(sinceLast := 0);
    if seg.header.rst then Kill(c0)
    else if !c.sentSyn && seg.header.ack then c0
    else
      AbsorbInv(c0, seg);
      SendSegments(Absorb(c0, seg), false)
  }

  lemma AbsorbInv(c: Conn, seg: Segment)
    requires ConnInv(c)
    ensures ConnInv(Absorb(c, seg))
  {
    hide AckReceived, Push, FlightInv, OutInv, TimerInv;
    if seg.header.ack {
      AckReceivedInv(c.sender, seg.header.ackno, seg.header.win);
    }
    var s1 := if seg.header.ack then AckReceived(c.sender, seg.header.ackno, seg.header.win) else c.sender;
    SendEmptyInv(s1);
    ReceiveValid(c.receiver, seg);
  }

  lemma ReceiveValid(r: Receiver, seg: Segment)
    requires r.reasm.Valid()
    ensures Receive(r, seg).reasm.Valid()
    ensures Receive(r, seg).reasm.out.error == r.reasm.out.error
  {
    hide Push, Unwrap;
    var isn := if seg.header.syn then seg.header.seqno else r.isn;
    PushValid(r.reasm, PieceOf(seg, isn, r.reasm.out.BytesWritten()));
  }

  function WriteTo(c: Conn, data: seq<byte>): Conn
    requires ConnInv(c)
  {
    SendSegments(c.(sender := WriteOut(c.sender, data)), false)
  }

  function EndInputStream(c: Conn): Conn
    requires ConnInv(c)
  {
    SendSegments(c.(sender := EndOut(c.sender)), false)
  }

  function Connect(c: Conn): Conn
    requires ConnInv(c)
  {
    SendSegments(c, false)
  }

  function TickConn(c: Conn, ms: nat): Conn
    requires ConnInv(c)
  {
    var c1 := c.(sender := Tick(c.sender, ms), sinceLast := c.sinceLast + ms);
    var c2 := if c1.sender.retx > MAX_RETX_ATTEMPTS then
                SendSegmentsKeepsStreams(c1);
                UncleanShutdown(c1)
              else c1;
    if c2.sentSyn then SendSegments(c2, false) else c2
  }

  lemma SendSegmentsKeepsStreams(c: Conn)
    requires c.sender.stream.Valid() && c.receiver.reasm.out.Valid()
    ensures UncleanShutdown(c).sender.stream.Valid() && UncleanShutdown(c).receiver.reasm.out.Valid()
  {
    hide FillWindow;
    var k := Kill(c);
    var k1 := if k.sender.out == [] then k.(sender := SendEmpty(k.sender)) else k;
    FillWindowFrame(k1.sender);
  }

  function ReadFrom(c: Conn, n: nat): Conn
    requires ConnInv(c) && n <= c.receiver.reasm.out.BufferSize()
  {
    c.(receiver := ReadInbound(c.receiver, n))
  }

  // ---------------------------------------------------------------- the invariant

  lemma SendSegmentsInv(c: Conn, setRst: bool)
    requires ConnInv(c)
    ensures ConnInv(SendSegments(c, setRst))
    ensures SendSegments(c, setRst).receiver == c.receiver
  {
    hide FlightInv, OutInv, TimerInv, FillWindow, Stamp;
    FillWindowInv(c.sender);
    DrainInv(FillWindow(c.sender));
  }

  lemma KillInv(c: Conn)
    requires ConnInv(c)
    ensures ConnInv(Kill(c))
  {
    var t := Kill(c).sender;
    FlightKept(c.sender, t);
    OutKept(c.sender, t);
  }

  lemma UncleanShutdownInv(c: Conn)
    requires ConnInv(c)
    ensures ConnInv(UncleanShutdown(c))
    ensures UncleanShutdown(c).sender.stream.error && !UncleanShutdown(c).active
  {
    hide FlightInv, OutInv, TimerInv, FillWindow, Stamp;
    KillInv(c);
    var k := Kill(c);
    SendEmptyInv(k.sender);
    var k1 := if k.sender.out == [] then k.(sender := SendEmpty(k.sender)) else k;
    SendSegmentsInv(k1, true);
    FillWindowFrame(k1.sender);
  }

  // ---------------------------------------------------------------- clean shutdown

  /** The outbound stream is completely delivered: FIN was sent and everything is acknowledged. */
  predicate OutboundDone(s: Sender) {
    s.fin && s.flight == [] && s.checkpoint == s.next == |s.stream.written| + 2
  }

  /** With a live stream and nothing outstanding, filling the window always sends something. */
  lemma FillSendsSomething(s: Sender)
    requires SenderInv(s) && s.flight == []
    requires !s.syn || (!s.fin && s.stream.ended)
    ensures FillWindow(s).flight != []
  {
    if s.syn {
      assert s.checkpoint == s.next && Usable(s) == Max(s.rwnd, 1);
      var k := Min(Usable(s), s.stream.BufferSize());
      var close := s.stream.ended && Usable(s) > s.stream.BufferSize();
      ChunksCorrect(s.isn, s.next, s.stream.Buffered()[..k], close);
    }
  }

  lemma NoBytesNoFlight(s: Sender)
    requires SenderInv(s) && s.bytesInFlight == 0
    ensures s.flight == [] && s.checkpoint == s.next
  {
    TilesTotal(s.flight, Lowest(s), s.next);
  }

  /** A filled window with nothing outstanding and an ended stream can only mean that FIN is acknowledged. */
  lemma NothingOutstandingMeansDone(s: Sender)
    requires SenderInv(s) && FillWindow(s).stream.ended && FillWindow(s).bytesInFlight == 0
    ensures OutboundDone(FillWindow(s))
  {
    hide FillWindow, FlightInv, OutInv, TimerInv;
    var t := FillWindow(s);
    FillWindowInv(s);
    NoBytesNoFlight(t);
    FillWindowFrame(s);
    if !s.syn || !s.fin {
      FillSendsSomething(s);
    }
  }

  /**
    The call leaves a connection that stopped without error only if both directions are complete, and
    any lingering has been sat out.
   */
  ghost predicate StopsSoundly(c: Conn, d: Conn) {
    c.active && !d.active && !d.sender.stream.error ==>
      && d.receiver.reasm.out.ended && d.receiver.reasm.pending == map[]
      && OutboundDone(d.sender)
      && (!d.linger || d.sinceLast >= 10 * d.rtTimeout)
  }

  lemma SendSegmentsStopsSoundly(c: Conn, setRst: bool)
    requires ConnInv(c)
    ensures StopsSoundly(c, SendSegments(c, setRst))
    ensures !c.active ==> !SendSegments(c, setRst).active
    ensures SendSegments(c, setRst).sender.stream.error == c.sender.stream.error
  {
    hide FillWindow, FlightInv, OutInv, TimerInv, Stamp;
    FillWindowInv(c.sender);
    FillWindowFrame(c.sender);
    var s := FillWindow(c.sender);
    if s.stream.ended && s.bytesInFlight == 0 {
      NothingOutstandingMeansDone(c.sender);
    }
  }

  datatype Call =
    | CallConnect
    | CallWrite(data: seq<byte>)
    | CallEnd
    | CallTick(ms: nat)
    | CallReceive(seg: Segment)
    | CallRead(n: nat)

  predicate Callable(c: Conn, call: Call)
    requires c.sender.stream.Valid() && c.receiver.reasm.out.Valid()
  {
    match call
    case CallWrite(data) => MayWrite(c.sender, data)
    case CallRead(n) => n <= c.receiver.reasm.out.BufferSize()
    case _ => true
  }

  function Perform(c: Conn, call: Call): Conn
    requires ConnInv(c) && Callable(c, call)
  {
    match call
    case CallConnect => Connect(c)
    case CallWrite(data) => WriteTo(c, data)
    case CallEnd => EndInputStream(c)
    case CallTick(ms) => TickConn(c, ms)
    case CallReceive(seg) => SegmentReceived(c, seg)
    case CallRead(n) => ReadFrom(c, n)
  }

  lemma TickConnInv(c: Conn, ms: nat)
    requires ConnInv(c)
    ensures ConnInv(TickConn(c, ms)) && StopsSoundly(c, TickConn(c, ms))
  {
    hide SendSegments, UncleanShutdown, Tick, FlightInv, OutInv, TimerInv, FillWindow;
    TickInv(c.sender, ms);
    TickKeepsStream(c.sender, ms);
    var c1 := c.(sender := Tick(c.sender, ms), sinceLast := c.sinceLast + ms);
    UncleanShutdownInv(c1);
    var c2 := if c1.sender.retx > MAX_RETX_ATTEMPTS then UncleanShutdown(c1) else c1;
    SendSegmentsInv(c2, false);
    SendSegmentsStopsSoundly(c2, false);
  }

  lemma TickKeepsStream(s: Sender, ms: nat)
    ensures Tick(s, ms).stream == s.stream
  {
  }

  lemma SegmentReceivedInv(c: Conn, seg: Segment)
    requires ConnInv(c)
    ensures ConnInv(SegmentReceived(c, seg)) && StopsSoundly(c, SegmentReceived(c, seg))
  {
    hide SendSegments, Absorb, FlightInv, OutInv, TimerInv;
    var c0 := c.(sinceLast := 0);
    KillInv(c0);
    AbsorbInv(c0, seg);
    AbsorbKeepsError(c0, seg);
    SendSegmentsInv(Absorb(c0, seg), false);
    SendSegmentsStopsSoundly(Absorb(c0, seg), false);
  }

  lemma AbsorbKeepsError(c: Conn, seg: Segment)
    requires ConnInv(c)
    ensures Absorb(c, seg).active == c.active
  {
  }

  /**
    Clean shutdown is sound: whatever call makes the connection inactive without a stream error, the
    inbound stream has ended with nothing unassembled, and the outbound stream including FIN is acknowledged.
   */
  lemma ShutdownIsSound(c: Conn, call: Call)
    requires ConnInv(c) && Callable(c, call)
    ensures ConnInv(Perform(c, call)) && StopsSoundly(c, Perform(c, call))
  {
    hide SendSegments, FlightInv, OutInv, TimerInv, TickConn, SegmentReceived;
    match call {
      case CallConnect =>
        SendSegmentsInv(c, false);
        SendSegmentsStopsSoundly(c, false);
      case CallWrite(data) =>
        WriteOutInv(c.sender, data);
        var c1 := c.(sender := WriteOut(c.sender, data));
        SendSegmentsInv(c1, false);
        SendSegmentsStopsSoundly(c1, false);
      case CallEnd =>
        EndOutInv(c.sender);
        var c1 := c.(sender := EndOut(c.sender));
        SendSegmentsInv(c1, false);
        SendSegmentsStopsSoundly(c1, false);
      case CallTick(ms) => TickConnInv(c, ms);
      case CallReceive(seg) => SegmentReceivedInv(c, seg);
      case CallRead(n) => PopValid(c.receiver.reasm, n);
    }
  }

  // ---------------------------------------------------------------- giving up

  /** What holds in every reachable state: a connection without error has not retransmitted nine times in a row. */
  ghost predicate ConnLive(c: Conn) {
    ConnInv(c) && (!c.sender.stream.error ==> c.sender.retx <= MAX_RETX_ATTEMPTS)
  }

  lemma FillKeepsRetx(s: Sender)
    requires s.stream.Valid()
    ensures FillWindow(s).retx == s.retx && FillWindow(s).stream.error == s.stream.error
    ensures FillWindow(s).initialRto == s.initialRto
  {
  }

  lemma AckKeepsOrResetsRetx(s: Sender, ackno: u32, win: u16)
    requires s.stream.Valid()
    ensures var t := AckReceived(s, ackno, win);
            (t.retx == 0 || t.retx == s.retx) && t.stream.error == s.stream.error && t.initialRto == s.initialRto
  {
    hide Unwrap, FillWindow;
    var ack := Unwrap(ackno, s.isn, s.checkpoint);
    FillKeepsRetx(Acknowledge(s.(rwnd := win), ack));
  }

  lemma SendSegmentsKeepsRetx(c: Conn, setRst: bool)
    requires c.sender.stream.Valid() && c.receiver.reasm.out.Valid()
    ensures var d := SendSegments(c, setRst);
            d.sender.retx == c.sender.retx && d.sender.stream.error == c.sender.stream.error
            && d.sender.initialRto == c.sender.initialRto
  {
    hide FillWindow, Stamp;
    FillKeepsRetx(c.sender);
    FillWindowFrame(c.sender);
  }

  lemma TickConnLive(c: Conn, ms: nat)
    requires ConnLive(c)
    ensures ConnLive(TickConn(c, ms))
    ensures c.sender.stream.error ==> TickConn(c, ms).sender.stream.error
  {
    TickConnInv(c, ms);
    hide SendSegments, UncleanShutdown, Tick, FlightInv, OutInv, TimerInv, FillWindow, StopsSoundly;
    TickInv(c.sender, ms);
    TickKeepsStream(c.sender, ms);
    var c1 := c.(sender := Tick(c.sender, ms), sinceLast := c.sinceLast + ms);
    assert ConnInv(c1) && c1.sender.stream.Valid() && c1.receiver.reasm.out.Valid();
    UncleanShutdownInv(c1);
    var c2 := if c1.sender.retx > MAX_RETX_ATTEMPTS then UncleanShutdown(c1) else c1;
    assert c2.sender.stream.Valid() && c2.receiver.reasm.out.Valid();
    hide ConnInv;
    SendSegmentsKeepsRetx(c2, false);
  }

  lemma AbsorbKeepsRetx(c: Conn, seg: Segment)
    requires c.sender.stream.Valid() && c.receiver.reasm.out.Valid()
    ensures var s := Absorb(c, seg).sender;
            (s.retx == 0 || s.retx == c.sender.retx) && s.stream.error == c.sender.stream.error
  {
    hide AckReceived, Receive;
    AckKeepsOrResetsRetx(c.sender, seg.header.ackno, seg.header.win);
  }

  lemma SegmentReceivedLive(c: Conn, seg: Segment)
    requires ConnLive(c)
    ensures ConnLive(SegmentReceived(c, seg))
    ensures c.sender.stream.error ==> SegmentReceived(c, seg).sender.stream.error
  {
    SegmentReceivedInv(c, seg);
    hide SendSegments, FlightInv, OutInv, TimerInv, Absorb, StopsSoundly;
    var c0 := c.(sinceLast := 0);
    AbsorbInv(c0, seg);
    AbsorbKeepsRetx(c0, seg);
    SendSegmentsKeepsRetx(Absorb(c0, seg), false);
  }

  /** Every call keeps the bound, and no call clears an error. */
  lemma PerformLive(c: Conn, call: Call)
    requires ConnLive(c) && Callable(c, call)
    ensures ConnLive(Perform(c, call))
    ensures c.sender.stream.error ==> Perform(c, call).sender.stream.error
  {
    ShutdownIsSound(c, call);
    hide SendSegments, FlightInv, OutInv, TimerInv, TickConn, SegmentReceived;
    match call {
      case CallConnect => SendSegmentsKeepsRetx(c, false);
      case CallWrite(data) => SendSegmentsKeepsRetx(c.(sender := WriteOut(c.sender, data)), false);
      case CallEnd => SendSegmentsKeepsRetx(c.(sender := EndOut(c.sender)), false);
      case CallTick(ms) => TickConnLive(c, ms);
      case CallReceive(seg) => SegmentReceivedLive(c, seg);
      case CallRead(n) =>
    }
  }

  lemma NewConnLive(sendCapacity: nat, recvCapacity: nat, rtTimeout: u16, isn: u32)
    ensures var c := NewConn(sendCapacity, recvCapacity, rtTimeout, isn);
            && ConnLive(c) && c.active && c.linger && !c.sentSyn && c.sinceLast == 0 && c.out == []
            && c.rtTimeout == c.sender.initialRto == rtTimeout && c.sender.isn == isn
            && c.sender.stream.Remaining() == sendCapacity && c.receiver.WindowSize() == recvCapacity
  {
    NewSenderInv(sendCapacity, rtTimeout, isn);
  }

  lemma TickFails(c: Conn, ms: nat)
    requires ConnInv(c) && !c.sender.stream.error
    ensures TickConn(c, ms).sender.stream.error <==> Tick(c.sender, ms).retx > MAX_RETX_ATTEMPTS
  {
    hide SendSegments, UncleanShutdown, Tick, FlightInv, OutInv, TimerInv, FillWindow;
    TickInv(c.sender, ms);
    TickKeepsStream(c.sender, ms);
    var c1 := c.(sender := Tick(c.sender, ms), sinceLast := c.sinceLast + ms);
    UncleanShutdownInv(c1);
    var c2 := if c1.sender.retx > MAX_RETX_ATTEMPTS then UncleanShutdown(c1) else c1;
    SendSegmentsStopsSoundly(c2, false);
  }

  /** The timer runs out, with an open window, on something outstanding that was resent eight times already. */
  predicate NinthRetransmission(s: Sender, ms: nat) {
    s.retx == MAX_RETX_ATTEMPTS && s.flight != [] && s.timeSpent + ms >= s.rto && s.rwnd > 0
  }

  /** Giving up: a tick breaks a healthy reachable connection exactly when it is itself the ninth retransmission. */
  lemma TickGivesUpExactly(c: Conn, ms: nat)
    requires ConnLive(c) && !c.sender.stream.error
    ensures TickConn(c, ms).sender.stream.error <==> NinthRetransmission(c.sender, ms)
  {
    hide TickConn, ConnInv;
    TickFails(c, ms);
  }

  /** Writing keeps the invariant exactly until FIN is sent; afterwards only if nothing is taken. */
  lemma WriteToInvExactly(c: Conn, data: seq<byte>)
    requires ConnInv(c)
    ensures ConnInv(WriteTo(c, data)) <==> MayWrite(c.sender, data)
  {
    hide SendSegments, FlightInv, OutInv, TimerInv;
    if MayWrite(c.sender, data) {
      ShutdownIsSound(c, CallWrite(data));
    } else {
      FinishedStays(c.(sender := WriteOut(c.sender, data)));
    }
  }

  lemma FinishedStays(c: Conn)
    requires c.sender.stream.Valid() && c.receiver.reasm.out.Valid() && c.sender.syn && c.sender.fin
    ensures SendSegments(c, false).sender == c.sender.(out := [])
  {
    hide FillWindow, Stamp;
    FillWindowFrame(c.sender);
  }

  // ---------------------------------------------------------------- answers and resets

  /** Everything the call has put on the wire. */
  function NewlyOut(c: Conn, d: Conn): seq<Segment>
    requires |c.out| <= |d.out|
  {
    d.out[|c.out|..]
  }

  lemma SendSegmentsSends(c: Conn, setRst: bool)
    requires ConnInv(c)
    ensures var d := SendSegments(c, setRst);
            d.receiver == c.receiver && c.out <= d.out
            && NewlyOut(c, d) == StampAll(c.receiver, FillWindow(c.sender).out, setRst)
  {
    hide FillWindow, Stamp, FlightInv, OutInv, TimerInv;
    FillWindowFrame(c.sender);
    var d := SendSegments(c, setRst);
    assert d.out == c.out + StampAll(c.receiver, FillWindow(c.sender).out, setRst);
  }

  lemma FillKeepsQueue(s: Sender)
    requires s.stream.Valid()
    ensures s.out <= FillWindow(s).out
  {
  }

  /**
    A segment that occupies sequence space is answered in the same call, and everything sent then
    carries the receiver's up-to-date acknowledgment and window.
   */
  lemma SegmentIsAnswered(c: Conn, seg: Segment)
    requires ConnInv(c) && !seg.header.rst && (c.sentSyn || !seg.header.ack)
    ensures var d := SegmentReceived(c, seg);
            && c.out <= d.out
            && (seg.payload != [] || seg.header.fin || (seg.header.syn && c.sentSyn) ==> NewlyOut(c, d) != [])
            && forall b :: b in NewlyOut(c, d) ==>
                 && b.header.win == d.receiver.WindowSize() % TWO16
                 && (d.receiver.syn ==> b.header.ack && Some(b.header.ackno) == d.receiver.Ackno())
  {
    hide SendSegments, FillWindow, AckReceived, Receive, StampAll, FlightInv, OutInv, TimerInv;
    var c0 := c.(sinceLast := 0);
    AbsorbInv(c0, seg);
    var m := Absorb(c0, seg);
    SendSegmentsSends(m, false);
    SendSegmentsInv(m, false);
    FillKeepsQueue(m.sender);
    var segs := FillWindow(m.sender).out;
    forall b | b in StampAll(m.receiver, segs, false)
      ensures b.header.win == m.receiver.WindowSize() % TWO16
      ensures m.receiver.syn ==> b.header.ack && Some(b.header.ackno) == m.receiver.Ackno()
    {
      var i :| 0 <= i < |segs| && b == StampAll(m.receiver, segs, false)[i];
    }
  }

  /** Giving up tells the peer: the last segment sent is a reset, and both streams carry the error. */
  lemma UncleanShutdownResets(c: Conn)
    requires ConnInv(c)
    ensures var d := UncleanShutdown(c);
            && c.out < d.out && d.out[|d.out| - 1].header.rst
            && d.sender.stream.error && d.receiver.reasm.out.error && !d.active
  {
    hide SendSegments, FillWindow, StampAll, FlightInv, OutInv, TimerInv, Stamp;
    UncleanShutdownInv(c);
    KillInv(c);
    var k := Kill(c);
    SendEmptyInv(k.sender);
    var k1 := if k.sender.out == [] then k.(sender := SendEmpty(k.sender)) else k;
    SendSegmentsSends(k1, true);
    FillKeepsQueue(k1.sender);
    var segs := FillWindow(k1.sender).out;
    StampResets(k1.receiver, segs);
    var d := UncleanShutdown(c);
    assert d.out[|d.out| - 1] == NewlyOut(k1, d)[|segs| - 1];
  }

  lemma StampResets(r: Receiver, segs: seq<Segment>)
    requires r.reasm.out.Valid() && segs != []
    ensures StampAll(r, segs, true)[|segs| - 1].header.rst
  {
  }
}
