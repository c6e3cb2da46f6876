/** What the calls of a connection do: when it stops, what it answers, what it resends, what a reset does. */
module ConnectionSteps {
  import opened Prelude
  import opened WrappingIntegers
  import opened Segments
  import opened TcpReceivers
  import opened TcpSending
  import opened SenderInvariant
  import opened SenderProperties
  import opened TcpConnecting

  // ---------------------------------------------------------------- stopping

  /** Both directions are complete, and lingering is either not called for or over. */
  predicate CleanlyDone(d: Conn) {
    && d.receiver.reasm.out.ended && d.receiver.reasm.pending == map[]
    && OutboundDone(d.sender)
    && (!d.linger || d.sinceLast >= 10 * d.rtTimeout)
  }

  lemma DoneMeansNothingInFlight(s: Sender)
    requires SenderInv(s) && OutboundDone(s)
    ensures s.stream.ended && s.bytesInFlight == 0
  {
    TilesTotal(s.flight, Lowest(s), s.next);
  }

  /**
    After sending, a connection is inactive exactly if it was before or both directions are complete and
    lingering is over; and it gives up lingering exactly if the peer finished first.
   */
  lemma SendSegmentsStopsExactly(c: Conn, setRst: bool)
    requires ConnInv(c)
    ensures var d := SendSegments(c, setRst);
            && (!d.active <==> !c.active || CleanlyDone(d))
            && (d.linger <==> c.linger && (c.receiver.reasm.out.ended ==>
                                             d.sender.stream.ended && d.sender.stream.read == |d.sender.stream.written|))
            && d.receiver == c.receiver && d.sinceLast == c.sinceLast && d.rtTimeout == c.rtTimeout && d.sentSyn
  {
    hide FillWindow, FlightInv, OutInv, TimerInv, Stamp;
    FillWindowInv(c.sender);
    FillWindowFrame(c.sender);
    var s := FillWindow(c.sender);
    DrainInv(s);
    if s.stream.ended && s.bytesInFlight == 0 {
      NothingOutstandingMeansDone(c.sender);
    }
    if OutboundDone(s) {
      DoneMeansNothingInFlight(s);
    }
  }

  /** The call breaks the connection: a reset arrives, or the tick is one retransmission too many. */
  predicate Breaks(c: Conn, call: Call) {
    || (call.CallReceive? && call.seg.header.rst)
    || (call.CallTick? && Tick(c.sender, call.ms).retx > MAX_RETX_ATTEMPTS)
  }

  /** The call goes through `_send_segments`. */
  predicate SendsSomething(c: Conn, call: Call) {
    match call
    case CallTick(_) => c.sentSyn
    case CallReceive(seg) => !seg.header.rst && (c.sentSyn || !seg.header.ack)
    case CallRead(_) => false
    case _ => true
  }

  /**
    When a connection is active, for every call: exactly if it was, the call does not break it, and the call
    did not find, while sending, that everything is done.
   */
  lemma ActiveExactly(c: Conn, call: Call)
    requires ConnInv(c) && Callable(c, call)
    ensures var d := Perform(c, call);
            d.active <==> c.active && !Breaks(c, call) && !(SendsSomething(c, call) && CleanlyDone(d))
  {
    hide SendSegments, FlightInv, OutInv, TimerInv, TickConn, SegmentReceived, CleanlyDone, Tick;
    match call {
      case CallConnect => SendSegmentsStopsExactly(c, false);
      case CallWrite(data) =>
        WriteOutInv(c.sender, data);
        SendSegmentsStopsExactly(c.(sender := WriteOut(c.sender, data)), false);
      case CallEnd =>
        EndOutInv(c.sender);
        SendSegmentsStopsExactly(c.(sender := EndOut(c.sender)), false);
      case CallTick(ms) => TickActive(c, ms);
      case CallReceive(seg) => ReceiveActive(c, seg);
      case CallRead(n) =>
    }
  }

  lemma TickActive(c: Conn, ms: nat)
    requires ConnInv(c)
    ensures var d := TickConn(c, ms);
            && (d.active <==> c.active && Tick(c.sender, ms).retx <= MAX_RETX_ATTEMPTS && !(c.sentSyn && CleanlyDone(d)))
            && d.sinceLast == c.sinceLast + ms
  {
    hide SendSegments, UncleanShutdown, Tick, FlightInv, OutInv, TimerInv, FillWindow, CleanlyDone;
    TickInv(c.sender, ms);
    TickKeepsStream(c.sender, ms);
    var c1 := c.(sender := Tick(c.sender, ms), sinceLast := c.sinceLast + ms);
    UncleanShutdownInv(c1);
    UncleanKeepsTime(c1);
    var c2 := if c1.sender.retx > MAX_RETX_ATTEMPTS then UncleanShutdown(c1) else c1;
    SendSegmentsStopsExactly(c2, false);
  }

  lemma UncleanKeepsTime(c: Conn)
    requires ConnInv(c)
    ensures UncleanShutdown(c).sinceLast == c.sinceLast && UncleanShutdown(c).sentSyn
  {
    hide FillWindow, Stamp;
  }

  lemma ReceiveActive(c: Conn, seg: Segment)
    requires ConnInv(c)
    ensures var d := SegmentReceived(c, seg);
            && (d.active <==> c.active && !seg.header.rst
                              && !(!seg.header.rst && (c.sentSyn || !seg.header.ack) && CleanlyDone(d)))
            && d.sinceLast == 0
  {
    hide SendSegments, Absorb, FlightInv, OutInv, TimerInv, CleanlyDone;
    var c0 := c.(sinceLast := 0);
    AbsorbInv(c0, seg);
    AbsorbFrame(c0, seg);
    SendSegmentsStopsExactly(Absorb(c0, seg), false);
  }

  lemma AbsorbFrame(c: Conn, seg: Segment)
    requires c.sender.stream.Valid() && c.receiver.reasm.out.Valid()
    ensures var m := Absorb(c, seg);
            m.active == c.active && m.sinceLast == c.sinceLast && m.linger == c.linger && m.out == c.out
  {
  }

  /** Lingering ends: with both directions complete, the tick that makes ten timeouts of silence stops the connection. */
  lemma LingerEnds(c: Conn, ms: nat)
    requires ConnInv(c) && c.sentSyn && OutboundDone(c.sender)
    requires c.receiver.reasm.out.ended && c.receiver.reasm.pending == map[]
    requires c.sinceLast + ms >= 10 * c.rtTimeout
    ensures !TickConn(c, ms).active
  {
    hide FlightInv, OutInv, TimerInv, Stamp;
    TickInv(c.sender, ms);
    DoneMeansNothingInFlight(c.sender);
    FillWindowFrame(Tick(c.sender, ms));
  }

  // ---------------------------------------------------------------- resets and ignored segments

  /** A reset stops the connection at once: both streams carry the error, nothing is sent, nothing else changes. */
  lemma ResetStops(c: Conn, seg: Segment)
    requires ConnInv(c) && seg.header.rst
    ensures var d := SegmentReceived(c, seg);
            && !d.active && d.sender.stream.error && d.receiver.reasm.out.error && d.out == c.out
            && d.sender == c.sender.(stream := c.sender.stream.(error := true))
            && d.receiver.reasm == c.receiver.reasm.(out := c.receiver.reasm.out.(error := true))
  {
  }

  /** Before the first segment is sent, anything that acknowledges is ignored. */
  lemma EarlyAckIgnored(c: Conn, seg: Segment)
    requires ConnInv(c) && !seg.header.rst && !c.sentSyn && seg.header.ack
    ensures SegmentReceived(c, seg) == c.(sinceLast := 0)
  {
  }

  // ---------------------------------------------------------------- answers

  /** Filling adds only segments that occupy sequence space. */
  lemma FillAddsNoEmpty(s: Sender)
    requires SenderInv(s)
    ensures s.out <= FillWindow(s).out
    ensures forall i :: |s.out| <= i < |FillWindow(s).out| ==> FillWindow(s).out[i].Length() > 0
  {
    hide FlightInv, OutInv, TimerInv;
    if s.syn && !s.fin {
      var room := Usable(s);
      var k := Min(room, s.stream.BufferSize());
      var close := s.stream.ended && room > s.stream.BufferSize();
      ChunksBounded(s.isn, s.next, s.stream.Buffered()[..k], close);
      hide Chunks, Usable;
    }
  }

  lemma AckAddsNoEmpty(s: Sender, ackno: u32, win: u16)
    requires SenderInv(s) && s.out == []
    ensures forall seg :: seg in AckReceived(s, ackno, win).out ==> seg.Length() > 0
  {
    hide Unwrap, FillWindow, FlightInv, OutInv, TimerInv;
    AckTakenInv(s, ackno, win);
    var u := AckTaken(s, ackno, win);
    FillAddsNoEmpty(u);
    var t := AckReceived(s, ackno, win);
    forall seg | seg in t.out
      ensures seg.Length() > 0
    {
      var i :| 0 <= i < |t.out| && t.out[i] == seg;
    }
  }

  /** The queue after the segment was taken in holds an empty segment exactly if it asked for an answer. */
  lemma AbsorbQueues(c: Conn, seg: Segment)
    requires ConnInv(c) && c.sender.out == []
    ensures (exists q :: q in Absorb(c, seg).sender.out && q.Length() == 0) <==>
              seg.payload != [] || seg.header.fin || (seg.header.syn && c.sentSyn)
  {
    hide AckReceived, Receive, FlightInv, OutInv, TimerInv;
    var s1 := if seg.header.ack then AckReceived(c.sender, seg.header.ackno, seg.header.win) else c.sender;
    if seg.header.ack {
      AckAddsNoEmpty(c.sender, seg.header.ackno, seg.header.win);
    }
    var out := Absorb(c, seg).sender.out;
    if seg.payload != [] || seg.header.fin || (seg.header.syn && c.sentSyn) {
      assert out[|s1.out|] in out && out[|s1.out|].Length() == 0;
    }
  }

  /**
    With nothing queued from before, an empty acknowledgment goes out exactly in answer to a segment that
    occupies sequence space (a SYN that opens the connection is answered by SYN instead).
   */
  lemma EmptyAnswerExactly(c: Conn, seg: Segment)
    requires ConnInv(c) && c.sender.out == [] && !seg.header.rst && (c.sentSyn || !seg.header.ack)
    ensures var d := SegmentReceived(c, seg);
            && c.out <= d.out
            && ((exists b :: b in NewlyOut(c, d) && b.Length() == 0) <==>
                  seg.payload != [] || seg.header.fin || (seg.header.syn && c.sentSyn))
  {
    hide SendSegments, FillWindow, Absorb, StampAll, FlightInv, OutInv, TimerInv;
    var c0 := c.(sinceLast := 0);
    AbsorbInv(c0, seg);
    AbsorbFrame(c0, seg);
    AbsorbQueues(c0, seg);
    var m := Absorb(c0, seg);
    SendSegmentsSends(m, false);
    FillAddsNoEmpty(m.sender);
    EmptyKept(m.sender.out, FillWindow(m.sender).out);
    StampedLengths(m.receiver, FillWindow(m.sender).out, false);
  }

  lemma EmptyKept(a: seq<Segment>, b: seq<Segment>)
    requires a <= b && forall i :: |a| <= i < |b| ==> b[i].Length() > 0
    ensures (exists q :: q in b && q.Length() == 0) <==> (exists q :: q in a && q.Length() == 0)
  {
    if q :| q in b && q.Length() == 0 {
      var i :| 0 <= i < |b| && b[i] == q;
      assert a[i] == q;
    }
  }

  lemma StampedLengths(r: Receiver, segs: seq<Segment>, setRst: bool)
    requires r.reasm.out.Valid()
    ensures (exists b :: b in StampAll(r, segs, setRst) && b.Length() == 0) <==> (exists q :: q in segs && q.Length() == 0)
  {
    var out := StampAll(r, segs, setRst);
    forall i | 0 <= i < |segs|
      ensures out[i].Length() == segs[i].Length()
    {
    }
    if q :| q in segs && q.Length() == 0 {
      var i :| 0 <= i < |segs| && segs[i] == q;
      assert out[i] in out;
    }
    if b :| b in out && b.Length() == 0 {
      var i :| 0 <= i < |out| && out[i] == b;
      assert segs[i] in segs;
    }
  }

  /** What a segment does to both halves: the receiver takes it in, the sender takes the acknowledgment it flags. */
  lemma SegmentTakenIn(c: Conn, seg: Segment)
    requires ConnInv(c) && !seg.header.rst && (c.sentSyn || !seg.header.ack)
    ensures var d := SegmentReceived(c, seg);
            && d.receiver == Receive(c.receiver, seg)
            && d.sender.checkpoint == (if seg.header.ack then AckedUpTo(c.sender, seg.header.ackno) else c.sender.checkpoint)
            && d.sender.rwnd == (if seg.header.ack then seg.header.win else c.sender.rwnd)
            && d.sender.syn && d.sentSyn
  {
    hide FillWindow, AckReceived, Receive, Stamp, AckedUpTo, AckTaken, FlightInv, OutInv, TimerInv;
    var c0 := c.(sinceLast := 0);
    AbsorbInv(c0, seg);
    if seg.header.ack {
      AckTakenInv(c.sender, seg.header.ackno, seg.header.win);
      FillWindowFrame(AckTaken(c.sender, seg.header.ackno, seg.header.win));
    }
    var m := Absorb(c0, seg);
    FillWindowFrame(m.sender);
    FillWindowInv(m.sender);
  }

  // ---------------------------------------------------------------- time

  lemma StampIgnoresError(r: Receiver, q: Receiver, seg: Segment, rst: bool)
    requires r.reasm.out.Valid() && q == r.(reasm := r.reasm.(out := r.reasm.out.(error := true)))
    ensures q.reasm.out.Valid() && Stamp(q, seg, rst) == Stamp(r, seg, rst)
  {
  }

  /** A queued segment is on the wire after sending, with the receiver's news filled in. */
  lemma QueuedIsSent(c: Conn, setRst: bool, i: nat)
    requires ConnInv(c) && i < |c.sender.out|
    ensures var d := SendSegments(c, setRst);
            c.out <= d.out && exists rst: bool :: (rst ==> setRst) && Stamp(c.receiver, c.sender.out[i], rst) in NewlyOut(c, d)
  {
    hide SendSegments, FillWindow, FlightInv, OutInv, TimerInv, Stamp;
    SendSegmentsSends(c, setRst);
    FillKeepsQueue(c.sender);
    var segs := FillWindow(c.sender).out;
    var sent := StampAll(c.receiver, segs, setRst);
    assert segs[i] == c.sender.out[i] && sent[i] in sent;
    var rst := setRst && i == |segs| - 1;
    assert sent[i] == Stamp(c.receiver, segs[i], rst);
  }

  /**
    Timeouts reach the wire: when the timer runs out on something outstanding, the segment with the least
    number is sent again in the same tick, with the current acknowledgment and window; it resets the
    connection only if the connection gives up with this tick.
   */
  lemma TickResends(c: Conn, ms: nat)
    requires ConnInv(c) && c.sentSyn
    requires c.sender.flight != [] && c.sender.timeSpent + ms >= c.sender.rto
    ensures var d, f := TickConn(c, ms), c.sender.flight[0];
            && (forall g :: g in c.sender.flight ==> f.abs <= g.abs)
            && c.out <= d.out
            && exists rst: bool ::
                 && (rst ==> Tick(c.sender, ms).retx > MAX_RETX_ATTEMPTS)
                 && Stamp(c.receiver, f.seg, rst) in NewlyOut(c, d)
  {
    hide SendSegments, UncleanShutdown, Tick, FlightInv, OutInv, TimerInv, FillWindow, Stamp;
    TickInv(c.sender, ms);
    TickKeepsStream(c.sender, ms);
    var c1 := c.(sender := Tick(c.sender, ms), sinceLast := c.sinceLast + ms);
    var n := |c.sender.out|;
    assert c1.sender.out[n] == c.sender.flight[0].seg;
    if c1.sender.retx > MAX_RETX_ATTEMPTS {
      ResentOnGivingUp(c1, n);
      UncleanShutdownInv(c1);
      SendSegmentsSends(UncleanShutdown(c1), false);
      UncleanKeepsTime(c1);
    } else {
      QueuedIsSent(c1, false, n);
    }
  }

  lemma ResentOnGivingUp(c: Conn, i: nat)
    requires ConnInv(c) && i < |c.sender.out|
    ensures var d := UncleanShutdown(c);
            c.out <= d.out && exists rst: bool :: Stamp(c.receiver, c.sender.out[i], rst) in NewlyOut(c, d)
  {
    hide SendSegments, FlightInv, OutInv, TimerInv, FillWindow, Stamp;
    KillInv(c);
    var k := Kill(c);
    QueuedIsSent(k, true, i);
    var rst: bool :| Stamp(k.receiver, k.sender.out[i], rst) in NewlyOut(k, SendSegments(k, true));
    StampIgnoresError(c.receiver, k.receiver, c.sender.out[i], rst);
  }

  // ---------------------------------------------------------------- the application

  /** Opening actively sends exactly one segment: SYN at the initial number, without acknowledgment. */
  lemma ConnectSendsSyn(sendCapacity: nat, recvCapacity: nat, rtTimeout: u16, isn: u32)
    ensures var c := NewConn(sendCapacity, recvCapacity, rtTimeout, isn);
            && ConnInv(c)
            && var d := Connect(c);
            && |d.out| == 1 && d.active && d.sentSyn && d.linger
            && d.out[0].header.syn && d.out[0].header.seqno == isn && d.out[0].payload == []
            && !d.out[0].header.ack && !d.out[0].header.fin && !d.out[0].header.rst
            && d.out[0].header.win == recvCapacity % TWO16
  {
    NewConnLive(sendCapacity, recvCapacity, rtTimeout, isn);
    var c := NewConn(sendCapacity, recvCapacity, rtTimeout, isn);
    FirstFillSendsSyn(c.sender);
    hide FillWindow;
    var segs := FillWindow(c.sender).out;
    assert StampAll(c.receiver, segs, false)[0] == Stamp(c.receiver, segs[0], false);
  }

  /**
    What the application writes is appended to its stream as far as it fits; ending it marks the end. Either
    way what the window allows is sent at once.
   */
  lemma ApplicationExactly(c: Conn, data: seq<byte>)
    requires ConnInv(c)
    ensures var s, n := c.sender.stream, Min(|data|, c.sender.stream.Remaining());
            && WriteTo(c, data).sender.stream.written == s.written + data[..n]
            && WriteTo(c, data).sender.stream.ended == s.ended
            && EndInputStream(c).sender.stream.written == s.written && EndInputStream(c).sender.stream.ended
            && WriteTo(c, data).receiver == EndInputStream(c).receiver == c.receiver
            && WriteTo(c, data).sender == FillWindow(WriteOut(c.sender, data)).(out := [])
            && EndInputStream(c).sender == FillWindow(EndOut(c.sender)).(out := [])
  {
    hide FillWindow, Stamp, FlightInv, OutInv, TimerInv;
    FillWindowFrame(WriteOut(c.sender, data));
    FillWindowFrame(EndOut(c.sender));
  }

  /** Only the last segment of an abort resets; segments sent otherwise never do. */
  lemma ResetsExactly(c: Conn, setRst: bool)
    requires ConnInv(c)
    ensures var d := SendSegments(c, setRst);
            && c.out <= d.out
            && var out := NewlyOut(c, d);
               forall i :: 0 <= i < |out| ==> (out[i].header.rst <==> setRst && i == |out| - 1)
  {
    hide SendSegments, FillWindow, FlightInv, TimerInv, Genuine;
    SendSegmentsSends(c, setRst);
    FillWindowInv(c.sender);
    var segs := FillWindow(c.sender).out;
    forall i | 0 <= i < |segs|
      ensures StampAll(c.receiver, segs, setRst)[i].header.rst <==> setRst && i == |segs| - 1
    {
      assert segs[i] in segs;
    }
  }
}
