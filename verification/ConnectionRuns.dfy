/** How long a connection holds out: time over every run of calls. */
module ConnectionRuns {
  import opened Prelude
  import opened WrappingIntegers
  import opened Segments
  import opened TcpReceivers
  import opened TcpSending
  import opened SenderInvariant
  import opened TcpConnecting

  /** Time the sender must have spent on what is outstanding: all completed periods and the running one. */
  function Clock(s: Sender): int {
    s.initialRto * (Pow2(s.retx) - 1) + s.timeSpent
  }

  lemma ClockBound(s: Sender, t: Sender)
    requires t.initialRto == s.initialRto && t.timeSpent <= s.timeSpent && (t.retx == s.retx || t.retx == 0)
    ensures Clock(t) <= Clock(s)
  {
    ProductBound(s.initialRto, 0, s.initialRto, Pow2(s.retx) - 1);
    assert Pow2(0) == 1;
  }

  lemma FillClock(s: Sender)
    requires s.stream.Valid()
    ensures var t := FillWindow(s); t.initialRto == s.initialRto && t.retx == s.retx && t.timeSpent <= s.timeSpent
  {
  }

  lemma AckClock(s: Sender, ackno: u32, win: u16)
    requires s.stream.Valid()
    ensures var t := AckReceived(s, ackno, win);
            t.initialRto == s.initialRto && t.timeSpent <= s.timeSpent && (t.retx == s.retx || t.retx == 0)
  {
    hide Unwrap, FillWindow;
    FillClock(Acknowledge(s.(rwnd := win), Unwrap(ackno, s.isn, s.checkpoint)));
  }

  lemma PeriodEnds(init: nat, n: nat)
    ensures init * (Pow2(n + 1) - 1) == init * (Pow2(n) - 1) + init * Pow2(n)
  {
    assert Pow2(n + 1) == 2 * Pow2(n);
  }

  lemma TickClock(s: Sender, ms: nat)
    requires TimerInv(s) && s.retx <= 16
    ensures Tick(s, ms).initialRto == s.initialRto && Clock(Tick(s, ms)) <= Clock(s) + ms
  {
    hide Pow2;
    PeriodEnds(s.initialRto, s.retx);
  }

  lemma SendSegmentsClock(c: Conn, setRst: bool)
    requires c.sender.stream.Valid() && c.receiver.reasm.out.Valid()
    ensures var s, t := c.sender, SendSegments(c, setRst).sender;
            t.initialRto == s.initialRto && t.retx == s.retx && t.timeSpent <= s.timeSpent
  {
    hide FillWindow, Stamp;
    FillClock(c.sender);
    FillWindowFrame(c.sender);
  }

  function TimeOf(call: Call): nat {
    if call.CallTick? then call.ms else 0
  }

  /** A call that leaves the connection healthy advances the clock by no more than the time it brings. */
  lemma CallClock(c: Conn, call: Call)
    requires ConnLive(c) && Callable(c, call) && !c.sender.stream.error && !Perform(c, call).sender.stream.error
    ensures var s, t := c.sender, Perform(c, call).sender;
            t.initialRto == s.initialRto && Clock(t) <= Clock(s) + TimeOf(call)
  {
    hide SendSegments, FlightInv, OutInv, TimerInv, FillWindow, AckReceived, Receive, Tick, Clock, UncleanShutdown;
    match call {
      case CallConnect =>
        SendSegmentsClock(c, false);
        ClockBound(c.sender, Perform(c, call).sender);
      case CallWrite(data) =>
        SendSegmentsClock(c.(sender := WriteOut(c.sender, data)), false);
        ClockBound(c.sender, Perform(c, call).sender);
      case CallEnd =>
        SendSegmentsClock(c.(sender := EndOut(c.sender)), false);
        ClockBound(c.sender, Perform(c, call).sender);
      case CallTick(ms) => TickConnClock(c, ms);
      case CallReceive(seg) => SegmentClock(c, seg);
      case CallRead(n) =>
    }
  }

  lemma TickConnClock(c: Conn, ms: nat)
    requires ConnLive(c) && !c.sender.stream.error && !TickConn(c, ms).sender.stream.error
    ensures var s, t := c.sender, TickConn(c, ms).sender;
            t.initialRto == s.initialRto && Clock(t) <= Clock(s) + ms
  {
    TickFails(c, ms);
    TickClock(c.sender, ms);
    TickKeepsStream(c.sender, ms);
    hide SendSegments, FlightInv, OutInv, TimerInv, Tick, Clock, UncleanShutdown;
    var c1 := c.(sender := Tick(c.sender, ms), sinceLast := c.sinceLast + ms);
    SendSegmentsClock(c1, false);
    ClockBound(c1.sender, TickConn(c, ms).sender);
  }

  lemma SegmentClock(c: Conn, seg: Segment)
    requires ConnLive(c) && !SegmentReceived(c, seg).sender.stream.error
    ensures var s, t := c.sender, SegmentReceived(c, seg).sender;
            t.initialRto == s.initialRto && Clock(t) <= Clock(s)
  {
    hide SendSegments, FlightInv, OutInv, TimerInv, AckReceived, Receive, Clock;
    var c0 := c.(sinceLast := 0);
    AbsorbInv(c0, seg);
    AckClock(c.sender, seg.header.ackno, seg.header.win);
    SendSegmentsClock(Absorb(c0, seg), false);
    ClockBound(c.sender, SegmentReceived(c, seg).sender);
  }

  // ---------------------------------------------------------------- runs

  ghost predicate IsRun(c: Conn, calls: seq<Call>)
    requires ConnLive(c)
    decreases |calls|
  {
    calls == [] ||
    (Callable(c, calls[0]) && (PerformLive(c, calls[0]); IsRun(Perform(c, calls[0]), calls[1..])))
  }

  ghost function After(c: Conn, calls: seq<Call>): (d: Conn)
    requires ConnLive(c) && IsRun(c, calls)
    ensures ConnLive(d)
    decreases |calls|
  {
    if calls == [] then c else (PerformLive(c, calls[0]); After(Perform(c, calls[0]), calls[1..]))
  }

  function Elapsed(calls: seq<Call>): nat {
    if calls == [] then 0 else TimeOf(calls[0]) + Elapsed(calls[1..])
  }

  lemma {:induction false} ErrorStays(c: Conn, calls: seq<Call>)
    requires ConnLive(c) && IsRun(c, calls) && c.sender.stream.error
    ensures After(c, calls).sender.stream.error
    decreases |calls|
  {
    hide ConnInv, Perform, Callable;
    if calls != [] {
      PerformLive(c, calls[0]);
      ErrorStays(Perform(c, calls[0]), calls[1..]);
    }
  }

  /** In every reachable healthy state the clock is covered by the time that has passed. */
  lemma {:induction false} ClockOverRuns(c: Conn, calls: seq<Call>)
    requires ConnLive(c) && IsRun(c, calls) && !After(c, calls).sender.stream.error
    ensures var s, t := c.sender, After(c, calls).sender;
            t.initialRto == s.initialRto && t.retx <= MAX_RETX_ATTEMPTS && Clock(t) <= Clock(s) + Elapsed(calls)
    decreases |calls|
  {
    hide Perform, Callable, Clock, ConnInv;
    if calls != [] {
      if c.sender.stream.error {
        ErrorStays(c, calls);
      }
      PerformLive(c, calls[0]);
      var d := Perform(c, calls[0]);
      if d.sender.stream.error {
        ErrorStays(d, calls[1..]);
      }
      CallClock(c, calls[0]);
      ClockOverRuns(d, calls[1..]);
    }
  }

  lemma LastPeriod(s: Sender, ms: nat)
    requires TimerInv(s) && NinthRetransmission(s, ms)
    ensures Clock(s) + ms >= 511 * s.initialRto
  {
    hide Pow2;
    var init := s.initialRto;
    PeriodsUpTo8(init);
    assert s.rto == init * Pow2(8);
    assert Clock(s) == init * (Pow2(8) - 1) + s.timeSpent;
  }

  lemma ClockAtTheEnd(d: Conn, ms: nat)
    requires ConnLive(d) && !d.sender.stream.error && TickConn(d, ms).sender.stream.error
    ensures Clock(d.sender) + ms >= 511 * d.sender.initialRto
  {
    hide TickConn, FlightInv, OutInv, TimerInv, Clock, NinthRetransmission;
    TickGivesUpExactly(d, ms);
    LastPeriod(d.sender, ms);
  }

  /** Giving up takes 511 initial timeouts, less what the clock showed at the start. */
  lemma GivingUpTakesTime(c: Conn, calls: seq<Call>, ms: nat)
    requires ConnLive(c) && IsRun(c, calls)
    requires !After(c, calls).sender.stream.error && TickConn(After(c, calls), ms).sender.stream.error
    ensures Clock(c.sender) + Elapsed(calls) + ms >= 511 * c.sender.initialRto
  {
    hide IsRun, After, Elapsed, TickConn, Clock, ConnInv;
    ClockOverRuns(c, calls);
    ClockAtTheEnd(After(c, calls), ms);
  }

  /**
    A connection never gives up early: whatever happens to it from its creation on, a tick that breaks it
    by giving up comes no sooner than 511 initial timeouts later.
   */
  lemma NeverGivesUpEarly(c: Conn, sendCapacity: nat, recvCapacity: nat, rtTimeout: u16, isn: u32, calls: seq<Call>, ms: nat)
    requires c == NewConn(sendCapacity, recvCapacity, rtTimeout, isn)
    requires ConnLive(c) && IsRun(c, calls)
    requires !After(c, calls).sender.stream.error && TickConn(After(c, calls), ms).sender.stream.error
    ensures Elapsed(calls) + ms >= 511 * rtTimeout
  {
    hide IsRun, After, Elapsed, TickConn, ConnInv;
    assert Pow2(0) == 1 && Clock(c.sender) == 0;
    GivingUpTakesTime(c, calls, ms);
  }

  /** 1 + 2 + ... + 128, and 256. */
  lemma PeriodsUpTo8(init: nat)
    ensures init * (Pow2(8) - 1) == 255 * init
    ensures init * Pow2(8) == 256 * init
  {
    assert Pow2(4) == 16;
    assert Pow2(8) == 256;
  }
}
