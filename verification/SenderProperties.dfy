/** The window, the retransmission timer (section 5 of RFC 6298) and the observable phase of the sender. */
module SenderProperties {
  import opened Prelude
  import opened WrappingIntegers
  import opened TcpSending
  import opened SenderInvariant

  // ---------------------------------------------------------------- filling the window

  /** The window the sender works with: a closed one is probed with a single number. */
  function Window(s: Sender): nat {
    Max(s.rwnd, 1)
  }

  function Outstanding(s: Sender): int {
    s.next - s.checkpoint
  }

  /** The unsigned subtraction is right exactly when no more is outstanding than the window allows. */
  lemma UsableExact(s: Sender)
    requires s.checkpoint <= s.next < TWO63
    ensures Usable(s) == Window(s) - Outstanding(s) <==> Outstanding(s) <= Window(s)
    ensures Outstanding(s) > Window(s) ==> Usable(s) >= TWO63
  {
  }

  /** The segments `t` has put in flight on top of those of `s`. */
  function NewlySent(s: Sender, t: Sender): seq<InFlight>
    requires |s.flight| <= |t.flight|
  {
    t.flight[|s.flight|..]
  }

  /**
    From `s` to `t` exactly the bytes that fit into `room` leave the buffer, in order, in segments of at
    most 1000 bytes none of which is empty, and FIN goes out iff the stream has ended and a number is
    left for it.
   */
  ghost predicate SendsExactly(s: Sender, t: Sender, room: nat)
    requires s.stream.Valid()
  {
    var buffered := s.stream.Buffered();
    && s.flight <= t.flight
    && var fs := NewlySent(s, t);
    && Payloads(fs) == buffered[..Min(room, |buffered|)]
    && t.stream == s.stream.Pop(Min(room, |buffered|))
    && (t.fin <==> s.stream.ended && room > |buffered|)
    && Tiles(fs, s.next, t.next)
    && t.out == s.out + SegmentsOf(fs)
    && (forall f :: f in fs ==> |f.seg.payload| <= MAX_PAYLOAD_SIZE && f.seg.Length() > 0)
    && t.next <= s.next + room
  }

  lemma LaunchSendsExactly(s: Sender, room: nat, k: nat, close: bool, t: Sender)
    requires s.stream.Valid() && !s.fin
    requires k == Min(room, s.stream.BufferSize()) && close == (s.stream.ended && room > s.stream.BufferSize())
    requires t == Launch(s.(stream := s.stream.Pop(k), fin := close),
                         Chunks(s.isn, s.next, s.stream.Buffered()[..k], close))
    ensures SendsExactly(s, t, room)
  {
    hide Chunks, Tiles, MakeInFlight, Payloads, TotalLength;
    var data := s.stream.Buffered()[..k];
    var fs := Chunks(s.isn, s.next, data, close);
    ChunksCorrect(s.isn, s.next, data, close);
    TilesTotal(fs, s.next, s.next + k + if close then 1 else 0);
    TotalOfNone();
    assert t.flight == s.flight + fs;
    assert NewlySent(s, t) == fs;
    assert SegmentsOf([]) == [];
    ChunksBounded(s.isn, s.next, data, close);
  }

  lemma TotalOfNone()
    ensures TotalLength([]) == 0
  {
  }

  /** `fill_window` refines this closed form whenever the window is respected, and keeps respecting it. */
  lemma FillWindowClosedForm(s: Sender)
    requires SenderInv(s) && s.syn && !s.fin && s.next < TWO63
    requires Outstanding(s) <= Window(s)
    ensures SendsExactly(s, FillWindow(s), Window(s) - Outstanding(s))
    ensures Outstanding(FillWindow(s)) <= Window(FillWindow(s))
  {
    hide Chunks, SenderInv, SendsExactly, FillWindow, Launch;
    SenderInvParts(s);
    var room := Window(s) - Outstanding(s);
    var k := Min(room, s.stream.BufferSize());
    var close := s.stream.ended && room > s.stream.BufferSize();
    FillIsLaunch(s, room);
    LaunchSendsExactly(s, room, k, close, FillWindow(s));
    ExactlyStaysBelow(s, FillWindow(s), room);
    FillWindowFrame(s);
  }

  lemma ExactlyStaysBelow(s: Sender, t: Sender, room: nat)
    requires s.stream.Valid() && SendsExactly(s, t, room)
    ensures t.next <= s.next + room
  {
  }

  lemma ChunkBounded(isn: u32, at: nat, data: seq<byte>, close: bool, i: nat)
    requires i < |Chunks(isn, at, data, close)|
    ensures var f := Chunks(isn, at, data, close)[i]; |f.seg.payload| <= MAX_PAYLOAD_SIZE && f.seg.Length() > 0
  {
    hide Chunks, Tiles, Payloads, MakeInFlight;
    ChunksShaped(isn, at, data, close, i);
    ChunksCorrect(isn, at, data, close);
    TilesWithin(Chunks(isn, at, data, close), at, at + |data| + if close then 1 else 0, i);
  }

  lemma ChunksBounded(isn: u32, at: nat, data: seq<byte>, close: bool)
    ensures forall f :: f in Chunks(isn, at, data, close) ==>
              |f.seg.payload| <= MAX_PAYLOAD_SIZE && f.seg.Length() > 0
  {
    hide Chunks;
    var fs := Chunks(isn, at, data, close);
    forall i | 0 <= i < |fs|
      ensures |fs[i].seg.payload| <= MAX_PAYLOAD_SIZE && fs[i].seg.Length() > 0
    {
      ChunkBounded(isn, at, data, close, i);
    }
  }

  lemma FillIsLaunch(s: Sender, room: nat)
    requires s.stream.Valid() && s.syn && !s.fin && s.checkpoint <= s.next < TWO63
    requires room == Window(s) - Outstanding(s)
    ensures var k := Min(room, s.stream.BufferSize());
            var close := s.stream.ended && room > s.stream.BufferSize();
            FillWindow(s) == Launch(s.(stream := s.stream.Pop(k), fin := close),
                                    Chunks(s.isn, s.next, s.stream.Buffered()[..k], close))
  {
    UsableExact(s);
  }

  lemma SenderInvParts(s: Sender)
    requires SenderInv(s)
    ensures s.stream.Valid() && 0 <= Lowest(s) <= s.checkpoint <= s.next
  {
  }

  /** Overrunning the window is not a corner case: the subtraction then wraps and the whole buffer is sent. */
  lemma OverrunSendsEverything(s: Sender)
    requires SenderInv(s) && s.syn && !s.fin && s.next < TWO63 && s.stream.BufferSize() < TWO63
    requires Outstanding(s) > Window(s)
    ensures FillWindow(s).stream == s.stream.Pop(s.stream.BufferSize())
    ensures FillWindow(s).fin == s.stream.ended
  {
    hide Chunks;
    UsableExact(s);
  }

  /** What `fill_window` adds always fits the window. */
  lemma FillStaysInWindow(s: Sender)
    requires SenderInv(s) && s.next < TWO63 && Outstanding(s) <= Window(s)
    ensures var t := FillWindow(s);
            && Outstanding(t) <= Window(t)
            && t.checkpoint == s.checkpoint && t.rwnd == s.rwnd && t.isn == s.isn
            && t.stream.written == s.stream.written
            && (s.fin ==> t == s)
  {
    if s.syn && !s.fin {
      hide SenderInv, Chunks;
      FillWindowClosedForm(s);
    } else if !s.syn {
      var f := MakeInFlight(s.isn, s.next, true, false, []);
      assert TotalLength([f]) == f.seg.Length() + TotalLength([]);
    }
  }

  /** The position acknowledged once the number is taken: the new one if it is new and was sent, else the old. */
  function AckedUpTo(s: Sender, ackno: u32): nat {
    var ack := Unwrap(ackno, s.isn, s.checkpoint);
    if s.checkpoint < ack <= s.next then ack else s.checkpoint
  }

  /** The state in which `ack_received` fills the window, or which it leaves if there is nothing new. */
  function AckTaken(s: Sender, ackno: u32, win: u16): Sender {
    var u := s.(rwnd := win);
    if AckedUpTo(s, ackno) == s.checkpoint then u else Acknowledge(u, AckedUpTo(s, ackno))
  }

  lemma AckTakenInv(s: Sender, ackno: u32, win: u16)
    requires SenderInv(s)
    ensures var u := AckTaken(s, ackno, win);
            && SenderInv(u) && u.next == s.next && u.checkpoint == AckedUpTo(s, ackno) && u.rwnd == win
            && AckReceived(s, ackno, win) == if u.checkpoint == s.checkpoint then u else FillWindow(u)
  {
    hide Unwrap, FillWindow, FlightInv, OutInv, TimerInv;
    WindowInv(s, win);
    var ack := Unwrap(ackno, s.isn, s.checkpoint);
    if s.checkpoint < ack <= s.next {
      AcknowledgeInv(s.(rwnd := win), ack);
    }
  }

  /** Filling never brings the number of outstanding ones down. */
  lemma FillKeepsOutstanding(s: Sender)
    requires SenderInv(s)
    ensures Outstanding(FillWindow(s)) >= Outstanding(s) && Window(FillWindow(s)) == Window(s)
  {
    hide FillWindow, FlightInv, OutInv, TimerInv;
    FillWindowInv(s);
    FillWindowFrame(s);
  }

  /**
    When an acknowledgment leaves the window respected, for every number and window it may carry: exactly
    when what it leaves outstanding fits the window it brings. The subtraction made while taking it is
    right under the same condition.
   */
  lemma AckRespectsWindowExactly(s: Sender, ackno: u32, win: u16)
    requires SenderInv(s) && s.next < TWO63
    ensures var t, fits := AckReceived(s, ackno, win), s.next - AckedUpTo(s, ackno) <= Max(win, 1);
            && (Outstanding(t) <= Window(t) <==> fits)
            && var u := AckTaken(s, ackno, win);
               (Usable(u) == Window(u) - Outstanding(u) <==> fits)
  {
    hide FillWindow, AckReceived, SenderInv, AckTaken, AckedUpTo, Usable;
    AckTakenInv(s, ackno, win);
    var u := AckTaken(s, ackno, win);
    SenderInvParts(u);
    UsableExact(u);
    if Outstanding(u) <= Window(u) {
      FillStaysInWindow(u);
    } else {
      FillKeepsOutstanding(u);
    }
  }

  /** So an old acknowledgment with a closed window overruns it whenever two or more numbers are outstanding. */
  lemma StaleWindowOverruns(s: Sender)
    requires SenderInv(s) && s.checkpoint < TWO31 && Outstanding(s) >= 2
    ensures var t := AckReceived(s, Wrap(s.checkpoint, s.isn), 0);
            Outstanding(t) > Window(t)
  {
    hide SenderInv, Unwrap, Wrap, FillWindow;
    SenderInvParts(s);
    UnwrapSmall(s.checkpoint, s.isn, s.checkpoint);
  }

  // ---------------------------------------------------------------- what each operation does

  /** The first filling queues one segment: SYN at the initial sequence number, nothing else. */
  lemma FirstFillSendsSyn(s: Sender)
    requires SenderInv(s) && !s.syn
    ensures var t := FillWindow(s);
            && |t.out| == |s.out| + 1 && s.out <= t.out && t.stream == s.stream && t.next == 1
            && var seg := t.out[|s.out|];
            && seg.header.syn && seg.header.seqno == s.isn && seg.payload == []
            && !seg.header.ack && !seg.header.fin && !seg.header.rst
  {
    var f := MakeInFlight(s.isn, s.next, true, false, []);
    assert TotalLength([f]) == f.seg.Length() + TotalLength([]);
    assert SegmentsOf([f]) == [f.seg];
    WrapIsSum(0, s.isn);
  }

  /** Before anything is acknowledged only SYN is sent, whatever is written. */
  lemma OnlySynAtFirst(capacity: nat, rto: u16, isn: u32, data: seq<byte>)
    ensures var s := FillWindow(NewSender(capacity, rto, isn));
            s.stream.Valid() && FillWindow(WriteOut(s, data)) == WriteOut(s, data)
  {
    NewSenderInv(capacity, rto, isn);
    FirstFillSendsSyn(NewSender(capacity, rto, isn));
    var w := WriteOut(FillWindow(NewSender(capacity, rto, isn)), data);
    assert Usable(w) == 0;
    assert w.stream.Buffered()[..0] == [];
  }

  /** Segments sent while the timer stands still start it afresh. */
  lemma FillStartsTimer(s: Sender)
    requires SenderInv(s) && !s.timerRunning
    ensures var t := FillWindow(s);
            t.out != s.out ==> t.timerRunning && t.timeSpent == 0 && t.rto == s.initialRto
  {
    hide Chunks, MakeInFlight;
  }

  /**
    An acknowledgment that is not new, or of something never sent, changes nothing but the window. A new one
    forgets exactly the segments it covers, ends the series of retransmissions, brings the timeout back to
    its initial value, and gives the full time again to what is left.
   */
  lemma AckExactly(s: Sender, ackno: u32, win: u16)
    requires SenderInv(s)
    ensures var t, ack := AckReceived(s, ackno, win), Unwrap(ackno, s.isn, s.checkpoint);
            if s.checkpoint < ack <= s.next then
              && t.checkpoint == ack && t.rwnd == win && t.retx == 0
              && (forall f :: f in s.flight ==> (f in t.flight <==> f.abs + f.seg.Length() > ack))
              && ((exists f :: f in s.flight && f.abs + f.seg.Length() > ack) ==>
                    t.timerRunning && t.timeSpent == 0 && t.rto == s.initialRto)
            else t == s.(rwnd := win)
  {
    hide Unwrap, FillWindow, Tiles, Carries, OutInv;
    var ack := Unwrap(ackno, s.isn, s.checkpoint);
    if s.checkpoint < ack <= s.next {
      WindowInv(s, win);
      AcknowledgeInv(s.(rwnd := win), ack);
      var u := Acknowledge(s.(rwnd := win), ack);
      FillWindowFrame(u);
      FillKeepsRetransmissions(u);
      if u.timerRunning {
        FillKeepsTimer(u);
      }
      NewFlightIsNew(u);
      KeptExactly(s, ack);
    }
  }

  lemma FillKeepsRetransmissions(s: Sender)
    requires s.stream.Valid()
    ensures FillWindow(s).retx == s.retx
  {
  }

  /** What filling adds lies beyond everything sent before. */
  lemma NewFlightIsNew(s: Sender)
    requires SenderInv(s)
    ensures forall f :: f in FillWindow(s).flight ==> f in s.flight || f.abs >= s.next
  {
    hide Tiles, Carries, OutInv, TimerInv;
    if s.syn && !s.fin {
      var room := Usable(s);
      var k := Min(room, s.stream.BufferSize());
      var close := s.stream.ended && room > s.stream.BufferSize();
      var data := s.stream.Buffered()[..k];
      var fs := Chunks(s.isn, s.next, data, close);
      forall f | f in fs
        ensures f.abs >= s.next
      {
        var i :| 0 <= i < |fs| && f == fs[i];
        ChunksShaped(s.isn, s.next, data, close, i);
      }
      hide Chunks, Usable;
      assert FillWindow(s).flight == s.flight + fs;
    }
  }

  lemma KeptExactly(s: Sender, ack: nat)
    requires SenderInv(s) && ack <= s.next
    ensures var k := AckedCount(s.flight, ack);
            && (forall f :: f in s.flight ==> (f in s.flight[k..] <==> f.abs + f.seg.Length() > ack))
            && (forall f :: f in s.flight ==> f.abs < s.next)
  {
    var k := AckedCount(s.flight, ack);
    FlightIncreasing(s);
    forall i | 0 <= i < |s.flight|
      ensures (s.flight[i] in s.flight[k..] <==> s.flight[i].End() > ack) && s.flight[i].abs < s.next
    {
      TilesWithin(s.flight, Lowest(s), s.next, i);
      if i >= k {
        assert s.flight[k..][i - k] == s.flight[i];
      }
    }
  }

  /** A tick resends as `TickInv` says, counts and doubles only with an open window, and touches nothing else. */
  lemma TickExactly(s: Sender, ms: nat)
    requires SenderInv(s)
    ensures var t, fires := Tick(s, ms), s.flight != [] && s.timeSpent + ms >= s.rto;
            && t == s.(out := t.out, timerRunning := s.flight != [], timeSpent := t.timeSpent, retx := t.retx, rto := t.rto)
            && t.timeSpent == (if fires || s.flight == [] then 0 else s.timeSpent + ms)
            && t.retx == s.retx + (if fires && s.rwnd > 0 then 1 else 0)
            && (s.retx <= 15 ==> t.rto == if fires && s.rwnd > 0 then 2 * s.rto else s.rto)
  {
    hide FlightInv, OutInv, Pow2;
    if s.retx <= 15 && s.flight != [] {
      DoublingFits(s.initialRto, s.retx);
    }
  }

  /** An empty segment announces the next sequence number and says nothing else. */
  lemma EmptySegmentExactly(s: Sender)
    ensures var t := SendEmpty(s);
            && t == s.(out := t.out) && |t.out| == |s.out| + 1 && s.out <= t.out
            && var seg := t.out[|s.out|];
            && seg.Length() == 0 && seg.header.seqno == Wrap(s.next, s.isn)
            && !seg.header.ack && !seg.header.rst
  {
  }

  // ---------------------------------------------------------------- backoff

  /** Milliseconds that pass during a run. */
  function Elapsed(es: seq<Event>): nat {
    if es == [] then 0 else (if es[0].Elapse? then es[0].ms else 0) + Elapsed(es[1..])
  }

  /** No state of the run has seen its retransmission answered. */
  ghost predicate Unanswered(s: Sender, es: seq<Event>)
    requires SenderInv(s) && IsRun(s, es)
    decreases |es|
  {
    && s.retx >= 1
    && (es != [] ==> (StepInv(s, es[0]); Unanswered(Step(s, es[0]), es[1..])))
  }

  /** Time that must have passed since the first retransmission: all completed periods and the running one. */
  function Waited(s: Sender): int {
    s.initialRto * (Pow2(s.retx) - 2) + s.timeSpent
  }

  lemma WaitedDoubles(init: nat, n: nat)
    ensures init * (Pow2(n + 1) - 2) == init * (Pow2(n) - 2) + init * Pow2(n)
  {
    assert Pow2(n + 1) == 2 * Pow2(n);
  }

  lemma StepWaits(s: Sender, e: Event)
    requires SenderInv(s) && Enabled(s, e) && 1 <= s.retx <= 16
    requires 1 <= Step(s, e).retx <= 16
    ensures Waited(Step(s, e)) <= Waited(s) + if e.Elapse? then e.ms else 0
    ensures s.retx <= Step(s, e).retx
  {
    hide Launch, Chunks, FillWindow, AckReceived, Tick, Pow2;
    assert s.flight != [] && s.timerRunning;
    match e {
      case Elapse(ms) => TickWaits(s, ms);
      case Fill => FillKeepsTimer(s);
      case Ack(ackno, win) => AckKeepsOrResetsTimer(s, ackno, win);
      case _ =>
    }
  }

  lemma TickWaits(s: Sender, ms: nat)
    requires TimerInv(s) && 1 <= s.retx <= 16
    ensures Waited(Tick(s, ms)) <= Waited(s) + ms
    ensures s.retx <= Tick(s, ms).retx
  {
    hide Pow2;
    WaitedDoubles(s.initialRto, s.retx);
  }

  lemma FillKeepsTimer(s: Sender)
    requires s.stream.Valid() && s.timerRunning
    ensures var t := FillWindow(s);
            && t.timerRunning && t.timeSpent == s.timeSpent && t.retx == s.retx && t.rto == s.rto
            && t.initialRto == s.initialRto
  {
  }

  lemma AckKeepsOrResetsTimer(s: Sender, ackno: u32, win: u16)
    requires s.stream.Valid() && s.timerRunning
    ensures var t := AckReceived(s, ackno, win);
            t.retx == 0 || (t.timeSpent == s.timeSpent && t.retx == s.retx && t.initialRto == s.initialRto)
  {
    hide Chunks, Launch, FillWindow;
    var ack := Unwrap(ackno, s.isn, s.checkpoint);
    var u := s.(rwnd := win);
    if s.checkpoint < ack <= s.next {
      FillKeepsTimer(Acknowledge(u, ack));
    }
  }

  /** Over every unanswered run the time elapsed covers the doubling periods. */
  lemma {:induction false} BackoffTakesTime(s: Sender, es: seq<Event>)
    requires SenderInv(s) && IsRun(s, es) && Unanswered(s, es)
    requires After(s, es).retx <= 16
    ensures Waited(After(s, es)) <= Waited(s) + Elapsed(es)
    ensures s.retx <= After(s, es).retx
    decreases |es|
  {
    if es != [] {
      StepInv(s, es[0]);
      BackoffTakesTime(Step(s, es[0]), es[1..]);
      UnansweredGrows(s, es[0]);
      StepWaits(s, es[0]);
    }
  }

  lemma UnansweredGrows(s: Sender, e: Event)
    requires SenderInv(s) && Enabled(s, e) && s.retx >= 1 && Step(s, e).retx >= 1
    ensures s.retx <= Step(s, e).retx
  {
    hide Launch, Chunks, FillWindow, AckReceived;
    match e {
      case Fill => FillKeepsTimer(s);
      case Ack(ackno, win) => AckKeepsOrResetsTimer(s, ackno, win);
      case _ =>
    }
  }

  /**
    From the first unanswered retransmission to the ninth, at which the connection gives up,
    at least 510 initial timeouts pass.
   */
  lemma GivingUpTakes510Timeouts(s: Sender, es: seq<Event>)
    requires SenderInv(s) && IsRun(s, es) && Unanswered(s, es)
    requires s.retx == 1 && s.timeSpent == 0
    requires After(s, es).retx == 9
    ensures Elapsed(es) >= 510 * s.initialRto
  {
    hide SenderInv, IsRun, After, Unanswered, Pow2, Elapsed;
    BackoffTakesTime(s, es);
    ReachableInv(s, es);
    PeriodsUpTo9(s.initialRto);
  }

  /** 2 + 4 + ... + 256. */
  lemma PeriodsUpTo9(init: nat)
    ensures init * (Pow2(1) - 2) == 0
    ensures init * (Pow2(9) - 2) == 510 * init
  {
    assert Pow2(1) == 2;
    Pow2Sixteen();
  }

  // ---------------------------------------------------------------- the observable phase

  datatype Phase = Error | Closed | SynSent | SynAcked | FinSent | FinAcked {
    function Rank(): nat {
      match this
      case Error => 0
      case Closed => 1
      case SynSent => 2
      case SynAcked => 3
      case FinSent => 4
      case FinAcked => 5
    }
  }

  /** `state_summary(sender)`: read off counters only. */
  function StateSummary(s: Sender): Phase
    requires s.stream.Valid()
  {
    if s.stream.error then Error
    else if s.next == 0 then Closed
    else if s.next == s.bytesInFlight then SynSent
    else if !s.stream.Eof() then SynAcked
    else if s.next < s.stream.BytesWritten() + 2 then SynAcked
    else if s.bytesInFlight != 0 then FinSent
    else FinAcked
  }

  /** The phase the sender is really in. */
  function RealPhase(s: Sender): Phase {
    if !s.syn then Closed
    else if s.flight != [] && s.flight[0].seg.header.syn then SynSent
    else if !s.fin then SynAcked
    else if s.flight != [] then FinSent
    else FinAcked
  }

  /** SYN is unacknowledged exactly while everything ever sent is outstanding. */
  lemma SynInFlight(s: Sender)
    requires SenderInv(s) && s.syn
    ensures s.flight != [] && s.flight[0].seg.header.syn <==> s.next == s.bytesInFlight
    ensures s.flight == [] <==> s.bytesInFlight == 0
  {
    if s.flight != [] {
      var f := s.flight[0];
      assert f in s.flight;
      assert Carries(s, f.abs, f.seg);
      TilesWithin(s.flight, Lowest(s), s.next, 0);
    }
  }

  /** In every reachable error-free state the counters tell the real phase. */
  lemma SummaryIsPhase(s: Sender)
    requires SenderInv(s) && !s.stream.error && |s.stream.written| < TWO32
    ensures StateSummary(s) == RealPhase(s)
  {
    SenderInvParts(s);
    if s.syn {
      SynInFlight(s);
    }
    hide FlightInv, OutInv, TimerInv;
  }

  lemma LowestNeverDrops(s: Sender, e: Event)
    requires SenderInv(s) && Enabled(s, e)
    ensures Lowest(s) <= Lowest(Step(s, e))
    ensures s.syn ==> Step(s, e).syn
    ensures s.fin && s.flight == [] ==> Step(s, e).flight == []
  {
    hide Chunks;
    match e {
      case Ack(ackno, win) =>
        var ack := Unwrap(ackno, s.isn, s.checkpoint);
        var u := s.(rwnd := win);
        if s.checkpoint < ack <= s.next {
          TilesFrontPart(s, ack);
        }
      case _ =>
    }
  }

  lemma TilesFrontPart(s: Sender, ack: nat)
    requires SenderInv(s)
    ensures s.flight == [] ==> AckedCount(s.flight, ack) == 0
    ensures s.bytesInFlight - TotalLength(s.flight[..AckedCount(s.flight, ack)]) <= s.bytesInFlight
  {
  }

  /** The phase never moves backwards. */
  lemma PhaseAdvances(s: Sender, e: Event)
    requires SenderInv(s) && Enabled(s, e)
    ensures RealPhase(s).Rank() <= RealPhase(Step(s, e)).Rank()
  {
    hide SenderInv, Step, Extends;
    SenderInvParts(s);
    var t := Step(s, e);
    StepInv(s, e);
    LowestNeverDrops(s, e);
    FinKept(s, t);
    if s.syn {
      SynInFlight(s);
      SynInFlight(t);
    }
  }

  lemma FinKept(s: Sender, t: Sender)
    requires Extends(s, t)
    ensures s.fin ==> t.fin
    ensures s.next <= t.next
  {
  }

  lemma {:induction false} PhaseNeverMovesBack(s: Sender, es: seq<Event>)
    requires SenderInv(s) && IsRun(s, es)
    ensures RealPhase(s).Rank() <= RealPhase(After(s, es)).Rank()
    decreases |es|
  {
    if es != [] {
      StepInv(s, es[0]);
      PhaseAdvances(s, es[0]);
      PhaseNeverMovesBack(Step(s, es[0]), es[1..]);
    }
  }
}
