/** What holds of the sender in every reachable state, whatever acknowledgments arrive. */
module SenderInvariant {
  import opened Prelude
  import opened WrappingIntegers
  import opened Segments
  import opened TcpSending

  // ---------------------------------------------------------------- what a segment may say

  /** `seg`, placed at absolute sequence number `at`, says nothing but the truth about the sender's stream. */
  ghost predicate Carries(s: Sender, at: nat, seg: Segment) {
    && seg.header.seqno == Wrap(at, s.isn)
    && at + seg.Length() <= s.next
    && (seg.header.syn ==> at == 0 && seg.payload == [] && !seg.header.fin)
    && (!seg.header.syn && seg.Length() > 0 ==>
          && 1 <= at
          && at - 1 + |seg.payload| <= s.stream.read <= |s.stream.written|
          && seg.payload == s.stream.written[at - 1..at - 1 + |seg.payload|])
    && (seg.header.fin ==> s.fin && at - 1 + |seg.payload| == |s.stream.written|)
  }

  /** The connection has not filled in anything yet. */
  predicate Unstamped(seg: Segment) {
    !seg.header.ack && !seg.header.rst
  }

  ghost predicate Genuine(s: Sender, seg: Segment) {
    exists at: nat :: Carries(s, at, seg)
  }

  /** `t` is a later state of `s`: streams only grow, and a finished one stays as it is. */
  ghost predicate Extends(s: Sender, t: Sender) {
    && t.isn == s.isn
    && s.next <= t.next
    && s.stream.read <= t.stream.read <= |t.stream.written|
    && s.stream.written <= t.stream.written
    && (s.fin ==> t.fin && t.stream.written == s.stream.written)
  }

  lemma CarriesLater(s: Sender, t: Sender, at: nat, seg: Segment)
    requires Carries(s, at, seg) && Extends(s, t)
    ensures Carries(t, at, seg)
  {
  }

  lemma GenuineLater(s: Sender, t: Sender, seg: Segment)
    requires Genuine(s, seg) && Extends(s, t)
    ensures Genuine(t, seg)
  {
    var at: nat :| Carries(s, at, seg);
    CarriesLater(s, t, at, seg);
  }

  // ---------------------------------------------------------------- the invariant

  /** The sequence space is SYN, the bytes taken from the stream, then FIN. */
  ghost predicate SpaceInv(s: Sender) {
    && s.stream.Valid()
    && s.next == (if s.syn then 1 else 0) + s.stream.read + (if s.fin then 1 else 0)
    && (!s.syn ==> s.stream.read == 0)
    && (s.fin ==> s.syn && s.stream.ended && s.stream.read == |s.stream.written|)
  }

  /** The lower end of what is outstanding. */
  function Lowest(s: Sender): int {
    s.next - s.bytesInFlight
  }

  /** Outstanding segments tile the sequence numbers from below the checkpoint up to `next`. */
  ghost predicate FlightInv(s: Sender) {
    && 0 <= Lowest(s) <= s.checkpoint <= s.next
    && Tiles(s.flight, Lowest(s), s.next)
    && (s.flight != [] ==> s.checkpoint < s.flight[0].End())
    && forall f :: f in s.flight ==> Carries(s, f.abs, f.seg) && Unstamped(f.seg)
  }

  /** Everything queued is genuine; acknowledgments are filled in later, by the connection. */
  ghost predicate OutInv(s: Sender) {
    forall seg :: seg in s.out ==> Genuine(s, seg) && Unstamped(seg)
  }

  /** While data is outstanding the timer runs and its period has doubled once per retransmission. */
  ghost predicate TimerInv(s: Sender) {
    && (s.flight != [] ==> s.timerRunning)
    && (s.timerRunning && s.retx <= 16 ==> s.rto == s.initialRto * Pow2(s.retx))
    && (s.flight == [] ==> s.retx == 0)
  }

  ghost predicate SenderInv(s: Sender) {
    SpaceInv(s) && FlightInv(s) && OutInv(s) && TimerInv(s)
  }

  lemma NewSenderInv(capacity: nat, initialRto: u16, isn: u32)
    ensures SenderInv(NewSender(capacity, initialRto, isn))
  {
  }

  // ---------------------------------------------------------------- sending

  /** Launching segments that continue the sequence space keeps every part of the invariant. */
  lemma LaunchInv(s: Sender, u: Sender, fs: seq<InFlight>, t: Sender)
    requires FlightInv(s) && OutInv(s) && TimerInv(s)
    requires u == s.(stream := u.stream, fin := u.fin, syn := u.syn)
    requires t == Launch(u, fs) && fs != [] && Tiles(fs, s.next, t.next)
    requires Extends(s, t)
    requires forall f :: f in fs ==> Carries(t, f.abs, f.seg) && Unstamped(f.seg)
    ensures FlightInv(t) && OutInv(t) && TimerInv(t)
  {
    hide Carries;
    TilesAppend(s.flight, fs, Lowest(s), s.next, t.next);
    assert forall f :: f in t.flight ==> f in s.flight || f in fs;
    forall f | f in t.flight
      ensures Carries(t, f.abs, f.seg)
    {
      if f in s.flight {
        CarriesLater(s, t, f.abs, f.seg);
      }
    }
    forall seg | seg in t.out
      ensures Genuine(t, seg) && Unstamped(seg)
    {
      if seg in s.out {
        GenuineLater(s, t, seg);
      } else {
        var i :| 0 <= i < |fs| && seg == SegmentsOf(fs)[i];
        assert fs[i] in fs && Carries(t, fs[i].abs, seg);
      }
    }
    assert s.flight == [] ==> t.flight[0] == fs[0];
    assert s.flight != [] ==> t.flight[0] == s.flight[0];
  }

  /** Every chunk of the stream tells the truth once the bytes are taken from the stream. */
  lemma ChunkCarries(t: Sender, at: nat, read: nat, data: seq<byte>, close: bool, i: nat)
    requires i < |Chunks(t.isn, at, data, close)|
    requires at == 1 + read && t.next == at + |data| + (if close then 1 else 0)
    requires read + |data| == t.stream.read <= |t.stream.written|
    requires data == t.stream.written[read..read + |data|]
    requires close ==> t.fin && t.stream.read == |t.stream.written|
    ensures var f := Chunks(t.isn, at, data, close)[i]; Carries(t, f.abs, f.seg) && Unstamped(f.seg)
  {
    hide Chunks, Tiles, Payloads;
    ChunksShaped(t.isn, at, data, close, i);
    ChunksCorrect(t.isn, at, data, close);
    var f := Chunks(t.isn, at, data, close)[i];
    TilesWithin(Chunks(t.isn, at, data, close), at, t.next, i);
    var n := |f.seg.payload|;
    SliceOfSlice(t.stream.written, read, read + |data|, f.abs - at, n);
  }

  lemma SliceOfSlice(w: seq<byte>, lo: nat, hi: nat, at: nat, n: nat)
    requires lo <= hi <= |w| && at + n <= hi - lo
    ensures w[lo..hi][at..at + n] == w[lo + at..lo + at + n]
  {
    var a, b := w[lo..hi][at..at + n], w[lo + at..lo + at + n];
    assert |a| == |b| == n;
    forall j | 0 <= j < n
      ensures a[j] == b[j]
    {
      assert a[j] == w[lo..hi][at + j];
    }
  }

  lemma SendUpToInv(s: Sender, room: nat)
    requires SenderInv(s) && s.syn
    ensures SenderInv(SendUpTo(s, room))
    ensures Extends(s, SendUpTo(s, room))
  {
    if !s.fin {
      var k := Min(room, s.stream.BufferSize());
      var close := s.stream.ended && room > s.stream.BufferSize();
      var data := s.stream.Buffered()[..k];
      var fs := Chunks(s.isn, s.next, data, close);
      ChunksCorrect(s.isn, s.next, data, close);
      if fs == [] {
        assert SendUpTo(s, room) == s;
      } else {
        SendChunksInv(s, k, data, close, fs);
      }
    }
  }

  lemma SendChunksInv(s: Sender, k: nat, data: seq<byte>, close: bool, fs: seq<InFlight>)
    requires SenderInv(s) && s.syn && !s.fin
    requires k <= s.stream.BufferSize() && data == s.stream.Buffered()[..k]
    requires close ==> s.stream.ended && k == s.stream.BufferSize()
    requires fs == Chunks(s.isn, s.next, data, close) && fs != []
    ensures var t := Launch(s.(stream := s.stream.Pop(k), fin := close), fs);
            SenderInv(t) && Extends(s, t)
  {
    hide Chunks, Carries, FlightInv, OutInv, TimerInv;
    var u := s.(stream := s.stream.Pop(k), fin := close);
    var t := Launch(u, fs);
    ChunksCorrect(s.isn, s.next, data, close);
    TilesTotal(fs, s.next, s.next + k + if close then 1 else 0);
    assert t.next == s.next + k + if close then 1 else 0;
    assert data == t.stream.written[s.stream.read..s.stream.read + k];
    forall f | f in fs
      ensures Carries(t, f.abs, f.seg) && Unstamped(f.seg)
    {
      var i :| 0 <= i < |fs| && f == fs[i];
      ChunkCarries(t, s.next, s.stream.read, data, close, i);
    }
    LaunchInv(s, u, fs, t);
  }

  lemma FillWindowInv(s: Sender)
    requires SenderInv(s)
    ensures SenderInv(FillWindow(s)) && Extends(s, FillWindow(s)) && FillWindow(s).syn
  {
    if s.syn {
      SendUpToInv(s, Usable(s));
    } else {
      var f := MakeInFlight(s.isn, s.next, true, false, []);
      assert TotalLength([f]) == f.seg.Length() + TotalLength([]);
      var t := FillWindow(s);
      assert Tiles([f][1..], 1, 1);
      LaunchInv(s, s, [f], Launch(s, [f]));
      SynCarried(Launch(s, [f]), t);
    }
  }

  /** Recording that SYN was sent changes nothing the segments talk about. */
  lemma SynCarried(s: Sender, t: Sender)
    requires FlightInv(s) && OutInv(s) && TimerInv(s) && t == s.(syn := true)
    requires s.stream.read <= |s.stream.written|
    ensures FlightInv(t) && OutInv(t) && TimerInv(t)
  {
    forall f | f in t.flight
      ensures Carries(t, f.abs, f.seg)
    {
      CarriesLater(s, t, f.abs, f.seg);
    }
    forall seg | seg in t.out
      ensures Genuine(t, seg) && Unstamped(seg)
    {
      GenuineLater(s, t, seg);
    }
  }

  // ---------------------------------------------------------------- acknowledgments, time and the application

  /** What is left in flight starts at or before the acknowledged position. */
  lemma {:induction false} AckedBoundary(fs: seq<InFlight>, lo: nat, hi: nat, ack: nat)
    requires Tiles(fs, lo, hi) && lo <= ack
    ensures var k := AckedCount(fs, ack); (if k < |fs| then fs[k].abs else hi) <= ack
    decreases |fs|
  {
    if fs != [] && fs[0].End() <= ack {
      AckedBoundary(fs[1..], fs[0].End(), hi, ack);
      assert AckedCount(fs, ack) == 1 + AckedCount(fs[1..], ack);
    }
  }

  lemma AcknowledgeInv(s: Sender, ack: u64)
    requires SenderInv(s) && s.checkpoint < ack <= s.next
    ensures SenderInv(Acknowledge(s, ack)) && Extends(s, Acknowledge(s, ack))
  {
    hide Carries, Tiles, Genuine;
    var k := AckedCount(s.flight, ack);
    var t := Acknowledge(s, ack);
    AckedBoundary(s.flight, Lowest(s), s.next, ack);
    TilesSplit(s.flight, k, Lowest(s), s.next);
    var mid := if k < |s.flight| then s.flight[k].abs else s.next;
    TilesTotal(s.flight[..k], Lowest(s), mid);
    assert Lowest(t) == mid;
    FlightCarried(s, t);
    OutKept(s, t);
  }

  lemma FlightCarried(s: Sender, t: Sender)
    requires Extends(s, t) && forall f :: f in s.flight ==> Carries(s, f.abs, f.seg)
    requires forall f :: f in t.flight ==> f in s.flight
    ensures forall f :: f in t.flight ==> Carries(t, f.abs, f.seg)
  {
    forall f | f in t.flight
      ensures Carries(t, f.abs, f.seg)
    {
      CarriesLater(s, t, f.abs, f.seg);
    }
  }

  lemma OutKept(s: Sender, t: Sender)
    requires OutInv(s) && Extends(s, t) && forall seg :: seg in t.out ==> seg in s.out
    ensures OutInv(t)
  {
    forall seg | seg in t.out
      ensures Genuine(t, seg) && Unstamped(seg)
    {
      GenuineLater(s, t, seg);
    }
  }

  lemma FlightKept(s: Sender, t: Sender)
    requires FlightInv(s) && Extends(s, t)
    requires t.flight == s.flight && t.next == s.next && t.bytesInFlight == s.bytesInFlight
    requires t.checkpoint == s.checkpoint
    ensures FlightInv(t)
  {
    hide Carries, Tiles;
    FlightCarried(s, t);
  }

  /** The window changes nothing the invariant talks about. */
  lemma WindowInv(s: Sender, win: u16)
    requires SenderInv(s)
    ensures SenderInv(s.(rwnd := win)) && Extends(s, s.(rwnd := win))
  {
    FlightKept(s, s.(rwnd := win));
    OutKept(s, s.(rwnd := win));
  }

  /** Any acknowledgment number and window at all, however wrong, leaves the invariant intact. */
  lemma AckReceivedInv(s: Sender, ackno: u32, win: u16)
    requires SenderInv(s)
    ensures SenderInv(AckReceived(s, ackno, win)) && Extends(s, AckReceived(s, ackno, win))
  {
    hide Unwrap, FillWindow, Acknowledge;
    var ack := Unwrap(ackno, s.isn, s.checkpoint);
    var t := s.(rwnd := win);
    WindowInv(s, win);
    if s.checkpoint < ack <= s.next {
      AcknowledgeInv(t, ack);
      FillWindowInv(Acknowledge(t, ack));
    }
  }

  lemma DoublingFits(init: u16, n: nat)
    requires n < 16
    ensures 2 * (init * Pow2(n)) == init * Pow2(n + 1) < TWO32
  {
    Pow2Mono(n + 1, 16);
    Pow2Sixteen();
    ProductBound(init, Pow2(n + 1), 65535, 65536);
    DoubleFactor(init, Pow2(n));
  }

  lemma Pow2Sixteen()
    ensures Pow2(9) == 512 && Pow2(16) == 65536
  {
    assert Pow2(3) == 8;
    assert Pow2(6) == 64;
    assert Pow2(9) == 512;
    assert Pow2(12) == 4096;
    assert Pow2(15) == 32768;
  }

  lemma ProductBound(a: nat, b: nat, c: nat, d: nat)
    requires a <= c && b <= d
    ensures a * b <= c * d
  {
    assert c * d == a * b + (c - a) * b + c * (d - b);
  }

  lemma DoubleFactor(a: nat, b: nat)
    ensures 2 * (a * b) == a * (2 * b)
  {
  }

  /** The front of the queue is the lowest outstanding segment. */
  lemma FrontIsLowest(s: Sender)
    requires FlightInv(s)
    ensures forall f :: f in s.flight ==> s.flight[0].abs <= f.abs
  {
    forall f | f in s.flight
      ensures s.flight[0].abs <= f.abs
    {
      var j :| 0 <= j < |s.flight| && f == s.flight[j];
      TilesWithin(s.flight, Lowest(s), s.next, j);
    }
  }

  /**
    A tick keeps the invariant. It resends the outstanding segment with the lowest sequence number if there is
    one and its time is up, and nothing otherwise.
   */
  lemma TickInv(s: Sender, ms: nat)
    requires SenderInv(s)
    ensures SenderInv(Tick(s, ms)) && Extends(s, Tick(s, ms))
    ensures Tick(s, ms).out ==
            s.out + if s.flight != [] && s.timeSpent + ms >= s.rto then [s.flight[0].seg] else []
    ensures forall f :: f in s.flight ==> s.flight[0].abs <= f.abs
  {
    TickTimerInv(s, ms);
    TickFrame(s, ms);
    hide FlightInv, Carries, OutInv, TimerInv, Tick;
    var t := Tick(s, ms);
    FlightKept(s, t);
    if s.flight != [] {
      FrontIsLowest(s);
      ResentIsGenuine(s, t);
    } else {
      OutKept(s, t);
    }
  }

  lemma TickTimerInv(s: Sender, ms: nat)
    requires TimerInv(s)
    ensures TimerInv(Tick(s, ms))
  {
    hide Pow2;
    if s.retx < 16 {
      DoublingFits(s.initialRto, s.retx);
    }
  }

  lemma TickFrame(s: Sender, ms: nat)
    ensures var t := Tick(s, ms);
            && t == s.(out := t.out, timerRunning := t.timerRunning, timeSpent := t.timeSpent, retx := t.retx, rto := t.rto)
            && t.out == s.out + if s.flight != [] && s.timeSpent + ms >= s.rto then [s.flight[0].seg] else []
  {
    assert s.out + [] == s.out;
  }

  lemma ResentIsGenuine(s: Sender, t: Sender)
    requires FlightInv(s) && OutInv(s) && Extends(s, t) && s.flight != []
    requires forall seg :: seg in t.out ==> seg in s.out || seg == s.flight[0].seg
    ensures OutInv(t)
  {
    hide Carries;
    forall seg | seg in t.out
      ensures Genuine(t, seg) && Unstamped(seg)
    {
      if seg in s.out {
        GenuineLater(s, t, seg);
      } else {
        assert s.flight[0] in s.flight;
        CarriesLater(s, t, s.flight[0].abs, seg);
      }
    }
  }

  lemma SendEmptyInv(s: Sender)
    requires SenderInv(s)
    ensures SenderInv(SendEmpty(s)) && Extends(s, SendEmpty(s))
  {
    var t := SendEmpty(s);
    FlightKept(s, t);
    forall seg | seg in t.out
      ensures Genuine(t, seg) && Unstamped(seg)
    {
      if seg in s.out {
        GenuineLater(s, t, seg);
      } else {
        assert Carries(t, s.next, seg);
      }
    }
  }

  /** A write that does no harm: FIN has not been sent, or the stream takes nothing. */
  predicate MayWrite(s: Sender, data: seq<byte>)
    requires s.stream.Valid()
  {
    !s.fin || data == [] || s.stream.Remaining() == 0
  }

  lemma WriteOutInv(s: Sender, data: seq<byte>)
    requires SenderInv(s) && MayWrite(s, data)
    ensures SenderInv(WriteOut(s, data)) && Extends(s, WriteOut(s, data))
  {
    FlightKept(s, WriteOut(s, data));
    OutKept(s, WriteOut(s, data));
  }

  lemma EndOutInv(s: Sender)
    requires SenderInv(s)
    ensures SenderInv(EndOut(s)) && Extends(s, EndOut(s))
  {
    FlightKept(s, EndOut(s));
    OutKept(s, EndOut(s));
  }

  lemma DrainInv(s: Sender)
    requires SenderInv(s)
    ensures SenderInv(s.(out := [])) && Extends(s, s.(out := []))
  {
    FlightKept(s, s.(out := []));
  }

  // ---------------------------------------------------------------- runs of the sender alone

  datatype Event =
    | Write(data: seq<byte>)
    | EndInput
    | Fill
    | Ack(ackno: u32, win: u16)
    | Elapse(ms: nat)
    | Empty
    | Drain

  /** The application may write until FIN is sent, even after ending its stream. */
  predicate Enabled(s: Sender, e: Event)
    requires s.stream.Valid()
  {
    e.Write? ==> MayWrite(s, e.data)
  }

  function Step(s: Sender, e: Event): Sender
    requires s.stream.Valid()
  {
    match e
    case Write(data) => WriteOut(s, data)
    case EndInput => EndOut(s)
    case Fill => FillWindow(s)
    case Ack(ackno, win) => AckReceived(s, ackno, win)
    case Elapse(ms) => Tick(s, ms)
    case Empty => SendEmpty(s)
    case Drain => s.(out := [])
  }

  lemma StepInv(s: Sender, e: Event)
    requires SenderInv(s) && Enabled(s, e)
    ensures SenderInv(Step(s, e)) && Extends(s, Step(s, e))
    ensures Step(s, e).initialRto == s.initialRto
  {
    hide SenderInv, Extends;
    match e {
      case Write(data) => WriteOutInv(s, data);
      case EndInput => EndOutInv(s);
      case Fill => FillWindowInv(s);
      case Ack(ackno, win) => AckReceivedInv(s, ackno, win);
      case Elapse(ms) => TickInv(s, ms);
      case Empty => SendEmptyInv(s);
      case Drain => DrainInv(s);
    }
  }

  ghost predicate IsRun(s: Sender, es: seq<Event>)
    requires SenderInv(s)
    decreases |es|
  {
    es == [] || (Enabled(s, es[0]) && (StepInv(s, es[0]); IsRun(Step(s, es[0]), es[1..])))
  }

  ghost function After(s: Sender, es: seq<Event>): Sender
    requires SenderInv(s) && IsRun(s, es)
    decreases |es|
  {
    if es == [] then s else (StepInv(s, es[0]); After(Step(s, es[0]), es[1..]))
  }

  /**
    In every state reachable from a new sender: outstanding segments have increasing sequence numbers,
    tile an interval reaching from at or below the checkpoint to `next`, each carries the stream
    bytes its number says, and `bytes_in_flight` is the length of the interval.
   */
  lemma {:induction false} ReachableInv(s: Sender, es: seq<Event>)
    requires SenderInv(s) && IsRun(s, es)
    ensures SenderInv(After(s, es)) && Extends(s, After(s, es)) && Increasing(After(s, es).flight)
    ensures After(s, es).initialRto == s.initialRto
    decreases |es|
  {
    if es == [] {
      FlightIncreasing(s);
    } else {
      StepInv(s, es[0]);
      ReachableInv(Step(s, es[0]), es[1..]);
      ExtendsTrans(s, Step(s, es[0]), After(s, es));
    }
  }

  ghost predicate Increasing(fs: seq<InFlight>) {
    forall i, j :: 0 <= i < j < |fs| ==> fs[i].End() <= fs[j].abs
  }

  lemma FlightIncreasing(s: Sender)
    requires FlightInv(s)
    ensures Increasing(s.flight)
  {
    forall i, j | 0 <= i < j < |s.flight|
      ensures s.flight[i].End() <= s.flight[j].abs
    {
      TilesIncreasing(s.flight, Lowest(s), s.next, i, j);
    }
  }

  lemma ExtendsTrans(s: Sender, t: Sender, u: Sender)
    requires Extends(s, t) && Extends(t, u)
    ensures Extends(s, u)
  {
  }
}
