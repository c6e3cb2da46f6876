/**
  Why the FIN guard is needed: a run, legal for the network, in which a bare FIN overtakes the only
  byte of the stream.  The receiver then acknowledges a byte it never got and the sender forgets it.
 */
module OvertakingFin {
  import opened Prelude
  import opened WrappingIntegers
  import opened ByteStreams
  import opened Reassembly
  import RO = ReassemblyOrder
  import opened Segments
  import opened TcpReceivers
  import opened TcpSending
  import opened TcpSenders
  import SI = SenderInvariant
  import opened TcpConnecting
  import opened TwoParty
  import opened TcpLink

  const SYN: InFlight := MakeInFlight(0, 0, true, false, [])
  const BYTE: InFlight := MakeInFlight(0, 1, false, false, [7])
  const FIN: InFlight := MakeInFlight(0, 2, false, true, [])

  lemma {:induction false} RunSnoc(d: Discipline, l: Link, es: seq<Event>, e: Event)
    requires Holds(d, l) && IsRun(d, l, es)
    requires var m := After(d, l, es);
             m.s.stream.Valid() && m.r.reasm.out.Valid() && Enabled(m, e) && Permitted(d, m, e)
    ensures IsRun(d, l, es + [e])
    ensures After(d, l, es + [e]) == Step(After(d, l, es), e)
    decreases |es|
  {
    if es == [] {
      assert ([] + [e])[1..] == [];
    } else {
      StreamsValid(d, l);
      StepHolds(d, l, es[0]);
      RunSnoc(d, Step(l, es[0]), es[1..], e);
      assert (es + [e])[1..] == es[1..] + [e];
    }
  }

  // ---------------------------------------------------------------- the sender's side of the run

  function Base(): Sender {
    NewSender(10, 1000, 0)
  }

  function Synced(): Sender {
    Base().(next := 1, flight := [SYN], bytesInFlight := 1, syn := true, timerRunning := true, rto := 1000)
  }

  function Opened(win: u16): Sender {
    Synced().(flight := [], bytesInFlight := 0, checkpoint := 1, rwnd := win)
  }

  function Loaded(): Sender {
    Opened(10).(stream := Stream(10, [7], 1, true, false), next := 3, flight := [BYTE, FIN], bytesInFlight := 2, fin := true)
  }

  lemma SendsSyn()
    ensures FillWindow(Base()) == Synced().(out := [SYN.seg])
  {
    assert SegmentsOf([SYN]) == [SYN.seg];
    assert TotalLength([SYN]) == 1 + TotalLength([]);
  }

  lemma TakesFirstAck(win: u16)
    ensures AckReceived(Synced(), 1, win) == Opened(win)
  {
    assert Wrap(1, 0) == 1;
    UnwrapSmall(1, 0, 0);
    var t := Synced().(rwnd := win);
    assert [SYN][1..] == [];
    assert AckedCount([], 1) == 0;
    assert AckedCount([SYN], 1) == 1;
    assert [SYN][..1] == [SYN] && TotalLength([SYN]) == 1 + TotalLength([]);
    assert Acknowledge(t, 1) == Opened(win);
    assert Opened(win).stream.BufferSize() == 0;
    NothingLeftToSend(Opened(win), Usable(Opened(win)));
  }

  function OneSent(): Sender {
    Opened(10).(stream := Stream(10, [7], 1, false, false), next := 2, flight := [BYTE], bytesInFlight := 1)
  }

  /** A window that takes the whole buffer, and FIN if it is due: everything goes out in one segment. */
  lemma SendsRest(s: Sender, room: nat, close: bool, f: InFlight)
    requires s.stream.Valid() && s.syn && !s.fin && s.timerRunning && Usable(s) == room
    requires s.stream.BufferSize() <= MAX_PAYLOAD_SIZE && s.stream.BufferSize() <= room
    requires close == (s.stream.ended && room > s.stream.BufferSize()) && (close || s.stream.BufferSize() > 0)
    requires f == MakeInFlight(s.isn, s.next, false, close, s.stream.Buffered())
    ensures FillWindow(s) ==
            s.(stream := s.stream.Pop(s.stream.BufferSize()), fin := close,
               out := s.out + [f.seg], flight := s.flight + [f],
               next := s.next + f.seg.Length(), bytesInFlight := s.bytesInFlight + f.seg.Length())
  {
    hide Launch, SendUpTo, Chunks, Usable;
    LastSegment(s, room, close);
    assert s.stream.Buffered()[..s.stream.BufferSize()] == s.stream.Buffered();
    LaunchOne(s.(stream := s.stream.Pop(s.stream.BufferSize()), fin := close), f);
  }

  lemma UsableIs(s: Sender, n: u64)
    requires Max(s.rwnd, 1) - (s.next - s.checkpoint) == n
    ensures Usable(s) == n
  {
  }

  lemma WritesByte()
    ensures WriteOut(Opened(10), [7]) == Opened(10).(stream := Stream(10, [7], 0, false, false))
  {
    assert [7][..1] == [7];
  }

  lemma SendsByte()
    ensures FillWindow(WriteOut(Opened(10), [7])) == OneSent().(out := [BYTE.seg])
  {
    hide FillWindow, Usable, WriteOut;
    WritesByte();
    var w := Opened(10).(stream := Stream(10, [7], 0, false, false));
    assert w.stream.Buffered() == [7];
    UsableIs(w, 10);
    SendsRest(w, 10, false, BYTE);
  }

  lemma SendsFin()
    ensures FillWindow(EndOut(OneSent().(out := [BYTE.seg]))) == Loaded().(out := [BYTE.seg, FIN.seg])
  {
    hide FillWindow, Usable;
    var e := EndOut(OneSent().(out := [BYTE.seg]));
    assert e.stream.Buffered() == [];
    UsableIs(e, 9);
    SendsRest(e, 9, true, FIN);
  }

  lemma ForgetsByte()
    ensures AckReceived(Loaded(), 2, 10).flight == [FIN]
    ensures AckReceived(Loaded(), 2, 10).stream == Loaded().stream
  {
    assert Wrap(2, 0) == 2;
    UnwrapSmall(2, 0, 1);
    assert [BYTE, FIN][1..] == [FIN];
    assert AckedCount([FIN], 2) == 0;
    assert AckedCount([BYTE, FIN], 2) == 1;
  }

  // ---------------------------------------------------------------- the receiver's side

  function Listening(capacity: nat): Receiver {
    Receiver(Reasm(Stream(capacity, [], 0, false, false), false, map[]), 0, false, false)
  }

  function Ready(capacity: nat): Receiver {
    Listening(capacity).(syn := true)
  }

  /** The receiver believes the stream to be over although it has nothing of it. */
  function Fooled(): Receiver {
    Receiver(Reasm(Stream(10, [], 0, true, false), true, map[]), 0, true, true)
  }

  lemma ReceivesSyn(capacity: nat)
    ensures Receive(Listening(capacity), SYN.seg) == Ready(capacity)
  {
    hide Push, Unwrap;
    assert Wrap(0, 0) == 0;
    UnwrapSmall(0, 0, 0);
    EmptyPushKeeps(Listening(capacity).reasm, Piece([], 0, false), []);
  }

  lemma ReceivesFin()
    ensures Receive(Ready(10), FIN.seg) == Fooled()
  {
    hide Push, Unwrap;
    assert Wrap(2, 0) == 2;
    UnwrapSmall(2, 0, 0);
    var r, p := Ready(10).reasm, Piece([], 1, true);
    assert PieceOf(FIN.seg, 0, 0) == p;
    PushValid(r, p);
    RO.EmptyPushAssemblesNothing(r, p);
    RO.PushEofFlag(r, p);
  }

  function AckSeg(ackno: u32, win: u16): Segment {
    Segment(DEFAULT_HEADER.(ack := true, ackno := ackno, win := win), [])
  }

  lemma AcksSyn(capacity: u16)
    ensures Stamp(Ready(capacity), Segment(DEFAULT_HEADER, []), false) == AckSeg(1, capacity)
  {
    assert Wrap(1, 0) == 1;
  }

  lemma AcksMissingByte()
    ensures Stamp(Fooled(), Segment(DEFAULT_HEADER, []), false) == AckSeg(2, 10)
  {
    assert Wrap(2, 0) == 2;
  }

  // ---------------------------------------------------------------- the run

  /** The events take a new link, its receiver of the given capacity, to `l`. */
  ghost predicate Reaches(capacity: nat, es: seq<Event>, l: Link) {
    var l0 := NewLink(10, capacity, 1000, 0);
    IsRun(Anything, l0, es) && After(Anything, l0, es) == l
  }

  lemma Start(capacity: nat)
    ensures Reaches(capacity, [], NewLink(10, capacity, 1000, 0))
  {
    hide Holds;
  }

  lemma Go(capacity: nat, before: seq<Event>, l: Link, e: Event, m: Link) returns (es: seq<Event>)
    requires Reaches(capacity, before, l)
    requires l.s.stream.Valid() && l.r.reasm.out.Valid() && Enabled(l, e) && Permitted(Anything, l, e) && m == Step(l, e)
    ensures es == before + [e] && Reaches(capacity, es, m)
  {
    hide Holds, IsRun, After, Step, Enabled, Permitted, NewLink;
    es := before + [e];
    RunSnoc(Anything, NewLink(10, capacity, 1000, 0), before, e);
  }

  lemma SynCrosses(capacity: u16) returns (es: seq<Event>)
    ensures Reaches(capacity, es, Link(Synced(), Listening(capacity), [SYN.seg], [], 0))
  {
    hide FillWindow, Wrap, Reaches, Holds;
    var l0 := NewLink(10, capacity, 1000, 0);
    Start(capacity);
    SendsSyn();
    var l1 := l0.(s := Synced().(out := [SYN.seg]));
    es := Go(capacity, [], l0, AtSender(SI.Fill), l1);
    es := Go(capacity, es, l1, Transmit, Link(Synced(), Listening(capacity), [SYN.seg], [], 0));
  }

  /** Handshake: SYN over, its acknowledgment back. */
  lemma Handshake(capacity: u16) returns (es: seq<Event>)
    ensures Reaches(capacity, es, Link(Opened(capacity), Ready(capacity), [SYN.seg], [AckSeg(1, capacity)], 0))
  {
    hide FillWindow, Receive, Stamp, AckReceived, Wrap, Reaches, Holds;
    es := SynCrosses(capacity);
    var l2 := Link(Synced(), Listening(capacity), [SYN.seg], [], 0);
    ReceivesSyn(capacity);
    var l3 := l2.(r := Ready(capacity));
    es := Go(capacity, es, l2, Deliver(0), l3);
    AcksSyn(capacity);
    var l4 := l3.(acks := [AckSeg(1, capacity)]);
    es := Go(capacity, es, l3, MakeAck, l4);
    TakesFirstAck(capacity);
    es := Go(capacity, es, l4, TakeAck(0), l4.(s := Opened(capacity)));
  }

  /** The byte and a bare FIN are sent. */
  lemma Sending(before: seq<Event>) returns (es: seq<Event>)
    requires Reaches(10, before, Link(Opened(10), Ready(10), [SYN.seg], [AckSeg(1, 10)], 0))
    ensures Reaches(10, es, Link(Loaded(), Ready(10), [SYN.seg, BYTE.seg, FIN.seg], [AckSeg(1, 10)], 0))
  {
    hide FillWindow, Reaches, WriteOut;
    var l0 := Link(Opened(10), Ready(10), [SYN.seg], [AckSeg(1, 10)], 0);
    WritesByte();
    var l1 := l0.(s := WriteOut(Opened(10), [7]));
    es := Go(10, before, l0, AtSender(SI.Write([7])), l1);
    SendsByte();
    var l2 := l0.(s := OneSent().(out := [BYTE.seg]));
    es := Go(10, es, l1, AtSender(SI.Fill), l2);
    var l3 := l2.(s := EndOut(l2.s));
    es := Go(10, es, l2, AtSender(SI.EndInput), l3);
    SendsFin();
    var l4 := l0.(s := Loaded().(out := [BYTE.seg, FIN.seg]));
    es := Go(10, es, l3, AtSender(SI.Fill), l4);
    assert [SYN.seg] + [BYTE.seg, FIN.seg] == [SYN.seg, BYTE.seg, FIN.seg];
    es := Go(10, es, l4, Transmit, l0.(s := Loaded(), data := [SYN.seg, BYTE.seg, FIN.seg]));
  }

  /**
    The counterexample: after this run byte 0 is neither assembled nor outstanding nor buffered at the
    sender, and the receiver's application sees the end of a stream it has read nothing of.
   */
  lemma OvertakingFinLosesAByte() returns (es: seq<Event>, l: Link)
    ensures Reaches(10, es, l)
    ensures l.s.stream.written == [7] && l.r.reasm.out.written == [] && l.r.reasm.out.ended
    ensures !InFlightByte(l.s, 0) && !(0 >= l.s.stream.read)
  {
    hide FillWindow, Receive, Stamp, AckReceived, Reaches;
    es := Handshake(10);
    es := Sending(es);
    var l0 := Link(Loaded(), Ready(10), [SYN.seg, BYTE.seg, FIN.seg], [AckSeg(1, 10)], 0);
    ReceivesFin();
    var l1 := l0.(r := Fooled());
    es := Go(10, es, l0, Deliver(2), l1);
    AcksMissingByte();
    var l2 := l1.(acks := [AckSeg(1, 10), AckSeg(2, 10)]);
    es := Go(10, es, l1, MakeAck, l2);
    ForgetsByte();
    l := l2.(s := AckReceived(Loaded(), 2, 10), seen := 1);
    es := Go(10, es, l2, TakeAck(1), l);
  }
}
