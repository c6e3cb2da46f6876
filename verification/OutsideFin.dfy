/**
  The other way to break the FIN guard: a FIN beyond the receiver's window.  A stale acknowledgment
  makes the sender believe in a window that is gone; it sends the last byte together with FIN, the
  receiver has no room for the byte, drops it, and still acknowledges it.
 */
module OutsideFin {
  import opened Prelude
  import opened WrappingIntegers
  import opened ByteStreams
  import opened Reassembly
  import RO = ReassemblyOrder
  import opened Segments
  import opened TcpReceivers
  import opened TcpSending
  import opened TcpSenders
  import SI = SenderInvariant
  import opened TcpConnecting
  import opened TwoParty
  import opened TcpLink
  import opened OvertakingFin

  const FULL: InFlight := MakeInFlight(0, 1, false, false, [7, 8])
  const LAST: InFlight := MakeInFlight(0, 3, false, true, [9])

  // ---------------------------------------------------------------- the sender's side of the run

  function FullSent(): Sender {
    Opened(2).(stream := Stream(10, [7, 8], 2, false, false), next := 3, flight := [FULL], bytesInFlight := 2)
  }

  function Acked(win: u16): Sender {
    FullSent().(flight := [], bytesInFlight := 0, checkpoint := 3, rwnd := win)
  }

  function LastSent(): Sender {
    Acked(2).(stream := Stream(10, [7, 8, 9], 3, true, false), next := 5, flight := [LAST], bytesInFlight := 2, fin := true)
  }

  lemma WritesTwo()
    ensures WriteOut(Opened(2), [7, 8]) == Opened(2).(stream := Stream(10, [7, 8], 0, false, false))
  {
    assert [7, 8][..2] == [7, 8];
  }

  lemma SendsTwo()
    ensures FillWindow(WriteOut(Opened(2), [7, 8])) == FullSent().(out := [FULL.seg])
  {
    hide FillWindow, Usable, WriteOut;
    WritesTwo();
    var w := Opened(2).(stream := Stream(10, [7, 8], 0, false, false));
    assert w.stream.Buffered() == [7, 8];
    UsableIs(w, 2);
    SendsRest(w, 2, false, FULL);
  }

  lemma TakesSecondAck(win: u16)
    ensures AckReceived(FullSent(), 3, win) == Acked(win)
  {
    hide SendUpTo, Usable;
    assert Wrap(3, 0) == 3;
    UnwrapSmall(3, 0, 1);
    hide Unwrap;
    assert [FULL][1..] == [];
    assert AckedCount([], 3) == 0;
    assert AckedCount([FULL], 3) == 1;
    assert [FULL][..1] == [FULL] && TotalLength([FULL]) == 2 + TotalLength([]);
    assert Acknowledge(FullSent().(rwnd := win), 3) == Acked(win);
    NothingLeftToSend(Acked(win), Usable(Acked(win)));
  }

  /** The acknowledgment of SYN comes again: it is not new, but its window is believed. */
  lemma TakesStaleAck()
    ensures AckReceived(Acked(0), 1, 2) == Acked(2)
  {
    hide FillWindow;
    assert Wrap(1, 0) == 1;
    UnwrapSmall(1, 0, 3);
  }

  lemma WritesLast()
    ensures WriteOut(Acked(2), [9]) == Acked(2).(stream := Stream(10, [7, 8, 9], 2, false, false))
  {
    assert [7, 8] + [9][..1] == [7, 8, 9];
  }

  lemma SendsLast()
    ensures FillWindow(EndOut(WriteOut(Acked(2), [9]))) == LastSent().(out := [LAST.seg])
  {
    hide FillWindow, Usable, WriteOut;
    WritesLast();
    var e := Acked(2).(stream := Stream(10, [7, 8, 9], 2, true, false));
    assert e.stream.Buffered() == [9];
    UsableIs(e, 2);
    SendsRest(e, 2, true, LAST);
  }

  // ---------------------------------------------------------------- the receiver's side

  function Filled(): Receiver {
    Receiver(Reasm(Stream(2, [7, 8], 0, false, false), false, map[]), 0, true, false)
  }

  lemma ReceivesTwo()
    ensures Receive(Ready(2), FULL.seg) == Filled()
  {
    hide Push, Unwrap;
    assert Wrap(1, 0) == 1;
    UnwrapSmall(1, 0, 0);
    var r, p, stream := Ready(2).reasm, Piece([7, 8], 0, false), [7, 8];
    assert PieceOf(FULL.seg, 0, 0) == p;
    PushValid(r, p);
    RO.PushAgrees(r, p, stream);
    RO.PushEofFlag(r, p);
    var t := Push(r, p);
    RO.AgreesIsPrefix(t, stream);
    PushKnows(r, p, 0);
    PushKnows(r, p, 1);
    assert t.FirstUnassembled() == 2;
    RO.NothingPendingBeyond(t, stream);
  }

  lemma NoRoomForLast()
    ensures Push(Filled().reasm, Piece([9], 2, true)) == Filled().reasm
  {
  }

  lemma DropsLast()
    ensures Receive(Filled(), LAST.seg) == Filled().(fin := true)
  {
    hide Push, Unwrap;
    assert Wrap(3, 0) == 3;
    UnwrapSmall(3, 0, 2);
    assert PieceOf(LAST.seg, 0, 2) == Piece([9], 2, true);
    NoRoomForLast();
  }

  lemma AcksTwo()
    ensures Stamp(Filled(), Segment(DEFAULT_HEADER, []), false) == AckSeg(3, 0)
  {
    assert Wrap(3, 0) == 3;
  }

  // ---------------------------------------------------------------- the run

  /** Two bytes fill the receiver, which acknowledges them and closes its window. */
  lemma Filling(before: seq<Event>) returns (es: seq<Event>)
    requires Reaches(2, before, Link(Opened(2), Ready(2), [SYN.seg], [AckSeg(1, 2)], 0))
    ensures Reaches(2, es, Link(FullSent(), Filled(), [SYN.seg, FULL.seg], [AckSeg(1, 2), AckSeg(3, 0)], 0))
  {
    hide FillWindow, AckReceived, Receive, Stamp, Reaches, WriteOut;
    var l0 := Link(Opened(2), Ready(2), [SYN.seg], [AckSeg(1, 2)], 0);
    WritesTwo();
    var l1 := l0.(s := WriteOut(Opened(2), [7, 8]));
    es := Go(2, before, l0, AtSender(SI.Write([7, 8])), l1);
    SendsTwo();
    var l2 := l0.(s := FullSent().(out := [FULL.seg]));
    es := Go(2, es, l1, AtSender(SI.Fill), l2);
    var l3 := l0.(s := FullSent(), data := [SYN.seg, FULL.seg]);
    es := Go(2, es, l2, Transmit, l3);
    ReceivesTwo();
    var l4 := l3.(r := Filled());
    es := Go(2, es, l3, Deliver(1), l4);
    AcksTwo();
    es := Go(2, es, l4, MakeAck, l4.(acks := [AckSeg(1, 2), AckSeg(3, 0)]));
  }

  /** Both acknowledgments arrive, in the wrong order. */
  lemma Reordering(before: seq<Event>) returns (es: seq<Event>)
    requires Reaches(2, before, Link(FullSent(), Filled(), [SYN.seg, FULL.seg], [AckSeg(1, 2), AckSeg(3, 0)], 0))
    ensures Reaches(2, es, Link(Acked(2), Filled(), [SYN.seg, FULL.seg], [AckSeg(1, 2), AckSeg(3, 0)], 0))
  {
    hide FillWindow, AckReceived, Reaches;
    var l0 := Link(FullSent(), Filled(), [SYN.seg, FULL.seg], [AckSeg(1, 2), AckSeg(3, 0)], 0);
    TakesSecondAck(0);
    var l1 := l0.(s := Acked(0), seen := 1);
    es := Go(2, before, l0, TakeAck(1), l1);
    TakesStaleAck();
    es := Go(2, es, l1, TakeAck(0), l1.(s := Acked(2), seen := 0));
  }

  /** The failing input: three bytes were written, two are assembled, and the third is acknowledged. */
  lemma OutsideFinAcksAMissingByte() returns (es: seq<Event>, l: Link)
    ensures Reaches(2, es, l)
    ensures l.s.stream.written == [7, 8, 9] && l.r.reasm.out.written == [7, 8]
    ensures l.r.syn && l.r.AckPosition() == 4 && OverAcks(l.s, l.r)
  {
    hide FillWindow, AckReceived, Receive, Stamp, Reaches, WriteOut;
    es := Handshake(2);
    es := Filling(es);
    es := Reordering(es);
    var l0 := Link(Acked(2), Filled(), [SYN.seg, FULL.seg], [AckSeg(1, 2), AckSeg(3, 0)], 0);
    WritesLast();
    var l1 := l0.(s := WriteOut(Acked(2), [9]));
    es := Go(2, es, l0, AtSender(SI.Write([9])), l1);
    var l2 := l1.(s := EndOut(l1.s));
    es := Go(2, es, l1, AtSender(SI.EndInput), l2);
    SendsLast();
    var l3 := l0.(s := LastSent().(out := [LAST.seg]));
    es := Go(2, es, l2, AtSender(SI.Fill), l3);
    var l4 := l0.(s := LastSent(), data := [SYN.seg, FULL.seg, LAST.seg]);
    es := Go(2, es, l3, Transmit, l4);
    DropsLast();
    l := l4.(r := Filled().(fin := true));
    es := Go(2, es, l4, Deliver(2), l);
  }
}
