/**
  A window overrun by a genuine but stale acknowledgment: the receiver closes its window, opens it again,
  and the acknowledgment from before overtakes nothing but time.
 */
module StaleWindow {
  import opened Prelude
  import opened WrappingIntegers
  import opened ByteStreams
  import opened Reassembly
  import opened Segments
  import opened TcpReceivers
  import opened TcpSending
  import SI = SenderInvariant
  import opened SenderProperties
  import opened TcpConnecting
  import opened TcpLink
  import opened OvertakingFin
  import opened OutsideFin

  const MORE: InFlight := MakeInFlight(0, 3, false, false, [9, 10])

  function MoreSent(): Sender {
    Acked(2).(stream := Stream(10, [7, 8, 9, 10], 4, false, false), next := 5, flight := [MORE], bytesInFlight := 2)
  }

  lemma WritesMore()
    ensures WriteOut(Acked(2), [9, 10]) == Acked(2).(stream := Stream(10, [7, 8, 9, 10], 2, false, false))
  {
    assert [7, 8] + [9, 10][..2] == [7, 8, 9, 10];
  }

  lemma SendsMore()
    ensures FillWindow(WriteOut(Acked(2), [9, 10])) == MoreSent().(out := [MORE.seg])
  {
    hide FillWindow, Usable, WriteOut;
    WritesMore();
    var w := Acked(2).(stream := Stream(10, [7, 8, 9, 10], 2, false, false));
    assert w.stream.Buffered() == [9, 10];
    UsableIs(w, 2);
    SendsRest(w, 2, false, MORE);
  }

  /** The receiver's application has read both bytes. */
  function Emptied(): Receiver {
    Receiver(Reasm(Stream(2, [7, 8], 2, false, false), false, map[]), 0, true, false)
  }

  lemma AcksEmptied()
    ensures Stamp(Emptied(), Segment(DEFAULT_HEADER, []), false) == AckSeg(3, 2)
  {
    assert Wrap(3, 0) == 3;
  }

  /** The number is not new, but its closed window is believed. */
  lemma TakesClosedWindow()
    ensures AckReceived(MoreSent(), 3, 0) == MoreSent().(rwnd := 0)
  {
    hide FillWindow;
    assert Wrap(3, 0) == 3;
    UnwrapSmall(3, 0, 3);
  }

  /** The window opens again and its acknowledgment arrives first. */
  lemma Reopening(before: seq<Event>) returns (es: seq<Event>)
    requires Reaches(2, before, Link(FullSent(), Filled(), [SYN.seg, FULL.seg], [AckSeg(1, 2), AckSeg(3, 0)], 0))
    ensures Reaches(2, es, Link(Acked(2), Emptied(), [SYN.seg, FULL.seg], [AckSeg(1, 2), AckSeg(3, 0), AckSeg(3, 2)], 2))
  {
    hide FillWindow, AckReceived, Stamp, Reaches;
    var l0 := Link(FullSent(), Filled(), [SYN.seg, FULL.seg], [AckSeg(1, 2), AckSeg(3, 0)], 0);
    var l1 := l0.(r := Emptied());
    es := Go(2, before, l0, Read(2), l1);
    AcksEmptied();
    var l2 := l1.(acks := [AckSeg(1, 2), AckSeg(3, 0), AckSeg(3, 2)]);
    es := Go(2, es, l1, MakeAck, l2);
    TakesSecondAck(2);
    es := Go(2, es, l2, TakeAck(2), l2.(s := Acked(2), seen := 2));
  }

  /**
    The failing input: every acknowledgment was made by the receiver, yet two numbers are outstanding in a
    window of one, and the subtraction in `fill_window` comes out beyond 2^63.
   */
  lemma StaleAckOverrunsWindow() returns (es: seq<Event>, l: Link)
    ensures Reaches(2, es, l)
    ensures Outstanding(l.s) == 2 && Window(l.s) == 1 && Usable(l.s) >= TWO63
  {
    hide FillWindow, AckReceived, Reaches, WriteOut;
    es := Handshake(2);
    es := Filling(es);
    es := Reopening(es);
    var l0 := Link(Acked(2), Emptied(), [SYN.seg, FULL.seg], [AckSeg(1, 2), AckSeg(3, 0), AckSeg(3, 2)], 2);
    WritesMore();
    var l1 := l0.(s := WriteOut(Acked(2), [9, 10]));
    es := Go(2, es, l0, AtSender(SI.Write([9, 10])), l1);
    SendsMore();
    var l2 := l0.(s := MoreSent().(out := [MORE.seg]));
    es := Go(2, es, l1, AtSender(SI.Fill), l2);
    var l3 := l0.(s := MoreSent(), data := [SYN.seg, FULL.seg, MORE.seg]);
    es := Go(2, es, l2, Transmit, l3);
    TakesClosedWindow();
    l := l3.(s := MoreSent().(rwnd := 0), seen := 1);
    es := Go(2, es, l3, TakeAck(1), l);
    UsableExact(l.s);
  }
}
