/**
  Flow control: as long as acknowledgments are taken in the order they were made, the sender never has
  more outstanding than the window it knows, the unsigned subtraction in `fill_window` never wraps, and
  every FIN falls inside the receiver's window.
 */
module FlowControl {
  import opened Prelude
  import opened WrappingIntegers
  import opened Reassembly
  import opened ReassemblyOrder
  import opened Segments
  import opened TcpReceivers
  import opened TcpSending
  import opened SenderInvariant
  import opened SenderProperties
  import opened TcpConnecting
  import opened TwoParty

  /** The right edge of the window an acknowledgment advertises. */
  function EdgeOf(b: Segment, isn: u32): nat {
    AckOf(b, isn) + b.header.win
  }

  /** The right edge the receiver would advertise now. */
  function RightEdge(r: Receiver): nat
    requires r.reasm.out.Valid()
  {
    r.AckPosition() + r.WindowSize()
  }

  /** Later acknowledgments neither acknowledge less nor shrink the window. */
  ghost predicate InOrder(acks: seq<Segment>, isn: u32) {
    forall i, j :: 0 <= i < j < |acks| && acks[i].header.ack && acks[j].header.ack ==>
      AckOf(acks[i], isn) <= AckOf(acks[j], isn) && EdgeOf(acks[i], isn) <= EdgeOf(acks[j], isn)
  }

  /** An acknowledgment not older than what the sender works with. */
  predicate Fresh(s: Sender, b: Segment) {
    s.checkpoint <= AckOf(b, s.isn) && s.checkpoint + s.rwnd <= EdgeOf(b, s.isn)
  }

  /** Flow-control agreement; `seen` is the acknowledgment taken last. */
  ghost predicate FlowInv(s: Sender, r: Receiver, acks: seq<Segment>, seen: nat) {
    && r.reasm.out.Valid() && r.reasm.out.capacity <= 65535
    && InOrder(acks, s.isn)
    && (forall b :: b in acks && b.header.ack ==> EdgeOf(b, s.isn) <= RightEdge(r))
    && seen <= |acks|
    && (forall i :: seen <= i < |acks| && acks[i].header.ack ==> Fresh(s, acks[i]))
    && s.checkpoint + s.rwnd <= RightEdge(r)
    && Outstanding(s) <= Window(s)
    && (s.fin ==> |s.stream.written| <= r.reasm.Edge())
  }

  /** A bare FIN does not overtake the byte before it. */
  predicate NoOvertake(r: Receiver, seg: Segment) {
    r.syn ==> EofSafe(r.reasm, PieceOf(seg, r.isn, r.reasm.out.BytesWritten()))
  }

  /** With flow control in force, the window half of the FIN guard comes for free. */
  lemma FlowGivesGuard(s: Sender, r: Receiver, data: seq<Segment>, acks: seq<Segment>, seen: nat, seg: Segment)
    requires SafeInv(s, r, data) && FlowInv(s, r, acks, seen) && Genuine(s, seg) && NoOvertake(r, seg)
    ensures FinGuard(r, seg)
  {
    hide SenderInv, Carries, PayloadIndex, Agrees, InOrder, Fresh, Genuine, Position;
    if seg.header.fin && (r.syn || seg.header.syn) {
      var at: nat := GenuineAt(s, seg);
      SpaceBounds(s);
      AgreesIsPrefix(r.reasm, Sent(s));
      SynGenuine(s, seg, at, r.reasm.out.BytesWritten());
      GenuineIsCut(s, seg, at, r.reasm.out.BytesWritten());
    }
  }

  /** The right edge is the window of the reassembler shifted by SYN, and by FIN once the stream is complete. */
  lemma RightEdgeExact(s: Sender, r: Receiver, data: seq<Segment>)
    requires SafeInv(s, r, data) && FinInv(s, r)
    ensures RightEdge(r) == 1 + r.reasm.Edge() + (if r.reasm.out.ended then 1 else 0)
  {
    hide SenderInv, Agrees, Genuine;
    if r.syn {
      AckIsExact(s, r, data);
    }
  }

  /** A delivery never moves the right edge back. */
  lemma DeliverEdge(s: Sender, r: Receiver, data: seq<Segment>, seg: Segment)
    requires SafeInv(s, r, data) && FinInv(s, r) && Genuine(s, seg) && FinGuard(r, seg)
    ensures SafeInv(s, Receive(r, seg), data)
    ensures RightEdge(r) <= RightEdge(Receive(r, seg))
  {
    hide SenderInv, Agrees, Genuine, Push, FinGuard;
    var t := Receive(r, seg);
    DeliverSafe(s, r, data, seg);
    DeliverFin(s, r, data, seg);
    RightEdgeExact(s, r, data);
    RightEdgeExact(s, t, data);
    ReceiveKeepsWindow(r, seg);
    EndStays(s, r, t, data);
  }

  lemma DeliverFlow(s: Sender, r: Receiver, data: seq<Segment>, acks: seq<Segment>, seen: nat, seg: Segment)
    requires SafeInv(s, r, data) && FinInv(s, r) && FlowInv(s, r, acks, seen)
    requires Genuine(s, seg) && FinGuard(r, seg)
    ensures FlowInv(s, Receive(r, seg), acks, seen)
  {
    hide SenderInv, Agrees, Genuine, Push, FinGuard, Fresh, InOrder, FinInv;
    DeliverEdge(s, r, data, seg);
    ReceiveKeepsWindow(r, seg);
    FlowReceiverMoves(s, r, Receive(r, seg), acks, seen);
  }

  lemma ReceiveKeepsWindow(r: Receiver, seg: Segment)
    requires r.reasm.Valid()
    ensures Receive(r, seg).reasm.Edge() == r.reasm.Edge()
    ensures Receive(r, seg).reasm.out.capacity == r.reasm.out.capacity
    ensures r.fin ==> Receive(r, seg).fin
  {
    hide Push, PayloadIndex;
    var isn := if seg.header.syn then seg.header.seqno else r.isn;
    PushValid(r.reasm, PieceOf(seg, isn, r.reasm.out.BytesWritten()));
  }

  lemma EndStays(s: Sender, r: Receiver, t: Receiver, data: seq<Segment>)
    requires SafeInv(s, t, data) && FinInv(s, r) && FinInv(s, t)
    requires r.fin ==> t.fin
    requires r.reasm.FirstUnassembled() <= t.reasm.FirstUnassembled()
    ensures r.reasm.out.ended ==> t.reasm.out.ended
  {
    hide Genuine, Agrees, FlightInv, OutInv, TimerInv, EofBacked;
    AgreesIsPrefix(t.reasm, Sent(s));
  }

  lemma FlowReceiverMoves(s: Sender, r: Receiver, t: Receiver, acks: seq<Segment>, seen: nat)
    requires FlowInv(s, r, acks, seen)
    requires t.reasm.out.Valid() && t.reasm.out.capacity == r.reasm.out.capacity
    requires r.reasm.Edge() <= t.reasm.Edge() && RightEdge(r) <= RightEdge(t)
    ensures FlowInv(s, t, acks, seen)
  {
  }

  lemma ReadFlow(s: Sender, r: Receiver, acks: seq<Segment>, seen: nat, n: nat)
    requires FlowInv(s, r, acks, seen) && n <= r.reasm.out.BufferSize()
    ensures RightEdge(r) <= RightEdge(ReadInbound(r, n))
    ensures FlowInv(s, ReadInbound(r, n), acks, seen)
  {
    FlowReceiverMoves(s, r, ReadInbound(r, n), acks, seen);
  }

  /** A stamped segment advertises exactly the receiver's position and right edge. */
  lemma StampAdvertises(r: Receiver, seg: Segment, rst: bool)
    requires r.reasm.out.Valid() && r.reasm.out.capacity <= 65535
    requires r.AckPosition() < TWO31 && !seg.header.ack
    ensures var b := Stamp(r, seg, rst);
            && b.header.ack == r.syn
            && (r.syn ==> AckOf(b, r.isn) == r.AckPosition() && EdgeOf(b, r.isn) == RightEdge(r))
  {
    hide Position;
    if r.syn {
      PositionOfWrap(r.AckPosition(), r.isn);
    }
  }

  /** Making new acknowledgments keeps them in order. */
  lemma EmitFlow(s: Sender, r: Receiver, acks: seq<Segment>, seen: nat, b: Segment)
    requires NoLossInv(s, r, acks) && FlowInv(s, r, acks, seen)
    requires b.header.ack ==> r.syn && AckOf(b, s.isn) == r.AckPosition() && EdgeOf(b, s.isn) == RightEdge(r)
    ensures NoLossInv(s, r, acks + [b]) && FlowInv(s, r, acks + [b], seen)
  {
    hide FinInv;
    var more := acks + [b];
    assert forall x :: x in more ==> x in acks || x == b;
    forall i | seen <= i < |more| && more[i].header.ack
      ensures Fresh(s, more[i])
    {
      assert i < |acks| ==> more[i] == acks[i];
    }
    forall i, j | 0 <= i < j < |more| && more[i].header.ack && more[j].header.ack
      ensures AckOf(more[i], s.isn) <= AckOf(more[j], s.isn) && EdgeOf(more[i], s.isn) <= EdgeOf(more[j], s.isn)
    {
      assert more[i] == acks[i] && acks[i] in acks;
    }
  }

  // ---------------------------------------------------------------- sender steps

  /** The sender moves on without touching its window. */
  lemma SenderStepFlow(s: Sender, t: Sender, r: Receiver, acks: seq<Segment>, seen: nat)
    requires FlowInv(s, r, acks, seen)
    requires t.isn == s.isn && t.checkpoint == s.checkpoint && t.rwnd == s.rwnd
    requires Outstanding(t) <= Window(t)
    requires t.fin ==> |t.stream.written| <= r.reasm.Edge()
    ensures FlowInv(t, r, acks, seen)
  {
  }

  lemma FillFlow(s: Sender, r: Receiver, data: seq<Segment>, acks: seq<Segment>, seen: nat)
    requires SafeInv(s, r, data) && NoLossInv(s, r, acks) && FlowInv(s, r, acks, seen)
    ensures FlowInv(FillWindow(s), r, acks, seen)
  {
    hide FillWindow, FlightInv, OutInv, TimerInv, Agrees, Genuine, InOrder, Fresh, AcksHonest, EofBacked;
    var t := FillWindow(s);
    SpaceBounds(s);
    FillStaysInWindow(s);
    FillWindowInv(s);
    if t.fin && !s.fin {
      SpaceBounds(t);
      FinFitsWindow(s, t, r, data, acks, seen);
    }
    SenderStepFlow(s, t, r, acks, seen);
  }

  /** A FIN that fits the sender's window lies inside the receiver's. */
  lemma FinFitsWindow(s: Sender, t: Sender, r: Receiver, data: seq<Segment>, acks: seq<Segment>, seen: nat)
    requires SafeInv(s, r, data) && NoLossInv(s, r, acks) && FlowInv(s, r, acks, seen) && !s.fin
    requires t.next == |s.stream.written| + 2 && t.next - s.checkpoint <= Window(s)
    ensures |s.stream.written| <= r.reasm.Edge()
  {
    hide FlightInv, OutInv, TimerInv, Agrees, Genuine, InOrder, Fresh, AcksHonest, EofBacked;
    RightEdgeExact(s, r, data);
    if s.rwnd == 0 && r.syn {
      AckIsExact(s, r, data);
    }
  }

  /** Taking a fresh acknowledgment: the window it brings covers everything outstanding. */
  lemma FreshWindowCovers(s: Sender, b: Segment)
    requires Fresh(s, b) && Outstanding(s) <= Window(s)
    ensures AckOf(b, s.isn) == s.checkpoint ==> Outstanding(s) <= Max(b.header.win, 1)
    ensures AckOf(b, s.isn) > s.checkpoint ==> s.next - AckOf(b, s.isn) <= Max(b.header.win, 1)
  {
  }

  /** The sender works with acknowledgment `k` now. */
  lemma FlowRebased(s: Sender, u: Sender, r: Receiver, acks: seq<Segment>, seen: nat, k: nat)
    requires FlowInv(s, r, acks, seen) && seen <= k < |acks| && acks[k].header.ack
    requires u.isn == s.isn && u.checkpoint == AckOf(acks[k], s.isn) && u.rwnd == acks[k].header.win
    requires Outstanding(u) <= Window(u)
    requires u.fin ==> |u.stream.written| <= r.reasm.Edge()
    ensures FlowInv(u, r, acks, k)
  {
    assert acks[k] in acks;
  }

  lemma AckFlow(s: Sender, r: Receiver, data: seq<Segment>, acks: seq<Segment>, seen: nat, k: nat)
    requires SafeInv(s, r, data) && NoLossInv(s, r, acks) && FlowInv(s, r, acks, seen)
    requires seen <= k < |acks| && acks[k].header.ack
    ensures var t := AckReceived(s, acks[k].header.ackno, acks[k].header.win);
            FlowInv(t, r, acks, k)
  {
    hide FillWindow, FlightInv, OutInv, TimerInv, Agrees, Genuine, Unwrap, AcksHonest, FinInv, InOrder, RightEdge;
    var b := acks[k];
    var a := AckOf(b, s.isn);
    AckDelivered(s, r, data, acks, b);
    assert Fresh(s, b);
    FreshWindowCovers(s, b);
    var v := s.(rwnd := b.header.win);
    if a == s.checkpoint {
      FlowRebased(s, v, r, acks, seen, k);
    } else {
      var u := Acknowledge(v, a);
      WindowInv(s, b.header.win);
      AcknowledgeInv(v, a);
      FlowRebased(s, u, r, acks, seen, k);
      SenderStepSafe(s, u, r, data) by { ExtendsTrans(s, v, u); }
      SenderStepNoLoss(s, u, r, acks) by { ExtendsTrans(s, v, u); AckDeliveredSyn(s, r, acks, b); }
      FillFlow(u, r, data, acks, k);
    }
  }
}
