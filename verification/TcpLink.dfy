/**
  A sender and a receiver joined by a network that keeps everything ever sent and may deliver any of it
  at any time, any number of times, in any order, or never.  The two sides are scheduled freely.
 */
module TcpLink {
  import opened Prelude
  import opened WrappingIntegers
  import opened ReassemblyOrder
  import opened Segments
  import opened TcpReceivers
  import opened TcpSending
  import SI = SenderInvariant
  import opened SenderProperties
  import opened TcpConnecting
  import opened TwoParty
  import opened FlowControl

  datatype Link = Link(s: Sender, r: Receiver, data: seq<Segment>, acks: seq<Segment>, seen: nat)

  datatype Event =
    | AtSender(e: SI.Event)      // the application, the timer, or `fill_window`
    | Transmit                   // what the sender queued goes onto the wire
    | Deliver(k: nat)            // any segment ever transmitted reaches the receiver
    | Read(n: nat)               // the application reads at the receiver
    | MakeAck                    // the receiver's side sends an acknowledgment
    | TakeAck(k: nat)            // any acknowledgment ever made reaches the sender

  predicate Enabled(l: Link, e: Event)
    requires l.s.stream.Valid() && l.r.reasm.out.Valid()
  {
    match e
    case AtSender(e) =>
      && !e.Ack? && !e.Drain? && SI.Enabled(l.s, e)
      && |SI.Step(l.s, e).stream.written| <= LIMIT
    case Deliver(k) => k < |l.data|
    case Read(n) => n <= l.r.reasm.out.BufferSize()
    case TakeAck(k) => k < |l.acks|
    case _ => true
  }

  function Step(l: Link, e: Event): Link
    requires l.s.stream.Valid() && l.r.reasm.out.Valid() && Enabled(l, e)
  {
    match e
    case AtSender(e) => l.(s := SI.Step(l.s, e))
    case Transmit => l.(data := l.data + l.s.out, s := l.s.(out := []))
    case Deliver(k) => l.(r := Receive(l.r, l.data[k]))
    case Read(n) => l.(r := ReadInbound(l.r, n))
    case MakeAck => l.(acks := l.acks + [Stamp(l.r, Segment(DEFAULT_HEADER, []), false)])
    case TakeAck(k) =>
      if l.acks[k].header.ack
      then l.(s := AckReceived(l.s, l.acks[k].header.ackno, l.acks[k].header.win), seen := k)
      else l
  }

  /** How much is assumed of the network. */
  datatype Discipline = Anything | FinGuarded | AcksInOrder

  predicate Permitted(d: Discipline, l: Link, e: Event)
    requires l.s.stream.Valid() && l.r.reasm.out.Valid() && Enabled(l, e)
  {
    match d
    case Anything => true
    case FinGuarded => e.Deliver? ==> FinGuard(l.r, l.data[e.k])
    case AcksInOrder =>
      && (e.Deliver? ==> NoOvertake(l.r, l.data[e.k]))
      && (e.TakeAck? && l.acks[e.k].header.ack ==> l.seen <= e.k)
  }

  ghost predicate Holds(d: Discipline, l: Link) {
    && SafeInv(l.s, l.r, l.data)
    && (d != Anything ==> NoLossInv(l.s, l.r, l.acks))
    && (d == AcksInOrder ==> FlowInv(l.s, l.r, l.acks, l.seen))
  }

  /** A new pair holds every invariant; flow control asks for a window that fits its 16-bit field. */
  function NewLink(sendCapacity: nat, recvCapacity: nat, rto: u16, isn: u32): (l: Link)
    ensures Holds(FinGuarded, l) && Holds(Anything, l)
    ensures recvCapacity <= 65535 ==> Holds(AcksInOrder, l)
  {
    var c := NewConn(sendCapacity, recvCapacity, rto, isn);
    SI.NewSenderInv(sendCapacity, rto, isn);
    Link(c.sender, c.receiver, [], [], 0)
  }

  lemma SenderEventHolds(d: Discipline, l: Link, e: SI.Event)
    requires Holds(d, l) && l.s.stream.Valid() && Enabled(l, AtSender(e))
    ensures Holds(d, l.(s := SI.Step(l.s, e)))
  {
    hide SI.SenderInv, SI.Extends, NoLossInv, FlowInv, FillWindow, Tick;
    var t := SI.Step(l.s, e);
    SI.StepInv(l.s, e);
    SenderEventKeeps(l.s, e);
    SenderStepSafe(l.s, t, l.r, l.data);
    if d != Anything {
      SenderStepNoLoss(l.s, t, l.r, l.acks) by { CheckpointBehind(l.s, l.r, l.acks); }
    }
    if d == AcksInOrder {
      if e.Fill? {
        FillFlow(l.s, l.r, l.data, l.acks, l.seen);
      } else {
        LocalEventFlow(l.s, e, l.r, l.acks, l.seen);
      }
    }
  }

  lemma CheckpointBehind(s: Sender, r: Receiver, acks: seq<Segment>)
    requires NoLossInv(s, r, acks)
    ensures s.checkpoint <= AckPos(r)
  {
  }

  lemma SenderEventKeeps(s: Sender, e: SI.Event)
    requires SI.SenderInv(s) && SI.Enabled(s, e) && !e.Ack?
    ensures SI.Step(s, e).checkpoint == s.checkpoint
    ensures s.syn ==> SI.Step(s, e).syn
  {
    hide Chunks;
  }

  lemma LocalEventFlow(s: Sender, e: SI.Event, r: Receiver, acks: seq<Segment>, seen: nat)
    requires SI.SenderInv(s) && FlowInv(s, r, acks, seen)
    requires SI.Enabled(s, e) && !e.Ack? && !e.Fill?
    ensures FlowInv(SI.Step(s, e), r, acks, seen)
  {
    SenderStepFlow(s, SI.Step(s, e), r, acks, seen);
  }

  lemma TransmitHolds(d: Discipline, l: Link)
    requires Holds(d, l)
    ensures Holds(d, l.(data := l.data + l.s.out, s := l.s.(out := [])))
  {
    hide SI.Extends, NoLossInv, FlowInv, SI.FlightInv, SI.TimerInv;
    var t := l.s.(out := []);
    WireGrowsSafe(l.s, l.r, l.data, l.s.out);
    SI.DrainInv(l.s);
    SenderStepSafe(l.s, t, l.r, l.data + l.s.out);
    if d != Anything {
      SenderStepNoLoss(l.s, t, l.r, l.acks) by { CheckpointBehind(l.s, l.r, l.acks); }
    }
    if d == AcksInOrder {
      FlowIgnoresQueue(l.s, t, l.r, l.acks, l.seen);
    }
  }

  lemma FlowIgnoresQueue(s: Sender, t: Sender, r: Receiver, acks: seq<Segment>, seen: nat)
    requires FlowInv(s, r, acks, seen) && t == s.(out := [])
    ensures FlowInv(t, r, acks, seen)
  {
    SenderStepFlow(s, t, r, acks, seen);
  }

  lemma DeliverHolds(d: Discipline, l: Link, k: nat)
    requires Holds(d, l) && l.s.stream.Valid() && k < |l.data| && Permitted(d, l, Deliver(k))
    ensures Holds(d, l.(r := Receive(l.r, l.data[k])))
  {
    hide SI.SenderInv, SI.Genuine, NoLossInv, FlowInv, Receive, FinGuard, NoOvertake, Agrees;
    var seg := l.data[k];
    assert seg in l.data;
    DeliverSafe(l.s, l.r, l.data, seg);
    if d == AcksInOrder {
      FlowGivesGuard(l.s, l.r, l.data, l.acks, l.seen, seg);
    }
    if d != Anything {
      DeliverNoLoss(l.s, l.r, l.data, l.acks, seg);
      assert FinInv(l.s, l.r) by { FinPart(l.s, l.r, l.acks); }
    }
    if d == AcksInOrder {
      DeliverFlow(l.s, l.r, l.data, l.acks, l.seen, seg);
    }
  }

  lemma FinPart(s: Sender, r: Receiver, acks: seq<Segment>)
    requires NoLossInv(s, r, acks)
    ensures FinInv(s, r)
  {
  }

  lemma MakeAckHolds(d: Discipline, l: Link)
    requires Holds(d, l)
    ensures Holds(d, l.(acks := l.acks + [Stamp(l.r, Segment(DEFAULT_HEADER, []), false)]))
  {
    hide SI.SenderInv, Agrees, InOrder, Fresh, Stamp;
    var seg := Segment(DEFAULT_HEADER, []);
    var b := Stamp(l.r, seg, false);
    if d != Anything {
      AckHonestly(l.s, l.r, l.data, l.acks, seg, false);
    }
    if d == AcksInOrder {
      AckPosSmall(l.s, l.r, l.data);
      StampAdvertises(l.r, seg, false);
      EmitFlow(l.s, l.r, l.acks, l.seen, b);
    }
  }

  lemma AckPosSmall(s: Sender, r: Receiver, data: seq<Segment>)
    requires SafeInv(s, r, data) && FinInv(s, r)
    ensures r.AckPosition() < TWO31
  {
    hide SI.FlightInv, SI.OutInv, SI.TimerInv, Agrees, SI.Genuine;
    if r.syn {
      AckIsExact(s, r, data);
      SpaceBounds(s);
    }
  }

  /** An acknowledgment just made is honest. */
  lemma AckHonestly(s: Sender, r: Receiver, data: seq<Segment>, acks: seq<Segment>, seg: Segment, rst: bool)
    requires SafeInv(s, r, data) && NoLossInv(s, r, acks) && !seg.header.ack
    ensures NoLossInv(s, r, acks + [Stamp(r, seg, rst)])
  {
    hide SI.SenderInv, Agrees, FinInv, Position, SI.Genuine;
    var b := Stamp(r, seg, rst);
    if r.syn {
      AckPosSmall(s, r, data);
      PositionOfWrap(r.AckPosition(), r.isn);
    }
    assert forall x :: x in acks + [b] ==> x in acks || x == b;
  }

  lemma TakeAckHolds(d: Discipline, l: Link, k: nat)
    requires Holds(d, l) && l.s.stream.Valid() && k < |l.acks| && Permitted(d, l, TakeAck(k))
    requires l.acks[k].header.ack
    ensures Holds(d, l.(s := AckReceived(l.s, l.acks[k].header.ackno, l.acks[k].header.win), seen := k))
  {
    hide SI.SenderInv, SI.Genuine, SI.Extends, NoLossInv, FlowInv, AckReceived, Agrees;
    var b := l.acks[k];
    assert b in l.acks;
    SI.AckReceivedInv(l.s, b.header.ackno, b.header.win);
    AckReceivedKeeps(l.s, b.header.ackno, b.header.win);
    SenderStepSafe(l.s, AckReceived(l.s, b.header.ackno, b.header.win), l.r, l.data);
    if d != Anything {
      AckNoLoss(l.s, l.r, l.data, l.acks, b);
    }
    if d == AcksInOrder {
      AckFlow(l.s, l.r, l.data, l.acks, l.seen, k);
    }
  }

  lemma ReadHolds(d: Discipline, l: Link, n: nat)
    requires Holds(d, l) && n <= l.r.reasm.out.BufferSize()
    ensures Holds(d, l.(r := ReadInbound(l.r, n)))
  {
    hide SI.SenderInv, SI.Genuine, NoLossInv, FlowInv, Agrees;
    ReadSafe(l.s, l.r, l.data, n);
    if d != Anything {
      ReadNoLoss(l.s, l.r, l.acks, n);
    }
    if d == AcksInOrder {
      ReadFlow(l.s, l.r, l.acks, l.seen, n);
    }
  }

  lemma StepHolds(d: Discipline, l: Link, e: Event)
    requires Holds(d, l) && l.s.stream.Valid() && Enabled(l, e) && Permitted(d, l, e)
    ensures Holds(d, Step(l, e)) && Step(l, e).s.stream.Valid() && Step(l, e).r.reasm.out.Valid()
  {
    hide Permitted, SafeInv, NoLossInv, FlowInv;
    StreamsValid(d, l);
    match e {
      case AtSender(e) => SenderEventHolds(d, l, e);
      case Transmit => TransmitHolds(d, l);
      case Deliver(k) => DeliverHolds(d, l, k);
      case Read(n) => ReadHolds(d, l, n);
      case MakeAck => MakeAckHolds(d, l);
      case TakeAck(k) =>
        if l.acks[k].header.ack {
          TakeAckHolds(d, l, k);
        }
    }
    StreamsValid(d, Step(l, e));
  }

  lemma StreamsValid(d: Discipline, l: Link)
    requires Holds(d, l)
    ensures l.s.stream.Valid() && l.r.reasm.out.Valid()
  {
  }

  ghost predicate IsRun(d: Discipline, l: Link, es: seq<Event>)
    requires Holds(d, l)
    decreases |es|
  {
    es == [] ||
    (StreamsValid(d, l);
     Enabled(l, es[0]) && Permitted(d, l, es[0]) && (StepHolds(d, l, es[0]); IsRun(d, Step(l, es[0]), es[1..])))
  }

  ghost function After(d: Discipline, l: Link, es: seq<Event>): Link
    requires Holds(d, l) && IsRun(d, l, es)
    decreases |es|
  {
    if es == [] then l else
      StreamsValid(d, l);
      StepHolds(d, l, es[0]);
      After(d, Step(l, es[0]), es[1..])
  }

  lemma {:induction false} RunHolds(d: Discipline, l: Link, es: seq<Event>)
    requires Holds(d, l) && IsRun(d, l, es)
    ensures Holds(d, After(d, l, es))
    decreases |es|
  {
    if es != [] {
      StreamsValid(d, l);
      StepHolds(d, l, es[0]);
      RunHolds(d, Step(l, es[0]), es[1..]);
    }
  }

  /** No step moves the acknowledgment or the right edge of the window back. */
  lemma StepNeverRecedes(d: Discipline, l: Link, e: Event)
    requires Holds(d, l) && d != Anything && l.s.stream.Valid() && Enabled(l, e) && Permitted(d, l, e)
    ensures Holds(d, Step(l, e)) && Step(l, e).r.reasm.out.Valid()
    ensures AckPos(l.r) <= AckPos(Step(l, e).r)
    ensures RightEdge(l.r) <= RightEdge(Step(l, e).r)
  {
    hide SI.SenderInv, SI.Genuine, NoLossInv, FlowInv, Receive, FinGuard, NoOvertake, Agrees, SI.Step, AckReceived;
    StepHolds(d, l, e);
    if e.Deliver? {
      var seg := l.data[e.k];
      assert seg in l.data;
      if d == AcksInOrder {
        FlowGivesGuard(l.s, l.r, l.data, l.acks, l.seen, seg);
      }
      DeliverNoLoss(l.s, l.r, l.data, l.acks, seg);
      FinPart(l.s, l.r, l.acks);
      DeliverEdge(l.s, l.r, l.data, seg);
    }
  }

  lemma {:induction false} AckAndEdgeNeverRecede(d: Discipline, l: Link, es: seq<Event>)
    requires Holds(d, l) && d != Anything && IsRun(d, l, es)
    ensures Holds(d, After(d, l, es))
    ensures AckPos(l.r) <= AckPos(After(d, l, es).r)
    ensures RightEdge(l.r) <= RightEdge(After(d, l, es).r)
    decreases |es|
  {
    if es != [] {
      StreamsValid(d, l);
      StepNeverRecedes(d, l, es[0]);
      AckAndEdgeNeverRecede(d, Step(l, es[0]), es[1..]);
    }
  }

  /**
    End-to-end safety: over any network whatever, the bytes delivered to the receiving application --
    read or waiting to be read -- are a prefix of the bytes written by the sending one.
   */
  lemma EndToEndSafety(sendCapacity: nat, recvCapacity: nat, rto: u16, isn: u32, es: seq<Event>)
    requires IsRun(Anything, NewLink(sendCapacity, recvCapacity, rto, isn), es)
    ensures var l := After(Anything, NewLink(sendCapacity, recvCapacity, rto, isn), es);
            l.r.reasm.out.written <= l.s.stream.written
  {
    var l0 := NewLink(sendCapacity, recvCapacity, rto, isn);
    RunHolds(Anything, l0, es);
    var l := After(Anything, l0, es);
    DeliveredIsPrefix(l.s, l.r, l.data);
  }

  /**
    No byte is lost on guarded runs, whatever happens to the acknowledgments: every byte written is
    assembled at the receiver, outstanding at the sender, or still in the sender's buffer; and the
    receiver's input has ended exactly when FIN was seen and everything before it is assembled.
   */
  lemma NothingLostOverRuns(sendCapacity: nat, recvCapacity: nat, rto: u16, isn: u32, es: seq<Event>, i: nat)
    requires IsRun(FinGuarded, NewLink(sendCapacity, recvCapacity, rto, isn), es)
    ensures var l := After(FinGuarded, NewLink(sendCapacity, recvCapacity, rto, isn), es);
            && (i < |l.s.stream.written| ==>
                  i < |l.r.reasm.out.written| || InFlightByte(l.s, i) || i >= l.s.stream.read)
            && (l.r.reasm.out.ended <==> l.r.fin && l.r.reasm.out.written == l.s.stream.written)
            && (l.r.syn ==> l.r.AckPosition() == 1 + |l.r.reasm.out.written| + if l.r.reasm.out.ended then 1 else 0)
  {
    hide SI.SenderInv, AcksHonest, Agrees, After, IsRun;
    var l0 := NewLink(sendCapacity, recvCapacity, rto, isn);
    RunHolds(FinGuarded, l0, es);
    var l := After(FinGuarded, l0, es);
    if i < |l.s.stream.written| {
      NoByteLost(l.s, l.r, l.data, l.acks, i);
    }
    DeliveredIsPrefix(l.s, l.r, l.data);
    if l.r.syn {
      AckIsExact(l.s, l.r, l.data);
    }
  }

  /**
    Flow control over runs with acknowledgments taken in order and no bare FIN overtaking data: never
    more outstanding than the window, so the subtraction in `fill_window` is exact in every state, and
    nothing is sent beyond the receiver's right edge but a one-number probe.
   */
  lemma WindowNeverOverrun(sendCapacity: nat, recvCapacity: nat, rto: u16, isn: u32, es: seq<Event>)
    requires recvCapacity <= 65535
    requires IsRun(AcksInOrder, NewLink(sendCapacity, recvCapacity, rto, isn), es)
    ensures var l := After(AcksInOrder, NewLink(sendCapacity, recvCapacity, rto, isn), es);
            && Outstanding(l.s) <= Window(l.s)
            && Usable(l.s) == Window(l.s) - Outstanding(l.s)
            && l.r.reasm.out.Valid() && l.s.next <= Max(RightEdge(l.r), l.s.checkpoint + 1)
            && (l.s.fin ==> |l.s.stream.written| <= l.r.reasm.Edge())
  {
    hide SI.FlightInv, SI.OutInv, SI.TimerInv, Agrees, After, IsRun, InOrder, Usable;
    var l0 := NewLink(sendCapacity, recvCapacity, rto, isn);
    RunHolds(AcksInOrder, l0, es);
    var l := After(AcksInOrder, l0, es);
    SpaceBounds(l.s);
    UsableExact(l.s);
  }
}
