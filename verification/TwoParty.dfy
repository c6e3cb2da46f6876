/**
  Invariants that tie a sender to the receiver at the other end of a network which may drop, duplicate
  and reorder anything ever sent.  One direction of data at a time; `data` is everything the sender's
  side has put on the wire, `acks` everything the receiver's side has.
 */
module TwoParty {
  import opened Prelude
  import opened WrappingIntegers
  import opened ByteStreams
  import opened Reassembly
  import opened ReassemblyOrder
  import opened Segments
  import opened TcpReceivers
  import opened TcpSending
  import opened SenderInvariant

  /** Longest stream for which every sequence number, SYN and FIN included, stays below 2^31. */
  const LIMIT: nat := 0x7fff_fffd

  /** The bytes the sender has taken from its stream so far. */
  function Sent(s: Sender): seq<byte>
    requires s.stream.read <= |s.stream.written|
  {
    s.stream.written[..s.stream.read]
  }

  // ---------------------------------------------------------------- safety: only sent bytes arrive

  /** Everything the receiver knows was sent, at the index it was sent from. */
  ghost predicate SafeInv(s: Sender, r: Receiver, data: seq<Segment>) {
    && SenderInv(s) && r.reasm.Valid()
    && |s.stream.written| <= LIMIT
    && (forall seg :: seg in data ==> Genuine(s, seg))
    && (r.syn ==> s.syn && r.isn == s.isn)
    && (!r.syn ==> r.reasm.out.written == [] && r.reasm.pending == map[] && !r.fin && !r.reasm.eof && !r.reasm.out.ended)
    && Agrees(r.reasm, Sent(s))
  }

  lemma SpaceBounds(s: Sender)
    requires SenderInv(s) && |s.stream.written| <= LIMIT
    ensures s.stream.Valid() && s.stream.read <= |s.stream.written| < TWO31
    ensures s.checkpoint <= s.next < TWO31
    ensures s.fin ==> s.next == |s.stream.written| + 2
    ensures !s.fin && s.syn ==> s.next == s.stream.read + 1
  {
  }

  /** The index at which the receiver files a genuine segment is the one it was cut from. */
  lemma FiledAtItsIndex(s: Sender, seg: Segment, at: nat, assembled: nat)
    requires Carries(s, at, seg) && s.next < TWO31 && assembled < TWO31
    ensures seg.header.syn ==> PayloadIndex(seg, seg.header.seqno, assembled) == 0 && seg.header.seqno == s.isn
    ensures !seg.header.syn && at >= 1 ==> PayloadIndex(seg, s.isn, assembled) == at - 1
  {
    hide Unwrap;
    if seg.header.syn {
      WrapIsSum(0, s.isn);
      assert Wrap(0, s.isn) == s.isn;
      UnwrapSmall(0, s.isn, assembled);
    } else {
      UnwrapSmall(at, s.isn, assembled);
    }
  }

  /** Delivered as a piece, a genuine segment that occupies sequence space is a cut of the sent bytes. */
  lemma GenuineIsCut(s: Sender, seg: Segment, at: nat, assembled: nat)
    requires SenderInv(s) && |s.stream.written| <= LIMIT
    requires Carries(s, at, seg) && assembled < TWO31 && (seg.payload != [] || seg.header.fin)
    ensures var p := PieceOf(seg, s.isn, assembled);
            && p.index == at - 1 && p.data == seg.payload && p.eof == seg.header.fin
            && CutFrom(p, Sent(s))
            && (p.eof ==> s.fin && Sent(s) == s.stream.written)
  {
    hide Unwrap, FlightInv, OutInv, TimerInv, PayloadIndex;
    SpaceBounds(s);
    FiledAtItsIndex(s, seg, at, assembled);
    assert seg.payload == Sent(s)[at - 1..at - 1 + |seg.payload|] by {
      SliceOfSlice(s.stream.written, 0, s.stream.read, at - 1, |seg.payload|);
    }
  }

  lemma EmptyPushKeeps(r: Reasm, p: Piece, stream: seq<byte>)
    requires r.Valid() && p.data == [] && !p.eof && Agrees(r, stream)
    ensures Push(r, p).Valid() && Agrees(Push(r, p), stream)
    ensures Push(r, p).eof == r.eof
    ensures Push(r, p).out == if r.eof && r.pending == map[] then r.out.EndInput() else r.out
    ensures Push(r, p).pending == r.pending
  {
    PushValid(r, p);
    EmptyPushAssemblesNothing(r, p);
    PushEofFlag(r, p);
    KnowsSame(r, Push(r, p), stream);
  }

  lemma KnowsSame(r: Reasm, t: Reasm, stream: seq<byte>)
    requires Agrees(r, stream) && t.out.written == r.out.written && t.pending == r.pending
    ensures Agrees(t, stream)
  {
    forall i: nat | Knows(t, i)
      ensures i < |stream| && At(t, i) == stream[i]
    {
      assert Knows(r, i);
    }
  }

  /** Delivering any genuine segment, any number of times and in any order, keeps the receiver honest. */
  lemma DeliverSafe(s: Sender, r: Receiver, data: seq<Segment>, seg: Segment)
    requires SafeInv(s, r, data) && Genuine(s, seg)
    ensures SafeInv(s, Receive(r, seg), data)
  {
    hide Push, PayloadIndex, FlightInv, OutInv, TimerInv, Carries, Genuine;
    var at: nat := GenuineAt(s, seg);
    AgreesIsPrefix(r.reasm, Sent(s));
    SpaceBounds(s);
    if r.syn || seg.header.syn {
      SynGenuine(s, seg, at, r.reasm.out.BytesWritten());
      var p := PieceOf(seg, s.isn, r.reasm.out.BytesWritten());
      if seg.payload != [] || seg.header.fin {
        GenuineIsCut(s, seg, at, r.reasm.out.BytesWritten());
        PushAgrees(r.reasm, p, Sent(s));
      } else {
        EmptyPushKeeps(r.reasm, p, Sent(s));
      }
    }
  }

  ghost function GenuineAt(s: Sender, seg: Segment): (at: nat)
    requires Genuine(s, seg)
    ensures Carries(s, at, seg)
  {
    var at: nat :| Carries(s, at, seg); at
  }

  lemma SynGenuine(s: Sender, seg: Segment, at: nat, assembled: nat)
    requires SenderInv(s) && |s.stream.written| <= LIMIT && Carries(s, at, seg) && assembled < TWO31
    ensures seg.header.syn ==> s.syn && seg.header.seqno == s.isn && seg.payload == [] && !seg.header.fin
  {
    SpaceBounds(s);
    FiledAtItsIndex(s, seg, at, assembled);
  }

  /** The sender may move on in any way; the receiver stays honest. */
  lemma SenderStepSafe(s: Sender, t: Sender, r: Receiver, data: seq<Segment>)
    requires SafeInv(s, r, data) && SenderInv(t) && Extends(s, t) && |t.stream.written| <= LIMIT
    requires s.syn ==> t.syn
    ensures SafeInv(t, r, data)
  {
    hide Carries, FlightInv, OutInv, TimerInv, Genuine;
    forall seg | seg in data
      ensures Genuine(t, seg)
    {
      GenuineLater(s, t, seg);
    }
    assert Sent(s) <= Sent(t);
    AgreesLonger(r.reasm, Sent(s), Sent(t));
  }

  lemma AgreesLonger(r: Reasm, a: seq<byte>, b: seq<byte>)
    requires Agrees(r, a) && a <= b
    ensures Agrees(r, b)
  {
  }

  lemma WireGrowsSafe(s: Sender, r: Receiver, data: seq<Segment>, more: seq<Segment>)
    requires SafeInv(s, r, data) && forall seg :: seg in more ==> Genuine(s, seg)
    ensures SafeInv(s, r, data + more)
  {
    hide Genuine, SenderInv;
  }

  lemma ReadSafe(s: Sender, r: Receiver, data: seq<Segment>, n: nat)
    requires SafeInv(s, r, data) && n <= r.reasm.out.BufferSize()
    ensures SafeInv(s, ReadInbound(r, n), data)
  {
    hide Genuine, FlightInv, OutInv, TimerInv;
    KnowsSame(r.reasm, ReadInbound(r, n).reasm, Sent(s));
  }

  /** The headline: what was delivered -- read and still buffered -- is a prefix of what was written. */
  lemma DeliveredIsPrefix(s: Sender, r: Receiver, data: seq<Segment>)
    requires SafeInv(s, r, data)
    ensures r.reasm.out.written <= s.stream.written
  {
    AgreesIsPrefix(r.reasm, Sent(s));
  }

  // ---------------------------------------------------------------- no byte is lost, under the FIN guard

  datatype ReceiverPhase = InError | Listening | SynReceived | FinReceived

  /** `state_summary(receiver)`. */
  function ReceiverSummary(r: Receiver): ReceiverPhase {
    if r.reasm.out.error then InError
    else if r.Ackno() == None then Listening
    else if r.reasm.out.ended then FinReceived
    else SynReceived
  }

  /**
    Guard on the delivery of a FIN: it ends inside the receiver's window, and it either brings payload
    or the byte before it has arrived.  Both can be checked before the delivery.
   */
  predicate FinGuard(r: Receiver, seg: Segment) {
    seg.header.fin && (r.syn || seg.header.syn) ==>
      var p := PieceOf(seg, r.isn, r.reasm.out.BytesWritten());
      EndsInside(r.reasm, p) && EofSafe(r.reasm, p)
  }

  /** What the receiver has acknowledged so far. */
  function AckPos(r: Receiver): nat {
    if r.syn then r.AckPosition() else 0
  }

  function AckOf(seg: Segment, isn: u32): nat {
    Position(seg.header.ackno, isn)
  }

  /** No acknowledgment on the wire claims more than the receiver has. */
  ghost predicate AcksHonest(s: Sender, r: Receiver, acks: seq<Segment>) {
    forall b :: b in acks && b.header.ack ==> r.syn && 1 <= AckOf(b, s.isn) <= r.AckPosition()
  }

  /** FIN has been seen exactly when it is recorded, is backed by the last byte, and ends the stream exactly. */
  ghost predicate FinInv(s: Sender, r: Receiver) {
    && (r.fin <==> r.reasm.eof)
    && (r.fin ==> s.fin && EofBacked(r.reasm, s.stream.written))
    && (r.reasm.out.ended <==> r.fin && r.reasm.FirstUnassembled() == |s.stream.written|)
  }

  ghost predicate NoLossInv(s: Sender, r: Receiver, acks: seq<Segment>) {
    FinInv(s, r) && s.checkpoint <= AckPos(r) && AcksHonest(s, r, acks)
  }

  /** The acknowledgment is exact: SYN, the assembled bytes, and FIN only once everything is assembled. */
  lemma AckIsExact(s: Sender, r: Receiver, data: seq<Segment>)
    requires SafeInv(s, r, data) && FinInv(s, r) && r.syn
    ensures r.AckPosition() == 1 + r.reasm.FirstUnassembled() + (if r.reasm.out.ended then 1 else 0)
    ensures r.AckPosition() <= s.next
    ensures r.reasm.FirstUnassembled() <= s.stream.read
  {
    hide Genuine, Carries, FlightInv, OutInv, TimerInv;
    AgreesIsPrefix(r.reasm, Sent(s));
    SpaceBounds(s);
    if r.fin && r.reasm.FirstUnassembled() == |s.stream.written| {
      NothingPendingBeyond(r.reasm, Sent(s));
    }
  }

  /** The receiver reports the end exactly when FIN has come and every byte the peer wrote is assembled. */
  lemma ReceiverSummaryExact(s: Sender, r: Receiver, data: seq<Segment>)
    requires SafeInv(s, r, data) && FinInv(s, r) && !r.reasm.out.error
    ensures ReceiverSummary(r) == FinReceived <==> r.fin && r.reasm.out.written == s.stream.written
    ensures ReceiverSummary(r) == Listening <==> !r.syn
  {
    hide Genuine, Carries, FlightInv, OutInv, TimerInv, EofBacked;
    AgreesIsPrefix(r.reasm, Sent(s));
  }

  lemma FinSeqOfFin(s: Sender)
    requires SenderInv(s) && s.fin
    ensures s.stream.read == |s.stream.written| && Sent(s) == s.stream.written
  {
  }

  /** Delivering a guarded segment keeps the end of stream exact. */
  lemma DeliverFin(s: Sender, r: Receiver, data: seq<Segment>, seg: Segment)
    requires SafeInv(s, r, data) && FinInv(s, r) && Genuine(s, seg) && FinGuard(r, seg)
    ensures FinInv(s, Receive(r, seg))
    ensures r.reasm.FirstUnassembled() <= Receive(r, seg).reasm.FirstUnassembled()
  {
    hide Push, PayloadIndex, FlightInv, OutInv, TimerInv, Carries, Genuine, EofBacked, Agrees;
    var at: nat := GenuineAt(s, seg);
    SpaceBounds(s);
    AgreesIsPrefix(r.reasm, Sent(s));
    if r.syn || seg.header.syn {
      SynGenuine(s, seg, at, r.reasm.out.BytesWritten());
      var p := PieceOf(seg, s.isn, r.reasm.out.BytesWritten());
      PushValid(r.reasm, p);
      if seg.payload != [] || seg.header.fin {
        GenuineIsCut(s, seg, at, r.reasm.out.BytesWritten());
        DeliverCut(s, r, p);
      } else {
        EmptyPushKeeps(r.reasm, p, Sent(s));
        EmptyPushFin(s, r, p);
      }
    }
  }

  lemma DeliverCut(s: Sender, r: Receiver, p: Piece)
    requires SenderInv(s) && r.reasm.Valid() && Agrees(r.reasm, Sent(s)) && FinInv(s, r) && CutFrom(p, Sent(s))
    requires p.eof ==> s.fin && EndsInside(r.reasm, p) && EofSafe(r.reasm, p)
    ensures var t := Push(r.reasm, p);
            && (t.eof <==> r.fin || p.eof)
            && (t.eof ==> s.fin && EofBacked(t, s.stream.written))
            && (t.out.ended <==> t.eof && t.FirstUnassembled() == |s.stream.written|)
  {
    hide Push, FlightInv, OutInv, TimerInv, Agrees, EofBacked;
    PushEofFlag(r.reasm, p);
    if s.fin {
      FinSeqOfFin(s);
      BackedWithoutEof(r.reasm, s.stream.written);
      SafePushEndsExactly(r.reasm, p, s.stream.written);
    }
  }

  /**
    The guard is exact: delivering a segment keeps the receiver's end of stream truthful if and only if
    the guard holds.
   */
  lemma FinGuardIsExact(s: Sender, r: Receiver, data: seq<Segment>, seg: Segment)
    requires SafeInv(s, r, data) && FinInv(s, r) && Genuine(s, seg)
    ensures FinInv(s, Receive(r, seg)) <==> FinGuard(r, seg)
  {
    hide Push, PayloadIndex, FlightInv, OutInv, TimerInv, Carries, Genuine, EofBacked, Agrees, EofSafe;
    if FinGuard(r, seg) {
      DeliverFin(s, r, data, seg);
    } else {
      var at: nat := GenuineAt(s, seg);
      SpaceBounds(s);
      AgreesIsPrefix(r.reasm, Sent(s));
      SynGenuine(s, seg, at, r.reasm.out.BytesWritten());
      GenuineIsCut(s, seg, at, r.reasm.out.BytesWritten());
      var p := PieceOf(seg, s.isn, r.reasm.out.BytesWritten());
      PushEofFlag(r.reasm, p);
      BackedWithoutEof(r.reasm, s.stream.written);
      BackedEndsInside(r.reasm, p, s.stream.written);
      EofSafeIsExact(r.reasm, p, s.stream.written);
    }
  }

  /** The acknowledgment number covers a byte that has not been assembled. */
  predicate OverAcks(s: Sender, r: Receiver) {
    r.AckPosition() == r.reasm.FirstUnassembled() + 2 && r.reasm.FirstUnassembled() < |s.stream.written|
  }

  /**
    What an unguarded FIN does: the receiver takes the FIN for received although bytes are missing, and
    it acknowledges the first missing byte exactly if nothing is pending then.
   */
  lemma UnguardedFinOverAcks(s: Sender, r: Receiver, data: seq<Segment>, seg: Segment)
    requires SafeInv(s, r, data) && Genuine(s, seg) && !FinGuard(r, seg)
    ensures var t := Receive(r, seg);
            && t.fin && t.reasm.FirstUnassembled() < |s.stream.written|
            && (OverAcks(s, t) <==> t.reasm.pending == map[])
  {
    hide Push, PayloadIndex, FlightInv, OutInv, TimerInv, Carries, Genuine;
    var at: nat := GenuineAt(s, seg);
    SpaceBounds(s);
    AgreesIsPrefix(r.reasm, Sent(s));
    SynGenuine(s, seg, at, r.reasm.out.BytesWritten());
    GenuineIsCut(s, seg, at, r.reasm.out.BytesWritten());
    var p := PieceOf(seg, s.isn, r.reasm.out.BytesWritten());
    PushValid(r.reasm, p);
    if EndsInside(r.reasm, p) {
      EmptyPushAssemblesNothing(r.reasm, p);
    }
  }

  /** Index `i` is known, or the segment brings it. */
  predicate Has(r: Receiver, p: Piece, i: nat) {
    Knows(r.reasm, i) || Offers(r.reasm, p, i)
  }

  /** What is known and what the segment brings leaves no gap below anything that is there. */
  ghost predicate NoGap(r: Receiver, p: Piece) {
    forall i: nat, j: nat :: i <= j && Has(r, p, j) ==> Has(r, p, i)
  }

  ghost predicate SomethingMissing(s: Sender, r: Receiver, p: Piece) {
    exists i: nat :: i < |s.stream.written| && !Has(r, p, i)
  }

  lemma PendingIsGap(r: Receiver, p: Piece)
    requires r.reasm.Valid()
    ensures Push(r.reasm, p).pending == map[] <==> NoGap(r, p)
  {
    hide Push;
    var t := Push(r.reasm, p);
    PushValid(r.reasm, p);
    forall i: nat
      ensures Knows(t, i) <==> Has(r, p, i)
    {
      PushKnows(r.reasm, p, i);
    }
    var fu := t.FirstUnassembled();
    assert !Has(r, p, fu);
    if t.pending != map[] {
      var j :| j in t.pending;
      assert Knows(t, j) && Has(r, p, j) && fu <= j;
    }
  }

  lemma MissingIsUnassembled(s: Sender, r: Receiver, p: Piece)
    requires r.reasm.Valid()
    ensures NoGap(r, p) ==>
              (SomethingMissing(s, r, p) <==> Push(r.reasm, p).FirstUnassembled() < |s.stream.written|)
  {
    hide Push;
    var t := Push(r.reasm, p);
    PushValid(r.reasm, p);
    forall i: nat
      ensures Knows(t, i) <==> Has(r, p, i)
    {
      PushKnows(r.reasm, p, i);
    }
    var fu := t.FirstUnassembled();
    assert !Has(r, p, fu);
    assert fu < |s.stream.written| ==> SomethingMissing(s, r, p);
  }

  /**
    When a delivery leaves a missing byte acknowledged, for every receiver and every segment: the
    connection is open, FIN has been seen or comes with it, nothing is left pending above a gap, and some byte
    written is neither known nor brought. All of it can be checked before the delivery.
   */
  lemma OverAcksExactly(s: Sender, r: Receiver, seg: Segment)
    requires r.reasm.Valid() && (r.fin ==> r.syn)
    ensures var p := PieceOf(seg, if seg.header.syn then seg.header.seqno else r.isn, r.reasm.out.BytesWritten());
            OverAcks(s, Receive(r, seg)) <==>
              && (r.syn || seg.header.syn)
              && (r.fin || seg.header.fin)
              && NoGap(r, p)
              && SomethingMissing(s, r, p)
  {
    hide Push, PieceOf, NoGap, SomethingMissing;
    if r.syn || seg.header.syn {
      var p := PieceOf(seg, if seg.header.syn then seg.header.seqno else r.isn, r.reasm.out.BytesWritten());
      PendingIsGap(r, p);
      MissingIsUnassembled(s, r, p);
    }
  }

  /** A guarded delivery never makes a truthful receiver acknowledge too much. */
  lemma GuardKeepsAcksHonest(s: Sender, r: Receiver, data: seq<Segment>, seg: Segment)
    requires SafeInv(s, r, data) && FinInv(s, r) && Genuine(s, seg) && FinGuard(r, seg)
    ensures !OverAcks(s, Receive(r, seg))
  {
    hide SenderInv, Genuine, FinGuard, Agrees, Receive, EofBacked;
    var t := Receive(r, seg);
    DeliverSafe(s, r, data, seg);
    DeliverFin(s, r, data, seg);
    if t.syn {
      AckIsExact(s, t, data);
    }
  }

  /**
    A receiver misled earlier is not saved by the guard: with FIN taken for received, byte 1 pending and
    three bytes written, the ordinary segment that brings byte 0 makes it acknowledge byte 2.
   */
  lemma MisledReceiverOverAcks(s: Sender, r: Receiver, seg: Segment, a: byte, b: byte)
    requires |s.stream.written| == 3
    requires r == Receiver(Reasm(Stream(10, [], 0, false, false), true, map[1 := b]), 0, true, true)
    requires seg == Segment(DEFAULT_HEADER.(seqno := 1), [a])
    ensures r.reasm.Valid() && FinGuard(r, seg) && !OverAcks(s, r) && OverAcks(s, Receive(r, seg))
  {
    hide Push, Unwrap;
    assert Wrap(1, 0) == 1;
    UnwrapSmall(1, 0, 0);
    var p := PieceOf(seg, 0, 0);
    assert p == Piece([a], 0, false);
    OverAcksExactly(s, r, seg);
    assert 1 in r.reasm.pending;
    assert !Has(r, p, 2);
  }

  lemma BackedEndsInside(r: Reasm, p: Piece, stream: seq<byte>)
    requires r.Valid() && EofBacked(r, stream) && CutFrom(p, stream) && p.eof
    ensures r.eof ==> EndsInside(r, p)
  {
  }

  lemma BackedWithoutEof(r: Reasm, stream: seq<byte>)
    ensures !r.eof ==> EofBacked(r, stream)
  {
  }

  lemma EmptyPushFin(s: Sender, r: Receiver, p: Piece)
    requires SenderInv(s) && r.reasm.Valid() && Agrees(r.reasm, Sent(s)) && FinInv(s, r)
    requires p.data == [] && !p.eof
    ensures var t := Push(r.reasm, p);
            && t.eof == r.fin
            && (t.eof ==> EofBacked(t, s.stream.written))
            && (t.out.ended <==> t.eof && t.FirstUnassembled() == |s.stream.written|)
  {
    hide Push, FlightInv, OutInv, TimerInv, Agrees;
    EmptyPushKeeps(r.reasm, p, Sent(s));
    AgreesIsPrefix(r.reasm, Sent(s));
  }

  lemma DeliverNoLoss(s: Sender, r: Receiver, data: seq<Segment>, acks: seq<Segment>, seg: Segment)
    requires SafeInv(s, r, data) && NoLossInv(s, r, acks) && Genuine(s, seg) && FinGuard(r, seg)
    ensures NoLossInv(s, Receive(r, seg), acks)
    ensures AckPos(r) <= AckPos(Receive(r, seg))
  {
    hide Genuine, Carries, SenderInv, Push, FinInv, Agrees;
    var t := Receive(r, seg);
    DeliverSafe(s, r, data, seg);
    DeliverFin(s, r, data, seg);
    AckGrows(s, r, t, data);
    AcksStayHonest(s, r, t, acks);
  }

  lemma AckGrows(s: Sender, r: Receiver, t: Receiver, data: seq<Segment>)
    requires SafeInv(s, r, data) && SafeInv(s, t, data) && FinInv(s, r) && FinInv(s, t)
    requires r.syn ==> t.syn
    requires r.fin ==> t.fin
    requires r.reasm.FirstUnassembled() <= t.reasm.FirstUnassembled()
    ensures AckPos(r) <= AckPos(t)
  {
    hide Genuine, Carries, SenderInv, Agrees, EofBacked;
    if r.syn {
      AckIsExact(s, r, data);
      AckIsExact(s, t, data);
    }
  }

  lemma AcksStayHonest(s: Sender, r: Receiver, t: Receiver, acks: seq<Segment>)
    requires AcksHonest(s, r, acks) && (r.syn ==> t.syn) && AckPos(r) <= AckPos(t)
    ensures AcksHonest(s, t, acks)
  {
  }

  lemma ReadNoLoss(s: Sender, r: Receiver, acks: seq<Segment>, n: nat)
    requires NoLossInv(s, r, acks) && r.reasm.out.Valid() && n <= r.reasm.out.BufferSize()
    ensures NoLossInv(s, ReadInbound(r, n), acks)
  {
    var t := ReadInbound(r, n);
    assert EofBacked(r.reasm, s.stream.written) ==> EofBacked(t.reasm, s.stream.written);
  }

  /** The sender moves on without taking an acknowledgment. */
  lemma SenderStepNoLoss(s: Sender, t: Sender, r: Receiver, acks: seq<Segment>)
    requires NoLossInv(s, r, acks) && Extends(s, t) && t.checkpoint <= AckPos(r)
    ensures NoLossInv(t, r, acks)
  {
  }

  /** An acknowledgment on the wire unwraps to the position it was made from. */
  lemma UnwrapPosition(n: u32, isn: u32, checkpoint: nat)
    requires Position(n, isn) < TWO31 && checkpoint < TWO31
    ensures Unwrap(n, isn, checkpoint) == Position(n, isn)
  {
    hide Unwrap, Position, Wrap;
    WrapOfPosition(n, isn);
    UnwrapSmall(Position(n, isn), isn, checkpoint);
  }

  lemma AckDelivered(s: Sender, r: Receiver, data: seq<Segment>, acks: seq<Segment>, b: Segment)
    requires SafeInv(s, r, data) && NoLossInv(s, r, acks) && b in acks && b.header.ack
    ensures Unwrap(b.header.ackno, s.isn, s.checkpoint) == AckOf(b, s.isn)
    ensures 1 <= AckOf(b, s.isn) <= r.AckPosition() <= s.next
  {
    hide Genuine, Carries, FlightInv, OutInv, TimerInv, Agrees, Unwrap, Position;
    AckIsExact(s, r, data);
    SpaceBounds(s);
    UnwrapPosition(b.header.ackno, s.isn, s.checkpoint);
  }

  lemma AckReceivedKeeps(s: Sender, ackno: u32, win: u16)
    requires SenderInv(s)
    ensures var t := AckReceived(s, ackno, win);
            && t.stream.written == s.stream.written
            && (t.checkpoint == s.checkpoint || t.checkpoint == Unwrap(ackno, s.isn, s.checkpoint))
            && (s.syn ==> t.syn)
  {
    hide Unwrap, Chunks;
  }

  /** Taking any acknowledgment on the wire, in any order, never moves the checkpoint past what is assembled. */
  lemma AckNoLoss(s: Sender, r: Receiver, data: seq<Segment>, acks: seq<Segment>, b: Segment)
    requires SafeInv(s, r, data) && NoLossInv(s, r, acks) && b in acks && b.header.ack
    ensures var t := AckReceived(s, b.header.ackno, b.header.win);
            SafeInv(t, r, data) && NoLossInv(t, r, acks)
  {
    hide Genuine, Carries, FlightInv, OutInv, TimerInv, Agrees, Unwrap, AckReceived, FinInv, AcksHonest;
    var t := AckReceived(s, b.header.ackno, b.header.win);
    AckReceivedInv(s, b.header.ackno, b.header.win);
    AckReceivedKeeps(s, b.header.ackno, b.header.win);
    AckDelivered(s, r, data, acks, b) by { assert NoLossInv(s, r, acks); }
    assert r.syn by { AckDeliveredSyn(s, r, acks, b); }
    SenderStepSafe(s, t, r, data);
    SenderStepNoLoss(s, t, r, acks);
  }

  lemma AckDeliveredSyn(s: Sender, r: Receiver, acks: seq<Segment>, b: Segment)
    requires AcksHonest(s, r, acks) && b in acks && b.header.ack
    ensures r.syn
  {
  }

  lemma {:induction false} TileCovers(fs: seq<InFlight>, lo: nat, hi: nat, x: nat)
    requires Tiles(fs, lo, hi) && lo <= x < hi
    ensures exists f :: f in fs && f.abs <= x < f.End()
    decreases |fs|
  {
    if x < fs[0].End() {
      assert fs[0] in fs;
    } else {
      TileCovers(fs[1..], fs[0].End(), hi, x);
      var f :| f in fs[1..] && f.abs <= x < f.End();
      assert f in fs;
    }
  }

  /** Some outstanding segment carries byte `i` of the stream. */
  ghost predicate InFlightByte(s: Sender, i: nat) {
    exists f :: f in s.flight && f.abs >= 1 && f.abs - 1 <= i < f.abs - 1 + |f.seg.payload|
  }

  /** No byte is lost: each one is assembled at the receiver, or outstanding, or still in the sender's buffer. */
  lemma NoByteLost(s: Sender, r: Receiver, data: seq<Segment>, acks: seq<Segment>, i: nat)
    requires SafeInv(s, r, data) && NoLossInv(s, r, acks) && i < |s.stream.written|
    ensures i < |r.reasm.out.written| || InFlightByte(s, i) || i >= s.stream.read
  {
    hide Genuine, OutInv, TimerInv, Agrees, FinInv, AcksHonest;
    if |r.reasm.out.written| <= i < s.stream.read {
      SpaceBounds(s);
      if r.syn {
        AckIsExact(s, r, data);
        EndedIsComplete(s, r);
      }
      TileCovers(s.flight, Lowest(s), s.next, i + 1);
      var f :| f in s.flight && f.abs <= i + 1 < f.End();
      assert Carries(s, f.abs, f.seg);
    }
  }

  lemma EndedIsComplete(s: Sender, r: Receiver)
    requires FinInv(s, r)
    ensures r.reasm.out.ended ==> |r.reasm.out.written| == |s.stream.written|
  {
  }

  /** A segment leaves the sender's memory only after its payload is assembled at the receiver. */
  lemma ForgottenIsAssembled(s: Sender, r: Receiver, data: seq<Segment>, acks: seq<Segment>, b: Segment, f: InFlight)
    requires SafeInv(s, r, data) && NoLossInv(s, r, acks) && b in acks && b.header.ack && f in s.flight
    ensures f !in AckReceived(s, b.header.ackno, b.header.win).flight ==>
              && f.abs + |f.seg.payload| <= 1 + |r.reasm.out.written|
              && (f.seg.header.fin ==> r.reasm.out.ended)
  {
    hide Genuine, OutInv, TimerInv, Agrees, FinInv, AcksHonest, Unwrap, AckReceived;
    if f !in AckReceived(s, b.header.ackno, b.header.win).flight {
      AckDelivered(s, r, data, acks, b);
      AckIsExact(s, r, data) by { AckDeliveredSyn(s, r, acks, b); }
      DroppedIsAcked(s, b.header.ackno, b.header.win, f);
      assert Carries(s, f.abs, f.seg);
      var i :| 0 <= i < |s.flight| && s.flight[i] == f;
      TilesWithin(s.flight, Lowest(s), s.next, i);
      SpaceBounds(s);
      EndedIsComplete(s, r);
      AgreesIsPrefix(r.reasm, Sent(s));
    }
  }

  lemma DroppedIsAcked(s: Sender, ackno: u32, win: u16, f: InFlight)
    requires s.stream.Valid()
    requires f in s.flight && f !in AckReceived(s, ackno, win).flight
    ensures f.End() <= Unwrap(ackno, s.isn, s.checkpoint)
  {
    hide Unwrap, FillWindow;
    var ack := Unwrap(ackno, s.isn, s.checkpoint);
    var k := AckedCount(s.flight, ack);
    var i :| 0 <= i < |s.flight| && s.flight[i] == f;
    var u := Acknowledge(s.(rwnd := win), ack);
    FillWindowFrame(u);
    assert forall j :: k <= j < |s.flight| ==> s.flight[j] in s.flight[k..];
  }
}
