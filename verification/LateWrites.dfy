/**
  What becomes of bytes written after the application ended its stream. The stream accepts them as long
  as there is room; whether they are ever sent depends on whether FIN has left already.
 */
module LateWrites {
  import opened Prelude
  import opened WrappingIntegers
  import opened ByteStreams
  import opened TcpSending
  import opened SenderInvariant
  import opened SenderProperties
  import opened TwoParty

  /** A write adds nothing exactly when there is nothing to write or no room; having ended plays no part. */
  lemma WriteAddsNothingExactly(s: Stream, data: seq<byte>)
    requires s.Valid()
    ensures s.Write(data) == s <==> data == [] || s.Remaining() == 0
  {
    var n := Min(|data|, s.Remaining());
    assert |s.Write(data).written| == |s.written| + n;
    if n == 0 {
      assert s.written + data[..0] == s.written;
    }
  }

  /** The sender's invariant survives a write exactly until FIN is sent, unless the write adds nothing. */
  lemma WriteInvExactly(s: Sender, data: seq<byte>)
    requires SenderInv(s)
    ensures SenderInv(WriteOut(s, data)) <==> MayWrite(s, data)
  {
    hide FlightInv, OutInv, TimerInv;
    WriteAddsNothingExactly(s.stream, data);
    if MayWrite(s, data) {
      WriteOutInv(s, data);
    }
  }

  // ---------------------------------------------------------------- any run at all

  lemma StepValid(s: Sender, e: Event)
    requires s.stream.Valid()
    ensures Step(s, e).stream.Valid()
  {
    hide FillWindow, Unwrap;
    match e {
      case Fill => FillWindowFrame(s);
      case Ack(ackno, win) =>
        FillWindowFrame(Acknowledge(s.(rwnd := win), Unwrap(ackno, s.isn, s.checkpoint)));
      case _ =>
    }
  }

  /** The state after any events whatever, further writes included. */
  ghost function Steps(s: Sender, es: seq<Event>): Sender
    requires s.stream.Valid()
    decreases |es|
  {
    if es == [] then s else (StepValid(s, es[0]); Steps(Step(s, es[0]), es[1..]))
  }

  /** The run gets byte `i` of the stream into a segment. */
  ghost predicate Sends(s: Sender, es: seq<Event>, i: nat)
    requires s.stream.Valid()
  {
    Steps(s, es).stream.read > i
  }

  /** An acknowledgment a receiver can have made: of something sent, and not older than the latest taken. */
  predicate Acceptable(s: Sender, e: Event) {
    e.Ack? ==> s.checkpoint <= Unwrap(e.ackno, s.isn, s.checkpoint) <= s.next
  }

  /** Every acknowledgment of the run is acceptable, and no step leaves the window overrun. */
  ghost predicate Honest(s: Sender, es: seq<Event>)
    requires s.stream.Valid()
    decreases |es|
  {
    es == [] ||
    (&& Acceptable(s, es[0])
     && (StepValid(s, es[0]);
         var t := Step(s, es[0]);
         Outstanding(t) <= Window(t) && Honest(t, es[1..])))
  }

  // ---------------------------------------------------------------- after FIN

  /** Everything queued or outstanding was so before, or is empty. */
  ghost predicate NothingNew(s: Sender, t: Sender) {
    && (forall f :: f in t.flight ==> f in s.flight)
    && (forall seg :: seg in t.out ==> seg in s.out || seg.Length() == 0 || exists f :: f in s.flight && f.seg == seg)
  }

  lemma FinishedStep(s: Sender, e: Event)
    requires s.stream.Valid() && s.syn && s.fin
    ensures var t := Step(s, e);
            && t.stream.Valid() && t.syn && t.fin && t.stream.read == s.stream.read && t.next == s.next
            && NothingNew(s, t)
  {
    hide Unwrap;
  }

  lemma NothingNewTrans(s: Sender, t: Sender, u: Sender)
    requires NothingNew(s, t) && NothingNew(t, u)
    ensures NothingNew(s, u)
  {
  }

  /** Once FIN is sent no run sends another byte, whatever is written, acknowledged or waited for. */
  lemma {:induction false} NothingAfterFin(s: Sender, es: seq<Event>)
    requires s.stream.Valid() && s.syn && s.fin
    ensures var t := Steps(s, es);
            t.fin && t.stream.read == s.stream.read && t.next == s.next && NothingNew(s, t)
    decreases |es|
  {
    hide Step, NothingNew;
    if es != [] {
      var t := Step(s, es[0]);
      FinishedStep(s, es[0]);
      NothingAfterFin(t, es[1..]);
      NothingNewTrans(s, t, Steps(t, es[1..]));
    } else {
      assert NothingNew(s, s) by { SameIsNotNew(s); }
    }
  }

  lemma SameIsNotNew(s: Sender)
    ensures NothingNew(s, s)
  {
  }

  // ---------------------------------------------------------------- before FIN

  lemma FillProgress(s: Sender)
    requires SenderInv(s) && s.syn && !s.fin && s.stream.BufferSize() > 0 && Usable(s) > 0
    ensures FillWindow(s).stream.read > s.stream.read
  {
  }

  /** Everything sent so far is acknowledged and one number of window is left. */
  function AckAll(s: Sender): Event {
    Ack(Wrap(s.next, s.isn), 1)
  }

  /** If anything was outstanding, that acknowledgment alone gets the next byte sent. */
  lemma AckAllProgress(s: Sender)
    requires SenderInv(s) && s.syn && !s.fin && s.stream.BufferSize() > 0 && |s.stream.written| <= LIMIT
    ensures var t := Step(s, AckAll(s));
            && Acceptable(s, AckAll(s)) && SenderInv(t) && t.syn && t.stream.written == s.stream.written
            && Outstanding(t) <= Window(t)
            && (if Outstanding(s) > 0 then t.stream.read > s.stream.read
                else t.stream == s.stream && !t.fin && Usable(t) == 1)
  {
    hide Unwrap, Wrap, FillWindow, FlightInv, OutInv, TimerInv;
    SpaceBounds(s);
    UnwrapSmall(s.next, s.isn, s.checkpoint);
    var n := Wrap(s.next, s.isn);
    AckReceivedInv(s, n, 1);
    AckRespectsWindowExactly(s, n, 1);
    if Outstanding(s) > 0 {
      WindowInv(s, 1);
      AcknowledgeInv(s.(rwnd := 1), s.next);
      var u := Acknowledge(s.(rwnd := 1), s.next);
      FillProgress(u);
      FillWindowInv(u);
      FillWindowFrame(u);
    }
  }

  lemma Prepend(s: Sender, e: Event, rest: seq<Event>, i: nat) returns (es: seq<Event>)
    requires s.stream.Valid() && Acceptable(s, e)
    requires var t := Step(s, e);
             t.stream.Valid() && Outstanding(t) <= Window(t) && Honest(t, rest) && Sends(t, rest, i)
    ensures Honest(s, es) && Sends(s, es, i)
  {
    hide Step, Acceptable;
    es := [e] + rest;
    assert es[1..] == rest;
  }

  /** Until FIN is sent, every byte can still be sent by a run with honest acknowledgments inside the window. */
  lemma {:induction false} SendsEventually(s: Sender, i: nat) returns (es: seq<Event>)
    requires SenderInv(s) && !s.fin && i < |s.stream.written| <= LIMIT
    ensures Honest(s, es) && Sends(s, es, i)
    decreases |s.stream.written| - s.stream.read + if s.syn then 0 else 1
  {
    hide FillWindow, AckReceived, FlightInv, OutInv, TimerInv, Usable;
    if s.stream.read > i {
      es := [];
    } else if !s.syn {
      SynFirst(s);
      FillWindowInv(s);
      FillStaysInWindow(s) by { SynUnsent(s); }
      var rest := SendsEventually(FillWindow(s), i);
      es := Prepend(s, Fill, rest, i);
    } else {
      AckAllProgress(s);
      var t := Step(s, AckAll(s));
      if Outstanding(s) > 0 {
        var rest := [];
        if !t.fin {
          rest := SendsEventually(t, i);
        }
        es := Prepend(s, AckAll(s), rest, i);
      } else {
        OneByteFits(t);
        var rest := [];
        if !FillWindow(t).fin {
          rest := SendsEventually(FillWindow(t), i);
        }
        es := Prepend(t, Fill, rest, i);
        es := Prepend(s, AckAll(s), es, i);
      }
    }
  }
  lemma SynUnsent(s: Sender)
    requires SenderInv(s) && !s.syn
    ensures s.next == 0 && Outstanding(s) == 0
  {
  }

  lemma OneByteFits(t: Sender)
    requires SenderInv(t) && t.syn && !t.fin && t.stream.BufferSize() > 0 && |t.stream.written| <= LIMIT
    requires Usable(t) == 1 && Outstanding(t) <= Window(t)
    ensures var u := FillWindow(t);
            && SenderInv(u) && u.syn && u.stream.written == t.stream.written && u.stream.read > t.stream.read
            && Outstanding(u) <= Window(u)
  {
    hide FillWindow, FlightInv, OutInv, TimerInv, Usable;
    SpaceBounds(t);
    FillProgress(t);
    FillWindowInv(t);
    FillStaysInWindow(t);
  }

  lemma SynFirst(s: Sender)
    requires s.stream.Valid() && !s.syn
    ensures FillWindow(s).stream == s.stream && FillWindow(s).fin == s.fin && FillWindow(s).syn
  {
  }

  /**
    Bytes written now, before or after ending, can be sent if and only if FIN has not been sent: until then
    by a run with honest acknowledgments that respects the window, afterwards by no run whatever.
   */
  lemma LateBytesSentExactly(s: Sender, data: seq<byte>, i: nat)
    requires SenderInv(s) && |s.stream.written| <= i < |WriteOut(s, data).stream.written| <= LIMIT
    ensures (exists es :: Honest(WriteOut(s, data), es) && Sends(WriteOut(s, data), es, i)) <==> !s.fin
    ensures (exists es :: Sends(WriteOut(s, data), es, i)) <==> !s.fin
  {
    hide FlightInv, OutInv, TimerInv, Steps, Honest;
    var t := WriteOut(s, data);
    if s.fin {
      forall es
        ensures !Sends(t, es, i)
      {
        NothingAfterFin(t, es);
      }
    } else {
      WriteOutInv(s, data);
      var es := SendsEventually(t, i);
      assert Honest(t, es) && Sends(t, es, i);
    }
  }

  // ---------------------------------------------------------------- an accepted byte that is never sent

  lemma SynSent()
    ensures var t := FillWindow(NewSender(10, 1000, 0));
            t.syn && !t.fin && t.stream == Stream(10, [], 0, false, false) && t.next == 1 && t.checkpoint == 0 && t.isn == 0
  {
    var f := MakeInFlight(0, 0, true, false, []);
    assert TotalLength([f]) == f.seg.Length() + TotalLength([]);
  }

  lemma WindowOpened(s: Sender)
    requires s.syn && !s.fin && s.stream == Stream(10, [], 0, false, false) && s.next == 1 && s.checkpoint == 0 && s.isn == 0
    ensures var t := AckReceived(s, 1, 10);
            t.syn && !t.fin && t.stream == s.stream && t.next == 1 && t.checkpoint == 1 && t.rwnd == 10
  {
    assert Wrap(1, 0) == 1;
    UnwrapSmall(1, 0, 0);
    var m := Acknowledge(s.(rwnd := 10), 1);
    hide Acknowledge;
    assert m.stream.Buffered()[..0] == [];
    assert FillWindow(m) == m;
  }

  lemma FinSent(s: Sender)
    requires s.syn && !s.fin && s.stream == Stream(10, [], 0, true, false) && s.next == 1 && s.checkpoint == 1 && s.rwnd == 10
    ensures var t := FillWindow(s); t.syn && t.fin && t.stream == s.stream
  {
    assert Usable(s) == 10;
  }

  /** SYN, its acknowledgment, the end, FIN; then a byte is written, accepted, and never sent. */
  lemma LateByteNeverSent(es: seq<Event>)
    ensures var s := Steps(NewSender(10, 1000, 0), [Fill, Ack(1, 10), EndInput, Fill]);
            && s.stream.ended && s.stream.Valid()
            && WriteOut(s, [7]).stream.Buffered() == [7]
            && !Sends(WriteOut(s, [7]), es, 0)
  {
    hide FillWindow, AckReceived;
    var s0 := NewSender(10, 1000, 0);
    SynSent();
    var s1 := FillWindow(s0);
    WindowOpened(s1);
    var s2 := AckReceived(s1, 1, 10);
    FinSent(EndOut(s2));
    var s := FillWindow(EndOut(s2));
    var run := [Fill, Ack(1, 10), EndInput, Fill];
    assert run[1..] == [Ack(1, 10), EndInput, Fill] && run[1..][1..] == [EndInput, Fill];
    assert run[1..][1..][1..] == [Fill] && run[1..][1..][1..][1..] == [];
    assert Steps(s0, run) == Steps(s1, run[1..]);
    assert Steps(s1, run[1..]) == Steps(s2, run[1..][1..]);
    assert Steps(s2, run[1..][1..]) == Steps(EndOut(s2), [Fill]);
    assert Steps(EndOut(s2), [Fill]) == Steps(s, []);
    NothingAfterFin(WriteOut(s, [7]), es);
  }
}
