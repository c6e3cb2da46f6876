/** The connection endpoint as implemented, proved equal to `TcpConnecting`. */
module TcpConnections {
  import opened Prelude
  import opened Segments
  import opened TcpReceivers
  import opened TcpSending
  import opened TcpSenders
  import opened SenderInvariant
  import opened TcpConnecting

  class TCPConnection {
    const sender: TCPSender
    const receiver: TCPReceiver
    const rtTimeout: u16
    var segmentsOut: seq<Segment>
    var lingerAfterStreamsFinish: bool
    var timeSinceLastSegmentReceived: nat
    var isActive: bool
    var sentSyn: bool

    ghost function Repr(): set<object> {
      {this} + sender.Repr() + receiver.Repr()
    }

    ghost predicate Valid()
      reads Repr()
    {
      && sender.Valid() && receiver.Valid()
      && this !in sender.Repr() && this !in receiver.Repr()
      && sender.Repr() !! receiver.Repr()
    }

    ghost function Abs(): Conn
      reads Repr()
      requires Valid()
    {
      Conn(sender.Abs(), receiver.Abs(), segmentsOut, rtTimeout,
           lingerAfterStreamsFinish, timeSinceLastSegmentReceived, isActive, sentSyn)
    }

    constructor (sendCapacity: nat, recvCapacity: nat, timeout: u16, isn: u32)
      requires sendCapacity < TWO32 && recvCapacity < TWO32
      ensures Valid() && fresh(Repr())
      ensures Abs() == NewConn(sendCapacity, recvCapacity, timeout, isn)
    {
      hide TCPReceiver.Valid, TCPReceiver.Abs, TCPSender.Valid, TCPSender.Abs, NewSender;
      sender := new TCPSender(sendCapacity, timeout, isn);
      receiver := new TCPReceiver(recvCapacity);
      rtTimeout := timeout;
      segmentsOut := [];
      lingerAfterStreamsFinish, timeSinceLastSegmentReceived, isActive, sentSyn := true, 0, true, false;
    }

    /** What the connection adds to one outgoing segment. */
    method StampOne(seg: Segment, rst: bool) returns (stamped: Segment)
      requires receiver.Valid()
      ensures stamped == Stamp(receiver.Abs(), seg, rst)
    {
      var h := seg.header;
      var a := receiver.Ackno();
      if a.Some? {
        h := h.(ack := true, ackno := a.value);
      }
      var w := receiver.WindowSize();
      h := h.(win := w % TWO16);
      if rst {
        h := h.(rst := true);
      }
      stamped := seg.(header := h);
    }

    /** The draining loop of `_send_segments`. */
    method Drain(setRst: bool)
      requires Valid()
      modifies `segmentsOut, sender`segmentsOut
      ensures Valid()
      ensures Abs() == Flush(old(Abs()), setRst).(sentSyn := sentSyn)
    {
      hide Stamp, StampAll, TCPReceiver.Valid, TCPReceiver.Abs;
      ghost var queued := sender.segmentsOut;
      ghost var r := receiver.Abs();
      ghost var done := 0;
      while sender.segmentsOut != []
        invariant receiver.Valid() && receiver.Abs() == r
        invariant done <= |queued| && sender.segmentsOut == queued[done..]
        invariant segmentsOut == old(segmentsOut) + StampAll(r, queued, setRst)[..done]
        decreases |sender.segmentsOut|
      {
        var seg := sender.segmentsOut[0];
        sender.segmentsOut := sender.segmentsOut[1..];
        seg := StampOne(seg, setRst && sender.segmentsOut == []);
        segmentsOut := segmentsOut + [seg];
        done := done + 1;
      }
    }

    method SendSegments(setRst: bool)
      requires Valid()
      modifies Repr()
      ensures Valid()
      ensures Abs() == TcpConnecting.SendSegments(old(Abs()), setRst)
    {
      hide FillWindow, StampAll, TcpConnecting.CleanShutdown;
      hide TCPReceiver.Valid, TCPReceiver.Abs, TCPSender.Valid, TCPSender.Abs;
      FillWindowFrame(sender.Abs());
      ghost var c := Abs();
      sender.FillWindow();
      if !sentSyn {
        sentSyn := true;
      }
      Drain(setRst);
      assert Abs() == Flush(c.(sender := FillWindow(c.sender)), setRst);
      CleanShutdown();
    }

    method CleanShutdown()
      requires Valid()
      modifies `lingerAfterStreamsFinish, `isActive
      ensures Valid()
      ensures Abs() == TcpConnecting.CleanShutdown(old(Abs()))
    {
      var inboundEnded := receiver.reassembler.output.isInputEnded;
      if inboundEnded && !sender.stream.Eof() {
        lingerAfterStreamsFinish := false;
      }
      if inboundEnded && receiver.reassembler.numUnassembled == 0
         && sender.stream.isInputEnded && sender.bytesInFlight == 0 {
        if !lingerAfterStreamsFinish || timeSinceLastSegmentReceived >= 10 * rtTimeout {
          isActive := false;
        }
      }
    }

    method KillConnection()
      requires Valid()
      modifies `isActive, sender.stream`errorFlag, receiver.reassembler.output`errorFlag
      ensures Valid()
      ensures Abs() == Kill(old(Abs()))
    {
      sender.stream.SetError();
      receiver.reassembler.output.SetError();
      isActive := false;
    }

    method UncleanShutdown()
      requires Valid()
      modifies Repr()
      ensures Valid()
      ensures Abs() == TcpConnecting.UncleanShutdown(old(Abs()))
    {
      hide TcpConnecting.SendSegments, TCPReceiver.Valid, TCPReceiver.Abs, TCPSender.Valid;
      KillConnection();
      if sender.segmentsOut == [] {
        sender.SendEmptySegment();
      }
      SendSegments(true);
    }

    method SegmentReceived(seg: Segment)
      requires Valid() && ConnInv(Abs()) && Abs().receiver.reasm.Edge() < TWO32
      modifies Repr()
      ensures Valid() && ConnInv(Abs())
      ensures Abs() == TcpConnecting.SegmentReceived(old(Abs()), seg)
    {
      hide ConnInv, StopsSoundly, TcpConnecting.SendSegments, Absorb, TCPReceiver.Valid, TCPReceiver.Abs, TCPSender.Valid, TCPSender.Abs;
      SegmentReceivedInv(Abs(), seg);
      timeSinceLastSegmentReceived := 0;
      if seg.header.rst {
        KillConnection();
        return;
      }
      if !sentSyn && seg.header.ack {
        return;
      }
      AbsorbSegment(seg);
      SendSegments(false);
    }

    /** What a segment does to both halves before anything is sent in return. */
    method AbsorbSegment(seg: Segment)
      requires Valid() && Abs().receiver.reasm.Edge() < TWO32
      modifies Repr()
      ensures Valid()
      ensures Abs() == Absorb(old(Abs()), seg)
    {
      hide AckReceived, Receive, SendEmpty, TCPReceiver.Valid, TCPReceiver.Abs, TCPSender.Valid, TCPSender.Abs;
      receiver.SegmentReceived(seg);
      if seg.header.ack {
        sender.AckReceived(seg.header.ackno, seg.header.win);
      }
      if (seg.header.syn && sentSyn) || seg.header.fin || |seg.payload| > 0 {
        sender.SendEmptySegment();
      }
    }

    method Write(data: seq<byte>) returns (n: nat)
      requires Valid() && ConnInv(Abs())
      modifies Repr()
      ensures Valid() && (ConnInv(Abs()) <==> MayWrite(old(Abs()).sender, data))
      ensures n == Min(|data|, old(Abs()).sender.stream.Remaining())
      ensures Abs() == WriteTo(old(Abs()), data)
    {
      hide TcpConnecting.SendSegments, ConnInv, StopsSoundly, TCPReceiver.Valid, TCPReceiver.Abs;
      WriteToInvExactly(Abs(), data);
      n := sender.stream.Write(data);
      SendSegments(false);
    }

    method Tick(msSinceLastTick: nat)
      requires Valid() && ConnInv(Abs())
      modifies Repr()
      ensures Valid() && ConnInv(Abs())
      ensures Abs() == TickConn(old(Abs()), msSinceLastTick)
    {
      hide ConnInv, StopsSoundly, TcpConnecting.SendSegments, TcpConnecting.UncleanShutdown, TcpSending.Tick, TCPReceiver.Valid, TCPReceiver.Abs, TCPSender.Valid;
      TickConnInv(Abs(), msSinceLastTick);
      sender.Tick(msSinceLastTick);
      timeSinceLastSegmentReceived := timeSinceLastSegmentReceived + msSinceLastTick;
      if sender.retransmissions > MAX_RETX_ATTEMPTS {
        UncleanShutdown();
      }
      if sentSyn {
        SendSegments(false);
      }
    }

    method EndInputStream()
      requires Valid() && ConnInv(Abs())
      modifies Repr()
      ensures Valid() && ConnInv(Abs())
      ensures Abs() == TcpConnecting.EndInputStream(old(Abs()))
    {
      hide TcpConnecting.SendSegments, ConnInv, StopsSoundly, TCPReceiver.Valid, TCPReceiver.Abs;
      ShutdownIsSound(Abs(), CallEnd);
      sender.stream.EndInput();
      SendSegments(false);
    }

    method Connect()
      requires Valid() && ConnInv(Abs())
      modifies Repr()
      ensures Valid() && ConnInv(Abs())
      ensures Abs() == TcpConnecting.Connect(old(Abs()))
    {
      hide TcpConnecting.SendSegments, ConnInv, StopsSoundly, TCPReceiver.Valid, TCPReceiver.Abs;
      ShutdownIsSound(Abs(), CallConnect);
      SendSegments(false);
    }

    method Read(len: nat) returns (s: seq<byte>)
      requires Valid() && ConnInv(Abs())
      modifies Repr()
      ensures Valid()
      ensures |s| == Min(len, old(Abs()).receiver.reasm.out.BufferSize())
      ensures s == old(Abs()).receiver.reasm.out.Buffered()[..|s|]
      ensures Abs() == ReadFrom(old(Abs()), |s|)
    {
      hide ConnInv;
      s := receiver.Read(len);
    }
  }
}
