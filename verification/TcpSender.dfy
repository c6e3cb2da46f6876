/** The sender as implemented: loops over the outgoing stream and a priority queue of segments in flight. */
module TcpSenders {
  import opened Prelude
  import opened WrappingIntegers
  import opened ByteStreams
  import opened Segments
  import opened TcpSending

  // ---------------------------------------------------------------- one pass of the segmentation loop

  lemma LaunchTwice(s: Sender, f: InFlight, fs: seq<InFlight>)
    ensures Launch(Launch(s, [f]), fs) == Launch(s, [f] + fs)
  {
    assert ([f] + fs)[1..] == fs;
    assert SegmentsOf([f] + fs) == [f.seg] + SegmentsOf(fs);
    assert SegmentsOf([f]) == [f.seg];
    assert s.out + ([f.seg] + SegmentsOf(fs)) == (s.out + [f.seg]) + SegmentsOf(fs);
    assert s.flight + ([f] + fs) == (s.flight + [f]) + fs;
    assert TotalLength([f]) == f.seg.Length();
  }

  lemma LaunchOne(s: Sender, f: InFlight)
    ensures Launch(s, [f]) ==
            s.(out := s.out + [f.seg],
               flight := s.flight + [f],
               next := s.next + f.seg.Length(),
               bytesInFlight := s.bytesInFlight + f.seg.Length(),
               timerRunning := true,
               timeSpent := if s.timerRunning then s.timeSpent else 0,
               rto := if s.timerRunning then s.rto else s.initialRto)
  {
    assert SegmentsOf([f]) == [f.seg];
    assert TotalLength([f]) == f.seg.Length() + TotalLength([]);
  }

  /** The state after sending one segment with the next `len` bytes of the stream. */
  function SendOne(s: Sender, len: nat, close: bool): Sender
    requires s.stream.Valid() && len <= s.stream.BufferSize()
  {
    Launch(s.(stream := s.stream.Pop(len), fin := close),
           [MakeInFlight(s.isn, s.next, false, close, s.stream.Buffered()[..len])])
  }

  lemma SendOneFields(s: Sender, len: nat, close: bool)
    requires s.stream.Valid() && len <= s.stream.BufferSize()
    ensures var t := SendOne(s, len, close);
            && t.stream == s.stream.Pop(len) && t.fin == close && t.isn == s.isn
            && t.next == s.next + len + (if close then 1 else 0)
  {
    var f := MakeInFlight(s.isn, s.next, false, close, s.stream.Buffered()[..len]);
    assert TotalLength([f]) == f.seg.Length() + TotalLength([]);
  }

  lemma NothingLeftToSend(s: Sender, room: nat)
    requires s.stream.Valid()
    requires s.fin || room == 0 || (!s.stream.Eof() && s.stream.BufferSize() == 0)
    ensures SendUpTo(s, room) == s
  {
  }

  /** A buffer that fits into one segment is sent at once. */
  lemma LastSegment(s: Sender, room: nat, close: bool)
    requires s.stream.Valid() && !s.fin
    requires s.stream.BufferSize() <= MAX_PAYLOAD_SIZE && s.stream.BufferSize() <= room
    requires close == (s.stream.ended && room > s.stream.BufferSize())
    requires close || s.stream.BufferSize() > 0
    ensures SendUpTo(s, room) == SendOne(s, s.stream.BufferSize(), close)
  {
    var k := s.stream.BufferSize();
    assert Chunks(s.isn, s.next, s.stream.Buffered()[..k], close)
           == [MakeInFlight(s.isn, s.next, false, close, s.stream.Buffered()[..k])];
  }

  /** A window that fits into one segment is used up at once. */
  lemma WindowUsedUp(s: Sender, room: nat)
    requires s.stream.Valid() && !s.fin
    requires 0 < room <= MAX_PAYLOAD_SIZE && room <= s.stream.BufferSize()
    ensures SendUpTo(s, room) == SendOne(s, room, false)
  {
    assert Chunks(s.isn, s.next, s.stream.Buffered()[..room], false)
           == [MakeInFlight(s.isn, s.next, false, false, s.stream.Buffered()[..room])];
  }

  lemma FirstChunk(isn: u32, at: nat, buffered: seq<byte>, k: nat, close: bool)
    requires MAX_PAYLOAD_SIZE < k <= |buffered|
    ensures Chunks(isn, at, buffered[..k], close)
            == [MakeInFlight(isn, at, false, false, buffered[..MAX_PAYLOAD_SIZE])]
               + Chunks(isn, at + MAX_PAYLOAD_SIZE, buffered[MAX_PAYLOAD_SIZE..][..k - MAX_PAYLOAD_SIZE], close)
  {
    assert buffered[..k][..MAX_PAYLOAD_SIZE] == buffered[..MAX_PAYLOAD_SIZE];
    assert buffered[..k][MAX_PAYLOAD_SIZE..] == buffered[MAX_PAYLOAD_SIZE..][..k - MAX_PAYLOAD_SIZE];
  }

  /** Otherwise one full segment is sent and the rest follows from there. */
  lemma FullSegment(s: Sender, room: nat)
    requires s.stream.Valid() && !s.fin
    requires room > MAX_PAYLOAD_SIZE && s.stream.BufferSize() > MAX_PAYLOAD_SIZE
    ensures SendUpTo(s, room) == SendUpTo(SendOne(s, MAX_PAYLOAD_SIZE, false), room - MAX_PAYLOAD_SIZE)
  {
    hide Chunks, Launch, MakeInFlight;
    var m := MAX_PAYLOAD_SIZE;
    var k := Min(room, s.stream.BufferSize());
    var close := s.stream.ended && room > s.stream.BufferSize();
    var buffered := s.stream.Buffered();
    var t := SendOne(s, m, false);
    SendOneFields(s, m, false);
    var f := MakeInFlight(s.isn, s.next, false, false, buffered[..m]);
    FirstChunk(s.isn, s.next, buffered, k, close);
    assert t.stream.Buffered() == buffered[m..];
    var rest := Chunks(s.isn, s.next + m, buffered[m..][..k - m], close);
    var final := s.(stream := s.stream.Pop(k), fin := close);
    LaunchTwice(final, f, rest);
    LaunchOne(s.(stream := s.stream.Pop(m), fin := false), f);
    LaunchOne(final, f);
    assert t.stream.Pop(k - m) == final.stream;
    assert t.(stream := final.stream, fin := close) == Launch(final, [f]);
  }

  /** What one pass of the loop does to the room that is left. */
  lemma OnePass(s: Sender, room: nat, size: nat, len: nat, close: bool)
    requires s.stream.Valid() && !s.fin && room > 0
    requires s.stream.Eof() || s.stream.BufferSize() > 0
    requires size == Min(room, MAX_PAYLOAD_SIZE) && len == Min(size, s.stream.BufferSize())
    requires close == (s.stream.Pop(len).Eof() && room > len)
    ensures close ==> SendUpTo(s, room) == SendOne(s, len, close)
    ensures !close ==> SendUpTo(s, room) == SendUpTo(SendOne(s, len, close), room - size)
  {
    hide SendUpTo, SendOne;
    SendOneFields(s, len, close);
    var t := SendOne(s, len, close);
    if len == s.stream.BufferSize() {
      if close || !s.stream.ended {
        LastSegment(s, room, close);
        NothingLeftToSend(t, room - size);
      } else {
        WindowUsedUp(s, room);
        NothingLeftToSend(t, 0);
      }
    } else if room <= MAX_PAYLOAD_SIZE {
      WindowUsedUp(s, room);
      NothingLeftToSend(t, 0);
    } else {
      FullSegment(s, room);
    }
  }

  // ---------------------------------------------------------------- taking an acknowledgment step by step

  function Dropped(s: Sender, ack: nat): Sender {
    var k := AckedCount(s.flight, ack);
    s.(flight := s.flight[k..], bytesInFlight := s.bytesInFlight - TotalLength(s.flight[..k]))
  }

  function TimerReset(s: Sender): Sender {
    s.(rto := s.initialRto, retx := 0,
       timeSpent := if s.flight != [] then 0 else s.timeSpent,
       timerRunning := s.flight != [] || s.timerRunning)
  }

  lemma ForgetInSteps(s: Sender, ack: u64)
    ensures TimerReset(Dropped(s.(checkpoint := ack), ack)) == Acknowledge(s, ack)
  {
    hide AckedCount, TotalLength;
    var k := AckedCount(s.flight, ack);
    assert s.flight[k..] != [] <==> k < |s.flight|;
  }

  // ---------------------------------------------------------------- the priority queue

  ghost predicate KeysIncrease(fs: seq<InFlight>) {
    forall i, j :: 0 <= i < j < |fs| ==> fs[i].abs < fs[j].abs
  }

  /** Every key in the queue is below `next`. */
  ghost predicate AllBelow(order: seq<InFlight>, next: nat) {
    forall f :: f in order ==> f.abs < next
  }

  lemma AllBelowGrows(order: seq<InFlight>, f: InFlight)
    requires AllBelow(order, f.abs) && f.seg.Length() > 0
    ensures AllBelow(order + [f], f.End())
  {
  }

  lemma AllBelowSuffix(order: seq<InFlight>, k: nat, next: nat)
    requires AllBelow(order, next) && k <= |order|
    ensures AllBelow(order[k..], next)
  {
  }

  /** The priority queue of segments in flight, least absolute sequence number first. */
  class SegmentQueue {
    var items: multiset<InFlight>
    /** The entries in the order of insertion; because keys only grow, this is the order of the queue. */
    ghost var order: seq<InFlight>

    ghost predicate Valid()
      reads this
    {
      multiset(order) == items && KeysIncrease(order)
    }

    constructor ()
      ensures Valid() && order == []
    {
      items, order := multiset{}, [];
    }

    predicate Empty()
      requires Valid()
      reads this
      ensures Empty() <==> order == []
    {
      assert |items| == |order|;
      |items| == 0
    }

    /** Any entry with the least key; there is only one, the oldest. */
    method Top() returns (f: InFlight)
      requires Valid() && order != []
      ensures f == order[0]
    {
      assert order[0] in items;
      forall x | x in items
        ensures order[0].abs <= x.abs
      {
        assert x in order;
      }
      f :| f in items && forall x :: x in items ==> f.abs <= x.abs;
      assert f in order;
      assert f.abs <= order[0].abs;
    }

    method Push(f: InFlight)
      requires Valid() && AllBelow(order, f.abs)
      modifies this
      ensures Valid() && order == old(order) + [f]
    {
      items := items + multiset{f};
      order := order + [f];
    }

    method Pop()
      requires Valid() && order != []
      modifies this
      ensures Valid() && order == old(order)[1..]
    {
      var f := Top();
      assert order == [order[0]] + order[1..];
      items := items - multiset{f};
      order := order[1..];
    }
  }

  class TCPSender {
    const isn: u32
    const initialRto: u16
    const stream: ByteStream
    var segmentsOut: seq<Segment>
    var nextSeqno: nat
    const inFlight: SegmentQueue
    var synSent: bool
    var finSent: bool
    var timerRunning: bool
    var timeSpent: nat
    var rwnd: u16
    var bytesInFlight: int
    var checkpoint: u64
    var retransmissions: nat
    var rto: u32

    ghost function Repr(): set<object> {
      {this, stream, stream.buffer, inFlight}
    }

    ghost predicate Valid()
      reads Repr()
    {
      && stream.Valid()
      && inFlight.Valid()
      && AllBelow(inFlight.order, nextSeqno)
    }

    ghost function Abs(): Sender
      reads Repr()
      requires Valid()
      ensures Abs().stream.Valid()
    {
      Sender(isn, initialRto, stream.Abs(), nextSeqno, inFlight.order, bytesInFlight, checkpoint, rwnd,
             synSent, finSent, timerRunning, timeSpent, rto, retransmissions, segmentsOut)
    }

    constructor (capacity: nat, retxTimeout: u16, fixedIsn: u32)
      requires capacity < TWO32
      ensures Valid() && fresh(Repr())
      ensures Abs() == NewSender(capacity, retxTimeout, fixedIsn)
    {
      isn, initialRto := fixedIsn, retxTimeout;
      stream := new ByteStream(capacity);
      inFlight := new SegmentQueue();
      segmentsOut, nextSeqno := [], 0;
      synSent, finSent, timerRunning, timeSpent := false, false, false, 0;
      rwnd, bytesInFlight, checkpoint, retransmissions, rto := 1, 0, 0, 0, 0;
    }

    /** Numbers, queues and tracks one segment. */
    method SendSegment(seg: Segment)
      requires Valid() && seg.Length() > 0
      modifies this, inFlight
      ensures Valid()
      ensures Abs() == Launch(old(Abs()),
                              [InFlight(old(nextSeqno), seg.(header := seg.header.(seqno := Wrap(old(nextSeqno), isn))))])
    {
      hide AllBelow, SegmentQueue.Valid, ByteStream.Valid, Wrap, Launch;
      LaunchOne(Abs(), InFlight(nextSeqno, seg.(header := seg.header.(seqno := Wrap(nextSeqno, isn)))));
      var numbered := seg.(header := seg.header.(seqno := Wrap(nextSeqno, isn)));
      var f := InFlight(nextSeqno, numbered);
      segmentsOut := segmentsOut + [numbered];
      AllBelowGrows(inFlight.order, f);
      inFlight.Push(f);
      nextSeqno := nextSeqno + numbered.Length();
      bytesInFlight := bytesInFlight + numbered.Length();
      StartTimer();
    }

    method StartTimer()
      modifies `timerRunning, `timeSpent, `rto
      ensures timerRunning
      ensures timeSpent == if old(timerRunning) then old(timeSpent) else 0
      ensures rto == if old(timerRunning) then old(rto) else initialRto
    {
      if !timerRunning {
        timerRunning := true;
        timeSpent := 0;
        rto := initialRto;
      }
    }

    /** Reads one payload from the stream and sends it, with FIN if it is the last and FIN fits too. */
    method SendNext(room: nat, size: nat) returns (close: bool)
      requires Valid() && !finSent && room > 0
      requires Abs().stream.Eof() || Abs().stream.BufferSize() > 0
      requires size == Min(room, MAX_PAYLOAD_SIZE)
      modifies Repr()
      ensures Valid()
      ensures var s := old(Abs());
              var len := Min(size, s.stream.BufferSize());
              && close == (s.stream.Pop(len).Eof() && room > len)
              && Abs() == SendOne(s, len, close)
    {
      hide Launch, Wrap, AllBelow, SegmentQueue.Valid;
      var payload := stream.Read(size);
      var seg := Segment(DEFAULT_HEADER, payload);
      close := stream.Eof() && room > seg.Length();
      if close {
        seg := seg.(header := seg.header.(fin := true));
        finSent := true;
      }
      SendSegment(seg);
    }

    method FillWindow()
      requires Valid()
      modifies Repr()
      ensures Valid()
      ensures Abs() == TcpSending.FillWindow(old(Abs()))
    {
      hide SendUpTo, SendOne, AllBelow, SegmentQueue.Valid, ByteStream.Valid, Launch, Wrap;
      if !synSent {
        SendSegment(Segment(DEFAULT_HEADER.(syn := true), []));
        synSent := true;
        return;
      }
      ghost var all := SendUpTo(Abs(), Usable(Abs()));
      var room := if rwnd > 0 then rwnd else 1;
      room := (room - (nextSeqno - checkpoint)) % TWO64;
      while room > 0 && !finSent
        invariant Valid() && 0 <= room < TWO64
        invariant SendUpTo(Abs(), room) == all
        decreases !finSent, room
      {
        ghost var s := Abs();
        if !stream.Eof() && stream.BufferEmpty() {
          NothingLeftToSend(s, room);
          return;
        }
        var size := Min(room, MAX_PAYLOAD_SIZE);
        ghost var len := Min(size, s.stream.BufferSize());
        ghost var before := room;
        var close := SendNext(room, size);
        OnePass(s, before, size, len, close);
        SendOneFields(s, len, close);
        room := (room - (if close then 1 else 0) - size) % TWO64;
        NothingLeftToSendAfter(Abs(), room);
      }
      NothingLeftToSend(Abs(), room);
    }

    lemma NothingLeftToSendAfter(s: Sender, room: nat)
      requires s.stream.Valid()
      ensures s.fin ==> SendUpTo(s, room) == s
    {
    }

    method AckReceived(ackno: u32, windowSize: u16)
      requires Valid()
      modifies Repr()
      ensures Valid()
      ensures Abs() == TcpSending.AckReceived(old(Abs()), ackno, windowSize)
    {
      hide TcpSending.FillWindow, Unwrap, AllBelow, SegmentQueue.Valid;
      var absAckno := Unwrap(ackno, isn, checkpoint);
      rwnd := windowSize;
      if absAckno > nextSeqno || absAckno <= checkpoint {
        return;
      }
      Forget(absAckno);
      FillWindow();
    }

    /** Drops what the acknowledgment covers and resets the timer. */
    method Forget(absAckno: u64)
      requires Valid()
      modifies this, inFlight
      ensures Valid()
      ensures Abs() == Acknowledge(old(Abs()), absAckno)
    {
      hide TCPSender.Valid, TCPSender.Abs, Acknowledge, Dropped, TimerReset;
      ForgetInSteps(Abs(), absAckno);
      Checkpoint(absAckno);
      DropAcknowledged(absAckno);
      ResetTimer();
    }

    method Checkpoint(absAckno: u64)
      requires Valid()
      modifies `checkpoint
      ensures Valid() && Abs() == old(Abs()).(checkpoint := absAckno)
    {
      checkpoint := absAckno;
    }

    method ResetTimer()
      requires Valid()
      modifies `rto, `timeSpent, `timerRunning, `retransmissions
      ensures Valid()
      ensures Abs() == TimerReset(old(Abs()))
    {
      rto := initialRto;
      if !inFlight.Empty() {
        timeSpent := 0;
        timerRunning := true;
      }
      retransmissions := 0;
    }

    /** The popping loop of `ack_received`. */
    method DropAcknowledged(absAckno: u64)
      requires Valid()
      modifies inFlight, `bytesInFlight
      ensures Valid()
      ensures Abs() == Dropped(old(Abs()), absAckno)
    {
      hide AllBelow, SegmentQueue.Valid;
      ghost var order := inFlight.order;
      ghost var dropped := 0;
      while !inFlight.Empty()
        invariant inFlight.Valid()
        invariant dropped <= |order| && inFlight.order == order[dropped..]
        invariant dropped + AckedCount(inFlight.order, absAckno) == AckedCount(order, absAckno)
        invariant bytesInFlight == old(bytesInFlight) - TotalLength(order[..dropped])
        decreases |inFlight.order|
      {
        var top := inFlight.Top();
        if top.abs + top.seg.Length() <= absAckno {
          TotalLengthSnoc(order, dropped);
          bytesInFlight := bytesInFlight - top.seg.Length();
          inFlight.Pop();
          dropped := dropped + 1;
        } else {
          break;
        }
      }
      AllBelowSuffix(order, dropped, nextSeqno);
    }

    method Tick(msSinceLastTick: nat)
      requires Valid()
      modifies this
      ensures Valid()
      ensures Abs() == TcpSending.Tick(old(Abs()), msSinceLastTick)
    {
      hide AllBelow, SegmentQueue.Valid, ByteStream.Valid;
      timeSpent := timeSpent + msSinceLastTick;
      if timeSpent >= rto && !inFlight.Empty() {
        var top := inFlight.Top();
        segmentsOut := segmentsOut + [top.seg];
        timeSpent := 0;
        if rwnd > 0 {
          retransmissions := retransmissions + 1;
          rto := rto * 2 % TWO32;
        }
      }
      if inFlight.Empty() {
        timeSpent := 0;
        timerRunning := false;
      }
    }

    method SendEmptySegment()
      requires Valid()
      modifies `segmentsOut
      ensures Valid()
      ensures Abs() == SendEmpty(old(Abs()))
    {
      segmentsOut := segmentsOut + [Segment(DEFAULT_HEADER.(seqno := Wrap(nextSeqno, isn)), [])];
    }
  }

  lemma {:induction false} TotalLengthSnoc(fs: seq<InFlight>, k: nat)
    requires k < |fs|
    ensures TotalLength(fs[..k + 1]) == TotalLength(fs[..k]) + fs[k].seg.Length()
    decreases k
  {
    if k > 0 {
      TotalLengthSnoc(fs[1..], k - 1);
      assert fs[..k + 1][1..] == fs[1..][..k];
      assert fs[..k][1..] == fs[1..][..k - 1];
    } else {
      assert fs[..1][1..] == [];
    }
  }
}
