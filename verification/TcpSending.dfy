/**
  The sending half of a connection as a value and its operations in closed form.
  `TcpSenders` proves the loops of the implementation equal to these.
 */
module TcpSending {
  import opened Prelude
  import opened WrappingIntegers
  import opened ByteStreams
  import opened Segments

  const MAX_PAYLOAD_SIZE: nat := 1000

  /** A segment that was sent and is not yet fully acknowledged, with its absolute sequence number. */
  datatype InFlight = InFlight(abs: nat, seg: Segment) {
    function End(): nat {
      abs + seg.Length()
    }
  }

  datatype Sender = Sender(
    isn: u32, initialRto: u16, stream: Stream,
    next: nat, flight: seq<InFlight>, bytesInFlight: int, checkpoint: u64, rwnd: u16,
    syn: bool, fin: bool,
    timerRunning: bool, timeSpent: nat, rto: u32, retx: nat,
    out: seq<Segment>)

  function NewSender(capacity: nat, initialRto: u16, isn: u32): Sender {
    Sender(isn, initialRto, Stream(capacity, [], 0, false, false), 0, [], 0, 0, 1,
           false, false, false, 0, 0, 0, [])
  }

  function MakeInFlight(isn: u32, at: nat, syn: bool, fin: bool, payload: seq<byte>): InFlight {
    InFlight(at, Segment(DEFAULT_HEADER.(seqno := Wrap(at, isn), syn := syn, fin := fin), payload))
  }

  function SegmentsOf(fs: seq<InFlight>): (segs: seq<Segment>)
    ensures |segs| == |fs| && forall i :: 0 <= i < |fs| ==> segs[i] == fs[i].seg
  {
    seq(|fs|, i requires 0 <= i < |fs| => fs[i].seg)
  }

  function TotalLength(fs: seq<InFlight>): nat {
    if fs == [] then 0 else fs[0].seg.Length() + TotalLength(fs[1..])
  }

  /** Queues new segments for transmission, tracks them, and starts the timer if it is not running. */
  function Launch(s: Sender, fs: seq<InFlight>): Sender {
    if fs == [] then s else
    s.(out := s.out + SegmentsOf(fs),
       flight := s.flight + fs,
       next := s.next + TotalLength(fs),
       bytesInFlight := s.bytesInFlight + TotalLength(fs),
       timerRunning := true,
       timeSpent := if s.timerRunning then s.timeSpent else 0,
       rto := if s.timerRunning then s.rto else s.initialRto)
  }

  /** `data` cut into segments of at most `MAX_PAYLOAD_SIZE`; the last one carries FIN when `close` holds. */
  function Chunks(isn: u32, at: nat, data: seq<byte>, close: bool): (fs: seq<InFlight>)
    decreases |data|
  {
    if |data| > MAX_PAYLOAD_SIZE then
      [MakeInFlight(isn, at, false, false, data[..MAX_PAYLOAD_SIZE])]
      + Chunks(isn, at + MAX_PAYLOAD_SIZE, data[MAX_PAYLOAD_SIZE..], close)
    else if data == [] && !close then []
    else [MakeInFlight(isn, at, false, close, data)]
  }

  /** The usable window in 64-bit unsigned arithmetic: it wraps when more is outstanding than the window allows. */
  function Usable(s: Sender): u64 {
    (Max(s.rwnd, 1) - (s.next - s.checkpoint)) % TWO64
  }

  /** Sends as many buffered bytes as `room` allows, and FIN after the last one if there is room for it too. */
  function SendUpTo(s: Sender, room: nat): Sender
    requires s.stream.Valid()
  {
    if s.fin then s else
    var k := Min(room, s.stream.BufferSize());
    var close := s.stream.ended && room > s.stream.BufferSize();
    Launch(s.(stream := s.stream.Pop(k), fin := close), Chunks(s.isn, s.next, s.stream.Buffered()[..k], close))
  }

  function FillWindow(s: Sender): Sender
    requires s.stream.Valid()
  {
    if !s.syn then Launch(s, [MakeInFlight(s.isn, s.next, true, false, [])]).(syn := true)
    else SendUpTo(s, Usable(s))
  }

  /** What filling the window leaves alone. */
  lemma FillWindowFrame(s: Sender)
    requires s.stream.Valid()
    ensures var t := FillWindow(s);
            && t.stream.Valid() && t.stream.written == s.stream.written
            && t.stream.ended == s.stream.ended && t.stream.error == s.stream.error
            && t.checkpoint == s.checkpoint && t.rwnd == s.rwnd
            && s.flight <= t.flight
            && (s.syn && s.fin ==> t == s)
  {
  }

  /** How many segments at the front end at or before the acknowledged position. */
  function AckedCount(fs: seq<InFlight>, ack: nat): (k: nat)
    ensures k <= |fs|
    ensures forall i :: 0 <= i < k ==> fs[i].End() <= ack
    ensures k < |fs| ==> fs[k].End() > ack
  {
    if fs != [] && fs[0].End() <= ack then 1 + AckedCount(fs[1..], ack) else 0
  }

  /** Takes a new acknowledgment: forgets what it covers and restarts the timer for the rest. */
  function Acknowledge(s: Sender, ack: u64): Sender {
    var k := AckedCount(s.flight, ack);
    s.(checkpoint := ack,
       flight := s.flight[k..],
       bytesInFlight := s.bytesInFlight - TotalLength(s.flight[..k]),
       rto := s.initialRto,
       timeSpent := if k < |s.flight| then 0 else s.timeSpent,
       timerRunning := k < |s.flight| || s.timerRunning,
       retx := 0)
  }

  function AckReceived(s: Sender, ackno: u32, win: u16): Sender
    requires s.stream.Valid()
  {
    var ack := Unwrap(ackno, s.isn, s.checkpoint);
    var t := s.(rwnd := win);
    if ack > s.next || ack <= s.checkpoint then t else FillWindow(Acknowledge(t, ack))
  }

  function Tick(s: Sender, ms: nat): Sender {
    if s.flight == [] then
      s.(timeSpent := 0, timerRunning := false)
    else if s.timeSpent + ms >= s.rto then
      s.(out := s.out + [s.flight[0].seg],
         timeSpent := 0,
         retx := if s.rwnd > 0 then s.retx + 1 else s.retx,
         rto := if s.rwnd > 0 then s.rto * 2 % TWO32 else s.rto)
    else
      s.(timeSpent := s.timeSpent + ms)
  }

  function SendEmpty(s: Sender): Sender {
    s.(out := s.out + [Segment(DEFAULT_HEADER.(seqno := Wrap(s.next, s.isn)), [])])
  }

  function WriteOut(s: Sender, data: seq<byte>): Sender
    requires s.stream.Valid()
  {
    s.(stream := s.stream.Write(data))
  }

  function EndOut(s: Sender): Sender {
    s.(stream := s.stream.EndInput())
  }

  // ---------------------------------------------------------------- segmentation

  /** Consecutive segments, none empty, covering exactly the sequence numbers from `lo` to `hi`. */
  ghost predicate Tiles(fs: seq<InFlight>, lo: nat, hi: nat) {
    if fs == [] then lo == hi
    else fs[0].abs == lo && fs[0].seg.Length() > 0 && Tiles(fs[1..], fs[0].End(), hi)
  }

  function Payloads(fs: seq<InFlight>): seq<byte> {
    if fs == [] then [] else fs[0].seg.payload + Payloads(fs[1..])
  }

  /**
    Segmentation loses and reorders nothing: the chunks carry exactly `data`, tile its sequence
    numbers, hold at most 1000 bytes each, are never empty, and only the last one carries FIN.
   */
  lemma {:induction false} ChunksCorrect(isn: u32, at: nat, data: seq<byte>, close: bool)
    ensures var fs := Chunks(isn, at, data, close);
            && Payloads(fs) == data
            && Tiles(fs, at, at + |data| + if close then 1 else 0)
            && (fs == [] <==> data == [] && !close)
    decreases |data|
  {
    var fs := Chunks(isn, at, data, close);
    if |data| > MAX_PAYLOAD_SIZE {
      var rest := Chunks(isn, at + MAX_PAYLOAD_SIZE, data[MAX_PAYLOAD_SIZE..], close);
      ChunksCorrect(isn, at + MAX_PAYLOAD_SIZE, data[MAX_PAYLOAD_SIZE..], close);
      assert fs[1..] == rest;
      assert data == data[..MAX_PAYLOAD_SIZE] + data[MAX_PAYLOAD_SIZE..];
    } else if fs != [] {
      assert fs[1..] == [];
    }
  }

  lemma {:induction false} ChunksShaped(isn: u32, at: nat, data: seq<byte>, close: bool, i: nat)
    requires i < |Chunks(isn, at, data, close)|
    ensures var fs := Chunks(isn, at, data, close);
            && |fs[i].seg.payload| <= MAX_PAYLOAD_SIZE
            && at <= fs[i].abs
            && fs[i].abs + |fs[i].seg.payload| <= at + |data|
            && fs[i].seg.payload == data[fs[i].abs - at..fs[i].abs - at + |fs[i].seg.payload|]
            && fs[i] == MakeInFlight(isn, fs[i].abs, false, close && i == |fs| - 1, fs[i].seg.payload)
            && (i == |fs| - 1 ==> fs[i].abs + |fs[i].seg.payload| == at + |data|)
    decreases |data|
  {
    if |data| > MAX_PAYLOAD_SIZE {
      var rest := data[MAX_PAYLOAD_SIZE..];
      var tail := Chunks(isn, at + MAX_PAYLOAD_SIZE, rest, close);
      ChunksCorrect(isn, at + MAX_PAYLOAD_SIZE, rest, close);
      FirstOfMany(isn, at, data, close);
      hide Chunks, MakeInFlight, Tiles, Payloads;
      if i > 0 {
        ChunksShaped(isn, at + MAX_PAYLOAD_SIZE, rest, close, i - 1);
        var f := tail[i - 1];
        SliceOfTail(data, MAX_PAYLOAD_SIZE, f.abs - at, |f.seg.payload|);
      }
    }
  }

  lemma FirstOfMany(isn: u32, at: nat, data: seq<byte>, close: bool)
    requires |data| > MAX_PAYLOAD_SIZE
    ensures var fs, tail := Chunks(isn, at, data, close),
                            Chunks(isn, at + MAX_PAYLOAD_SIZE, data[MAX_PAYLOAD_SIZE..], close);
            && |fs| == |tail| + 1 && (forall i :: 0 < i < |fs| ==> fs[i] == tail[i - 1])
            && fs[0] == MakeInFlight(isn, at, false, false, data[..MAX_PAYLOAD_SIZE])
            && fs[0].abs == at && fs[0].seg.payload == data[..MAX_PAYLOAD_SIZE]
  {
  }

  /** Segments are filled: all but the last one carry exactly 1000 bytes. */
  lemma {:induction false} ChunksFull(isn: u32, at: nat, data: seq<byte>, close: bool, i: nat)
    requires i < |Chunks(isn, at, data, close)| - 1
    ensures |Chunks(isn, at, data, close)[i].seg.payload| == 1000
    decreases |data|
  {
    if |data| > MAX_PAYLOAD_SIZE && i > 0 {
      ChunksFull(isn, at + MAX_PAYLOAD_SIZE, data[MAX_PAYLOAD_SIZE..], close, i - 1);
    }
  }

  lemma SliceOfTail(data: seq<byte>, k: nat, at: nat, n: nat)
    requires k <= at && at + n <= |data|
    ensures data[k..][at - k..at - k + n] == data[at..at + n]
  {
  }

  lemma {:induction false} TilesTotal(fs: seq<InFlight>, lo: nat, hi: nat)
    requires Tiles(fs, lo, hi)
    ensures lo + TotalLength(fs) == hi
    decreases |fs|
  {
    if fs != [] {
      TilesTotal(fs[1..], fs[0].End(), hi);
    }
  }

  lemma {:induction false} TilesAppend(fs: seq<InFlight>, gs: seq<InFlight>, lo: nat, mid: nat, hi: nat)
    requires Tiles(fs, lo, mid) && Tiles(gs, mid, hi)
    ensures Tiles(fs + gs, lo, hi)
    decreases |fs|
  {
    if fs == [] {
      assert fs + gs == gs;
    } else {
      assert (fs + gs)[1..] == fs[1..] + gs;
      TilesAppend(fs[1..], gs, fs[0].End(), mid, hi);
    }
  }

  lemma {:induction false} TilesSplit(fs: seq<InFlight>, k: nat, lo: nat, hi: nat)
    requires Tiles(fs, lo, hi) && k <= |fs|
    ensures var mid := if k < |fs| then fs[k].abs else hi;
            Tiles(fs[..k], lo, mid) && Tiles(fs[k..], mid, hi)
    decreases k
  {
    if k > 0 {
      assert fs[1..][k - 1..] == fs[k..];
      assert fs[1..][..k - 1] == fs[..k][1..];
      TilesSplit(fs[1..], k - 1, fs[0].End(), hi);
    } else {
      assert fs[0..] == fs;
    }
  }

  lemma {:induction false} TilesWithin(fs: seq<InFlight>, lo: nat, hi: nat, j: nat)
    requires Tiles(fs, lo, hi) && j < |fs|
    ensures lo <= fs[j].abs < fs[j].End() <= hi
    decreases |fs|
  {
    if j > 0 {
      TilesWithin(fs[1..], fs[0].End(), hi, j - 1);
    } else {
      TilesOrdered(fs[1..], fs[0].End(), hi);
    }
  }

  lemma {:induction false} TilesOrdered(fs: seq<InFlight>, lo: nat, hi: nat)
    requires Tiles(fs, lo, hi)
    ensures lo <= hi
    decreases |fs|
  {
    if fs != [] {
      TilesOrdered(fs[1..], fs[0].End(), hi);
    }
  }

  /** Tiling segments are in strictly increasing order, so the least key of the queue is its oldest entry. */
  lemma {:induction false} TilesIncreasing(fs: seq<InFlight>, lo: nat, hi: nat, i: nat, j: nat)
    requires Tiles(fs, lo, hi) && i < j < |fs|
    ensures fs[i].End() <= fs[j].abs
    decreases i
  {
    if i == 0 {
      TilesWithin(fs[1..], fs[0].End(), hi, j - 1);
    } else {
      TilesIncreasing(fs[1..], fs[0].End(), hi, i - 1, j - 1);
    }
  }
}
