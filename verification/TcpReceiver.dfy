/** The receiving half of a connection: strips sequence numbers and feeds the reassembler. */
module TcpReceivers {
  import opened Prelude
  import opened WrappingIntegers
  import opened ByteStreams
  import opened Reassembly
  import opened Segments
  import opened StreamReassemblers

  datatype Receiver = Receiver(reasm: Reasm, isn: u32, syn: bool, fin: bool) {
    /** The absolute sequence number the receiver claims to be waiting for. */
    function AckPosition(): nat {
      |reasm.out.written| + 1 + (if reasm.pending == map[] && fin then 1 else 0)
    }

    function Ackno(): Option<u32> {
      if syn then Some(Wrap(AckPosition(), isn)) else None
    }

    function WindowSize(): nat
      requires reasm.out.Valid()
    {
      reasm.out.Remaining()
    }
  }

  /** The stream index at which a segment's payload starts, in 64 bits. */
  function PayloadIndex(seg: Segment, isn: u32, assembled: u32): u64 {
    (Unwrap(seg.header.seqno, isn, assembled) - (if seg.header.syn then 0 else 1)) % TWO64
  }

  function PieceOf(seg: Segment, isn: u32, assembled: u32): Piece {
    Piece(seg.payload, PayloadIndex(seg, isn, assembled), seg.header.fin)
  }

  function Receive(r: Receiver, seg: Segment): Receiver
    requires r.reasm.out.Valid()
  {
    if !r.syn && !seg.header.syn then r else
    var isn := if seg.header.syn then seg.header.seqno else r.isn;
    Receiver(Push(r.reasm, PieceOf(seg, isn, r.reasm.out.BytesWritten())), isn, true, r.fin || seg.header.fin)
  }

  function ReadInbound(r: Receiver, n: nat): Receiver
    requires r.reasm.out.Valid() && n <= r.reasm.out.BufferSize()
  {
    r.(reasm := Pop(r.reasm, n))
  }

  class TCPReceiver {
    const reassembler: StreamReassembler
    const capacity: nat
    var isn: u32
    var receivedSyn: bool
    var receivedFin: bool

    ghost function Repr(): set<object>
    {
      {this, reassembler, reassembler.output, reassembler.output.buffer}
    }

    ghost predicate Valid()
      reads Repr()
    {
      reassembler.Valid() && capacity == reassembler.capacity
    }

    ghost function Abs(): Receiver
      reads Repr()
      requires Valid()
      ensures Abs().reasm.Valid()
    {
      Receiver(reassembler.Abs(), isn, receivedSyn, receivedFin)
    }

    constructor (cap: nat)
      requires cap < TWO32
      ensures Valid() && fresh(Repr())
      ensures Abs() == Receiver(Reasm(Stream(cap, [], 0, false, false), false, map[]), 0, false, false)
    {
      reassembler := new StreamReassembler(cap);
      capacity := cap;
      isn, receivedSyn, receivedFin := 0, false, false;
    }

    method SegmentReceived(seg: Segment)
      requires Valid() && Abs().reasm.Edge() < TWO32
      modifies Repr()
      ensures Valid()
      ensures Abs() == Receive(old(Abs()), seg)
    {
      hide Push, Unwrap;
      if !receivedSyn && !seg.header.syn {
        return;
      }
      if seg.header.syn {
        isn := seg.header.seqno;
        receivedSyn := true;
      }
      if seg.header.fin {
        receivedFin := true;
      }
      var absSeqno := Unwrap(seg.header.seqno, isn, reassembler.output.bytesWritten);
      var index := (absSeqno - (if seg.header.syn then 0 else 1)) % TWO64;
      reassembler.PushSubstring(seg.payload, index, seg.header.fin);
    }

    /** The acknowledgment number in 32-bit arithmetic. */
    method Ackno() returns (a: Option<u32>)
      requires Valid()
      ensures a == Abs().Ackno()
    {
      if receivedSyn {
        var extra := if reassembler.numUnassembled == 0 && receivedFin then 1 else 0;
        a := Some(Add32(Add32(Add32(isn, reassembler.output.bytesWritten), 1), extra));
        AcknoIn32Bits(|reassembler.output.written|, isn, extra);
      } else {
        a := None;
      }
    }

    method WindowSize() returns (n: nat)
      requires Valid()
      ensures n == Abs().WindowSize()
    {
      n := reassembler.output.capacity - reassembler.output.endOfBuffer;
    }

    method Read(len: nat) returns (s: seq<byte>)
      requires Valid()
      modifies Repr()
      ensures Valid()
      ensures |s| == Min(len, old(Abs()).reasm.out.BufferSize())
      ensures s == old(Abs()).reasm.out.Buffered()[..|s|]
      ensures Abs() == ReadInbound(old(Abs()), |s|)
    {
      s := reassembler.output.Read(len);
    }
  }

  lemma AcknoIn32Bits(total: nat, isn: u32, extra: nat)
    ensures Add32(Add32(Add32(isn, total % TWO32), 1), extra) == Wrap(total + 1 + extra, isn)
  {
    hide Wrap, Add32;
    WrapIsSum(total + 1 + extra, isn);
    assert isn % TWO32 == isn;
    Add32Counts(isn, total % TWO32);
    Add32Counts(isn + total % TWO32, 1);
    Add32Counts(isn + total % TWO32 + 1, extra);
    TurnIsUnique(isn + total % TWO32 + 1 + extra, total + 1 + extra + isn);
    assert total == total / TWO32 * TWO32 + total % TWO32;
  }
}
