/** The in-order, flow-controlled byte stream between an application and the protocol. */
module ByteStreams {
  import opened Prelude

  /**
    A byte stream as a value: everything ever written to it and how much of that was read.
    The bytes in between are the ones the stream is holding.
   */
  datatype Stream = Stream(capacity: nat, written: seq<byte>, read: nat, ended: bool, error: bool) {
    predicate Valid() {
      read <= |written| <= read + capacity
    }

    function BufferSize(): nat
      requires Valid()
    {
      |written| - read
    }

    function Remaining(): nat
      requires Valid()
    {
      capacity - BufferSize()
    }

    function Buffered(): seq<byte>
      requires Valid()
    {
      written[read..]
    }

    predicate Eof()
      requires Valid()
    {
      ended && BufferSize() == 0
    }

    /** The 32-bit counter `bytes_written` reports. */
    function BytesWritten(): u32 {
      |written| % TWO32
    }

    function Write(data: seq<byte>): Stream
      requires Valid()
    {
      this.(written := written + data[..Min(|data|, Remaining())])
    }

    function Pop(len: nat): Stream
      requires Valid() && len <= BufferSize()
    {
      this.(read := read + len)
    }

    function EndInput(): Stream {
      this.(ended := true)
    }

    function SetError(): Stream {
      this.(error := true)
    }
  }

  /** The ring-free implementation: bytes live at the front of a fixed buffer and are shifted down by a read. */
  class ByteStream {
    const capacity: nat
    const buffer: array<byte>
    var endOfBuffer: u32
    var bytesRead: u32
    var bytesWritten: u32
    var isInputEnded: bool
    var errorFlag: bool
    ghost var written: seq<byte>
    ghost var popped: nat

    ghost predicate Valid()
      reads this, buffer
    {
      && capacity == buffer.Length < TWO32
      && endOfBuffer <= capacity
      && popped + endOfBuffer == |written|
      && buffer[..endOfBuffer] == written[popped..]
      && bytesWritten == |written| % TWO32
      && bytesRead == popped % TWO32
    }

    ghost function Abs(): Stream
      reads this
    {
      Stream(capacity, written, popped, isInputEnded, errorFlag)
    }

    constructor (cap: nat)
      requires cap < TWO32
      ensures Valid() && fresh(buffer)
      ensures Abs() == Stream(cap, [], 0, false, false)
    {
      capacity := cap;
      buffer := new byte[cap](_ => 0x20);
      endOfBuffer, bytesRead, bytesWritten := 0, 0, 0;
      isInputEnded, errorFlag := false, false;
      written, popped := [], 0;
    }

    /** Accepts as many bytes as fit; the counters wrap at 32 bits. */
    method Write(data: seq<byte>) returns (n: nat)
      requires Valid()
      modifies this, buffer
      ensures Valid()
      ensures n == Min(|data|, old(Abs()).Remaining())
      ensures Abs() == old(Abs()).Write(data)
    {
      n := Min(|data|, capacity - endOfBuffer);
      CopyIn(data, n);
      ghost var before := written;
      written := written + data[..n];
      Add32Counts(|before|, n);
      bytesWritten := Add32(bytesWritten, n);
      assert written[popped..] == before[popped..] + data[..n];
    }

    /** The copying loop of `write`. */
    method CopyIn(data: seq<byte>, n: nat)
      requires buffer.Length == capacity < TWO32
      requires n <= |data| && endOfBuffer + n <= capacity
      modifies `endOfBuffer, buffer
      ensures endOfBuffer == old(endOfBuffer) + n
      ensures buffer[..endOfBuffer] == old(buffer[..endOfBuffer]) + data[..n]
    {
      ghost var start := endOfBuffer;
      for i := 0 to n
        invariant endOfBuffer == start + i
        invariant forall j :: 0 <= j < start ==> buffer[j] == old(buffer[j])
        invariant forall j :: 0 <= j < i ==> buffer[start + j] == data[j]
      {
        buffer[endOfBuffer] := data[i];
        endOfBuffer := endOfBuffer + 1;
      }
    }

    /** The first `len` bytes of the raw buffer; beyond `buffer_size` they are stale. */
    method PeekOutput(len: nat) returns (s: seq<byte>)
      requires Valid()
      ensures s == buffer[..Min(len, capacity)]
      ensures s[..Min(len, Abs().BufferSize())] == Abs().Buffered()[..Min(len, Abs().BufferSize())]
    {
      s := buffer[..Min(len, capacity)];
      assert s[..Min(len, endOfBuffer)] == buffer[..endOfBuffer][..Min(len, endOfBuffer)];
    }

    /** Removes the first bytes; asked for more than there are, it only spoils the 32-bit counters. */
    method PopOutput(len: u32)
      requires Valid()
      modifies this, buffer
      ensures Valid() <==> len <= old(Abs().BufferSize())
      ensures len <= old(Abs().BufferSize()) ==> Abs() == old(Abs()).Pop(len)
      ensures len > old(Abs().BufferSize()) ==> buffer[..] == old(buffer[..]) && written == old(written)
      ensures endOfBuffer == Sub32(old(endOfBuffer), len)
      ensures bytesRead == Add32(old(bytesRead), len)
      ensures isInputEnded == old(isInputEnded) && errorFlag == old(errorFlag)
    {
      ShiftDown(len);
      if len <= endOfBuffer {
        assert written[popped..][len..] == written[popped + len..];
        Add32Counts(popped, len);
        popped := popped + len;
      }
      endOfBuffer := Sub32(endOfBuffer, len);
      bytesRead := Add32(bytesRead, len);
    }

    /** The shifting loop of `pop_output`. */
    method ShiftDown(len: nat)
      requires endOfBuffer <= buffer.Length
      modifies buffer
      ensures len <= endOfBuffer ==> buffer[..endOfBuffer - len] == old(buffer[..endOfBuffer])[len..]
      ensures len > endOfBuffer ==> buffer[..] == old(buffer[..])
    {
      var i := len;
      while i < endOfBuffer
        invariant len <= i && (i <= endOfBuffer || i == len)
        invariant forall j :: 0 <= j < i - len ==> buffer[j] == old(buffer[j + len])
        invariant forall j :: i - len <= j < buffer.Length ==> buffer[j] == old(buffer[j])
      {
        buffer[i - len] := buffer[i];
        i := i + 1;
      }
    }

    /** Copies and then removes the next bytes, at most `len` of them. */
    method Read(len: nat) returns (s: seq<byte>)
      requires Valid()
      modifies this, buffer
      ensures Valid()
      ensures |s| == Min(len, old(Abs()).BufferSize())
      ensures s == old(Abs()).Buffered()[..|s|]
      ensures Abs() == old(Abs()).Pop(|s|)
    {
      var readLen := if len < endOfBuffer then len else endOfBuffer;
      s := PeekOutput(readLen);
      assert s[..readLen] == s;
      PopOutput(readLen);
    }

    method EndInput()
      requires Valid()
      modifies `isInputEnded
      ensures Valid() && Abs() == old(Abs()).EndInput()
    {
      isInputEnded := true;
    }

    method SetError()
      requires Valid()
      modifies `errorFlag
      ensures Valid() && Abs() == old(Abs()).SetError()
    {
      errorFlag := true;
    }

    predicate BufferEmpty()
      requires Valid()
      reads this, buffer
      ensures BufferEmpty() <==> Abs().BufferSize() == 0
    {
      endOfBuffer == 0
    }

    predicate Eof()
      requires Valid()
      reads this, buffer
      ensures Eof() == Abs().Eof()
    {
      isInputEnded && BufferEmpty()
    }
  }

  /** Writing is appending: no accepted byte is reordered, and the stream never exceeds its capacity. */
  lemma WriteKeepsOrder(s: Stream, data: seq<byte>)
    requires s.Valid()
    ensures var t := s.Write(data);
            && t.Valid()
            && t.Buffered() == s.Buffered() + data[..Min(|data|, s.Remaining())]
  {
    var n := Min(|data|, s.Remaining());
    assert (s.written + data[..n])[s.read..] == s.written[s.read..] + data[..n];
  }
}
