/** The reassembler as implemented: a byte buffer and a bitmap, both relative to the first unassembled index. */
module StreamReassemblers {
  import opened Prelude
  import opened ByteStreams
  import opened Reassembly

  predicate IsMarked(written: seq<bool>, base: nat, i: nat) {
    base <= i < base + |written| && written[i - base]
  }

  /** The bytes marked in the bitmap, keyed by stream index. */
  function Marked(buffer: seq<byte>, written: seq<bool>, base: nat): (m: map<nat, byte>)
    requires |buffer| == |written|
    ensures forall i: nat :: i in m <==> IsMarked(written, base, i)
  {
    map i: nat | base <= i < base + |written| && IsMarked(written, base, i) :: buffer[i - base]
  }

  /** Marking one free position adds one key. */
  lemma MarkOne(buffer: seq<byte>, written: seq<bool>, base: nat, j: nat, b: byte)
    requires |buffer| == |written| && j < |written| && !written[j]
    ensures Marked(buffer[j := b], written[j := true], base) == Marked(buffer, written, base)[base + j := b]
    ensures |Marked(buffer[j := b], written[j := true], base)| == |Marked(buffer, written, base)| + 1
  {
    var m := Marked(buffer, written, base);
    assert base + j !in m;
    assert Marked(buffer[j := b], written[j := true], base) == m[base + j := b];
    assert m[base + j := b].Keys == m.Keys + {base + j};
  }

  lemma OverlayNothing(m: map<nat, byte>, lo: nat, hi: nat, index: nat, data: seq<byte>)
    requires lo < hi ==> index <= lo && hi <= index + |data|
    ensures Overlay(m, lo, lo, index, data) == m
    ensures lo >= hi ==> Overlay(m, lo, hi, index, data) == m
  {
  }

  lemma OverlayOneMore(m: map<nat, byte>, lo: nat, hi: nat, index: nat, data: seq<byte>)
    requires lo <= hi && index <= lo && hi < index + |data|
    ensures hi !in Overlay(m, lo, hi, index, data) ==>
              Overlay(m, lo, hi + 1, index, data) == Overlay(m, lo, hi, index, data)[hi := data[hi - index]]
    ensures hi in Overlay(m, lo, hi, index, data) ==>
              Overlay(m, lo, hi + 1, index, data) == Overlay(m, lo, hi, index, data)
  {
  }

  /** A run of keys that cannot be extended is the run `RunLength` finds. */
  lemma {:induction false} RunLengthUnique(m: map<nat, byte>, from: nat, edge: nat, k: nat)
    requires from + k <= edge
    requires forall i :: from <= i < from + k ==> i in m
    requires from + k < edge ==> from + k !in m
    ensures RunLength(m, from, edge) == k
    decreases k
  {
    if k > 0 {
      RunLengthUnique(m, from + 1, edge, k - 1);
    }
  }

  /** Dropping the run at the front removes exactly its length in keys. */
  lemma {:induction false} DropCount(m: map<nat, byte>, from: nat, k: nat)
    requires forall i :: i in m ==> from <= i
    requires forall i :: from <= i < from + k ==> i in m
    ensures |m| == k + |Beyond(m, from + k)|
    decreases k
  {
    if k == 0 {
      assert Beyond(m, from) == m;
    } else {
      var m1 := Beyond(m, from + 1);
      assert m.Keys == m1.Keys + {from};
      DropCount(m1, from + 1, k - 1);
      assert Beyond(m, from + k) == Beyond(m1, from + k);
    }
  }

  /** Erasing the front of the bitmap and padding it at the back moves its base up. */
  lemma MarkedAfterShift(buffer: seq<byte>, written: seq<bool>, base: nat, k: nat, pad: seq<byte>, unmarked: seq<bool>)
    requires |buffer| == |written| && k <= |buffer|
    requires |pad| == |unmarked| == k && forall j :: 0 <= j < k ==> !unmarked[j]
    ensures Marked(buffer[k..] + pad, written[k..] + unmarked, base + k)
            == Beyond(Marked(buffer, written, base), base + k)
  {
    var shifted := Marked(buffer[k..] + pad, written[k..] + unmarked, base + k);
    forall i: nat
      ensures i in shifted <==> i in Beyond(Marked(buffer, written, base), base + k)
    {
      assert IsMarked(written[k..] + unmarked, base + k, i) <==> IsMarked(written, base, i) && i >= base + k;
    }
  }

  class StreamReassembler {
    const output: ByteStream
    const capacity: nat
    var receivedEof: bool
    var buffer: seq<byte>
    var written: seq<bool>
    var numUnassembled: nat

    /** The class invariant; a push needs `first_unacceptable` to be representable in 32 bits. */
    ghost predicate Valid()
      reads this, output, output.buffer
    {
      && output.Valid()
      && capacity == output.capacity == |buffer| == |written|
      && Abs().Valid()
      && numUnassembled == |Abs().pending|
    }

    ghost function Abs(): Reasm
      requires |buffer| == |written|
      reads this, output
    {
      Reasm(output.Abs(), receivedEof, Marked(buffer, written, |output.written|))
    }

    constructor (cap: nat)
      requires cap < TWO32
      ensures Valid() && fresh(output) && fresh(output.buffer)
      ensures Abs() == Reasm(Stream(cap, [], 0, false, false), false, map[])
    {
      output := new ByteStream(cap);
      capacity := cap;
      receivedEof := false;
      buffer := seq(cap, _ => 0x20);
      written := seq(cap, _ => false);
      numUnassembled := 0;
      new;
      assert Marked(buffer, written, 0) == map[];
    }

    method PushSubstring(data: seq<byte>, index: u64, eof: bool)
      requires Valid() && Abs().Edge() < TWO32
      modifies this, output, output.buffer
      ensures Valid()
      ensures Abs() == Push(old(Abs()), Piece(data, index, eof))
    {
      hide Marked, Overlay, Assemble, Store, EndsInside;
      StoreKeys(Abs(), Piece(data, index, eof));
      Place(data, index, eof);
      WriteSegment();
      if receivedEof && numUnassembled == 0 {
        output.EndInput();
      }
    }

    /** Clips the piece to the window and stores what is left of it. */
    method Place(data: seq<byte>, index: u64, eof: bool)
      requires Valid() && Abs().Edge() < TWO32
      modifies `receivedEof, `buffer, `written, `numUnassembled
      ensures capacity == |buffer| == |written| && numUnassembled == |Abs().pending|
      ensures var r, p := old(Abs()), Piece(data, index, eof);
              Abs() == r.(eof := r.eof || (eof && EndsInside(r, p)), pending := Store(r, p))
    {
      hide Marked, Overlay;
      ghost var r := Abs();
      ghost var p := Piece(data, index, eof);
      var firstUnassembled := output.bytesWritten;
      var firstUnacceptable := firstUnassembled + capacity - output.endOfBuffer;
      var end := (index + |data|) % TWO64;
      var lIndex := Max(firstUnassembled, index);
      var rIndex := Min(firstUnacceptable, end);
      assert firstUnassembled == r.FirstUnassembled() && firstUnacceptable == r.Edge();
      assert lIndex == Lower(r, p) && rIndex == Upper(r, p);
      if eof && rIndex == end {
        receivedEof := true;
      }
      CreateSegment(firstUnassembled, index, lIndex, rIndex, data);
    }

    /** Marks the clipped range, keeping bytes that are already marked. */
    method CreateSegment(firstUnassembled: nat, index: nat, lIndex: nat, rIndex: nat, data: seq<byte>)
      requires |buffer| == |written|
      requires numUnassembled == |Marked(buffer, written, firstUnassembled)|
      requires firstUnassembled <= lIndex && rIndex <= firstUnassembled + |buffer|
      requires lIndex < rIndex ==> index <= lIndex && rIndex <= index + |data|
      modifies `buffer, `written, `numUnassembled
      ensures |buffer| == |written| == old(|written|)
      ensures Marked(buffer, written, firstUnassembled)
              == Overlay(old(Marked(buffer, written, firstUnassembled)), lIndex, rIndex, index, data)
      ensures numUnassembled == |Marked(buffer, written, firstUnassembled)|
    {
      hide Marked, Overlay;
      ghost var before := Marked(buffer, written, firstUnassembled);
      OverlayNothing(before, lIndex, rIndex, index, data);
      if lIndex >= rIndex {
        return;
      }
      for it := lIndex to rIndex
        invariant |buffer| == |written| == old(|written|)
        invariant Marked(buffer, written, firstUnassembled) == Overlay(before, lIndex, it, index, data)
        invariant numUnassembled == |Marked(buffer, written, firstUnassembled)|
      {
        OverlayOneMore(before, lIndex, it, index, data);
        MarkAt(firstUnassembled, it, data[it - index]);
      }
    }

    /** One step of the marking loop. */
    method MarkAt(firstUnassembled: nat, it: nat, b: byte)
      requires |buffer| == |written|
      requires firstUnassembled <= it < firstUnassembled + |buffer|
      requires numUnassembled == |Marked(buffer, written, firstUnassembled)|
      modifies `buffer, `written, `numUnassembled
      ensures |buffer| == |written| == old(|written|)
      ensures var m := old(Marked(buffer, written, firstUnassembled));
              Marked(buffer, written, firstUnassembled) == if it in m then m else m[it := b]
      ensures numUnassembled == |Marked(buffer, written, firstUnassembled)|
    {
      var j := it - firstUnassembled;
      assert IsMarked(written, firstUnassembled, it) <==> written[j];
      if !written[j] {
        MarkOne(buffer, written, firstUnassembled, j, b);
        buffer := buffer[j := b];
        written := written[j := true];
        numUnassembled := numUnassembled + 1;
      }
    }

    /** Counts the marks at the front of the bitmap. */
    method CountAssembled() returns (k: nat)
      requires |buffer| == |written| == capacity
      ensures k <= capacity
      ensures forall j :: 0 <= j < k ==> written[j]
      ensures k < capacity ==> !written[k]
    {
      k := 0;
      while k < capacity
        invariant k <= capacity && forall j :: 0 <= j < k ==> written[j]
      {
        if !written[k] {
          break;
        }
        k := k + 1;
      }
    }

    /** Hands the contiguous front to the output and shifts buffer and bitmap down. */
    method WriteSegment()
      requires output.Valid() && capacity == output.capacity == |buffer| == |written|
      requires forall i :: i in Abs().pending ==> Abs().FirstUnassembled() <= i < Abs().Edge()
      requires numUnassembled == |Abs().pending|
      modifies this, output, output.buffer
      ensures Valid() && receivedEof == old(receivedEof)
      ensures Abs() == Assemble(old(Abs()))
    {
      hide Marked, Assemble, Beyond, RunLength;
      ghost var r := Abs();
      assert r.out.Valid();
      hide ByteStream.Valid;
      var k := CountAssembled();
      RunIsCounted(r, k);
      AssembleMovesRun(r, k);
      FrontIsRun(r, k);
      var n := output.Write(buffer[..k]);
      assert buffer[..k][..n] == buffer[..k];
      ShiftDown(r.FirstUnassembled(), k);
    }

    /** Erases the front of buffer and bitmap and pads them at the back. */
    method ShiftDown(ghost base: nat, k: nat)
      requires |buffer| == |written| && k <= |buffer|
      requires forall j :: 0 <= j < k ==> written[j]
      requires numUnassembled == |Marked(buffer, written, base)|
      modifies `buffer, `written, `numUnassembled
      ensures |buffer| == |written| == old(|written|)
      ensures Marked(buffer, written, base + k) == Beyond(old(Marked(buffer, written, base)), base + k)
      ensures numUnassembled == |Marked(buffer, written, base + k)|
    {
      hide Beyond;
      var pad: seq<byte> := seq(k, _ => 0x20);
      var unmarked := seq(k, _ => false);
      MarkedAfterShift(buffer, written, base, k, pad, unmarked);
      assert forall i :: base <= i < base + k ==> IsMarked(written, base, i);
      DropCount(Marked(buffer, written, base), base, k);
      buffer := buffer[k..] + pad;
      written := written[k..] + unmarked;
      numUnassembled := numUnassembled - k;
    }

    lemma FrontIsRun(r: Reasm, k: nat)
      requires |buffer| == |written| && k <= |buffer|
      requires r.pending == Marked(buffer, written, r.FirstUnassembled())
      requires forall i :: r.FirstUnassembled() <= i < r.FirstUnassembled() + k ==> i in r.pending
      ensures buffer[..k] == Bytes(r.pending, r.FirstUnassembled(), k)
    {
    }

    lemma RunIsCounted(r: Reasm, k: nat)
      requires |buffer| == |written| == capacity == r.out.capacity && k <= capacity
      requires r.pending == Marked(buffer, written, r.FirstUnassembled())
      requires forall j :: 0 <= j < k ==> written[j]
      requires k < capacity ==> !written[k]
      ensures RunLength(r.pending, r.FirstUnassembled(), r.FirstUnassembled() + r.out.capacity) == k
    {
      var fu := r.FirstUnassembled();
      forall i | fu <= i < fu + k
        ensures i in r.pending
      {
        assert written[i - fu];
      }
      RunLengthUnique(r.pending, fu, fu + capacity, k);
    }
  }
}
