/**
  Reassembly as a value: the output stream plus a map from stream index to the bytes that arrived
  ahead of a gap.  `StreamReassemblers` proves the bitmap implementation equal to this.
 */
module Reassembly {
  import opened Prelude
  import opened ByteStreams

  datatype Reasm = Reasm(out: Stream, eof: bool, pending: map<nat, byte>) {

    function FirstUnassembled(): nat {
      |out.written|
    }

    /** The first index that would not fit: `first_unacceptable`. */
    function Edge(): nat {
      out.read + out.capacity
    }

    /** Pending bytes lie strictly beyond the assembled prefix and inside the window. */
    ghost predicate Valid() {
      && out.Valid()
      && forall i :: i in pending ==> FirstUnassembled() < i < Edge()
    }
  }

  /** A substring offered to the reassembler. */
  datatype Piece = Piece(data: seq<byte>, index: u64, eof: bool) {
    /** `index + length`, computed in 64 bits. */
    function End(): u64 {
      (index + |data|) % TWO64
    }
  }

  /** How many consecutive keys `m` holds from `from` on, below `edge`. */
  function RunLength(m: map<nat, byte>, from: nat, edge: nat): nat
    decreases edge - from
  {
    if from < edge && from in m then 1 + RunLength(m, from + 1, edge) else 0
  }

  lemma {:induction false} RunLengthIsMaximal(m: map<nat, byte>, from: nat, edge: nat)
    ensures forall i :: from <= i < from + RunLength(m, from, edge) ==> i in m
    ensures from <= edge ==> from + RunLength(m, from, edge) <= edge
    ensures from + RunLength(m, from, edge) < edge ==> from + RunLength(m, from, edge) !in m
    decreases edge - from
  {
    if from < edge && from in m {
      RunLengthIsMaximal(m, from + 1, edge);
    }
  }

  /** The bytes `m` holds at `from`, `from + 1`, ... */
  function Bytes(m: map<nat, byte>, from: nat, k: nat): (s: seq<byte>)
    requires forall i :: from <= i < from + k ==> i in m
    ensures |s| == k
    ensures forall j :: 0 <= j < k ==> s[j] == m[from + j]
  {
    seq(k, j requires 0 <= j < k => m[from + j])
  }

  /** The last byte of the piece falls inside the window. */
  predicate EndsInside(r: Reasm, p: Piece) {
    p.End() <= r.Edge()
  }

  /** The part of the piece that is neither assembled already nor beyond the window. */
  function Lower(r: Reasm, p: Piece): nat {
    Max(r.FirstUnassembled(), p.index)
  }

  function Upper(r: Reasm, p: Piece): nat {
    Min(r.Edge(), p.End())
  }

  /** `m` with the bytes `data` holds for indices `lo..hi` added; bytes that are already there win. */
  function Overlay(m: map<nat, byte>, lo: nat, hi: nat, index: nat, data: seq<byte>): map<nat, byte>
    requires lo < hi ==> index <= lo && hi <= index + |data|
  {
    m + map i: nat | lo <= i < hi && i !in m :: data[i - index]
  }

  /** Pending bytes after storing the clipped piece. */
  function Store(r: Reasm, p: Piece): map<nat, byte> {
    Overlay(r.pending, Lower(r, p), Upper(r, p), p.index, p.data)
  }

  /** The entries of `m` from index `from` on. */
  function Beyond(m: map<nat, byte>, from: nat): map<nat, byte> {
    map i | i in m && i >= from :: m[i]
  }

  /** Moves the contiguous run at the front of the pending bytes to the output. */
  function Assemble(r: Reasm): Reasm
    requires r.out.Valid()
  {
    var k := RunLength(r.pending, r.FirstUnassembled(), r.FirstUnassembled() + r.out.capacity);
    RunLengthIsMaximal(r.pending, r.FirstUnassembled(), r.FirstUnassembled() + r.out.capacity);
    r.(out := r.out.Write(Bytes(r.pending, r.FirstUnassembled(), k)),
       pending := Beyond(r.pending, r.FirstUnassembled() + k))
  }

  function EndIfDrained(r: Reasm): Reasm {
    if r.eof && r.pending == map[] then r.(out := r.out.EndInput()) else r
  }

  function Push(r: Reasm, p: Piece): Reasm
    requires r.out.Valid()
  {
    EndIfDrained(Assemble(r.(eof := r.eof || (p.eof && EndsInside(r, p)), pending := Store(r, p))))
  }

  function Pop(r: Reasm, n: nat): Reasm
    requires r.out.Valid() && n <= r.out.BufferSize()
  {
    r.(out := r.out.Pop(n))
  }

  // ---------------------------------------------------------------- what a push does

  /** Assembling moves a run of pending bytes and nothing is truncated by the output's capacity. */
  lemma AssembleMovesRun(r: Reasm, k: nat)
    requires r.out.Valid()
    requires forall i :: i in r.pending ==> r.FirstUnassembled() <= i < r.Edge()
    requires k == RunLength(r.pending, r.FirstUnassembled(), r.FirstUnassembled() + r.out.capacity)
    ensures forall i :: r.FirstUnassembled() <= i < r.FirstUnassembled() + k ==> i in r.pending
    ensures k <= r.out.Remaining()
    ensures Assemble(r).pending == Beyond(r.pending, r.FirstUnassembled() + k)
    ensures Assemble(r).eof == r.eof
    ensures Assemble(r).out == r.out.(written := r.out.written + Bytes(r.pending, r.FirstUnassembled(), k))
    ensures Assemble(r).Valid()
  {
    var fu := r.FirstUnassembled();
    RunLengthIsMaximal(r.pending, fu, fu + r.out.capacity);
    if k > 0 {
      assert fu + k - 1 in r.pending;
    }
    var run := Bytes(r.pending, fu, k);
    assert run[..|run|] == run;
  }

  lemma StoreKeys(r: Reasm, p: Piece)
    requires r.Valid()
    ensures forall i :: i in Store(r, p) <==> i in r.pending || Lower(r, p) <= i < Upper(r, p)
    ensures forall i :: i in Store(r, p) ==> r.FirstUnassembled() <= i < r.Edge()
  {
  }

  /** The capacity invariant survives every push, and the output only grows. */
  lemma PushValid(r: Reasm, p: Piece)
    requires r.Valid()
    ensures Push(r, p).Valid()
    ensures r.out.written <= Push(r, p).out.written
    ensures Push(r, p).out.read == r.out.read && Push(r, p).out.capacity == r.out.capacity
    ensures Push(r, p).out.error == r.out.error
  {
    StoreKeys(r, p);
    var s := r.(eof := r.eof || (p.eof && EndsInside(r, p)), pending := Store(r, p));
    AssembleMovesRun(s, RunLength(s.pending, s.FirstUnassembled(), s.FirstUnassembled() + s.out.capacity));
  }

  lemma PopValid(r: Reasm, n: nat)
    requires r.Valid() && n <= r.out.BufferSize()
    ensures Pop(r, n).Valid()
  {
  }

  /** Index `i` has arrived: it is assembled, or pending. */
  predicate Knows(r: Reasm, i: nat) {
    i < r.FirstUnassembled() || i in r.pending
  }

  function At(r: Reasm, i: nat): byte
    requires Knows(r, i)
  {
    if i < r.FirstUnassembled() then r.out.written[i] else r.pending[i]
  }

  /** Index `i` lies in the piece (which is void when its end overflows 64 bits) and inside the window. */
  predicate Offers(r: Reasm, p: Piece, i: nat) {
    p.index <= i < p.End() && i < r.Edge()
  }

  lemma ClippedIsOffered(r: Reasm, p: Piece, i: nat)
    ensures Lower(r, p) <= i < Upper(r, p) <==> Offers(r, p, i) && r.FirstUnassembled() <= i
  {
  }

  lemma AssembleKnows(r: Reasm, i: nat)
    requires r.out.Valid()
    requires forall i :: i in r.pending ==> r.FirstUnassembled() <= i < r.Edge()
    ensures Knows(Assemble(r), i) <==> Knows(r, i)
    ensures Knows(r, i) ==> At(Assemble(r), i) == At(r, i)
  {
    var fu := r.FirstUnassembled();
    var k := RunLength(r.pending, fu, fu + r.out.capacity);
    AssembleMovesRun(r, k);
  }

  /**
    A push adds exactly the offered indices to what is known, with the offered values,
    and never changes a byte that is known already.
   */
  lemma PushKnows(r: Reasm, p: Piece, i: nat)
    requires r.Valid()
    ensures Knows(Push(r, p), i) <==> Knows(r, i) || Offers(r, p, i)
    ensures Knows(r, i) ==> At(Push(r, p), i) == At(r, i)
    ensures !Knows(r, i) && Offers(r, p, i) ==> At(Push(r, p), i) == p.data[i - p.index]
  {
    hide Assemble;
    StoreKeys(r, p);
    ClippedIsOffered(r, p, i);
    var s := r.(eof := r.eof || (p.eof && EndsInside(r, p)), pending := Store(r, p));
    AssembleKnows(s, i);
  }
}
