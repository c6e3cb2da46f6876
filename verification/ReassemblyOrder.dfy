/**
  What reassembly promises for pieces cut from one stream: the result depends only on which indices
  were offered, and it ends exactly when the whole stream is there -- provided an end-of-stream piece
  never runs ahead of the bytes it closes.
 */
module ReassemblyOrder {
  import opened Prelude
  import opened ByteStreams
  import opened Reassembly

  /** Everything known agrees with the stream. */
  ghost predicate Agrees(r: Reasm, stream: seq<byte>) {
    forall i: nat :: Knows(r, i) ==> i < |stream| && At(r, i) == stream[i]
  }

  /** The piece is a substring of the stream, and carries the end flag only at its end. */
  predicate CutFrom(p: Piece, stream: seq<byte>) {
    && |stream| < TWO64
    && p.index + |p.data| <= |stream|
    && p.data == stream[p.index..p.index + |p.data|]
    && (p.eof ==> p.index + |p.data| == |stream|)
  }

  lemma PushAgrees(r: Reasm, p: Piece, stream: seq<byte>)
    requires r.Valid() && Agrees(r, stream) && CutFrom(p, stream)
    ensures Push(r, p).Valid() && Agrees(Push(r, p), stream)
  {
    hide Push;
    PushValid(r, p);
    var t := Push(r, p);
    forall i: nat | Knows(t, i)
      ensures i < |stream| && At(t, i) == stream[i]
    {
      PushKnows(r, p, i);
      OfferedIsRight(r, p, stream, i);
    }
  }

  lemma OfferedIsRight(r: Reasm, p: Piece, stream: seq<byte>, i: nat)
    requires CutFrom(p, stream)
    ensures p.End() == p.index + |p.data|
    ensures Offers(r, p, i) ==> i < |stream| && p.data[i - p.index] == stream[i]
  {
  }

  lemma AgreesIsPrefix(r: Reasm, stream: seq<byte>)
    requires Agrees(r, stream)
    ensures r.out.written <= stream
  {
    forall i | 0 <= i < |r.out.written|
      ensures i < |stream| && r.out.written[i] == stream[i]
    {
      assert Knows(r, i);
      assert At(r, i) == r.out.written[i];
    }
    assert |r.out.written| > 0 ==> Knows(r, |r.out.written| - 1);
  }

  // ---------------------------------------------------------------- order independence

  function PushAll(r: Reasm, ps: seq<Piece>): Reasm
    requires r.Valid()
    decreases |ps|
  {
    if ps == [] then r else
      PushValid(r, ps[0]);
      PushAll(Push(r, ps[0]), ps[1..])
  }

  /** Some piece of the list offers index `i`. */
  ghost predicate SomeOffers(r: Reasm, ps: seq<Piece>, i: nat) {
    exists p :: p in ps && Offers(r, p, i)
  }

  /** Some piece of the list carries the end of the stream inside the window. */
  ghost predicate SomeEnds(r: Reasm, ps: seq<Piece>) {
    exists p :: p in ps && p.eof && EndsInside(r, p)
  }

  /** After any list of pushes exactly the initially known and the offered indices are known. */
  lemma {:induction false} PushAllKnows(r: Reasm, ps: seq<Piece>, stream: seq<byte>)
    requires r.Valid() && Agrees(r, stream)
    requires forall p :: p in ps ==> CutFrom(p, stream)
    ensures PushAll(r, ps).Valid() && Agrees(PushAll(r, ps), stream)
    ensures PushAll(r, ps).Edge() == r.Edge()
    ensures PushAll(r, ps).eof <==> r.eof || SomeEnds(r, ps)
    ensures forall i: nat :: Knows(PushAll(r, ps), i) <==> Knows(r, i) || SomeOffers(r, ps, i)
    decreases |ps|
  {
    hide Push;
    if ps != [] {
      var p, rest := ps[0], ps[1..];
      assert ps == [p] + rest;
      var r1 := Push(r, p);
      PushAgrees(r, p, stream);
      PushValid(r, p);
      PushEofFlag(r, p);
      PushAllKnows(r1, rest, stream);
      OfferedByHeadOrTail(r, r1, p, rest);
      forall i: nat
        ensures Knows(r1, i) || SomeOffers(r1, rest, i) <==> Knows(r, i) || SomeOffers(r, ps, i)
      {
        PushKnows(r, p, i);
      }
    }
  }

  lemma OfferedByHeadOrTail(r: Reasm, r1: Reasm, p: Piece, rest: seq<Piece>)
    requires r1.Edge() == r.Edge()
    ensures forall i: nat :: SomeOffers(r, [p] + rest, i) <==> Offers(r, p, i) || SomeOffers(r1, rest, i)
    ensures SomeEnds(r, [p] + rest) <==> (p.eof && EndsInside(r, p)) || SomeEnds(r1, rest)
  {
    var ps := [p] + rest;
    assert forall q :: q in ps <==> q == p || q in rest;
    forall i: nat
      ensures SomeOffers(r, ps, i) <==> Offers(r, p, i) || SomeOffers(r1, rest, i)
    {
      if SomeOffers(r, ps, i) && !Offers(r, p, i) {
        var q :| q in ps && Offers(r, q, i);
        assert q in rest && Offers(r1, q, i);
      }
      if SomeOffers(r1, rest, i) {
        var q :| q in rest && Offers(r1, q, i);
        assert q in ps && Offers(r, q, i);
      }
    }
    if SomeEnds(r1, rest) {
      var q :| q in rest && q.eof && EndsInside(r1, q);
      assert q in ps && EndsInside(r, q);
    }
    if SomeEnds(r, ps) && !(p.eof && EndsInside(r, p)) {
      var q :| q in ps && q.eof && EndsInside(r, q);
      assert q in rest && EndsInside(r1, q);
    }
  }

  /** Valid states that agree with one stream and know the same indices hold the same bytes. */
  lemma KnownDetermines(a: Reasm, b: Reasm, stream: seq<byte>)
    requires a.Valid() && b.Valid() && Agrees(a, stream) && Agrees(b, stream)
    requires forall i: nat :: Knows(a, i) <==> Knows(b, i)
    ensures a.out.written == b.out.written && a.pending == b.pending
  {
    var m, n := a.FirstUnassembled(), b.FirstUnassembled();
    assert !Knows(a, m) && !Knows(b, m);
    assert !Knows(a, n) && !Knows(b, n);
    AgreesIsPrefix(a, stream);
    AgreesIsPrefix(b, stream);
    forall i: nat
      ensures i in a.pending <==> i in b.pending
      ensures i in a.pending ==> a.pending[i] == b.pending[i]
    {
      assert Knows(a, i) <==> Knows(b, i);
      if i in a.pending {
        assert At(a, i) == stream[i] == At(b, i);
      }
    }
  }

  /** The assembled length is the least index that was neither known before nor offered. */
  lemma AssembledIsLeastMissing(r: Reasm, ps: seq<Piece>, stream: seq<byte>)
    requires r.Valid() && Agrees(r, stream)
    requires forall p :: p in ps ==> CutFrom(p, stream)
    ensures var n := PushAll(r, ps).FirstUnassembled();
            && !(Knows(r, n) || SomeOffers(r, ps, n))
            && forall i: nat :: i < n ==> Knows(r, i) || SomeOffers(r, ps, i)
  {
    PushAllKnows(r, ps, stream);
    var s := PushAll(r, ps);
    assert !Knows(s, s.FirstUnassembled());
    forall i: nat | i < s.FirstUnassembled()
      ensures Knows(r, i) || SomeOffers(r, ps, i)
    {
      assert Knows(s, i);
    }
  }

  /**
    Order independence: lists with the same pieces -- in any order, with any repetition -- leave the
    same output bytes, the same pending bytes and the same end-of-stream mark.
   */
  lemma PushOrderIrrelevant(r: Reasm, ps: seq<Piece>, qs: seq<Piece>, stream: seq<byte>)
    requires r.Valid() && Agrees(r, stream)
    requires forall p :: p in ps ==> CutFrom(p, stream)
    requires forall p :: p in ps <==> p in qs
    ensures var a, b := PushAll(r, ps), PushAll(r, qs);
            a.out.written == b.out.written && a.pending == b.pending && a.eof == b.eof
  {
    PushAllKnows(r, ps, stream);
    PushAllKnows(r, qs, stream);
    var a, b := PushAll(r, ps), PushAll(r, qs);
    forall i: nat
      ensures Knows(a, i) <==> Knows(b, i)
    {
      assert SomeOffers(r, ps, i) <==> SomeOffers(r, qs, i);
    }
    KnownDetermines(a, b, stream);
  }

  /** The same for different cuts of the stream, as long as they cover the same indices. */
  lemma SameCoverSameResult(r: Reasm, ps: seq<Piece>, qs: seq<Piece>, stream: seq<byte>)
    requires r.Valid() && Agrees(r, stream)
    requires forall p :: p in ps || p in qs ==> CutFrom(p, stream)
    requires forall i: nat :: SomeOffers(r, ps, i) <==> SomeOffers(r, qs, i)
    ensures var a, b := PushAll(r, ps), PushAll(r, qs);
            a.out.written == b.out.written && a.pending == b.pending
  {
    PushAllKnows(r, ps, stream);
    PushAllKnows(r, qs, stream);
    KnownDetermines(PushAll(r, ps), PushAll(r, qs), stream);
  }

  // ---------------------------------------------------------------- end of stream

  /** A recorded end of stream is backed by its last byte: assembled, or at least pending. */
  ghost predicate EofBacked(r: Reasm, stream: seq<byte>) {
    r.eof ==> r.FirstUnassembled() == |stream| || (|stream| > 0 && Knows(r, |stream| - 1))
  }

  /** The output has been ended only after the whole stream was assembled. */
  ghost predicate EndSound(r: Reasm, stream: seq<byte>) {
    r.out.ended ==> r.FirstUnassembled() == |stream|
  }

  /**
    A piece carrying the end of the stream may be accepted: it brings the last byte, or that byte has
    arrived already.
   */
  predicate EofSafe(r: Reasm, p: Piece) {
    p.eof && EndsInside(r, p) ==>
      p.data != [] || p.index <= r.FirstUnassembled() || Knows(r, p.index - 1)
  }

  lemma PushEofFlag(r: Reasm, p: Piece)
    requires r.out.Valid()
    ensures Push(r, p).eof <==> r.eof || (p.eof && EndsInside(r, p))
    ensures Push(r, p).out.ended <==> r.out.ended || (Push(r, p).eof && Push(r, p).pending == map[])
  {
  }

  /**
    Exactly the safe pieces keep the recorded end backed; an empty end piece that overtakes the last
    byte is the failing case.
   */
  lemma EofSafeIsExact(r: Reasm, p: Piece, stream: seq<byte>)
    requires r.Valid() && Agrees(r, stream) && CutFrom(p, stream) && EofBacked(r, stream)
    ensures EofBacked(Push(r, p), stream) <==> EofSafe(r, p)
  {
    hide Push;
    PushEofFlag(r, p);
    if p.eof && EndsInside(r, p) {
      if p.data != [] {
        assert Offers(r, p, |stream| - 1);
        PushKnows(r, p, |stream| - 1);
      } else {
        EmptyPushAssemblesNothing(r, p);
        AgreesIsPrefix(r, stream);
        assert |stream| > 0 ==> (Knows(Push(r, p), |stream| - 1) <==> Knows(r, |stream| - 1));
      }
    } else {
      UneventfulPush(r, p, stream);
    }
  }

  /** Without a new end mark, an unmarked state stays backed, and so does a complete one. */
  lemma UneventfulPush(r: Reasm, p: Piece, stream: seq<byte>)
    requires r.Valid() && Agrees(r, stream) && CutFrom(p, stream)
    requires !(p.eof && EndsInside(r, p)) && EofBacked(r, stream)
    ensures EofBacked(Push(r, p), stream)
  {
    PushEofFlag(r, p);
    if r.eof {
      PushAgrees(r, p, stream);
      PushValid(r, p);
      AgreesIsPrefix(Push(r, p), stream);
      if |stream| > 0 {
        PushKnows(r, p, |stream| - 1);
      }
    }
  }

  lemma EmptyPushAssemblesNothing(r: Reasm, p: Piece)
    requires r.Valid() && p.data == []
    ensures Push(r, p).out.written == r.out.written && Push(r, p).pending == r.pending
  {
    assert Store(r, p) == r.pending;
    assert r.FirstUnassembled() !in r.pending;
  }

  /** Safe pieces keep both promises, and end the output as soon as everything is assembled. */
  lemma SafePushEndsExactly(r: Reasm, p: Piece, stream: seq<byte>)
    requires r.Valid() && Agrees(r, stream) && CutFrom(p, stream)
    requires EofBacked(r, stream) && EndSound(r, stream) && EofSafe(r, p)
    ensures EofBacked(Push(r, p), stream) && EndSound(Push(r, p), stream)
    ensures Push(r, p).eof ==> (Push(r, p).out.ended <==> Push(r, p).FirstUnassembled() == |stream|)
  {
    hide Push;
    var t := Push(r, p);
    PushAgrees(r, p, stream);
    PushValid(r, p);
    PushEofFlag(r, p);
    AgreesIsPrefix(r, stream);
    AgreesIsPrefix(t, stream);
    if |stream| > 0 {
      PushKnows(r, p, |stream| - 1);
    }
    if p.eof && EndsInside(r, p) && p.data != [] {
      assert Offers(r, p, |stream| - 1);
    }
    if t.FirstUnassembled() == |stream| {
      NothingPendingBeyond(t, stream);
    }
  }

  lemma NothingPendingBeyond(r: Reasm, stream: seq<byte>)
    requires r.Valid() && Agrees(r, stream) && r.FirstUnassembled() == |stream|
    ensures r.pending == map[]
  {
    forall i: nat
      ensures i !in r.pending
    {
      assert Knows(r, i) ==> i < |stream|;
    }
  }

  /**
    Losing the backing is not a cosmetic matter: one more ordinary piece of the very same stream
    then ends the output while bytes are still missing.
   */
  lemma UnbackedEofEndsEarly(r: Reasm, stream: seq<byte>) returns (p: Piece)
    requires r.Valid() && Agrees(r, stream) && |stream| < TWO64
    requires !EofBacked(r, stream)
    ensures CutFrom(p, stream) && !p.eof
    ensures Push(r, p).out.ended && Push(r, p).FirstUnassembled() < |stream|
  {
    hide Push;
    AgreesIsPrefix(r, stream);
    var fu := r.FirstUnassembled();
    p := Piece(stream[fu..|stream| - 1], fu, false);
    PushAgrees(r, p, stream);
    PushKnows(r, p, |stream| - 1);
    FilledUpToLast(r, p, stream);
    PushEofFlag(r, p);
  }

  /** Everything but the last byte was offered, so nothing can be left waiting behind a gap. */
  lemma FilledUpToLast(r: Reasm, p: Piece, stream: seq<byte>)
    requires r.Valid() && Push(r, p).Valid() && Agrees(Push(r, p), stream)
    requires r.FirstUnassembled() < |stream| < TWO64
    requires p.index == r.FirstUnassembled() && p.End() == |stream| - 1
    requires !Knows(Push(r, p), |stream| - 1)
    ensures Push(r, p).pending == map[]
    ensures Push(r, p).FirstUnassembled() < |stream|
  {
    hide Push;
    var t := Push(r, p);
    var n := t.FirstUnassembled();
    PushValid(r, p);
    PushKnows(r, p, n);
    assert !Knows(t, n);
    assert n >= |stream| - 1 || n >= t.Edge();
    forall i: nat
      ensures i !in t.pending
    {
      assert Knows(t, i) ==> i < |stream| && i != |stream| - 1;
    }
  }

  /** The failing case exists: an empty end piece at index 1 of a one-byte stream, offered first. */
  lemma EmptyEofOvertakes(capacity: nat)
    requires capacity >= 1
    ensures var empty, p := Reasm(Stream(capacity, [], 0, false, false), false, map[]), Piece([], 1, true);
            && empty.Valid() && Agrees(empty, [7]) && CutFrom(p, [7])
            && Push(empty, p).out.ended && Push(empty, p).out.written == []
  {
    var empty, p := Reasm(Stream(capacity, [], 0, false, false), false, map[]), Piece([], 1, true);
    EmptyPushAssemblesNothing(empty, p);
    PushEofFlag(empty, p);
  }

  // ---------------------------------------------------------------- capacity

  lemma {:induction false} IntervalBounds(s: set<nat>, lo: nat, hi: nat)
    requires lo <= hi && forall i :: i in s ==> lo <= i < hi
    ensures |s| <= hi - lo
    decreases hi - lo
  {
    if lo < hi {
      var rest := s - {hi - 1};
      IntervalBounds(rest, lo, hi - 1);
      assert s <= rest + {hi - 1};
      if hi - 1 in s {
        assert s == rest + {hi - 1};
      } else {
        assert s == rest;
      }
    } else {
      assert s == {};
    }
  }

  /** Assembled-but-unread and unassembled bytes together never exceed the capacity. */
  lemma CapacityRespected(r: Reasm)
    requires r.Valid()
    ensures r.out.BufferSize() + |r.pending| <= r.out.capacity
  {
    IntervalBounds(r.pending.Keys, r.FirstUnassembled(), r.Edge());
  }

  datatype Action = Offer(piece: Piece) | Take(n: nat)

  predicate Allowed(r: Reasm, a: Action) {
    match a
    case Offer(_) => true
    case Take(n) => r.out.Valid() && n <= r.out.BufferSize()
  }

  function Act(r: Reasm, a: Action): Reasm
    requires r.Valid() && Allowed(r, a)
  {
    match a
    case Offer(p) => Push(r, p)
    case Take(n) => Pop(r, n)
  }

  /** A run: every action is allowed in the state it finds. */
  ghost predicate IsRun(r: Reasm, acts: seq<Action>)
    requires r.Valid()
    decreases |acts|
  {
    acts == [] ||
    (Allowed(r, acts[0]) && (ActValid(r, acts[0]); IsRun(Act(r, acts[0]), acts[1..])))
  }

  function RunOf(r: Reasm, acts: seq<Action>): Reasm
    requires r.Valid() && IsRun(r, acts)
    decreases |acts|
  {
    if acts == [] then r else (ActValid(r, acts[0]); RunOf(Act(r, acts[0]), acts[1..]))
  }

  lemma ActValid(r: Reasm, a: Action)
    requires r.Valid() && Allowed(r, a)
    ensures Act(r, a).Valid()
    ensures Act(r, a).out.capacity == r.out.capacity
    ensures r.Edge() <= Act(r, a).Edge()
  {
    match a
    case Offer(p) => PushValid(r, p);
    case Take(n) =>
  }

  /** The capacity bound holds after every interleaving of pushes and reads; the window edge never recedes. */
  lemma {:induction false} CapacityOverRuns(r: Reasm, acts: seq<Action>)
    requires r.Valid() && IsRun(r, acts)
    ensures RunOf(r, acts).Valid()
    ensures RunOf(r, acts).out.capacity == r.out.capacity
    ensures RunOf(r, acts).out.BufferSize() + |RunOf(r, acts).pending| <= r.out.capacity
    ensures r.Edge() <= RunOf(r, acts).Edge()
    decreases |acts|
  {
    if acts == [] {
      CapacityRespected(r);
    } else {
      ActValid(r, acts[0]);
      CapacityOverRuns(Act(r, acts[0]), acts[1..]);
    }
  }
}
