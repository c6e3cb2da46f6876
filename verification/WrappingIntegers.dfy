/**
  32-bit sequence numbers (section 3.3 of RFC 793): `wrap` places an absolute 64-bit
  position on the 32-bit circle, `unwrap` recovers the position nearest to a checkpoint.
 */
module WrappingIntegers {
  import opened Prelude

  function Wrap(n: nat, isn: u32): u32 {
    (n % TWO32 + isn % TWO32) % TWO32
  }

  /** The signed 32-bit difference `a - b` of two points on the circle. */
  function Diff(a: u32, b: u32): int {
    var d := (a - b) % TWO32;
    if d >= TWO31 then d - TWO32 else d
  }

  /** An unsigned 64-bit value reinterpreted as a signed one. */
  function Signed64(c: u64): int {
    if c < TWO63 then c else c - TWO64
  }

  /** The signed addition `checkpoint + diff` stays inside 64 bits (otherwise it is undefined behaviour). */
  predicate SignedSumDefined(n: u32, isn: u32, checkpoint: u64) {
    -TWO63 <= Signed64(checkpoint) + Diff(n, Wrap(checkpoint, isn)) < TWO63
  }

  function Unwrap(n: u32, isn: u32, checkpoint: u64): u64 {
    var diff := Diff(n, Wrap(checkpoint, isn));
    (checkpoint + diff + (if Signed64(checkpoint) + diff < 0 then TWO32 else 0)) % TWO64
  }

  function Distance(a: int, b: int): nat {
    if a <= b then b - a else a - b
  }

  /** `v` wraps to `n`, and no other natural number that wraps to `n` is closer to `checkpoint`. */
  ghost predicate NearestPreimage(v: nat, n: u32, isn: u32, checkpoint: nat) {
    && Wrap(v, isn) == n
    && forall x: nat :: Wrap(x, isn) == n ==> Distance(v, checkpoint) <= Distance(x, checkpoint)
  }

  lemma WrapIsSum(n: nat, isn: u32)
    ensures Wrap(n, isn) == (n + isn) % TWO32
  {
    var q := n / TWO32;
    assert n == q * TWO32 + n % TWO32;
    TurnIsUnique(n % TWO32 + isn, n + isn);
  }

  /** Numbers a whole number of turns apart have one remainder, and no others do. */
  lemma TurnIsUnique(a: int, b: int)
    ensures a % TWO32 == b % TWO32 <==> (a - b) % TWO32 == 0
  {
    var qa, qb, q := a / TWO32, b / TWO32, (a - b) / TWO32;
    assert a == qa * TWO32 + a % TWO32;
    assert b == qb * TWO32 + b % TWO32;
    assert a - b == q * TWO32 + (a - b) % TWO32;
  }

  /** Moving by whole turns is the only freedom a wrapped number leaves. */
  lemma WrapsAgree(x: nat, y: nat, isn: u32)
    ensures Wrap(x, isn) == Wrap(y, isn) <==> (x - y) % TWO32 == 0
  {
    WrapIsSum(x, isn);
    WrapIsSum(y, isn);
    TurnIsUnique(x + isn, y + isn);
  }

  /** `Diff` is the representative of the difference within half a turn of zero. */
  lemma DiffIsRepresentative(a: u32, b: u32)
    ensures -TWO31 <= Diff(a, b) < TWO31
    ensures (a - b - Diff(a, b)) % TWO32 == 0
  {
    var q := (a - b) / TWO32;
    assert a - b == q * TWO32 + (a - b) % TWO32;
  }

  /** The circle distance read off `Diff` is congruent to the real one. */
  lemma DiffOfWraps(v: nat, c: nat, isn: u32)
    ensures (v - c - Diff(Wrap(v, isn), Wrap(c, isn))) % TWO32 == 0
    ensures -TWO31 <= Diff(Wrap(v, isn), Wrap(c, isn)) < TWO31
  {
    hide Wrap, Diff;
    var a, b := Wrap(v, isn), Wrap(c, isn);
    DiffIsRepresentative(a, b);
    WrapIsSum(v, isn);
    WrapIsSum(c, isn);
    TurnIsUnique(v + isn, a);
    TurnIsUnique(c + isn, b);
    TurnsAdd(v + isn - a, a - b - Diff(a, b));
    TurnsAdd(v + isn - a + (a - b - Diff(a, b)), -(c + isn - b));
    TurnsNegate(c + isn - b);
  }

  lemma TurnsAdd(a: int, b: int)
    ensures a % TWO32 == 0 && b % TWO32 == 0 ==> (a + b) % TWO32 == 0
  {
    TurnIsUnique(a + b, a);
  }

  lemma TurnsNegate(a: int)
    ensures a % TWO32 == 0 ==> (-a) % TWO32 == 0
  {
    TurnIsUnique(0, a);
  }

  lemma PreimageAt(n: u32, isn: u32, c: nat, x: int)
    requires x >= 0
    requires (x - (c + Diff(n, Wrap(c, isn)))) % TWO32 == 0
    ensures Wrap(x, isn) == n
  {
    hide Wrap, Diff;
    var b := Wrap(c, isn);
    var d := Diff(n, b);
    DiffIsRepresentative(n, b);
    WrapIsSum(c, isn);
    WrapIsSum(x, isn);
    TurnIsUnique(c + isn, b);
    TurnsAdd(x - (c + d), c + isn - b);
    TurnsNegate(n - b - d);
    TurnsAdd(x + isn - b - d, -(n - b - d));
    TurnIsUnique(x + isn, n);
  }

  /** A preimage within half a turn, or in the first turn, is as close as any other. */
  lemma NoneCloser(v: nat, n: u32, isn: u32, c: nat)
    requires Wrap(v, isn) == n
    requires Distance(v, c) <= TWO31 || c <= v < TWO32
    ensures NearestPreimage(v, n, isn, c)
  {
    hide Wrap;
    forall x: nat | Wrap(x, isn) == n
      ensures Distance(v, c) <= Distance(x, c)
    {
      WrapsAgree(x, v, isn);
      TurnsApart(x, v);
    }
  }

  /** Below 2^63 the code adds a turn only to keep the result non-negative. */
  lemma UnwrapBelow(n: u32, isn: u32, checkpoint: u64)
    requires checkpoint < TWO63 && SignedSumDefined(n, isn, checkpoint)
    ensures var v, target := Unwrap(n, isn, checkpoint), checkpoint + Diff(n, Wrap(checkpoint, isn));
            v == if target < 0 then target + TWO32 else target
  {
  }

  /** From 2^63 on the code adds a turn, or runs past 2^64 back to the start. */
  lemma UnwrapAbove(n: u32, isn: u32, checkpoint: u64)
    requires checkpoint >= TWO63
    ensures var v, target := Unwrap(n, isn, checkpoint), checkpoint + Diff(n, Wrap(checkpoint, isn));
            v == if target + TWO32 < TWO64 then target + TWO32
                 else if target < TWO64 then target + TWO32 - TWO64
                 else target - TWO64
  {
  }

  /**
    `unwrap` returns the nearest preimage exactly below 2^63.  From there on the signed cast makes
    the code add a whole turn, which is harmless only in the one tie it turns upwards.
   */
  lemma UnwrapNearest(n: u32, isn: u32, checkpoint: u64)
    requires SignedSumDefined(n, isn, checkpoint)
    ensures NearestPreimage(Unwrap(n, isn, checkpoint), n, isn, checkpoint)
            <==> (checkpoint < TWO63
                  || (Diff(n, Wrap(checkpoint, isn)) == -TWO31 && checkpoint + TWO31 < TWO64))
  {
    var diff := Diff(n, Wrap(checkpoint, isn));
    var v := Unwrap(n, isn, checkpoint);
    if checkpoint < TWO63 {
      UnwrapBelow(n, isn, checkpoint);
      PreimageAt(n, isn, checkpoint, v);
      NoneCloser(v, n, isn, checkpoint);
    } else {
      UnwrapNearestAbove(v, n, isn, checkpoint, diff);
    }
  }

  lemma UnwrapNearestAbove(v: u64, n: u32, isn: u32, checkpoint: u64, diff: int)
    requires checkpoint >= TWO63
    requires diff == Diff(n, Wrap(checkpoint, isn))
    requires v == Unwrap(n, isn, checkpoint)
    ensures NearestPreimage(v, n, isn, checkpoint) <==> (diff == -TWO31 && checkpoint + TWO31 < TWO64)
  {
    UnwrapAbove(n, isn, checkpoint);
    if diff == -TWO31 && checkpoint + TWO31 < TWO64 {
      PreimageAt(n, isn, checkpoint, v);
      NoneCloser(v, n, isn, checkpoint);
    } else {
      var closer: nat := checkpoint + diff;
      PreimageAt(n, isn, checkpoint, closer);
      assert Distance(closer, checkpoint) < Distance(v, checkpoint);
    }
  }

  /** From 2^63 on not even the checkpoint itself is recovered. */
  lemma UnwrapMissesAbove(isn: u32, checkpoint: u64)
    requires checkpoint >= TWO63
    ensures var v := Unwrap(Wrap(checkpoint, isn), isn, checkpoint);
            v == (checkpoint + TWO32) % TWO64 && !NearestPreimage(v, Wrap(checkpoint, isn), isn, checkpoint)
  {
    var n := Wrap(checkpoint, isn);
    assert Diff(n, n) == 0;
    UnwrapNearest(n, isn, checkpoint);
  }

  /** Unwrapping a wrapped position: exactly the positions recovered from a given checkpoint. */
  lemma UnwrapWrap(v: nat, isn: u32, checkpoint: u64)
    requires checkpoint < TWO63 && SignedSumDefined(Wrap(v, isn), isn, checkpoint)
    ensures Unwrap(Wrap(v, isn), isn, checkpoint) == v
            <==> (-TWO31 <= v - checkpoint < TWO31 || checkpoint + TWO31 <= v < TWO32)
  {
    var n := Wrap(v, isn);
    DiffOfWraps(v, checkpoint, isn);
    UnwrapBelow(n, isn, checkpoint);
    TurnsApart(v, checkpoint + Diff(n, Wrap(checkpoint, isn)));
  }

  /** From 2^63 on other positions are recovered: one turn too far up, or past 2^64 at the start. */
  lemma UnwrapWrapAbove(v: u64, isn: u32, checkpoint: u64)
    requires checkpoint >= TWO63 && SignedSumDefined(Wrap(v, isn), isn, checkpoint)
    ensures Unwrap(Wrap(v, isn), isn, checkpoint) == v
            <==> || TWO31 <= v - checkpoint < TWO31 + TWO32
                 || -TWO31 <= v + TWO64 - checkpoint < TWO31
                 || (TWO31 <= v + TWO64 - checkpoint < TWO31 + TWO32 && v < TWO32)
  {
    var n := Wrap(v, isn);
    DiffOfWraps(v, checkpoint, isn);
    UnwrapAbove(n, isn, checkpoint);
    var target := checkpoint + Diff(n, Wrap(checkpoint, isn));
    TurnsApart(v, target);
    assert (v + TWO64 - target) % TWO32 == 0 by { TurnsAdd(v - target, TWO64); }
    TurnsApart(v + TWO64, target);
  }

  lemma TurnsApart(v: nat, target: int)
    requires (v - target) % TWO32 == 0
    ensures v == target || v >= target + TWO32 || v <= target - TWO32
    ensures v == target + TWO32 || v >= target + 2 * TWO32 || v <= target
  {
    var q := (v - target) / TWO32;
    assert v - target == q * TWO32;
  }

  /** Positions and checkpoints below 2^31 always round-trip. */
  lemma UnwrapSmall(v: nat, isn: u32, checkpoint: nat)
    requires v < TWO31 && checkpoint < TWO31
    ensures Unwrap(Wrap(v, isn), isn, checkpoint) == v
  {
    UnwrapWrap(v, isn, checkpoint);
  }

  /** The position in the first turn that a wrapped number stands for. */
  function Position(n: u32, isn: u32): u32 {
    (n - isn) % TWO32
  }

  lemma PositionOfWrap(v: nat, isn: u32)
    requires v < TWO32
    ensures Position(Wrap(v, isn), isn) == v
  {
    WrapIsSum(v, isn);
    TurnIsUnique(v + isn, Wrap(v, isn));
    TurnIsUnique(Wrap(v, isn) - isn, v);
    TurnsNegate(v + isn - Wrap(v, isn));
  }

  lemma WrapOfPosition(n: u32, isn: u32)
    ensures Wrap(Position(n, isn), isn) == n
  {
    var p := Position(n, isn);
    WrapIsSum(p, isn);
    TurnIsUnique(n - isn, p);
    TurnIsUnique(p + isn, n);
    TurnsNegate(n - isn - p);
  }
}
