/** The Internet checksum (section 1 of RFC 1071). */
module Checksums {
  import opened Prelude

  /** What a byte contributes to the 16-bit word it belongs to. */
  function HalfWord(b: byte, low: bool): u16 {
    var v: int := b;
    if low then v else v * 0x100
  }

  /** The sum of `data` as big-endian 16-bit words; `parity` says that a word is half read. */
  function WordSum(data: seq<byte>, parity: bool): nat {
    if data == [] then 0
    else HalfWord(data[0], parity) + WordSum(data[1..], !parity)
  }

  predicate ParityAfter(parity: bool, n: nat) {
    if n % 2 == 0 then parity else !parity
  }

  /** End-around carry: adds the high half to the low half until 16 bits are left. */
  function Fold(x: u32): u16
    decreases x
  {
    if x > 0xffff then Fold(x / 0x1_0000 + x % 0x1_0000) else x
  }

  function ChecksumOf(sum: u32): u16 {
    0xffff - Fold(sum)
  }

  class InternetChecksum {
    var sum: u32
    var parity: bool

    constructor (initialSum: u32)
      ensures sum == initialSum && !parity
    {
      sum, parity := initialSum, false;
    }

    /** Adds bytes; the accumulator is 32 bits wide. */
    method Add(data: seq<byte>)
      modifies this
      ensures sum == (old(sum) + WordSum(data, old(parity))) % TWO32
      ensures parity == ParityAfter(old(parity), |data|)
    {
      for i := 0 to |data|
        invariant sum == (old(sum) + WordSum(data[..i], old(parity))) % TWO32
        invariant parity == ParityAfter(old(parity), i)
      {
        ghost var before := WordSum(data[..i], old(parity));
        var val: u16 := data[i];
        if !parity {
          val := val * 0x100;
        }
        WordSumSnoc(data, i, old(parity));
        Add32Counts(old(sum) + before, val);
        sum := Add32(sum, val);
        parity := !parity;
      }
      assert data[..|data|] == data;
    }

    method Value() returns (v: u16)
      ensures v == ChecksumOf(sum)
    {
      var ret := sum;
      while ret > 0xffff
        invariant 0 <= ret < TWO32 && Fold(ret) == Fold(sum)
        decreases ret
      {
        ret := ret / 0x1_0000 + ret % 0x1_0000;
      }
      v := 0xffff - ret;
    }
  }

  /** Feeding data in two parts, odd lengths included, is feeding it at once. */
  lemma {:induction false} WordSumConcat(a: seq<byte>, b: seq<byte>, parity: bool)
    ensures WordSum(a + b, parity) == WordSum(a, parity) + WordSum(b, ParityAfter(parity, |a|))
    decreases |a|
  {
    if a == [] {
      assert a + b == b;
    } else {
      assert (a + b)[1..] == a[1..] + b;
      WordSumConcat(a[1..], b, !parity);
    }
  }

  lemma WordSumSnoc(data: seq<byte>, i: nat, parity: bool)
    requires i < |data|
    ensures WordSum(data[..i + 1], parity)
            == WordSum(data[..i], parity) + HalfWord(data[i], ParityAfter(parity, i))
  {
    assert data[..i + 1] == data[..i] + [data[i]];
    WordSumConcat(data[..i], [data[i]], parity);
    assert [data[i]][1..] == [];
  }

  /** Feeding any list of chunks one after another is feeding their concatenation. */
  function Flatten(chunks: seq<seq<byte>>): seq<byte> {
    if chunks == [] then [] else chunks[0] + Flatten(chunks[1..])
  }

  function ChunkSum(chunks: seq<seq<byte>>, parity: bool): nat {
    if chunks == [] then 0
    else WordSum(chunks[0], parity) + ChunkSum(chunks[1..], ParityAfter(parity, |chunks[0]|))
  }

  lemma {:induction false} ChunksDoNotMatter(chunks: seq<seq<byte>>, parity: bool)
    ensures ChunkSum(chunks, parity) == WordSum(Flatten(chunks), parity)
    decreases |chunks|
  {
    if chunks != [] {
      ChunksDoNotMatter(chunks[1..], ParityAfter(parity, |chunks[0]|));
      WordSumConcat(chunks[0], Flatten(chunks[1..]), parity);
    }
  }

  /**
    The folded sum is the one's complement sum: the representative of `x` modulo 65535 that is zero
    only for zero.
   */
  lemma {:induction false} FoldClosedForm(x: u32)
    ensures Fold(x) == if x == 0 then 0 else (x - 1) % 0xffff + 1
    decreases x
  {
    if x > 0xffff {
      var y := x / 0x1_0000 + x % 0x1_0000;
      FoldClosedForm(y);
      assert x - 1 == (y - 1) + 0xffff * (x / 0x1_0000);
      SameRemainder(x - 1, y - 1, x / 0x1_0000);
    }
  }

  lemma SameRemainder(a: nat, b: nat, q: nat)
    requires a == b + 0xffff * q
    ensures a % 0xffff == b % 0xffff
  {
    var k, r := b / 0xffff, b % 0xffff;
    assert b == 0xffff * k + r;
    assert a == 0xffff * (k + q) + r;
    Uniquely(a, k + q, r);
  }

  lemma Uniquely(a: nat, q: nat, r: nat)
    requires a == 0xffff * q + r && r < 0xffff
    ensures a % 0xffff == r
  {
  }

  /** A sum verifies -- the checksum comes out as zero -- exactly when it is a positive multiple of 65535. */
  lemma VerifiesExactly(x: u32)
    ensures ChecksumOf(x) == 0 <==> x > 0 && x % 0xffff == 0
  {
    FoldClosedForm(x);
    if x > 0 {
      var q, r := x / 0xffff, x % 0xffff;
      assert x == 0xffff * q + r;
      if r == 0 {
        Uniquely(x - 1, q - 1, 0xfffe);
      } else {
        Uniquely(x - 1, q, r - 1);
      }
    }
  }

  /** Adding the complement of a sum to it makes it verify. */
  lemma ComplementVerifies(x: u32)
    requires x + ChecksumOf(x) < TWO32
    ensures ChecksumOf(x + ChecksumOf(x)) == 0
  {
    hide Fold;
    FoldClosedForm(x);
    var y := x + ChecksumOf(x);
    VerifiesExactly(y);
    if x > 0 {
      var q, r := (x - 1) / 0xffff, (x - 1) % 0xffff;
      assert x - 1 == 0xffff * q + r;
      assert y == 0xffff * (q + 1) + 0;
      Uniquely(y, q + 1, 0);
    }
  }

  lemma {:induction false} WordSumBound(data: seq<byte>)
    ensures WordSum(data, false) <= (|data| + 1) / 2 * 0xffff
    decreases |data|
  {
    if |data| >= 2 {
      WordSumBound(data[2..]);
      assert data[1..][1..] == data[2..];
      assert WordSum(data, false) == data[0] * 0x100 + (data[1] + WordSum(data[2..], false));
    } else if |data| == 1 {
      assert data[1..] == [];
    }
  }

  /** Data that fits a datagram cannot overflow the 32-bit accumulator. */
  lemma NoOverflow(data: seq<byte>, initial: nat)
    requires |data| <= 0xffff && initial <= 0x7fff_0000
    ensures initial + WordSum(data, false) < TWO32 - 0x1_0000
  {
    WordSumBound(data);
    assert (|data| + 1) / 2 * 0xffff <= 0x8000 * 0xffff;
  }
}
