/** Machine integers and small helpers shared by every module. */
module Prelude {

  const TWO16: int := 0x1_0000
  const TWO31: int := 0x8000_0000
  const TWO32: int := 0x1_0000_0000
  const TWO63: int := 0x8000_0000_0000_0000
  const TWO64: int := 0x1_0000_0000_0000_0000

  type byte = x: int | 0 <= x < 0x100
  type u16 = x: int | 0 <= x < 0x1_0000
  type u32 = x: int | 0 <= x < 0x1_0000_0000
  type u64 = x: int | 0 <= x < 0x1_0000_0000_0000_0000

  datatype Option<+T> = None | Some(value: T)

  function Min(a: int, b: int): int {
    if a <= b then a else b
  }

  function Max(a: int, b: int): int {
    if a >= b then a else b
  }

  /** 32-bit unsigned addition. */
  function Add32(a: u32, n: nat): u32 {
    (a + n) % TWO32
  }

  /** 32-bit unsigned subtraction. */
  function Sub32(a: u32, n: u32): u32 {
    if n <= a then a - n else a - n + TWO32
  }

  /** A 32-bit counter fed increments holds their total modulo 2^32. */
  lemma Add32Counts(total: nat, n: nat)
    ensures Add32(total % TWO32, n) == (total + n) % TWO32
  {
    var q, r := total / TWO32, total % TWO32;
    assert total == q * TWO32 + r;
    var q', r' := (r + n) / TWO32, (r + n) % TWO32;
    assert r + n == q' * TWO32 + r';
    assert total + n == (q + q') * TWO32 + r';
  }

  function Pow2(n: nat): (p: nat)
    ensures p >= 1
  {
    if n == 0 then 1 else 2 * Pow2(n - 1)
  }

  lemma {:induction false} Pow2Mono(m: nat, n: nat)
    requires m <= n
    ensures 1 <= Pow2(m) <= Pow2(n)
    decreases n
  {
    if m < n {
      Pow2Mono(m, n - 1);
    } else if n > 0 {
      Pow2Mono(n - 1, n - 1);
    }
  }

  lemma Reassociate<T>(a: seq<T>, b: seq<T>, c: seq<T>)
    ensures (a + b) + c == a + (b + c)
  {
  }
}
