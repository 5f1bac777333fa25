/** Rust's bitwise operators on unsigned integers, defined on the bits of
    natural numbers: `<<` on a u32 drops the bits shifted out, `>>` drops
    the low bits, `|` and `&` combine bit by bit. */
module Bits {
  import opened Ints

  function Pow2(n: nat): (p: nat)
    ensures p >= 1
  {
    if n == 0 then 1 else 2 * Pow2(n - 1)
  }

  lemma Pow2Of5()
    ensures Pow2(5) == 32
  {
    assert Pow2(1) == 2 && Pow2(2) == 4 && Pow2(3) == 8 && Pow2(4) == 16;
  }

  /** `m` has its low n bits clear: a multiple of 2^n. */
  predicate LowBitsClear(m: nat, n: nat)
  {
    n == 0 || (m % 2 == 0 && LowBitsClear(m / 2, n - 1))
  }

  /** `x << n` on a u32. */
  function Shl(x: u32, n: nat): u32
  {
    AsU32(x * Pow2(n))
  }

  /** `x >> n` on an unsigned integer: n halvings, each dropping a bit. */
  function Shr(x: nat, n: nat): nat
  {
    if n == 0 then x else Shr(x / 2, n - 1)
  }

  /** `a | b`, bit by bit from the least significant bit. */
  function BitOr(a: nat, b: nat): nat
    decreases a + b
  {
    if a == 0 then b
    else if b == 0 then a
    else 2 * BitOr(a / 2, b / 2) + (if a % 2 == 1 || b % 2 == 1 then 1 else 0)
  }

  /** `a & b`, bit by bit from the least significant bit. */
  function BitAnd(a: nat, b: nat): nat
    decreases a + b
  {
    if a == 0 || b == 0 then 0
    else 2 * BitAnd(a / 2, b / 2) + (if a % 2 == 1 && b % 2 == 1 then 1 else 0)
  }

  /** Or-ing a value below 2^n into a multiple of 2^n is addition: the
      two have no bit in common. */
  lemma {:induction false} OrDisjoint(m: nat, l: nat, n: nat)
    requires LowBitsClear(m, n) && l < Pow2(n)
    ensures BitOr(m, l) == m + l
  {
    if n > 0 && m != 0 && l != 0 {
      assert BitOr(m, l) == 2 * BitOr(m / 2, l / 2) + l % 2;
      OrDisjoint(m / 2, l / 2, n - 1);
    }
  }

  /** Masking with 2^n - 1 keeps the low n bits. */
  lemma {:induction false} AndLow(m: nat, l: nat, n: nat)
    requires LowBitsClear(m, n) && l < Pow2(n)
    ensures BitAnd(m + l, Pow2(n) - 1) == l
  {
    if n > 0 && m + l != 0 {
      var p := Pow2(n - 1);
      var x, mask := m + l, 2 * p - 1;
      assert Pow2(n) - 1 == mask;
      assert x / 2 == m / 2 + l / 2 && x % 2 == l % 2;
      assert mask / 2 == p - 1 && mask % 2 == 1;
      assert BitAnd(x, mask) == 2 * BitAnd(x / 2, mask / 2) + l % 2;
      AndLow(m / 2, l / 2, n - 1);
    }
  }

  /** Shifting right by n drops the low n bits, whatever they are. */
  lemma {:induction false} ShrHigh(m: nat, l: nat, n: nat)
    requires LowBitsClear(m, n) && l < Pow2(n)
    ensures Shr(m + l, n) == Shr(m, n)
  {
    if n > 0 {
      assert (m + l) / 2 == m / 2 + l / 2;
      ShrHigh(m / 2, l / 2, n - 1);
    }
  }

  /** Shifting `k * 32` back right by five gives `k`, and its low five bits
      are clear. */
  lemma Times32(k: nat)
    ensures LowBitsClear(k * 32, 5) && Shr(k * 32, 5) == k
  {
    assert (k * 32) / 2 == k * 16 && (k * 16) / 2 == k * 8 && (k * 8) / 2 == k * 4;
    assert (k * 4) / 2 == k * 2 && (k * 2) / 2 == k;
    assert LowBitsClear(k * 2, 1) && Shr(k * 2, 1) == k;
    assert LowBitsClear(k * 4, 2) && Shr(k * 4, 2) == k;
    assert LowBitsClear(k * 8, 3) && Shr(k * 8, 3) == k;
    assert LowBitsClear(k * 16, 4) && Shr(k * 16, 4) == k;
  }
}
