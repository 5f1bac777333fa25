/** Fixed-width integer types of the Rust source and its `as` casts.
    Dafny integers are unbounded, so every truncating cast is written out:
    `as u32` and `as u16` keep the low bits, `as i16` reinterprets the low
    16 bits as two's complement. */
module Ints {

  const TWO_16: int := 0x1_0000
  const TWO_32: int := 0x1_0000_0000

  type byte = x: int | 0 <= x < 0x100
  type u16 = x: int | 0 <= x < 0x1_0000
  type u32 = x: int | 0 <= x < 0x1_0000_0000
  type i16 = x: int | -0x8000 <= x < 0x8000
  type i32 = x: int | -0x8000_0000 <= x < 0x8000_0000

  const I16_MIN: i16 := -0x8000
  const I16_MAX: i16 := 0x7FFF

  /** `x as u32` for any integer source type: the low 32 bits. */
  function AsU32(x: int): (r: u32)
    ensures 0 <= x < TWO_32 ==> r == x
    ensures exists q :: x == q * TWO_32 + r
  {
    var r := x % TWO_32;
    assert x == (x / TWO_32) * TWO_32 + r;
    r
  }

  /** `x as u16`: the low 16 bits. */
  function AsU16(x: int): (r: u16)
    ensures 0 <= x < TWO_16 ==> r == x
    ensures exists q :: x == q * TWO_16 + r
  {
    var r := x % TWO_16;
    assert x == (x / TWO_16) * TWO_16 + r;
    r
  }

  /** `x as i16`: the low 16 bits read as a two's complement number. */
  function AsI16(x: int): (r: i16)
    ensures -0x8000 <= x < 0x8000 ==> r == x
    ensures exists q :: x == q * TWO_16 + r
  {
    var r := (x + 0x8000) % TWO_16 - 0x8000;
    assert x + 0x8000 == ((x + 0x8000) / TWO_16) * TWO_16 + (r + 0x8000);
    r
  }

  /** Two integers that differ by a multiple of 2^16 have the same `as i16`. */
  lemma I16Congruent(x: int, y: int, q: int)
    requires x == q * TWO_16 + y
    ensures AsI16(x) == AsI16(y)
  {
    var c := y + 0x8000;
    assert c == (c / 0x1_0000) * 0x1_0000 + c % 0x1_0000;
    assert x + 0x8000 == (q + c / 0x1_0000) * 0x1_0000 + c % 0x1_0000;
    LowSixteen(x + 0x8000, q + c / 0x1_0000, c % 0x1_0000);
  }

  /** The remainder by 2^16 is the only one in range. */
  lemma LowSixteen(z: int, m: int, r: int)
    requires 0 <= r < 0x1_0000 && z == m * 0x1_0000 + r
    ensures z % 0x1_0000 == r
  {
  }

  /** `c as u16 as i16`, the cost conversion of the matrix builder, is the
      same as a direct `c as i16`: both keep the low 16 bits. */
  lemma U16ThenI16(c: int)
    ensures AsI16(AsU16(c)) == AsI16(c)
  {
    var q :| c == q * TWO_16 + AsU16(c);
    I16Congruent(c, AsU16(c), q);
  }

  /** A `u32` value read back through `as i16` keeps its low 16 bits, as a
      direct `as i16` of the original does. */
  lemma U32ThenI16(x: int)
    ensures AsI16(AsU32(x)) == AsI16(x)
  {
    var q :| x == q * TWO_32 + AsU32(x);
    assert x == (q * 0x1_0000) * TWO_16 + AsU32(x);
    I16Congruent(x, AsU32(x), q * 0x1_0000);
  }

  /** u32 wrap-around addition absorbs an earlier wrap: the running counter
      `id += len` equals the wrapped true sum. */
  lemma AddWrapped(a: int, b: int)
    ensures AsU32(AsU32(a) + b) == AsU32(a + b)
  {
    var q :| a == q * TWO_32 + AsU32(a);
    assert a + b == q * TWO_32 + (AsU32(a) + b);
  }
}
