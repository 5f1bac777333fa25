/** Little-endian fixed-width encodings, as written by byteorder's
    `write_u32::<LittleEndian>` and `write_i16::<LittleEndian>`, and the
    readers a consumer of the files would use. */
module LittleEndian {
  import opened Ints

  /** The four bytes `write_u32::<LittleEndian>` emits for `x`. */
  function U32Bytes(x: u32): (r: seq<byte>)
    ensures |r| == 4
  {
    var a := x / 0x100;
    var b := a / 0x100;
    [x % 0x100, a % 0x100, b % 0x100, b / 0x100]
  }

  /** The u32 stored little-endian at `s[pos..pos + 4]`. */
  function U32At(s: seq<byte>, pos: nat): u32
    requires pos + 4 <= |s|
  {
    (s[pos] as int) + 0x100 * (s[pos + 1] as int) + 0x1_0000 * (s[pos + 2] as int) + 0x100_0000 * (s[pos + 3] as int)
  }

  /** The two bytes `write_i16::<LittleEndian>` emits for `x`. */
  function I16Bytes(x: i16): (r: seq<byte>)
    ensures |r| == 2
  {
    var u := if x < 0 then x + 0x1_0000 else x;
    [u % 0x100, u / 0x100]
  }

  /** The i16 stored little-endian at `s[pos..pos + 2]`. */
  function I16At(s: seq<byte>, pos: nat): i16
    requires pos + 2 <= |s|
  {
    var u := (s[pos] as int) + 0x100 * (s[pos + 1] as int);
    if u < 0x8000 then u else u - 0x1_0000
  }

  lemma U32RoundTrip(x: u32)
    ensures U32At(U32Bytes(x), 0) == x
  {
    var a := x / 0x100;
    var b := a / 0x100;
    assert x == a * 0x100 + x % 0x100;
    assert a == b * 0x100 + a % 0x100;
    assert b == (b / 0x100) * 0x100 + b % 0x100;
  }

  lemma I16RoundTrip(x: i16)
    ensures I16At(I16Bytes(x), 0) == x
  {
  }

  /** A file made of u32 records written one after another. */
  function U32Stream(xs: seq<u32>): (r: seq<byte>)
    ensures |r| == 4 * |xs|
  {
    if xs == [] then [] else U32Stream(xs[..|xs| - 1]) + U32Bytes(xs[|xs| - 1])
  }

  /** A file made of i16 records written one after another. */
  function I16Stream(xs: seq<i16>): (r: seq<byte>)
    ensures |r| == 2 * |xs|
  {
    if xs == [] then [] else I16Stream(xs[..|xs| - 1]) + I16Bytes(xs[|xs| - 1])
  }

  /** Reading the i-th u32 record of a u32 stream gives back the i-th value. */
  lemma {:induction false} U32StreamAt(xs: seq<u32>, i: nat)
    requires i < |xs|
    ensures U32At(U32Stream(xs), 4 * i) == xs[i]
  {
    var init := xs[..|xs| - 1];
    assert U32Stream(xs) == U32Stream(init) + U32Bytes(xs[|xs| - 1]);
    if i == |xs| - 1 {
      U32RoundTrip(xs[i]);
      assert U32Stream(xs)[4 * i..4 * i + 4] == U32Bytes(xs[i]);
    } else {
      U32StreamAt(init, i);
      assert U32Stream(xs)[4 * i..4 * i + 4] == U32Stream(init)[4 * i..4 * i + 4];
    }
  }

  /** Reading the i-th i16 record of an i16 stream gives back the i-th value. */
  lemma {:induction false} I16StreamAt(xs: seq<i16>, i: nat)
    requires i < |xs|
    ensures I16At(I16Stream(xs), 2 * i) == xs[i]
  {
    var init := xs[..|xs| - 1];
    assert I16Stream(xs) == I16Stream(init) + I16Bytes(xs[|xs| - 1]);
    if i == |xs| - 1 {
      I16RoundTrip(xs[i]);
      assert I16Stream(xs)[2 * i..2 * i + 2] == I16Bytes(xs[i]);
    } else {
      I16StreamAt(init, i);
      assert I16Stream(xs)[2 * i..2 * i + 2] == I16Stream(init)[2 * i..2 * i + 2];
    }
  }
}
