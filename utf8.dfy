/** UTF-8 as `std::str::from_utf8` accepts it: the well-formed byte
    sequences of table 3-7 of the Unicode Standard (section 3.9). A Dafny
    `char` is a Unicode scalar value, as a Rust `char` is. */
module Utf8 {
  import opened Ints
  import opened Options

  /** A continuation byte, 10xxxxxx. */
  predicate Cont(b: byte)
  {
    0x80 <= b <= 0xBF
  }

  /** The length of the sequence a lead byte starts; 0 for a byte that
      cannot start one (a continuation byte, C0, C1 or F5..FF). */
  function Width(b0: byte): (w: nat)
    ensures w <= 4
    ensures w == 1 <==> b0 < 0x80
  {
    if b0 < 0x80 then 1
    else if 0xC2 <= b0 <= 0xDF then 2
    else if 0xE0 <= b0 <= 0xEF then 3
    else if 0xF0 <= b0 <= 0xF4 then 4
    else 0
  }

  /** The second byte's range, narrower after E0, ED, F0 and F4: this is
      what rules out overlong forms, surrogates and values past U+10FFFF. */
  predicate SecondOk(b0: byte, b1: byte)
  {
    if b0 == 0xE0 then 0xA0 <= b1 <= 0xBF
    else if b0 == 0xED then 0x80 <= b1 <= 0x9F
    else if b0 == 0xF0 then 0x90 <= b1 <= 0xBF
    else if b0 == 0xF4 then 0x80 <= b1 <= 0x8F
    else Cont(b1)
  }

  /** The six payload bits of a continuation byte. */
  function Low6(b: byte): int
  {
    b as int - 0x80
  }

  /** The scalar value the first sequence of `bs` encodes, and its length;
      None when `bs` does not start with a well-formed sequence. */
  function DecodeFirst(bs: seq<byte>): (r: Option<(char, nat)>)
    requires bs != []
    ensures r.Some? ==> 1 <= r.value.1 <= |bs| && r.value.1 == Width(bs[0])
  {
    var w := Width(bs[0]);
    var b0 := bs[0] as int;
    if w == 0 || |bs| < w then None
    else if w == 1 then Some((b0 as char, 1))
    else if !SecondOk(bs[0], bs[1]) then None
    else if w == 2 then Some((((b0 - 0xC0) * 0x40 + Low6(bs[1])) as char, 2))
    else if !Cont(bs[2]) then None
    else if w == 3 then Some(((((b0 - 0xE0) * 0x40 + Low6(bs[1])) * 0x40 + Low6(bs[2])) as char, 3))
    else if !Cont(bs[3]) then None
    else Some((((((b0 - 0xF0) * 0x40 + Low6(bs[1])) * 0x40 + Low6(bs[2])) * 0x40 + Low6(bs[3])) as char, 4))
  }

  /** `std::str::from_utf8`: the decoded text, or None (a `Utf8Error`). */
  function DecodeUtf8(bs: seq<byte>): Option<string>
    decreases |bs|
  {
    if bs == [] then Some([])
    else match DecodeFirst(bs)
      case None => None
      case Some((c, w)) =>
        match DecodeUtf8(bs[w..])
        case None => None
        case Some(s) => Some([c] + s)
  }

  /** The shortest UTF-8 form of one scalar value: the value's bits, six
      at a time from the bottom, behind a lead byte that gives the length. */
  function EncodeChar(c: char): (r: seq<byte>)
    ensures 1 <= |r| <= 4
  {
    var v := c as int;
    var v1 := v / 0x40;
    var v2 := v1 / 0x40;
    if v < 0x80 then [v]
    else if v < 0x800 then [0xC0 + v1, 0x80 + v % 0x40]
    else if v < 0x1_0000 then [0xE0 + v2, 0x80 + v1 % 0x40, 0x80 + v % 0x40]
    else [0xF0 + v2 / 0x40, 0x80 + v2 % 0x40, 0x80 + v1 % 0x40, 0x80 + v % 0x40]
  }

  /** The UTF-8 form of a text, as a Rust `String` stores it. */
  function EncodeUtf8(s: string): (r: seq<byte>)
    ensures |r| >= |s|
  {
    if s == [] then [] else EncodeChar(s[0]) + EncodeUtf8(s[1..])
  }

  lemma Split2(v: int)
    requires 0x80 <= v < 0x800
    ensures var q, l := v / 0x40, v % 0x40;
      q * 0x40 + l == v && 2 <= q < 0x20 && 0 <= l < 0x40
  {
  }

  lemma Split3(v: int)
    requires 0x800 <= v < 0x1_0000
    ensures var v1 := v / 0x40; var q, m, l := v1 / 0x40, v1 % 0x40, v % 0x40;
      && (q * 0x40 + m) * 0x40 + l == v
      && 0 <= q < 0x10 && 0 <= m < 0x40 && 0 <= l < 0x40
      && (q == 0 ==> m >= 0x20)
  {
  }

  lemma Split4(v: int)
    requires 0x1_0000 <= v < 0x11_0000
    ensures var v1 := v / 0x40; var v2 := v1 / 0x40;
      var q, m, n, l := v2 / 0x40, v2 % 0x40, v1 % 0x40, v % 0x40;
      && ((q * 0x40 + m) * 0x40 + n) * 0x40 + l == v
      && 0 <= q < 5 && 0 <= m < 0x40 && 0 <= n < 0x40 && 0 <= l < 0x40
      && (q == 0 ==> m >= 0x10) && (q == 4 ==> m < 0x10)
  {
    var v1 := v / 0x40;
    var v2 := v1 / 0x40;
    assert 0x400 <= v1 < 0x4400;
    assert 0x10 <= v2 < 0x110;
  }

  /** The decoder reads back the first character of an encoded text. */
  lemma DecodeFirstOfEncoded(c: char, rest: seq<byte>)
    ensures DecodeFirst(EncodeChar(c) + rest) == Some((c, |EncodeChar(c)|))
  {
    var v := c as int;
    var e := EncodeChar(c);
    var bs := e + rest;
    assert bs[..|e|] == e;
    if v < 0x80 {
    } else if v < 0x800 {
      Split2(v);
    } else if v < 0x1_0000 {
      Split3(v);
      assert v < 0xD800 || 0xE000 <= v;
    } else {
      Split4(v);
    }
  }

  /** Every text survives encoding and decoding. */
  lemma {:induction false} DecodeEncode(s: string)
    ensures DecodeUtf8(EncodeUtf8(s)) == Some(s)
  {
    if s != [] {
      var e := EncodeChar(s[0]);
      var rest := EncodeUtf8(s[1..]);
      DecodeFirstOfEncoded(s[0], rest);
      assert (e + rest)[|e|..] == rest;
      DecodeEncode(s[1..]);
      assert [s[0]] + s[1..] == s;
    }
  }

  lemma Join2(q: int, l: int)
    requires 0 <= l < 0x40
    ensures (q * 0x40 + l) / 0x40 == q && (q * 0x40 + l) % 0x40 == l
  {
  }

  lemma EncodeTwo(b0: byte, b1: byte)
    requires 0xC2 <= b0 <= 0xDF && Cont(b1)
    ensures var v := (b0 as int - 0xC0) * 0x40 + Low6(b1);
      0x80 <= v < 0x800 && EncodeChar(v as char) == [b0, b1]
  {
    Join2(b0 as int - 0xC0, Low6(b1));
  }

  lemma EncodeThree(b0: byte, b1: byte, b2: byte)
    requires 0xE0 <= b0 <= 0xEF && SecondOk(b0, b1) && Cont(b2)
    ensures var v := ((b0 as int - 0xE0) * 0x40 + Low6(b1)) * 0x40 + Low6(b2);
      0x800 <= v < 0xD800 || 0xE000 <= v < 0x1_0000
    ensures var v := ((b0 as int - 0xE0) * 0x40 + Low6(b1)) * 0x40 + Low6(b2);
      EncodeChar(v as char) == [b0, b1, b2]
  {
    var v1 := (b0 as int - 0xE0) * 0x40 + Low6(b1);
    Join2(v1, Low6(b2));
    Join2(b0 as int - 0xE0, Low6(b1));
  }

  lemma EncodeFour(b0: byte, b1: byte, b2: byte, b3: byte)
    requires 0xF0 <= b0 <= 0xF4 && SecondOk(b0, b1) && Cont(b2) && Cont(b3)
    ensures var v := (((b0 as int - 0xF0) * 0x40 + Low6(b1)) * 0x40 + Low6(b2)) * 0x40 + Low6(b3);
      0x1_0000 <= v < 0x11_0000 && EncodeChar(v as char) == [b0, b1, b2, b3]
  {
    var v2 := (b0 as int - 0xF0) * 0x40 + Low6(b1);
    var v1 := v2 * 0x40 + Low6(b2);
    Join2(v1, Low6(b3));
    Join2(v2, Low6(b2));
    Join2(b0 as int - 0xF0, Low6(b1));
  }

  /** The encoder writes back the bytes the first character was read from. */
  lemma EncodeOfDecodedFirst(bs: seq<byte>)
    requires bs != [] && DecodeFirst(bs).Some?
    ensures EncodeChar(DecodeFirst(bs).value.0) == bs[..DecodeFirst(bs).value.1]
  {
    var w := DecodeFirst(bs).value.1;
    if w == 2 {
      EncodeTwo(bs[0], bs[1]);
      assert bs[..2] == [bs[0], bs[1]];
    } else if w == 3 {
      EncodeThree(bs[0], bs[1], bs[2]);
      assert bs[..3] == [bs[0], bs[1], bs[2]];
    } else if w == 4 {
      EncodeFour(bs[0], bs[1], bs[2], bs[3]);
      assert bs[..4] == [bs[0], bs[1], bs[2], bs[3]];
    }
  }

  /** A successful decode is the first character followed by the decode
      of the rest. */
  lemma DecodeStep(bs: seq<byte>)
    requires bs != [] && DecodeUtf8(bs).Some?
    ensures DecodeFirst(bs).Some?
    ensures var w := DecodeFirst(bs).value.1;
      && DecodeUtf8(bs[w..]).Some?
      && DecodeUtf8(bs).value == [DecodeFirst(bs).value.0] + DecodeUtf8(bs[w..]).value
  {
  }

  /** Encoding a text that starts with `c` starts with the encoding of `c`. */
  lemma EncodeStep(c: char, s: string)
    ensures EncodeUtf8([c] + s) == EncodeChar(c) + EncodeUtf8(s)
  {
    assert ([c] + s)[1..] == s;
  }

  /** A byte string decodes exactly when it is the encoding of the text it
      decodes to: nothing is skipped, replaced or normalised. */
  lemma {:induction false} EncodeDecode(bs: seq<byte>)
    requires DecodeUtf8(bs).Some?
    ensures EncodeUtf8(DecodeUtf8(bs).value) == bs
    decreases |bs|
  {
    if bs != [] {
      DecodeStep(bs);
      var c := DecodeFirst(bs).value.0;
      var w := DecodeFirst(bs).value.1;
      var rest := DecodeUtf8(bs[w..]).value;
      calc {
        EncodeUtf8(DecodeUtf8(bs).value);
        EncodeUtf8([c] + rest);
        { EncodeStep(c, rest); }
        EncodeChar(c) + EncodeUtf8(rest);
        { EncodeOfDecodedFirst(bs); EncodeDecode(bs[w..]); }
        bs[..w] + bs[w..];
        { SplitAt(bs, w); }
        bs;
      }
    }
  }

  lemma SplitAt(bs: seq<byte>, w: nat)
    requires w <= |bs|
    ensures bs[..w] + bs[w..] == bs
  {
  }

  /** ASCII bytes decode one character each, to the same code. */
  lemma {:induction false} DecodeAscii(bs: seq<byte>)
    requires forall i :: 0 <= i < |bs| ==> bs[i] < 0x80
    ensures DecodeUtf8(bs).Some? && |DecodeUtf8(bs).value| == |bs|
    ensures forall i :: 0 <= i < |bs| ==> DecodeUtf8(bs).value[i] as int == bs[i] as int
  {
    if bs != [] {
      DecodeAscii(bs[1..]);
      assert DecodeFirst(bs) == Some((bs[0] as char, 1));
      var s := DecodeUtf8(bs).value;
      assert s == [bs[0] as char] + DecodeUtf8(bs[1..]).value;
      forall i | 0 <= i < |bs|
        ensures s[i] as int == bs[i] as int
      {
        if i > 0 {
          assert s[i] == DecodeUtf8(bs[1..]).value[i - 1];
        }
      }
    }
  }
}
