/** The pieces of Rust's standard library that turn matrix.def text into
    numbers: `str::lines`, `str::split_whitespace` (which splits at the
    characters with the Unicode White_Space property, `char::is_whitespace`)
    and `i32::from_str`. Each comes with the inverse it is checked against. */
module Text {
  import opened Ints
  import opened Options

  // ---------------------------------------------------------------------
  // Lines

  /** The position of the first `c` in `s`, or `|s|` when there is none. */
  function IndexOf(s: string, c: char): (i: nat)
    ensures i <= |s|
    ensures i < |s| ==> s[i] == c
    ensures forall j :: 0 <= j < i ==> s[j] != c
  {
    if s == [] then 0
    else if s[0] == c then 0
    else 1 + IndexOf(s[1..], c)
  }

  /** A line ended by "\r\n" loses its '\r' along with the '\n'. */
  function StripCr(l: string): string
  {
    if l != [] && l[|l| - 1] == '\r' then l[..|l| - 1] else l
  }

  /** `s.lines()`: the pieces between '\n's, each without its terminator
      ("\n" or "\r\n"); the text after the last '\n' is a last line only
      when it is not empty, and it keeps any '\r' it ends with. */
  function Lines(s: string): seq<string>
    decreases |s|
  {
    if s == [] then []
    else
      var i := IndexOf(s, '\n');
      if i == |s| then [s] else [StripCr(s[..i])] + Lines(s[i + 1..])
  }

  /** A line as `lines` can yield it back: no '\n' inside, no '\r' at
      the end. */
  predicate PlainLine(l: string)
  {
    && (forall j :: 0 <= j < |l| ==> l[j] != '\n')
    && (l == [] || l[|l| - 1] != '\r')
  }

  /** The lines written one after another, each followed by '\n'. */
  function Unlines(ls: seq<string>): string
  {
    if ls == [] then [] else ls[0] + "\n" + Unlines(ls[1..])
  }

  /** Splitting a text written line by line gives back its lines. */
  lemma {:induction false} LinesOfUnlines(ls: seq<string>)
    requires forall i :: 0 <= i < |ls| ==> PlainLine(ls[i])
    ensures Lines(Unlines(ls)) == ls
  {
    if ls != [] {
      LinesOfUnlines(ls[1..]);
      LineThenRest(ls[0], Unlines(ls[1..]));
      assert ls == [ls[0]] + ls[1..];
    }
  }

  /** A plain line followed by '\n' comes back as the first line. */
  lemma LineThenRest(l: string, rest: string)
    requires PlainLine(l)
    ensures Lines(l + "\n" + rest) == [l] + Lines(rest)
  {
    var s := l + "\n" + rest;
    FirstNewline(l, rest);
    assert s[..|l|] == l;
    assert s[|l| + 1..] == rest;
  }

  lemma FirstNewline(l: string, rest: string)
    requires PlainLine(l)
    ensures IndexOf(l + "\n" + rest, '\n') == |l|
  {
    var s := l + "\n" + rest;
    assert s[|l|] == '\n';
    assert forall j :: 0 <= j < |l| ==> s[j] == l[j];
  }

  /** No line holds a '\n'. */
  lemma {:induction false} LinesHaveNoNewline(s: string)
    ensures forall i, j :: 0 <= i < |Lines(s)| && 0 <= j < |Lines(s)[i]| ==> Lines(s)[i][j] != '\n'
    decreases |s|
  {
    if s != [] {
      var i := IndexOf(s, '\n');
      if i < |s| {
        LinesHaveNoNewline(s[i + 1..]);
        var ls := Lines(s);
        assert ls == [StripCr(s[..i])] + Lines(s[i + 1..]);
        forall k, j | 0 <= k < |ls| && 0 <= j < |ls[k]|
          ensures ls[k][j] != '\n'
        {
          if k > 0 {
            assert ls[k] == Lines(s[i + 1..])[k - 1];
          }
        }
      }
    }
  }

  // ---------------------------------------------------------------------
  // Whitespace-separated fields

  /** `char::is_whitespace`: the White_Space property of the Unicode
      Character Database. */
  predicate IsWhitespace(c: char)
  {
    || '\t' <= c <= '\r'
    || c == ' '
    || c == '\U{0085}'
    || c == '\U{00A0}'
    || c == '\U{1680}'
    || '\U{2000}' <= c <= '\U{200A}'
    || c == '\U{2028}'
    || c == '\U{2029}'
    || c == '\U{202F}'
    || c == '\U{205F}'
    || c == '\U{3000}'
  }

  /** A field as `split_whitespace` yields it: not empty, no whitespace. */
  predicate Field(t: string)
  {
    t != [] && forall j :: 0 <= j < |t| ==> !IsWhitespace(t[j])
  }

  /** The length of the run of non-whitespace characters `s` starts with. */
  function RunLength(s: string): (n: nat)
    ensures n <= |s|
    ensures forall j :: 0 <= j < n ==> !IsWhitespace(s[j])
    ensures n < |s| ==> IsWhitespace(s[n])
  {
    if s == [] || IsWhitespace(s[0]) then 0 else 1 + RunLength(s[1..])
  }

  /** `s.split_whitespace()`: the maximal runs of non-whitespace characters,
      in order. */
  function SplitWhitespace(s: string): seq<string>
    decreases |s|
  {
    if s == [] then []
    else if IsWhitespace(s[0]) then SplitWhitespace(s[1..])
    else
      var n := RunLength(s);
      [s[..n]] + SplitWhitespace(s[n..])
  }

  /** Every piece `split_whitespace` yields is a field. */
  lemma {:induction false} SplitYieldsFields(s: string)
    ensures forall i :: 0 <= i < |SplitWhitespace(s)| ==> Field(SplitWhitespace(s)[i])
    decreases |s|
  {
    if s != [] {
      if IsWhitespace(s[0]) {
        SplitYieldsFields(s[1..]);
      } else {
        var n := RunLength(s);
        SplitYieldsFields(s[n..]);
        var ts := SplitWhitespace(s);
        forall i | 0 <= i < |ts|
          ensures Field(ts[i])
        {
          if i > 0 {
            assert ts[i] == SplitWhitespace(s[n..])[i - 1];
          }
        }
      }
    }
  }

  /** The fields written one after another, each followed by a space. */
  function Unwords(ts: seq<string>): string
  {
    if ts == [] then [] else ts[0] + " " + Unwords(ts[1..])
  }

  /** Splitting fields written with separating spaces gives them back. */
  lemma {:induction false} SplitOfUnwords(ts: seq<string>)
    requires forall i :: 0 <= i < |ts| ==> Field(ts[i])
    ensures SplitWhitespace(Unwords(ts)) == ts
  {
    if ts != [] {
      SplitOfUnwords(ts[1..]);
      FieldThenRest(ts[0], Unwords(ts[1..]));
      assert ts == [ts[0]] + ts[1..];
    }
  }

  /** A field followed by a space comes back as the first field. */
  lemma FieldThenRest(t: string, rest: string)
    requires Field(t)
    ensures SplitWhitespace(t + " " + rest) == [t] + SplitWhitespace(rest)
  {
    var s := t + " " + rest;
    assert forall j :: 0 <= j < |t| ==> s[j] == t[j];
    assert s[|t|] == ' ';
    RunOfField(s, |t|);
    assert s[..|t|] == t;
    var after := s[|t|..];
    assert after == [' '] + rest;
    assert after[1..] == rest;
  }

  lemma RunOfField(s: string, n: nat)
    requires 0 < n < |s| && IsWhitespace(s[n])
    requires forall j :: 0 <= j < n ==> !IsWhitespace(s[j])
    ensures RunLength(s) == n
  {
  }

  // ---------------------------------------------------------------------
  // Integers

  const I32_MIN: int := -0x8000_0000
  const I32_MAX: int := 0x7FFF_FFFF

  predicate IsDigit(c: char)
  {
    '0' <= c <= '9'
  }

  predicate AllDigits(ds: string)
  {
    forall j :: 0 <= j < |ds| ==> IsDigit(ds[j])
  }

  /** The value of a string of decimal digits, most significant first. */
  function DigitsValue(ds: string): nat
    requires AllDigits(ds)
  {
    if ds == [] then 0
    else 10 * DigitsValue(ds[..|ds| - 1]) + (ds[|ds| - 1] as int - '0' as int)
  }

  /** `i32::from_str`: an optional '+' or '-', then one or more ASCII
      digits whose value, with its sign, lies in the i32 range; anything
      else is a ParseIntError, here None. */
  function ParseI32(t: string): Option<i32>
  {
    if t == [] then None
    else
      var signed := t[0] == '+' || t[0] == '-';
      var ds := if signed then t[1..] else t;
      if ds == [] || !AllDigits(ds) then None
      else
        var v: int := if t[0] == '-' then -(DigitsValue(ds) as int) else DigitsValue(ds);
        if I32_MIN <= v <= I32_MAX then Some(v) else None
  }

  /** The decimal digits of `n`, without leading zeros. */
  function Digits(n: nat): (ds: string)
    ensures ds != [] && AllDigits(ds)
  {
    if n < 10 then ['0' + n as char]
    else Digits(n / 10) + ['0' + (n % 10) as char]
  }

  /** `x.to_string()` for an i32. */
  function FormatI32(x: i32): string
  {
    if x < 0 then "-" + Digits(-(x as int)) else Digits(x)
  }

  lemma {:induction false} DigitsRoundTrip(n: nat)
    ensures DigitsValue(Digits(n)) == n
  {
    if n >= 10 {
      var ds := Digits(n);
      assert ds[..|ds| - 1] == Digits(n / 10);
      DigitsRoundTrip(n / 10);
    }
  }

  /** Every i32 reads back from its decimal form. */
  lemma ParseFormat(x: i32)
    ensures ParseI32(FormatI32(x)) == Some(x)
  {
    var t := FormatI32(x);
    if x < 0 {
      DigitsRoundTrip(-(x as int));
      assert t[1..] == Digits(-(x as int));
    } else {
      DigitsRoundTrip(x);
    }
  }

  /** A number too large for an i32 is an error, not a wrapped value. */
  lemma ParseRejectsOverflow(n: nat)
    requires n > I32_MAX
    ensures ParseI32(Digits(n)) == None
  {
    DigitsRoundTrip(n);
  }
}
