/** `Lindera::build_cost_matrix`: read MeCab's matrix.def (a header line
    "forward_size backward_size", then one line "forward_id backward_id
    cost" per connection) and produce matrix.mtx, the connection costs as
    little-endian i16 values: the two sizes first, then one cell per
    (forward_id, backward_id) pair at `2 + backward_id + forward_id *
    backward_size`, every cell no line mentions holding i16::MAX. */
module CostMatrix {
  import opened Ints
  import opened Options
  import opened Utf8
  import opened Text
  import opened LittleEndian

  datatype Failure = Utf8Error | ParseIntError

  /** The ways the builder panics: `unwrap` on a missing header line, and
      index out of bounds on a short line or on a cell outside the vector.
      `line` counts from 0, the header being line 0. */
  datatype Panic =
    | MissingHeader
    | ShortHeader
    | ShortLine(line: nat)
    | CellOutOfRange(line: nat, index: int, len: int)

  datatype MatrixOutcome =
    | MatrixBuilt(costs: seq<i16>, file: seq<byte>)
    | Failed(failure: Failure)
    | Panicked(panic: Panic)

  // ---------------------------------------------------------------------
  // Parsing

  /** `line.split_whitespace().map(i32::from_str).collect()`: the numbers
      of a line, or None when any field is not an i32. */
  function ParseFields(line: string): Option<seq<i32>>
  {
    var ts := SplitWhitespace(line);
    if forall i :: 0 <= i < |ts| ==> ParseI32(ts[i]).Some?
    then Some(seq(|ts|, i requires 0 <= i < |ts| => ParseI32(ts[i]).value))
    else None
  }

  /** The parsed lines, or None when some line does not parse. */
  function Rows(ls: seq<string>): Option<seq<seq<i32>>>
  {
    if forall i :: 0 <= i < |ls| ==> ParseFields(ls[i]).Some?
    then Some(seq(|ls|, i requires 0 <= i < |ls| => ParseFields(ls[i]).value))
    else None
  }

  /** The numbers written out in decimal, a space after each. */
  function FormatFields(xs: seq<i32>): (line: string)
  {
    Unwords(seq(|xs|, i requires 0 <= i < |xs| => FormatI32(xs[i])))
  }

  lemma FormattedIsField(x: i32)
    ensures Field(FormatI32(x))
  {
    var t := FormatI32(x);
    var n: nat := if x < 0 then -(x as int) else x;
    var ds := Digits(n);
    assert forall j :: 0 <= j < |ds| ==> !IsWhitespace(ds[j]);
    if x < 0 {
      assert t == "-" + ds;
      assert forall j :: 1 <= j < |t| ==> t[j] == ds[j - 1];
    }
  }

  /** A line of numbers in decimal reads back as those numbers. */
  lemma ParseFormatFields(xs: seq<i32>)
    ensures ParseFields(FormatFields(xs)) == Some(xs)
  {
    var ts := seq(|xs|, i requires 0 <= i < |xs| => FormatI32(xs[i]));
    forall i | 0 <= i < |ts|
      ensures Field(ts[i]) && ParseI32(ts[i]) == Some(xs[i])
    {
      FormattedIsField(xs[i]);
      ParseFormat(xs[i]);
    }
    SplitOfUnwords(ts);
    assert seq(|ts|, i requires 0 <= i < |ts| => ParseI32(ts[i]).value) == xs;
  }

  /** The loop over `matrix_def.lines()`: parse every line, stopping at
      the first ParseIntError. */
  method ParseRows(text: string) returns (r: Option<seq<seq<i32>>>)
    ensures r == Rows(Lines(text))
  {
    var ls := Lines(text);
    var rows: seq<seq<i32>> := [];
    for i := 0 to |ls|
      invariant |rows| == i
      invariant forall k :: 0 <= k < i ==> ParseFields(ls[k]) == Some(rows[k])
    {
      var fields := ParseFields(ls[i]);
      if fields.None? {
        return None;
      }
      rows := rows + [fields.value];
    }
    assert rows == seq(|ls|, i requires 0 <= i < |ls| => ParseFields(ls[i]).value);
    return Some(rows);
  }

  // ---------------------------------------------------------------------
  // Filling the cells

  /** `2 + (backward_id + forward_id * backward_size) as usize`, with the
      u32 arithmetic wrapping. */
  function CellIndex(row: seq<i32>, b: u32): (idx: int)
    requires |row| >= 3
    ensures 2 <= idx < 2 + TWO_32
  {
    2 + AsU32(AsU32(row[1]) as int + AsU32(AsU32(row[0]) as int * b))
  }

  /** `fields[2] as u16 as i16`. */
  function StoredCost(row: seq<i32>): i16
    requires |row| >= 3
  {
    AsI16(AsU16(row[2]))
  }

  /** A line after the header that makes the builder panic. */
  predicate Faulty(row: seq<i32>, b: u32, len: int)
  {
    |row| < 3 || CellIndex(row, b) >= len
  }

  /** The first faulty line among lines 1 to n - 1, or n when there is none. */
  function FirstFault(rows: seq<seq<i32>>, b: u32, len: int, n: nat): (t: nat)
    requires 1 <= n <= |rows|
    ensures 1 <= t <= n
    ensures forall j :: 1 <= j < t ==> !Faulty(rows[j], b, len)
    ensures t < n ==> Faulty(rows[t], b, len)
  {
    if n == 1 then 1
    else
      var t := FirstFault(rows, b, len, n - 1);
      if t < n - 1 then t
      else if Faulty(rows[n - 1], b, len) then n - 1
      else n
  }

  /** The cells before any line is applied. */
  function Initial(f: u32, b: u32, k: int): i16
  {
    if k == 0 then AsI16(f) else if k == 1 then AsI16(b) else I16_MAX
  }

  /** Cell k once lines 1 to n - 1 are applied: the cost of the last of
      them that addresses k. */
  function Cell(rows: seq<seq<i32>>, f: u32, b: u32, n: nat, k: int): i16
    requires n <= |rows|
    requires forall j :: 1 <= j < n ==> |rows[j]| >= 3
  {
    if n <= 1 then Initial(f, b, k)
    else if CellIndex(rows[n - 1], b) == k then StoredCost(rows[n - 1])
    else Cell(rows, f, b, n - 1, k)
  }

  /** The whole vector once lines 1 to n - 1 are applied. */
  function CellsAt(rows: seq<seq<i32>>, f: u32, b: u32, len: nat, n: nat): (cs: seq<i16>)
    requires 1 <= n <= |rows|
    requires forall j :: 1 <= j < n ==> |rows[j]| >= 3
    ensures |cs| == len && forall k :: 0 <= k < len ==> cs[k] == Cell(rows, f, b, n, k)
  {
    seq(len, k requires 0 <= k < len => Cell(rows, f, b, n, k))
  }

  datatype FillOutcome = Cells(costs: seq<i16>) | Stopped(panic: Panic)

  /** The vector after the loop over the lines after the header, or the
      panic of the first faulty line. */
  function FillOf(rows: seq<seq<i32>>, f: u32, b: u32, len: int): FillOutcome
    requires |rows| >= 1 && len >= 2
  {
    var t := FirstFault(rows, b, len, |rows|);
    if t < |rows| then
      if |rows[t]| < 3 then Stopped(ShortLine(t))
      else Stopped(CellOutOfRange(t, CellIndex(rows[t], b), len))
    else Cells(CellsAt(rows, f, b, len, |rows|))
  }

  /** The first line holds at least the two sizes. */
  predicate HasHeader(rows: seq<seq<i32>>)
  {
    |rows| >= 1 && |rows[0]| >= 2
  }

  /** `header[0] as u32`. */
  function ForwardSize(rows: seq<seq<i32>>): u32
    requires HasHeader(rows)
  {
    AsU32(rows[0][0])
  }

  /** `header[1] as u32`. */
  function BackwardSize(rows: seq<seq<i32>>): u32
    requires HasHeader(rows)
  {
    AsU32(rows[0][1])
  }

  /** `2 + (forward_size * backward_size) as usize`, the product wrapping. */
  function CellCount(rows: seq<seq<i32>>): int
    requires HasHeader(rows)
  {
    2 + AsU32(ForwardSize(rows) as int * BackwardSize(rows))
  }

  /** What `build_cost_matrix` does with the parsed lines. */
  function FromRows(rows: seq<seq<i32>>): MatrixOutcome
  {
    if rows == [] then Panicked(MissingHeader)
    else if |rows[0]| < 2 then Panicked(ShortHeader)
    else
      match FillOf(rows, ForwardSize(rows), BackwardSize(rows), CellCount(rows))
      case Stopped(p) => Panicked(p)
      case Cells(costs) => MatrixBuilt(costs, I16Stream(costs))
  }

  /** What `build_cost_matrix` does with the bytes of matrix.def. */
  function CostMatrixOf(matrix: seq<byte>): MatrixOutcome
  {
    match DecodeUtf8(matrix)
    case None => Failed(Utf8Error)
    case Some(text) => FromText(text)
  }

  /** What `build_cost_matrix` does with the decoded text. */
  function FromText(text: string): MatrixOutcome
  {
    match Rows(Lines(text))
    case None => Failed(ParseIntError)
    case Some(rows) => FromRows(rows)
  }

  /** The fill stops at line t when t is its first faulty line. */
  lemma FaultStops(rows: seq<seq<i32>>, f: u32, b: u32, len: int, t: nat)
    requires 1 <= t < |rows| && len >= 2
    requires FirstFault(rows, b, len, t) == t && Faulty(rows[t], b, len)
    ensures FillOf(rows, f, b, len) ==
      if |rows[t]| < 3 then Stopped(ShortLine(t))
      else Stopped(CellOutOfRange(t, CellIndex(rows[t], b), len))
  {
    FirstFaultStays(rows, b, len, t, |rows|);
  }

  lemma {:induction false} FirstFaultStays(rows: seq<seq<i32>>, b: u32, len: int, t: nat, n: nat)
    requires 1 <= t < n <= |rows|
    requires FirstFault(rows, b, len, t) == t && Faulty(rows[t], b, len)
    ensures FirstFault(rows, b, len, n) == t
  {
    if n > t + 1 {
      FirstFaultStays(rows, b, len, t, n - 1);
    }
  }

  lemma FaultPasses(rows: seq<seq<i32>>, b: u32, len: int, t: nat)
    requires 1 <= t < |rows|
    requires FirstFault(rows, b, len, t) == t && !Faulty(rows[t], b, len)
    ensures FirstFault(rows, b, len, t + 1) == t + 1
  {
  }

  /** A line that names a cell inside the vector overwrites that cell and
      leaves the others alone. */
  lemma ApplyLine(rows: seq<seq<i32>>, f: u32, b: u32, len: nat, t: nat)
    requires 1 <= t < |rows| && forall j :: 1 <= j <= t ==> |rows[j]| >= 3
    requires 0 <= CellIndex(rows[t], b) < len
    ensures CellsAt(rows, f, b, len, t + 1) ==
      CellsAt(rows, f, b, len, t)[CellIndex(rows[t], b) := StoredCost(rows[t])]
  {
    var cs := CellsAt(rows, f, b, len, t);
    var ds := CellsAt(rows, f, b, len, t + 1);
    forall k | 0 <= k < len
      ensures ds[k] == cs[CellIndex(rows[t], b) := StoredCost(rows[t])][k]
    {
      assert cs[k] == Cell(rows, f, b, t, k);
    }
  }

  /** The vector before the first line after the header. */
  lemma InitialCells(rows: seq<seq<i32>>, f: u32, b: u32, len: nat, cs: seq<i16>)
    requires |rows| >= 1 && len >= 2 && |cs| == len
    requires cs[0] == AsI16(f) && cs[1] == AsI16(b)
    requires forall k :: 2 <= k < len ==> cs[k] == I16_MAX
    ensures cs == CellsAt(rows, f, b, len, 1)
  {
  }

  /** `vec![i16::MAX; len]`, the two sizes in front, then one cost per
      line after the header, until a line panics. */
  method FillCosts(rows: seq<seq<i32>>, f: u32, b: u32, len: nat) returns (r: FillOutcome)
    requires |rows| >= 1 && len >= 2
    ensures r == FillOf(rows, f, b, len)
  {
    var costs := new i16[len](_ => I16_MAX);
    costs[0] := AsI16(f);
    costs[1] := AsI16(b);
    InitialCells(rows, f, b, len, costs[..]);
    for t := 1 to |rows|
      invariant FirstFault(rows, b, len, t) == t
      invariant costs[..] == CellsAt(rows, f, b, len, t)
    {
      var fields := rows[t];
      if |fields| < 3 {
        FaultStops(rows, f, b, len, t);
        return Stopped(ShortLine(t));
      }
      var idx := CellIndex(fields, b);
      if idx >= len {
        FaultStops(rows, f, b, len, t);
        return Stopped(CellOutOfRange(t, idx, len));
      }
      var cost := AsU16(fields[2]);
      costs[idx] := AsI16(cost);
      FaultPasses(rows, b, len, t);
      ApplyLine(rows, f, b, len, t);
    }
    return Cells(costs[..]);
  }

  /** The write loop: every cell as two little-endian bytes, in order. */
  method WriteCosts(costs: seq<i16>) returns (file: seq<byte>)
    ensures file == I16Stream(costs)
  {
    file := [];
    for k := 0 to |costs|
      invariant file == I16Stream(costs[..k])
    {
      assert costs[..k + 1][..k] == costs[..k];
      file := file + I16Bytes(costs[k]);
    }
    assert costs[..|costs|] == costs;
  }

  /** The builder once the text is parsed: size the vector from the
      header, fill it, then write it out. */
  method BuildFromRows(rows: seq<seq<i32>>) returns (r: MatrixOutcome)
    ensures r == FromRows(rows)
  {
    if |rows| == 0 {
      return Panicked(MissingHeader);
    }
    var header := rows[0];
    if |header| < 2 {
      return Panicked(ShortHeader);
    }
    var f := AsU32(header[0]);
    var b := AsU32(header[1]);
    var filled := FillCosts(rows, f, b, 2 + AsU32(f as int * b));
    if filled.Stopped? {
      return Panicked(filled.panic);
    }
    var file := WriteCosts(filled.costs);
    return MatrixBuilt(filled.costs, file);
  }

  /** The builder: decode and parse matrix.def, then build from its lines.
      The file contents are returned rather than written. */
  method BuildCostMatrix(matrix: seq<byte>) returns (r: MatrixOutcome)
    ensures r == CostMatrixOf(matrix)
  {
    var text := DecodeUtf8(matrix);
    if text.None? {
      return Failed(Utf8Error);
    }
    var parsed := ParseRows(text.value);
    if parsed.None? {
      return Failed(ParseIntError);
    }
    r := BuildFromRows(parsed.value);
  }

  // ---------------------------------------------------------------------
  // Properties

  /** The builder finishes exactly when there is a header and no later
      line is short or names a cell outside the vector; the matrix it
      then holds has `CellCount` cells, each the cost of the last line
      writing it, or its initial value. It never returns an error once
      the text is parsed: what goes wrong later panics. */
  lemma BuiltIff(rows: seq<seq<i32>>)
    ensures !FromRows(rows).Failed?
    ensures FromRows(rows).MatrixBuilt? <==>
      HasHeader(rows) &&
      forall j :: 1 <= j < |rows| ==> !Faulty(rows[j], BackwardSize(rows), CellCount(rows))
    ensures FromRows(rows).MatrixBuilt? ==>
      && |FromRows(rows).costs| == CellCount(rows)
      && forall k :: 0 <= k < CellCount(rows) ==>
           FromRows(rows).costs[k] == Cell(rows, ForwardSize(rows), BackwardSize(rows), |rows|, k)
  {
    FromRowsNeverFails(rows);
    if HasHeader(rows) {
      var b, len := BackwardSize(rows), CellCount(rows);
      var t := FirstFault(rows, b, len, |rows|);
      if t < |rows| {
        assert Faulty(rows[t], b, len);
      }
    }
  }

  /** Cells 0 and 1 keep the sizes: no line writes below index 2. */
  lemma {:induction false} CellOfHeader(rows: seq<seq<i32>>, f: u32, b: u32, n: nat, k: int)
    requires n <= |rows| && forall j :: 1 <= j < n ==> |rows[j]| >= 3
    requires k < 2
    ensures Cell(rows, f, b, n, k) == Initial(f, b, k)
  {
    if n > 1 {
      CellOfHeader(rows, f, b, n - 1, k);
    }
  }

  /** The layout of matrix.mtx: `2 + forward_size * backward_size` cells
      (the product wrapping as a u32), the two sizes truncated to i16 in
      the first two, and each cell readable back from its two bytes. */
  lemma MatrixLayout(rows: seq<seq<i32>>)
    requires FromRows(rows).MatrixBuilt?
    ensures HasHeader(rows)
    ensures var m := FromRows(rows);
      && |m.costs| == 2 + AsU32(AsU32(rows[0][0]) as int * AsU32(rows[0][1]))
      && m.costs[0] == AsI16(rows[0][0])
      && m.costs[1] == AsI16(rows[0][1])
      && |m.file| == 2 * |m.costs|
      && forall k :: 0 <= k < |m.costs| ==> I16At(m.file, 2 * k) == m.costs[k]
  {
    var m := FromRows(rows);
    BuiltIff(rows);
    var f, b := ForwardSize(rows), BackwardSize(rows);
    CellOfHeader(rows, f, b, |rows|, 0);
    CellOfHeader(rows, f, b, |rows|, 1);
    U32ThenI16(rows[0][0]);
    U32ThenI16(rows[0][1]);
    assert m.file == I16Stream(m.costs);
    forall k | 0 <= k < |m.costs|
      ensures I16At(m.file, 2 * k) == m.costs[k]
    {
      I16StreamAt(m.costs, k);
    }
  }

  /** Every line after the header names a cell inside the matrix. */
  ghost predicate InRange(rows: seq<seq<i32>>, f: int, b: int)
  {
    forall j :: 1 <= j < |rows| ==>
      |rows[j]| >= 3 && 0 <= rows[j][0] < f && 0 <= rows[j][1] < b
  }

  /** The last of lines 1 to n - 1 that names cell (fid, bid), if any. */
  function LastLine(rows: seq<seq<i32>>, fid: int, bid: int, n: nat): (t: Option<nat>)
    requires n <= |rows|
    requires forall j :: 1 <= j < n ==> |rows[j]| >= 3
    ensures t.Some? ==> 1 <= t.value < n && rows[t.value][0] == fid && rows[t.value][1] == bid
    ensures t.Some? ==> forall j :: t.value < j < n ==> !(rows[j][0] == fid && rows[j][1] == bid)
    ensures t.None? ==> forall j :: 1 <= j < n ==> !(rows[j][0] == fid && rows[j][1] == bid)
  {
    if n <= 1 then None
    else if rows[n - 1][0] == fid && rows[n - 1][1] == bid then Some(n - 1)
    else LastLine(rows, fid, bid, n - 1)
  }

  /** The cost cell (fid, bid) holds once lines 1 to n - 1 are applied:
      that of the last of them naming the pair, i16::MAX when none does. */
  function PairCostBefore(rows: seq<seq<i32>>, fid: int, bid: int, n: nat): i16
    requires n <= |rows|
    requires forall j :: 1 <= j < n ==> |rows[j]| >= 3
  {
    match LastLine(rows, fid, bid, n)
    case None => I16_MAX
    case Some(t) => AsI16(rows[t][2])
  }

  lemma {:induction false} MulMonotone(a: int, c: int, b: int)
    requires 0 <= a <= c && 0 <= b
    ensures a * b <= c * b
    decreases c - a
  {
    if a < c {
      MulMonotone(a, c - 1, b);
      assert c * b == (c - 1) * b + b;
    }
  }

  lemma PairBelowProduct(f: int, b: int, x: int, y: int)
    requires 0 <= x < f && 0 <= y < b
    ensures 0 <= x * b && x * b + y < f * b
  {
    MulMonotone(x + 1, f, b);
    MulMonotone(0, x, b);
    assert (x + 1) * b == x * b + b;
  }

  /** Distinct pairs have distinct cells. */
  lemma PairInjective(b: int, x: int, y: int, x2: int, y2: int)
    requires 0 <= x && 0 <= x2 && 0 <= y < b && 0 <= y2 < b
    requires x * b + y == x2 * b + y2
    ensures x == x2 && y == y2
  {
    if x < x2 {
      PairBelowProduct(x2, b, x, y);
    } else if x2 < x {
      PairBelowProduct(x, b, x2, y2);
    }
  }

  /** With every index in range, a line writes the cell of its own pair. */
  lemma LineCell(row: seq<i32>, f: u32, b: u32)
    requires |row| >= 3 && 0 <= row[0] < f && 0 <= row[1] < b && f as int * b < TWO_32
    ensures CellIndex(row, b) == 2 + row[0] * b + row[1]
    ensures row[0] * b + row[1] < f * b
  {
    PairBelowProduct(f, b, row[0], row[1]);
  }

  /** Whether a line overwrote a cell decides between its cost and the
      cell's earlier value. */
  lemma CellStep(rows: seq<seq<i32>>, f: u32, b: u32, n: nat, k: int)
    requires 1 < n <= |rows|
    requires forall j :: 1 <= j < n ==> |rows[j]| >= 3
    ensures Cell(rows, f, b, n, k) ==
      if CellIndex(rows[n - 1], b) == k then StoredCost(rows[n - 1]) else Cell(rows, f, b, n - 1, k)
  {
  }

  lemma {:induction false} CellOfPair(rows: seq<seq<i32>>, f: u32, b: u32, n: nat, fid: int, bid: int, k: int)
    requires n <= |rows| && InRange(rows, f, b) && f as int * b < TWO_32
    requires 0 <= fid < f && 0 <= bid < b && k == 2 + fid * b + bid
    ensures Cell(rows, f, b, n, k) == PairCostBefore(rows, fid, bid, n)
  {
    PairBelowProduct(f, b, fid, bid);
    if n > 1 {
      var row := rows[n - 1];
      assert |row| >= 3 && 0 <= row[0] < f && 0 <= row[1] < b;
      LineCell(row, f, b);
      CellStep(rows, f, b, n, k);
      if row[0] == fid && row[1] == bid {
        U16ThenI16(row[2]);
      } else {
        if CellIndex(row, b) == k {
          PairInjective(b, row[0], row[1], fid, bid);
        }
        CellOfPair(rows, f, b, n - 1, fid, bid, k);
      }
    }
  }

  /** Where cell (fid, bid) sits for ids inside the sizes:
      `2 + bid + fid * backward_size`, past the two sizes and inside the
      `2 + f * b` cells. */
  function CellOf(f: int, b: int, fid: int, bid: int): (k: int)
    requires 0 <= fid < f && 0 <= bid < b
    ensures 2 <= k < 2 + f * b
  {
    PairBelowProduct(f, b, fid, bid);
    2 + fid * b + bid
  }

  /** The intended layout of the matrix: when the sizes are non-negative, their
      product fits a u32 and every line names a pair inside the sizes,
      the builder does not panic, the matrix has exactly one cell per
      pair after the two sizes, and the cell of (fid, bid), at
      `2 + fid * backward_size + bid`, holds the cost of the last line
      naming that pair (truncated to i16), or i16::MAX when none does. */
  lemma CellsOfInRangeLines(rows: seq<seq<i32>>)
    requires HasHeader(rows)
    requires 0 <= rows[0][0] && 0 <= rows[0][1] && rows[0][0] as int * rows[0][1] < TWO_32
    requires InRange(rows, rows[0][0], rows[0][1])
    ensures FromRows(rows).MatrixBuilt?
    ensures |FromRows(rows).costs| == 2 + rows[0][0] as int * rows[0][1]
    ensures forall fid, bid :: 0 <= fid < rows[0][0] && 0 <= bid < rows[0][1] ==>
      FromRows(rows).costs[CellOf(rows[0][0], rows[0][1], fid, bid)] == PairCostBefore(rows, fid, bid, |rows|)
  {
    var f, b := ForwardSize(rows), BackwardSize(rows);
    InRangeBuilds(rows);
    var costs := FromRows(rows).costs;
    forall fid, bid | 0 <= fid < f && 0 <= bid < b
      ensures costs[CellOf(f, b, fid, bid)] == PairCostBefore(rows, fid, bid, |rows|)
    {
      CellOfPair(rows, f, b, |rows|, fid, bid, CellOf(f, b, fid, bid));
    }
  }

  /** With the sizes in range and every line inside them, no line is
      faulty: the builder fills all `2 + f * b` cells. */
  lemma InRangeBuilds(rows: seq<seq<i32>>)
    requires HasHeader(rows)
    requires 0 <= rows[0][0] && 0 <= rows[0][1] && rows[0][0] as int * rows[0][1] < TWO_32
    requires InRange(rows, rows[0][0], rows[0][1])
    ensures ForwardSize(rows) == rows[0][0] && BackwardSize(rows) == rows[0][1]
    ensures FromRows(rows).MatrixBuilt?
    ensures |FromRows(rows).costs| == 2 + rows[0][0] as int * rows[0][1]
    ensures forall k :: 0 <= k < |FromRows(rows).costs| ==>
      FromRows(rows).costs[k] == Cell(rows, ForwardSize(rows), BackwardSize(rows), |rows|, k)
  {
    SizesInRange(rows);
    LinesInRange(rows);
    BuiltIff(rows);
  }

  lemma SizesInRange(rows: seq<seq<i32>>)
    requires HasHeader(rows)
    requires 0 <= rows[0][0] && 0 <= rows[0][1] && rows[0][0] as int * rows[0][1] < TWO_32
    ensures ForwardSize(rows) == rows[0][0] && BackwardSize(rows) == rows[0][1]
    ensures CellCount(rows) == 2 + rows[0][0] as int * rows[0][1]
  {
    var p := rows[0][0] as int * rows[0][1];
    assert ForwardSize(rows) == rows[0][0] && BackwardSize(rows) == rows[0][1];
    assert ForwardSize(rows) as int * BackwardSize(rows) == p;
    assert AsU32(p) == p;
  }

  lemma LinesInRange(rows: seq<seq<i32>>)
    requires HasHeader(rows)
    requires 0 <= rows[0][0] && 0 <= rows[0][1] && rows[0][0] as int * rows[0][1] < TWO_32
    requires InRange(rows, rows[0][0], rows[0][1])
    ensures forall j :: 1 <= j < |rows| ==> !Faulty(rows[j], BackwardSize(rows), CellCount(rows))
  {
    SizesInRange(rows);
    var f, b := ForwardSize(rows), BackwardSize(rows);
    forall j | 1 <= j < |rows|
      ensures !Faulty(rows[j], b, CellCount(rows))
    {
      LineCell(rows[j], f, b);
    }
  }

  /** Fields written with separating spaces make a line `lines` can give
      back unchanged. */
  lemma {:induction false} UnwordsIsPlainLine(ts: seq<string>)
    requires forall i :: 0 <= i < |ts| ==> Field(ts[i])
    ensures PlainLine(Unwords(ts))
  {
    if ts != [] {
      UnwordsIsPlainLine(ts[1..]);
      var s := Unwords(ts);
      var rest := Unwords(ts[1..]);
      assert s == ts[0] + " " + rest;
      forall j | 0 <= j < |s|
        ensures s[j] != '\n'
      {
        if j < |ts[0]| {
          assert s[j] == ts[0][j] && !IsWhitespace(ts[0][j]);
        } else if j > |ts[0]| {
          assert s[j] == rest[j - |ts[0]| - 1];
        }
      }
      if rest == [] {
        assert s[|s| - 1] == ' ';
      } else {
        assert s[|s| - 1] == rest[|rest| - 1];
      }
    }
  }

  /** The matrix.def a table of numbers is written as: one line per row,
      its numbers in decimal, in UTF-8. */
  function MatrixText(rows: seq<seq<i32>>): seq<byte>
  {
    EncodeUtf8(Unlines(seq(|rows|, i requires 0 <= i < |rows| => FormatFields(rows[i]))))
  }

  /** The lines of a written matrix.def parse back to its rows. */
  lemma RowsOfWritten(rows: seq<seq<i32>>)
    ensures var ls := seq(|rows|, i requires 0 <= i < |rows| => FormatFields(rows[i]));
      Rows(Lines(Unlines(ls))) == Some(rows)
  {
    var ls := seq(|rows|, i requires 0 <= i < |rows| => FormatFields(rows[i]));
    forall i | 0 <= i < |ls|
      ensures PlainLine(ls[i]) && ParseFields(ls[i]) == Some(rows[i])
    {
      var ts := seq(|rows[i]|, j requires 0 <= j < |rows[i]| => FormatI32(rows[i][j]));
      forall j | 0 <= j < |ts|
        ensures Field(ts[j])
      {
        FormattedIsField(rows[i][j]);
      }
      UnwordsIsPlainLine(ts);
      ParseFormatFields(rows[i]);
    }
    LinesOfUnlines(ls);
    assert seq(|ls|, i requires 0 <= i < |ls| => ParseFields(ls[i]).value) == rows;
  }

  /** The builder reads back exactly the numbers a matrix.def was written
      with: decoding, splitting into lines and fields and parsing lose
      nothing and add nothing. */
  lemma ReadsWrittenMatrix(rows: seq<seq<i32>>)
    ensures CostMatrixOf(MatrixText(rows)) == FromRows(rows)
  {
    var ls := seq(|rows|, i requires 0 <= i < |rows| => FormatFields(rows[i]));
    DecodeEncode(Unlines(ls));
    RowsOfWritten(rows);
  }

  /** Once the lines are parsed nothing returns an error: what goes wrong
      later panics. */
  lemma FromRowsNeverFails(rows: seq<seq<i32>>)
    ensures !FromRows(rows).Failed?
  {
    if HasHeader(rows) {
      var fill := FillOf(rows, ForwardSize(rows), BackwardSize(rows), CellCount(rows));
      assert fill.Stopped? || fill.Cells?;
    }
  }

  /** The decoded text gives an error exactly when some line holds a
      field that is not an i32, and that error is a ParseIntError. */
  lemma TextFailsIff(text: string)
    ensures FromText(text).Failed? <==>
      exists i :: 0 <= i < |Lines(text)| && ParseFields(Lines(text)[i]).None?
    ensures FromText(text) != Failed(Utf8Error)
  {
    var ls := Lines(text);
    if Rows(ls).Some? {
      assert FromText(text) == FromRows(Rows(ls).value);
      FromRowsNeverFails(Rows(ls).value);
      assert forall i :: 0 <= i < |ls| ==> ParseFields(ls[i]).Some?;
    } else {
      assert FromText(text) == Failed(ParseIntError);
      var i :| 0 <= i < |ls| && ParseFields(ls[i]).None?;
      assert exists j :: 0 <= j < |Lines(text)| && ParseFields(Lines(text)[j]).None?;
    }
  }

  /** The builder returns an error exactly when matrix.def is not UTF-8
      or some line holds a field that is not an i32, whatever the rest of
      the text: every line is parsed before the header is looked at. */
  lemma FailsIff(matrix: seq<byte>)
    ensures CostMatrixOf(matrix).Failed? <==>
      DecodeUtf8(matrix).None? ||
      exists i :: 0 <= i < |Lines(DecodeUtf8(matrix).value)| && ParseFields(Lines(DecodeUtf8(matrix).value)[i]).None?
    ensures CostMatrixOf(matrix) == Failed(Utf8Error) <==> DecodeUtf8(matrix).None?
  {
    if DecodeUtf8(matrix).Some? {
      TextFailsIff(DecodeUtf8(matrix).value);
    }
  }

  /** An empty matrix.def has no header line: `unwrap` panics. */
  lemma EmptyMatrixPanics()
    ensures CostMatrixOf([]) == Panicked(MissingHeader)
  {
    assert Lines([]) == [];
    var r := Rows([]);
    assert r.Some? && |r.value| == 0;
  }

  /** Two forward and two backward ids, one connection (0, 1) of cost 50:
      six cells, the sizes, then i16::MAX everywhere but at 2 + 1 + 0 * 2. */
  lemma SmallMatrix()
    ensures FromRows([[2, 2], [0, 1, 50]]).MatrixBuilt?
    ensures FromRows([[2, 2], [0, 1, 50]]).costs == [2, 2, 0x7FFF, 50, 0x7FFF, 0x7FFF]
  {
    var rows: seq<seq<i32>> := [[2, 2], [0, 1, 50]];
    assert CellCount(rows) == 6;
    assert CellIndex(rows[1], 2) == 3;
    BuiltIff(rows);
    var costs := FromRows(rows).costs;
    forall k | 0 <= k < 6
      ensures costs[k] == [2, 2, 0x7FFF, 50, 0x7FFF, 0x7FFF][k]
    {
      assert costs[k] == Cell(rows, 2, 2, 2, k);
    }
  }

  /** Nothing checks a backward id against backward_size: the line
      "0 2 7" under sizes 2 2 lands on the cell of (1, 0). */
  lemma BackwardIdOverflowsIntoNextRow()
    ensures FromRows([[2, 2], [0, 2, 7]]).MatrixBuilt?
    ensures FromRows([[2, 2], [0, 2, 7]]).costs == [2, 2, 0x7FFF, 0x7FFF, 7, 0x7FFF]
  {
    var rows: seq<seq<i32>> := [[2, 2], [0, 2, 7]];
    assert CellCount(rows) == 6;
    assert CellIndex(rows[1], 2) == 4;
    BuiltIff(rows);
    var costs := FromRows(rows).costs;
    forall k | 0 <= k < 6
      ensures costs[k] == [2, 2, 0x7FFF, 0x7FFF, 7, 0x7FFF][k]
    {
      assert costs[k] == Cell(rows, 2, 2, 2, k);
    }
  }

  /** A cell past the end panics; a negative id is read as a large u32. */
  lemma OutOfRangeCellPanics()
    ensures FromRows([[2, 2], [2, 0, 7]]) == Panicked(CellOutOfRange(1, 6, 6))
    ensures FromRows([[2, 2], [-1, 0, 7]]) == Panicked(CellOutOfRange(1, 0x1_0000_0000, 6))
  {
    var rows: seq<seq<i32>> := [[2, 2], [2, 0, 7]];
    assert CellCount(rows) == 6 && CellIndex(rows[1], 2) == 6;
    assert FirstFault(rows, 2, 6, 2) == 1;
    var rows2: seq<seq<i32>> := [[2, 2], [-1, 0, 7]];
    assert CellCount(rows2) == 6 && CellIndex(rows2[1], 2) == 0x1_0000_0000;
    assert FirstFault(rows2, 2, 6, 2) == 1;
  }
}
