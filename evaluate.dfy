/** The resolver's small formula evaluator: ROW/COLUMN relative to the cell that
    holds the formula, the VLOOKUP value-match rule and row scan, and the
    single-column SUM. */
module Evaluate {
  import opened Text
  import opened Cells

  // ---------------------------------------------------------------------------
  // ROW() and COLUMN()
  // ---------------------------------------------------------------------------

  datatype PositionFunction = RowFn | ColumnFn

  /** The literal text returned when a position cannot be worked out. */
  function Unresolved(f: PositionFunction): string
  {
    match f
    case RowFn => "ROW()"
    case ColumnFn => "COLUMN()"
  }

  /** The pattern `ROW\(\)\s*\+\s*(\d+)` anchored at `i`: the offset it adds. */
  function RowPlusAt(s: string, i: nat): (r: Option<nat>)
    requires i <= |s|
  {
    if OccursAt(s, "ROW()", i) then
      var a := SpanWhile(s, i + 5, Spaces);
      if a < |s| && s[a] == '+' then
        var b := SpanWhile(s, a + 1, Spaces);
        var e := SpanWhile(s, b, Digits);
        SpanWhileRun(s, b, Digits);
        if b < e then Some(DigitsValue(s[b..e])) else None
      else None
    else None
  }

  /** `re.search` of that pattern from `i`: the offset at the first position
      where it matches. */
  function RowPlusSearch(s: string, i: nat): (r: Option<nat>)
    requires i <= |s|
    ensures r.Some? ==> exists k :: i <= k <= |s| && RowPlusAt(s, k) == r
    ensures r.None? ==> forall k :: i <= k <= |s| ==> RowPlusAt(s, k).None?
    decreases |s| - i
  {
    if RowPlusAt(s, i).Some? then RowPlusAt(s, i)
    else if i == |s| then None
    else RowPlusSearch(s, i + 1)
  }

  /** What `resolve_position_aware_function` returns for `expr` evaluated in the
      cell `context`: ROW is the first digit run of the context (plus N for a
      `ROW()+N` in `expr`), COLUMN the column number of its first run of capital
      letters; without a context, or without such a run, the literal text. */
  function PositionValue(expr: string, f: PositionFunction, context: string): Value
  {
    if context == [] then Text(Unresolved(f))
    else
      match f
      case RowFn =>
        (match FirstRun(context, 0, Digits)
         case None => Text(Unresolved(f))
         case Some(run) =>
           var row := DigitsValue(context[run.0..run.1]);
           if '+' in expr then
             match RowPlusSearch(expr, 0)
             case Some(k) => Num(row + k)
             case None => Num(row)
           else Num(row))
      case ColumnFn =>
        (match FirstRun(context, 0, Uppers)
         case None => Text(Unresolved(f))
         case Some(run) => Num(ColumnNumber(context[run.0..run.1])))
  }

  /** `resolve_position_aware_function`; the COLUMN branch folds the letters in a
      loop. */
  method ResolvePositionAware(expr: string, f: PositionFunction, context: string) returns (r: Value)
    ensures r == PositionValue(expr, f, context)
  {
    if context == [] {
      return Text(Unresolved(f));
    }
    if f == RowFn {
      var run := FirstRun(context, 0, Digits);
      if run.None? {
        return Text(Unresolved(f));
      }
      var rowNum := DigitsValue(context[run.value.0..run.value.1]);
      if '+' in expr {
        var plus := RowPlusSearch(expr, 0);
        if plus.Some? {
          return Num(rowNum + plus.value);
        }
      }
      return Num(rowNum);
    }
    var run := FirstRun(context, 0, Uppers);
    if run.None? {
      return Text(Unresolved(f));
    }
    var letters := context[run.value.0..run.value.1];
    var colNum := 0;
    for i := 0 to |letters|
      invariant colNum == ColumnNumber(letters[..i])
    {
      assert letters[..i + 1][..i] == letters[..i];
      colNum := colNum * 26 + (letters[i] as int - 'A' as int + 1);
    }
    assert letters[..|letters|] == letters;
    r := Num(colNum);
  }

  /** In the cell at column `col`, row `row`, ROW() is `row` and COLUMN() is
      `col`. */
  lemma PositionOfCoordinate(col: nat, row: nat)
    requires col >= 1
    ensures PositionValue("ROW()", RowFn, CoordText(ColumnLetters(col), row)) == Num(row)
    ensures PositionValue("COLUMN()", ColumnFn, CoordText(ColumnLetters(col), row)) == Num(col)
  {
    var letters := ColumnLetters(col);
    var digits := NatToString(row);
    var ctx := CoordText(letters, row);
    assert forall i :: 0 <= i < |letters| ==> ctx[i] == letters[i];
    assert forall i :: 0 <= i < |digits| ==> ctx[|letters| + i] == digits[i];
    FirstRunAt(ctx, 0, |letters|, |ctx|, Digits);
    FirstRunAt(ctx, 0, 0, |letters|, Uppers);
    assert ctx[|letters|..|ctx|] == digits;
    assert ctx[0..|letters|] == letters;
    DigitsValueOfNat(row);
    ColumnLettersRoundTrip(col);
    assert '+' !in "ROW()";
  }

  /** `ROW()+N` in the cell at row `row` is `row + N`. */
  lemma RowPlusOffset(col: nat, row: nat, n: nat, expr: string)
    requires col >= 1
    requires expr == "ROW()+" + NatToString(n)
    ensures PositionValue(expr, RowFn, CoordText(ColumnLetters(col), row)) == Num(row + n)
  {
    PositionOfCoordinate(col, row);
    RowPlusNat(n, expr);
    assert '+' in expr by {
      assert expr[5] == '+';
    }
  }

  lemma RowPlusNat(n: nat, expr: string)
    requires expr == "ROW()+" + NatToString(n)
    ensures RowPlusSearch(expr, 0) == Some(n)
  {
    var digits := NatToString(n);
    assert expr[..5] == "ROW()" && expr[5] == '+' && expr[6..] == digits;
    RowPlusDigits(expr, digits);
    DigitsValueOfNat(n);
  }

  /** `ROW()+` followed by a run of digits adds the value of those digits. */
  lemma RowPlusDigits(expr: string, digits: string)
    requires |expr| >= 6 && expr[..5] == "ROW()" && expr[5] == '+'
    requires expr[6..] == digits && digits != [] && forall i :: 0 <= i < |digits| ==> IsDigit(digits[i])
    ensures RowPlusAt(expr, 0) == Some(DigitsValue(digits))
  {
    assert OccursAt(expr, "ROW()", 0);
    SpanWhileExact(expr, 5, 5, Spaces);
    SpanWhileExact(expr, 6, 6, Spaces);
    SpanWhileExact(expr, 6, |expr|, Digits);
    assert expr[6..|expr|] == digits;
  }

  /** The first run of class `k` from `i` is `[a, e)` when nothing before `a`
      and everything in `[a, e)` is in the class, and the run stops at `e`. */
  lemma FirstRunAt(s: string, i: nat, a: nat, e: nat, k: CharClass)
    requires i <= a < e <= |s|
    requires forall j :: i <= j < a ==> !InClass(s[j], k)
    requires forall j :: a <= j < e ==> InClass(s[j], k)
    requires e < |s| ==> !InClass(s[e], k)
    ensures FirstRun(s, i, k) == Some((a, e))
    decreases a - i
  {
    if i < a {
      FirstRunAt(s, i + 1, a, e, k);
    } else {
      SpanWhileExact(s, a, e, k);
    }
  }

  // ---------------------------------------------------------------------------
  // VLOOKUP
  // ---------------------------------------------------------------------------

  /** `values_match_simple`: an empty cell never matches; two numbers compare
      as numbers; anything else compares as trimmed, upper-cased text. */
  function ValuesMatch(cell: Value, lookup: Value): bool
  {
    if cell.Empty? then false
    else if cell.Num? && lookup.Num? then cell.n == lookup.n
    else Upper(Strip(ValueStr(cell))) == Upper(Strip(ValueStr(lookup)))
  }

  /** The parsed table range of a VLOOKUP: the start column letters and the
      first and last row (the end column is not used). */
  datatype TableRange = TableRange(col: string, first: nat, last: nat)

  /** The prefix pattern `\$?([A-Z]+)\$?(\d+)`: column letters and row number. */
  function CellPrefix(s: string): (r: Option<(string, nat)>)
    ensures r.Some? ==> r.value.0 != [] && AllUpper(r.value.0)
  {
    var i := if |s| > 0 && s[0] == '$' then 1 else 0;
    var j := SpanWhile(s, i, Uppers);
    var k := if j < |s| && s[j] == '$' then j + 1 else j;
    var e := SpanWhile(s, k, Digits);
    SpanWhileRun(s, i, Uppers);
    SpanWhileRun(s, k, Digits);
    if i < j && k < e then Some((s[i..j], DigitsValue(s[k..e]))) else None
  }

  /** The range argument of VLOOKUP: exactly one `:` (none is rejected, and more
      than one fails to unpack), then a cell prefix on each side. */
  function ParseTableRange(table: string): Option<TableRange>
  {
    if CountChar(table, ':') != 1 then None
    else
      match FindChar(table, ':', 0)
      case None => None
      case Some(c) =>
        match (CellPrefix(table[..c]), CellPrefix(table[c + 1..]))
        case (Some(start), Some(end)) => Some(TableRange(start.0, start.1, end.1))
        case _ => None
  }

  /** Whether `x` is the code of an ASCII letter, the only characters that can
      make a column name. */
  predicate IsLetterCode(x: int)
  {
    'A' as int <= x <= 'Z' as int || 'a' as int <= x <= 'z' as int
  }

  /** What one row of the scan yields: nothing when the first-column cell cannot
      be read or does not match; on a match, the cell `col_index - 1` columns to
      the right of a one-letter start column, and nothing when that column
      cannot be formed or read (the source catches the error and moves on). */
  function RowHit(sheet: Sheet, lookup: Value, col: string, colIndex: int, row: nat): Option<Value>
  {
    match CellAt(sheet, CoordText(col, row))
    case None => None
    case Some(v) =>
      if !ValuesMatch(v, lookup) || |col| != 1 then None
      else
        var x := col[0] as int + colIndex - 1;
        if IsLetterCode(x) then CellAt(sheet, CoordText([x as char], row)) else None
  }

  /** The first hit of the scan from `row` to `last`, or empty. */
  function ScanFrom(sheet: Sheet, lookup: Value, rng: TableRange, colIndex: int, row: nat): Value
    decreases rng.last + 1 - row
  {
    if row > rng.last then Empty
    else
      match RowHit(sheet, lookup, rng.col, colIndex, row)
      case Some(v) => v
      case None => ScanFrom(sheet, lookup, rng, colIndex, row + 1)
  }

  /** What `perform_vlookup_simple` returns. */
  function Vlookup(sheet: Sheet, lookup: Value, table: string, colIndex: int): Value
  {
    match ParseTableRange(table)
    case None => Empty
    case Some(rng) => ScanFrom(sheet, lookup, rng, colIndex, rng.first)
  }

  /** The scan is empty when no row from `row` to `last` yields a value. */
  lemma {:induction false} ScanFromMiss(sheet: Sheet, lookup: Value, rng: TableRange, colIndex: int, row: nat)
    requires forall j :: row <= j <= rng.last ==> RowHit(sheet, lookup, rng.col, colIndex, j).None?
    ensures ScanFrom(sheet, lookup, rng, colIndex, row) == Empty
    decreases rng.last + 1 - row
  {
    if row <= rng.last {
      ScanFromMiss(sheet, lookup, rng, colIndex, row + 1);
    }
  }

  /** The scan returns the value of the first row from `row` that yields one. */
  lemma {:induction false} ScanFromHit(sheet: Sheet, lookup: Value, rng: TableRange, colIndex: int, row: nat, k: nat)
    requires row <= k <= rng.last
    requires RowHit(sheet, lookup, rng.col, colIndex, k).Some?
    requires forall j :: row <= j < k ==> RowHit(sheet, lookup, rng.col, colIndex, j).None?
    ensures ScanFrom(sheet, lookup, rng, colIndex, row) == RowHit(sheet, lookup, rng.col, colIndex, k).value
    decreases k - row
  {
    if row < k {
      assert RowHit(sheet, lookup, rng.col, colIndex, row).None?;
      ScanFromHit(sheet, lookup, rng, colIndex, row + 1, k);
      ScanFromNext(sheet, lookup, rng, colIndex, row);
    } else {
      ScanFromAt(sheet, lookup, rng, colIndex, row);
    }
  }

  /** A row that yields nothing passes the scan on to the next. */
  lemma ScanFromNext(sheet: Sheet, lookup: Value, rng: TableRange, colIndex: int, row: nat)
    requires row <= rng.last && RowHit(sheet, lookup, rng.col, colIndex, row).None?
    ensures ScanFrom(sheet, lookup, rng, colIndex, row) == ScanFrom(sheet, lookup, rng, colIndex, row + 1)
  {
  }

  /** A row that yields a value ends the scan with it. */
  lemma ScanFromAt(sheet: Sheet, lookup: Value, rng: TableRange, colIndex: int, row: nat)
    requires row <= rng.last && RowHit(sheet, lookup, rng.col, colIndex, row).Some?
    ensures ScanFrom(sheet, lookup, rng, colIndex, row) == RowHit(sheet, lookup, rng.col, colIndex, row).value
  {
  }

  /** `perform_vlookup_simple`: scan the rows of the start column top to bottom
      and return from the first row that yields a value. */
  method PerformVlookup(sheet: Sheet, lookup: Value, table: string, colIndex: int) returns (r: Value)
    ensures r == Vlookup(sheet, lookup, table, colIndex)
  {
    if ':' !in table {
      return Empty;
    }
    var parsed := ParseTableRange(table);
    if parsed.None? {
      return Empty;
    }
    var rng := parsed.value;
    var row: nat := rng.first;
    while row <= rng.last
      invariant ScanFrom(sheet, lookup, rng, colIndex, row) == Vlookup(sheet, lookup, table, colIndex)
      decreases rng.last + 1 - row
    {
      var hit := LookupRow(sheet, lookup, rng.col, colIndex, row);
      if hit.Some? {
        ScanFromAt(sheet, lookup, rng, colIndex, row);
        return hit.value;
      }
      ScanFromNext(sheet, lookup, rng, colIndex, row);
      row := row + 1;
    }
    r := Empty;
  }

  /** One row of the loop of `perform_vlookup_simple`: read the first-column
      cell and, on a match, the cell of the result column. */
  method LookupRow(sheet: Sheet, lookup: Value, col: string, colIndex: int, row: nat) returns (hit: Option<Value>)
    ensures hit == RowHit(sheet, lookup, col, colIndex, row)
  {
    hit := None;
    var firstColCell := CellAt(sheet, CoordText(col, row));
    if firstColCell.Some? && ValuesMatch(firstColCell.value, lookup) && |col| == 1 {
      var resultCol := col[0] as int + colIndex - 1;
      if IsLetterCode(resultCol) {
        hit := CellAt(sheet, CoordText([resultCol as char], row));
      }
    }
  }

  /** Matching ignores case and surrounding whitespace of text lookups. */
  lemma MatchIgnoresCase(cell: Value, s: string)
    requires !cell.Num?
    ensures ValuesMatch(cell, Text(s)) == ValuesMatch(cell, Text(Upper(s)))
  {
    StripUpperCommute(s);
    UpperIdempotent(Strip(s));
  }

  /** A non-empty cell matches its own value. */
  lemma MatchReflexive(v: Value)
    requires !v.Empty?
    ensures ValuesMatch(v, v)
  {
  }

  lemma UpperIdempotent(s: string)
    ensures Upper(Upper(s)) == Upper(s)
  {
  }

  /** Upper-casing leaves whitespace whitespace and everything else not. */
  lemma UpperCharSpace(c: char)
    ensures UpperChar(c) in Whitespace <==> c in Whitespace
  {
  }

  lemma {:induction false} TrimLeftUpperCommute(s: string)
    ensures TrimLeft(Upper(s), Whitespace) == Upper(TrimLeft(s, Whitespace))
    decreases |s|
  {
    var u := Upper(s);
    if s != [] {
      UpperCharSpace(s[0]);
      assert u[0] == UpperChar(s[0]);
      assert u[1..] == Upper(s[1..]);
      if s[0] in Whitespace {
        TrimLeftUpperCommute(s[1..]);
        assert TrimLeft(u, Whitespace) == TrimLeft(u[1..], Whitespace);
      } else {
        assert TrimLeft(u, Whitespace) == u;
      }
    }
  }

  lemma {:induction false} TrimRightUpperCommute(s: string)
    ensures TrimRight(Upper(s), Whitespace) == Upper(TrimRight(s, Whitespace))
    decreases |s|
  {
    var u := Upper(s);
    if s != [] {
      var n := |s| - 1;
      UpperCharSpace(s[n]);
      assert u[n] == UpperChar(s[n]);
      assert u[..n] == Upper(s[..n]);
      if s[n] in Whitespace {
        TrimRightUpperCommute(s[..n]);
        assert TrimRight(u, Whitespace) == TrimRight(u[..n], Whitespace);
      } else {
        assert TrimRight(u, Whitespace) == u;
      }
    }
  }

  lemma StripUpperCommute(s: string)
    ensures Strip(Upper(s)) == Upper(Strip(s))
  {
    TrimLeftUpperCommute(s);
    TrimRightUpperCommute(TrimLeft(s, Whitespace));
  }

  // ---------------------------------------------------------------------------
  // SUM
  // ---------------------------------------------------------------------------

  /** The operands of a matched `SUM(Xn:Ym)`: each side's letters and row. */
  datatype SumOperands = SumOperands(startLetters: string, startRow: nat, endLetters: string, endRow: nat)

  predicate AllDigits(s: string)
  {
    forall i :: 0 <= i < |s| ==> IsDigit(s[i])
  }

  predicate AllLetters(s: string)
  {
    forall i :: 0 <= i < |s| ==> IsLetter(s[i])
  }

  /** A cell token `[A-Z]+\d+` (either case): its letters, its row and where
      it ends. */
  datatype CellToken = CellToken(letters: string, row: nat, end: nat)

  /** Letters (either case) then digits from `i`. */
  function CellTokenAt(s: string, i: nat): (r: Option<CellToken>)
    requires i <= |s|
    ensures r.Some? ==> i < r.value.end <= |s|
  {
    var j := SpanWhile(s, i, Letters);
    var e := SpanWhile(s, j, Digits);
    if i < j < e then
      SpanWhileRun(s, j, Digits);
      assert AllDigits(s[j..e]);
      Some(CellToken(s[i..j], DigitsValue(s[j..e]), e))
    else None
  }

  /** `SUM\s*\(\s*` (case-insensitive) at `i`: the position after it. */
  function SumOpenAt(s: string, i: nat): (r: Option<nat>)
    requires i <= |s|
    ensures r.Some? ==> i < r.value <= |s|
  {
    if i + 3 <= |s| && UpperChar(s[i]) == 'S' && UpperChar(s[i + 1]) == 'U' && UpperChar(s[i + 2]) == 'M' then
      var a := SpanWhile(s, i + 3, Spaces);
      if a < |s| && s[a] == '(' then Some(SpanWhile(s, a + 1, Spaces)) else None
    else None
  }

  /** `[A-Z]+\d+:[A-Z]+\d+\s*\)` (case-insensitive) at `b`: the first cell token,
      then the rest. */
  function SumRangeAt(s: string, b: nat): Option<SumOperands>
    requires b <= |s|
  {
    match CellTokenAt(s, b)
    case None => None
    case Some(t1) => SumSecondAt(s, t1)
  }

  /** A colon and the second cell token after the first token `t1`. */
  function SumSecondAt(s: string, t1: CellToken): Option<SumOperands>
    requires t1.end <= |s|
  {
    if t1.end < |s| && s[t1.end] == ':' then
      match CellTokenAt(s, t1.end + 1)
      case None => None
      case Some(t2) => SumCloseAt(s, t1, t2)
    else None
  }

  /** Optional spaces and the closing parenthesis after the second token. */
  function SumCloseAt(s: string, t1: CellToken, t2: CellToken): Option<SumOperands>
    requires t2.end <= |s|
  {
    var c := SpanWhile(s, t2.end, Spaces);
    if c < |s| && s[c] == ')' then Some(SumOperands(t1.letters, t1.row, t2.letters, t2.row))
    else None
  }

  /** The pattern `SUM\s*\(\s*([A-Z]+\d+:[A-Z]+\d+)\s*\)`, case-insensitive,
      anchored at `i`. Each step is forced (letters cannot be digits, and no
      class overlaps the next literal), so one pass decides the match. */
  function SumAt(s: string, i: nat): Option<SumOperands>
    requires i <= |s|
  {
    match SumOpenAt(s, i)
    case None => None
    case Some(b) => SumRangeAt(s, b)
  }

  /** `re.search` of the SUM pattern from `i`. */
  function SumSearch(s: string, i: nat): (r: Option<SumOperands>)
    requires i <= |s|
    ensures r.Some? ==> exists k :: i <= k <= |s| && SumAt(s, k) == r
    ensures r.None? ==> forall k :: i <= k <= |s| ==> SumAt(s, k).None?
    decreases |s| - i
  {
    if SumAt(s, i).Some? then SumAt(s, i)
    else if i == |s| then None
    else SumSearch(s, i + 1)
  }

  /** The numeric value a cell adds to a sum: its number, or 0 when it is not a
      number or cannot be read. */
  function NumberAt(sheet: Sheet, col: string, row: nat): int
  {
    match CellAt(sheet, CoordText(col, row))
    case Some(Num(n)) => n
    case _ => 0
  }

  /** The sum of the numeric cells of column `col` in rows `lo` up to but not
      including `hi`. */
  function ColumnSum(sheet: Sheet, col: string, lo: nat, hi: nat): int
    decreases hi
  {
    if hi <= lo then 0 else ColumnSum(sheet, col, lo, hi - 1) + NumberAt(sheet, col, hi - 1)
  }

  /** The column and row range a SUM formula adds up: none when the pattern does
      not match or a side's letters are not all capitals (the follow-up
      case-sensitive parse then fails). */
  function SumRange(formula: string): (r: Option<(string, nat, nat)>)
    ensures r.Some? ==> r.value.0 != [] && AllUpper(r.value.0)
  {
    match SumSearch(formula, 0)
    case None => None
    case Some(ops) =>
      if AllUpper(ops.startLetters) && AllUpper(ops.endLetters) then
        Some((ops.startLetters, ops.startRow, ops.endRow))
      else None
  }

  /** What `calculate_sum_formula` returns: the start column's sum over the row
      range, or none. */
  function SumValue(sheet: Sheet, formula: string): Value
  {
    match SumRange(formula)
    case None => Empty
    case Some(rng) => Num(ColumnSum(sheet, rng.0, rng.1, rng.2 + 1))
  }

  /** `calculate_sum_formula`: match the range, then add up the start column. */
  method CalculateSum(sheet: Sheet, formula: string) returns (r: Value)
    ensures r == SumValue(sheet, formula)
  {
    var rng := SumRange(formula);
    if rng.None? {
      return Empty;
    }
    var total := SumRows(sheet, rng.value.0, rng.value.1, rng.value.2);
    r := Num(total);
  }

  /** The row loop of `calculate_sum_formula`: read each cell of the column
      from the start row to the end row and add the numbers. */
  method SumRows(sheet: Sheet, col: string, startRow: nat, endRow: nat) returns (total: int)
    ensures total == ColumnSum(sheet, col, startRow, endRow + 1)
  {
    total := 0;
    var row := startRow;
    while row <= endRow
      invariant startRow <= row && (row <= endRow + 1 || row == startRow)
      invariant total == ColumnSum(sheet, col, startRow, row)
      decreases endRow as int + 1 - row
    {
      var cell := CellAt(sheet, CoordText(col, row));
      ColumnSumStep(sheet, col, startRow, row, cell);
      if cell.Some? && cell.value.Num? {
        total := total + cell.value.n;
      }
      row := row + 1;
    }
  }

  /** One more row adds the number in that row's cell, if it holds one. */
  lemma ColumnSumStep(sheet: Sheet, col: string, lo: nat, row: nat, cell: Option<Value>)
    requires lo <= row && cell == CellAt(sheet, CoordText(col, row))
    ensures ColumnSum(sheet, col, lo, row + 1)
            == ColumnSum(sheet, col, lo, row) + if cell.Some? && cell.value.Num? then cell.value.n else 0
  {
  }

  /** A sum over a row range splits at any row in between. */
  lemma {:induction false} ColumnSumSplit(sheet: Sheet, col: string, lo: nat, mid: nat, hi: nat)
    requires lo <= mid <= hi
    ensures ColumnSum(sheet, col, lo, hi)
            == ColumnSum(sheet, col, lo, mid) + ColumnSum(sheet, col, mid, hi)
    decreases hi
  {
    if mid < hi {
      ColumnSumSplit(sheet, col, lo, mid, hi - 1);
    }
  }

  /** Cells that are not numbers add nothing: overwriting any cell with text or
      emptying it leaves the sum as if the cell were absent. */
  lemma {:induction false} ColumnSumSkipsNonNumbers(sheet: Sheet, col: string, lo: nat, hi: nat, at: Coord, v: Value)
    requires !v.Num?
    ensures ColumnSum(sheet[at := v], col, lo, hi) == ColumnSum(sheet - {at}, col, lo, hi)
    decreases hi
  {
    if hi > lo {
      ColumnSumSkipsNonNumbers(sheet, col, lo, hi - 1, at, v);
    }
  }

  /** A formula `=SUM(Xa:Yb)` with capital column letters reads column X with
      rows a to b, so `SumValue` adds up column X alone: the end column Y plays
      no part. */
  lemma SumReadsStartColumn(formula: string, x: string, a: string, y: string, b: string)
    requires x != [] && AllUpper(x) && y != [] && AllUpper(y)
    requires a != [] && AllDigits(a) && b != [] && AllDigits(b)
    requires formula == "=SUM(" + x + a + ":" + y + b + ")"
    ensures SumRange(formula) == Some((x, DigitsValue(a), DigitsValue(b)))
  {
    var q := 5 + |x| + |a|;
    var e := q + 1 + |y| + |b|;
    assert formula[..5] == "=SUM(";
    assert formula[5..5 + |x|] == x && formula[5 + |x|..q] == a && formula[q] == ':';
    assert formula[q + 1..q + 1 + |y|] == y && formula[q + 1 + |y|..e] == b && formula[e] == ')';
    SumReadsSlices(formula, q, e, x, a, y, b);
  }

  /** The same, with the formula given by its pieces at their offsets. */
  lemma SumReadsSlices(s: string, q: nat, e: nat, x: string, a: string, y: string, b: string)
    requires x != [] && AllUpper(x) && y != [] && AllUpper(y)
    requires a != [] && AllDigits(a) && b != [] && AllDigits(b)
    requires q == 5 + |x| + |a| && e == q + 1 + |y| + |b| && e < |s| && s[..5] == "=SUM("
    requires s[5..5 + |x|] == x && s[5 + |x|..q] == a && s[q] == ':'
    requires s[q + 1..q + 1 + |y|] == y && s[q + 1 + |y|..e] == b && s[e] == ')'
    ensures SumRange(s) == Some((x, DigitsValue(a), DigitsValue(b)))
  {
    SumPartsOfSlices(s, q, e, x, a, y, b);
    SumOfParts(s, x, DigitsValue(a), y, DigitsValue(b));
  }

  /** Where the pieces of `=SUM(Xa:Yb)` sit, the opening and the range match. */
  lemma SumPartsOfSlices(s: string, q: nat, e: nat, x: string, a: string, y: string, b: string)
    requires x != [] && AllUpper(x) && y != [] && AllUpper(y)
    requires a != [] && AllDigits(a) && b != [] && AllDigits(b)
    requires q == 5 + |x| + |a| && e == q + 1 + |y| + |b| && e < |s| && s[..5] == "=SUM("
    requires s[5..5 + |x|] == x && s[5 + |x|..q] == a && s[q] == ':'
    requires s[q + 1..q + 1 + |y|] == y && s[q + 1 + |y|..e] == b && s[e] == ')'
    ensures UpperChar(s[0]) != 'S' && SumOpenAt(s, 1) == Some(5)
    ensures SumRangeAt(s, 5) == Some(SumOperands(x, DigitsValue(a), y, DigitsValue(b)))
  {
    assert s[0] == '=' && s[1] == 'S' && s[2] == 'U' && s[3] == 'M' && s[4] == '(';
    SumOpenAtPlain(s, 1);
    SumRangeTokens(s, 5, q, e, x, a, y, b);
  }

  /** A formula whose first character is not an `S` and whose `SUM(` opens at
      index 1 has the range read after it. */
  lemma SumOfParts(s: string, x: string, r1: nat, y: string, r2: nat)
    requires 5 <= |s| && UpperChar(s[0]) != 'S'
    requires SumOpenAt(s, 1) == Some(5) && SumRangeAt(s, 5) == Some(SumOperands(x, r1, y, r2))
    requires AllUpper(x) && AllUpper(y)
    ensures SumRange(s) == Some((x, r1, r2))
  {
    SumSearchAtOne(s, SumOperands(x, r1, y, r2));
  }

  /** The search skips a first character that cannot open `SUM(`. */
  lemma SumSearchAtOne(s: string, ops: SumOperands)
    requires 5 <= |s| && UpperChar(s[0]) != 'S'
    requires SumOpenAt(s, 1) == Some(5) && SumRangeAt(s, 5) == Some(ops)
    ensures SumSearch(s, 0) == Some(ops)
  {
    assert SumOpenAt(s, 0) == None;
    assert SumAt(s, 1) == Some(ops);
  }

  /** `SUM(` with no spaces opens the pattern. */
  lemma SumOpenAtPlain(s: string, i: nat)
    requires i + 4 <= |s| && s[i] == 'S' && s[i + 1] == 'U' && s[i + 2] == 'M' && s[i + 3] == '('
    requires i + 4 < |s| ==> !IsSpace(s[i + 4])
    ensures SumOpenAt(s, i) == Some(i + 4)
  {
    SpanWhileExact(s, i + 3, i + 3, Spaces);
    SpanWhileExact(s, i + 4, i + 4, Spaces);
  }

  /** The range part at `p` reads the two cells of `Xa:Yb)`, where `q` is the
      position of the colon and `e` that of the closing parenthesis. */
  lemma SumRangeTokens(s: string, p: nat, q: nat, e: nat, x: string, a: string, y: string, b: string)
    requires x != [] && AllUpper(x) && y != [] && AllUpper(y)
    requires a != [] && AllDigits(a) && b != [] && AllDigits(b)
    requires q == p + |x| + |a| && e == q + 1 + |y| + |b| && e < |s|
    requires s[p..p + |x|] == x && s[p + |x|..q] == a && s[q] == ':'
    requires s[q + 1..q + 1 + |y|] == y && s[q + 1 + |y|..e] == b && s[e] == ')'
    ensures SumRangeAt(s, p) == Some(SumOperands(x, DigitsValue(a), y, DigitsValue(b)))
  {
    TokenAt(s, p, x, a);
    TokenAt(s, q + 1, y, b);
    SpanWhileExact(s, e, e, Spaces);
    SumRangeOfTokens(s, p, CellToken(x, DigitsValue(a), q), CellToken(y, DigitsValue(b), e));
  }

  /** The range part from its two tokens. */
  lemma SumRangeOfTokens(s: string, p: nat, t1: CellToken, t2: CellToken)
    requires p <= |s| && CellTokenAt(s, p) == Some(t1) && t1.end < |s| && s[t1.end] == ':'
    requires CellTokenAt(s, t1.end + 1) == Some(t2)
    requires SpanWhile(s, t2.end, Spaces) == t2.end < |s| && s[t2.end] == ')'
    ensures SumRangeAt(s, p) == Some(SumOperands(t1.letters, t1.row, t2.letters, t2.row))
  {
    SumSecondOfToken(s, t1, t2);
  }

  /** The colon and the second token after the first token `t1`. */
  lemma SumSecondOfToken(s: string, t1: CellToken, t2: CellToken)
    requires t1.end < |s| && s[t1.end] == ':'
    requires CellTokenAt(s, t1.end + 1) == Some(t2)
    requires SpanWhile(s, t2.end, Spaces) == t2.end < |s| && s[t2.end] == ')'
    ensures SumSecondAt(s, t1) == Some(SumOperands(t1.letters, t1.row, t2.letters, t2.row))
  {
    assert SumCloseAt(s, t1, t2) == Some(SumOperands(t1.letters, t1.row, t2.letters, t2.row));
  }

  /** Letters `x` then digits `a`, followed by a non-digit, read as one cell
      token. */
  lemma TokenAt(s: string, i: nat, x: string, a: string)
    requires x != [] && AllUpper(x) && a != [] && AllDigits(a)
    requires i + |x| + |a| < |s| && s[i..i + |x|] == x && s[i + |x|..i + |x| + |a|] == a
    requires !IsDigit(s[i + |x| + |a|])
    ensures CellTokenAt(s, i) == Some(CellToken(x, DigitsValue(a), i + |x| + |a|))
  {
    assert forall j :: i <= j < i + |x| ==> s[j] == x[j - i];
    assert forall j :: i + |x| <= j < i + |x| + |a| ==> s[j] == a[j - i - |x|];
    SpanWhileExact(s, i, i + |x|, Letters);
    SpanWhileExact(s, i + |x|, i + |x| + |a|, Digits);
  }
}
