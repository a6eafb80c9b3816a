/** How the resolver evaluates the formulas it meets while resolving a
    component: the value of a cell with a simple formula in it, string
    concatenation formulas, VLOOKUP calls written in the INDIRECT argument,
    and the dispatch over function names. */
module Formulas {
  import opened Text
  import opened Cells
  import opened Scan
  import opened Evaluate
  import opened Classify

  // ---------------------------------------------------------------------------
  // Cell values with formula evaluation
  // ---------------------------------------------------------------------------

  /** A stored value that is a formula: text starting with `=`. */
  predicate IsFormula(v: Value)
  {
    v.Text? && StartsWith(v.s, "=")
  }

  /** The evaluation of a formula `"=" + body` stored in the cell `ref`: a SUM
      when the body mentions `SUM(` in any case, else a concatenation when it
      has an `&`, else ROW() or COLUMN() relative to `ref`, else the stored
      formula itself. */
  function FormulaValue(sheet: Sheet, ref: string, raw: string): Value
    requires StartsWith(raw, "=")
  {
    var body := raw[1..];
    if Contains(Upper(body), "SUM(") then SumValue(sheet, raw)
    else if '&' in body then StringConcatValue(sheet, body, ref)
    else if Contains(Upper(body), "ROW()") then PositionValue(body, RowFn, ref)
    else if Contains(Upper(body), "COLUMN()") then PositionValue(body, ColumnFn, ref)
    else Text(raw)
  }

  /** `get_cell_value_with_formula_calc`: the stored value, or for a formula
      its evaluation; empty when the reference cannot be read. */
  function CellValueWithFormulaCalc(sheet: Sheet, ref: string): (r: Value)
    ensures CellAt(sheet, ref).None? ==> r == Empty
    ensures CellAt(sheet, ref).Some? && !IsFormula(CellAt(sheet, ref).value) ==> r == CellAt(sheet, ref).value
  {
    match CellAt(sheet, ref)
    case None => Empty
    case Some(v) => if IsFormula(v) then FormulaValue(sheet, ref, v.s) else v
  }

  /** A formula cell holding `=ROW()` evaluates to its own row. */
  lemma FormulaCellKnowsRow(sheet: Sheet, col: nat, row: nat, raw: string)
    requires 1 <= col <= MaxThreeLetterColumn && 1 <= row <= MaxRow
    requires raw == "=ROW()"
    ensures CellValueWithFormulaCalc(sheet[Coord(col, row) := Text(raw)], CoordText(ColumnLetters(col), row)) == Num(row)
  {
    var ref := CoordText(ColumnLetters(col), row);
    RowBody(raw);
    CellHoldsFormula(sheet, col, row, raw);
    RowFormulaValue(sheet[Coord(col, row) := Text(raw)], ref, raw);
    PositionOfCoordinate(col, row);
  }

  /** A formula cell holding `=COLUMN()` evaluates to its own column. */
  lemma FormulaCellKnowsColumn(sheet: Sheet, col: nat, row: nat, raw: string)
    requires 1 <= col <= MaxThreeLetterColumn && 1 <= row <= MaxRow
    requires raw == "=COLUMN()"
    ensures CellValueWithFormulaCalc(sheet[Coord(col, row) := Text(raw)], CoordText(ColumnLetters(col), row)) == Num(col)
  {
    var ref := CoordText(ColumnLetters(col), row);
    ColumnBody(raw);
    CellHoldsFormula(sheet, col, row, raw);
    ColumnFormulaValue(sheet[Coord(col, row) := Text(raw)], ref, raw);
    PositionOfCoordinate(col, row);
  }

  /** The cell just written holds the formula, which is evaluated. */
  lemma CellHoldsFormula(sheet: Sheet, col: nat, row: nat, raw: string)
    requires 1 <= col <= MaxThreeLetterColumn && 1 <= row <= MaxRow
    requires StartsWith(raw, "=")
    ensures var s := sheet[Coord(col, row) := Text(raw)];
            var ref := CoordText(ColumnLetters(col), row);
            CellValueWithFormulaCalc(s, ref) == FormulaValue(s, ref, raw)
  {
    CoordTextRoundTrip(col, row);
  }

  /** A formula whose body mentions no `SUM(` and no `&` but does mention
      ROW() is evaluated as ROW() relative to its cell. */
  lemma RowFormulaValue(sheet: Sheet, ref: string, raw: string)
    requires StartsWith(raw, "=")
    requires !Contains(Upper(raw[1..]), "SUM(") && '&' !in raw[1..] && Contains(Upper(raw[1..]), "ROW()")
    ensures FormulaValue(sheet, ref, raw) == PositionValue(raw[1..], RowFn, ref)
  {
  }

  /** A formula whose body mentions none of `SUM(`, `&` and ROW() but does
      mention COLUMN() is evaluated as COLUMN() relative to its cell. */
  lemma ColumnFormulaValue(sheet: Sheet, ref: string, raw: string)
    requires StartsWith(raw, "=")
    requires !Contains(Upper(raw[1..]), "SUM(") && '&' !in raw[1..] && !Contains(Upper(raw[1..]), "ROW()")
    requires Contains(Upper(raw[1..]), "COLUMN()")
    ensures FormulaValue(sheet, ref, raw) == PositionValue(raw[1..], ColumnFn, ref)
  {
  }

  /** The body of `=ROW()` is ROW() and nothing else. */
  lemma RowBody(raw: string)
    requires raw == "=ROW()"
    ensures StartsWith(raw, "=") && raw[1..] == "ROW()"
    ensures !Contains(Upper(raw[1..]), "SUM(") && '&' !in raw[1..] && Contains(Upper(raw[1..]), "ROW()")
  {
    var body := raw[1..];
    assert body == "ROW()";
    UpperUnchanged(body);
    AbsentLead(body, "SUM(");
    ContainsSelf(body);
  }

  /** The body of `=COLUMN()` is COLUMN() and nothing else. */
  lemma ColumnBody(raw: string)
    requires raw == "=COLUMN()"
    ensures StartsWith(raw, "=") && raw[1..] == "COLUMN()"
    ensures !Contains(Upper(raw[1..]), "SUM(") && '&' !in raw[1..] && !Contains(Upper(raw[1..]), "ROW()")
    ensures Contains(Upper(raw[1..]), "COLUMN()")
  {
    var body := raw[1..];
    assert body == "COLUMN()";
    UpperUnchanged(body);
    AbsentLead(body, "SUM(");
    AbsentLead(body, "ROW()");
    ContainsSelf(body);
  }

  // ---------------------------------------------------------------------------
  // String concatenation formulas
  // ---------------------------------------------------------------------------

  /** What one part of a concatenation formula contributes, or none when the
      part names a cell that cannot be read (which aborts the whole formula):
      a double-quoted constant gives its inside, a cell reference the text of
      its value (empty for an empty cell), a part mentioning ROW() or COLUMN()
      the position value, and any other part itself. */
  function PieceText(sheet: Sheet, part: string, cell: string): Option<string>
  {
    var p := Strip(part);
    if WrappedIn(p, '"') then Some(Unwrap(p))
    else if IsCellRefText(p) then
      match CellAt(sheet, p)
      case None => None
      case Some(v) => Some(if v.Empty? then "" else ValueStr(v))
    else if Contains(Upper(p), "ROW()") then Some(ValueStr(PositionValue(p, RowFn, cell)))
    else if Contains(Upper(p), "COLUMN()") then Some(ValueStr(PositionValue(p, ColumnFn, cell)))
    else Some(p)
  }

  /** The pieces of all the parts, in order. */
  function Pieces(sheet: Sheet, parts: seq<string>, cell: string): (r: seq<Option<string>>)
    ensures |r| == |parts|
    ensures forall i :: 0 <= i < |parts| ==> r[i] == PieceText(sheet, parts[i], cell)
  {
    seq(|parts|, i requires 0 <= i < |parts| => PieceText(sheet, parts[i], cell))
  }

  /** The pieces joined in order, or none when any of them is none. */
  function JoinPieces(ps: seq<Option<string>>): (r: Option<string>)
    ensures r.Some? <==> forall i :: 0 <= i < |ps| ==> ps[i].Some?
  {
    if ps == [] then Some([])
    else
      match JoinPieces(ps[..|ps| - 1])
      case None => None
      case Some(t) =>
        match ps[|ps| - 1]
        case None => None
        case Some(x) => Some(t + x)
  }

  /** What `calculate_string_concat_formula` returns for `body` (a formula
      without its `=`) in cell `cell`: the joined pieces of its `&`-separated
      parts, or `body` unchanged when a cell read fails. */
  function StringConcatValue(sheet: Sheet, body: string, cell: string): Value
  {
    match JoinPieces(Pieces(sheet, SmartSplitParts(body), cell))
    case None => Text(body)
    case Some(t) => Text(t)
  }

  /** `calculate_string_concat_formula`: split on the `&`s outside quotes, then
      join the pieces of the parts. */
  method CalculateStringConcat(sheet: Sheet, body: string, cell: string) returns (r: Value)
    ensures r == StringConcatValue(sheet, body, cell)
  {
    var parts := SmartSplit(body);
    var joined := JoinPartPieces(sheet, parts, cell);
    r := if joined.None? then Text(body) else Text(joined.value);
  }

  /** The loop of `calculate_string_concat_formula`: evaluate and append the
      parts one by one, giving up at the first part that cannot be read. */
  method JoinPartPieces(sheet: Sheet, parts: seq<string>, cell: string) returns (r: Option<string>)
    ensures r == JoinPieces(Pieces(sheet, parts, cell))
  {
    ghost var ps := Pieces(sheet, parts, cell);
    var result := "";
    for i := 0 to |parts|
      invariant JoinPieces(ps[..i]) == Some(result)
    {
      var piece := PieceText(sheet, parts[i], cell);
      assert ps[..i + 1][..i] == ps[..i];
      if piece.None? {
        assert !ps[i].Some?;
        return None;
      }
      result := result + piece.value;
    }
    assert ps[..|parts|] == ps;
    r := Some(result);
  }

  /** Joining distributes over the parts: the pieces of `a + b` join to those
      of `a` followed by those of `b`, and the whole fails when either side
      does. */
  lemma {:induction false} JoinPiecesAppend(a: seq<Option<string>>, b: seq<Option<string>>)
    ensures var ra := JoinPieces(a);
            var rb := JoinPieces(b);
            JoinPieces(a + b) == if ra.Some? && rb.Some? then Some(ra.value + rb.value) else None
    decreases |b|
  {
    if b == [] {
      assert a + b == a;
      assert JoinPieces(b) == Some([]);
      if JoinPieces(a).Some? {
        assert JoinPieces(a).value + [] == JoinPieces(a).value;
      }
    } else {
      var b' := b[..|b| - 1];
      JoinPiecesAppend(a, b');
      assert (a + b)[..|a + b| - 1] == a + b';
      var ra := JoinPieces(a);
      var rb' := JoinPieces(b');
      if ra.Some? && rb'.Some? && b[|b| - 1].Some? {
        var x := b[|b| - 1].value;
        assert ra.value + rb'.value + x == ra.value + (rb'.value + x);
      }
    }
  }

  /** A double-quoted part contributes exactly the text between its quotes. */
  lemma QuotedPiece(sheet: Sheet, t: string, cell: string)
    ensures PieceText(sheet, "\"" + t + "\"", cell) == Some(t)
  {
    var p := "\"" + t + "\"";
    StripUnpadded(p);
  }

  /** Pieces that are all present join to the concatenation of their texts. */
  lemma {:induction false} JoinPresent(ps: seq<Option<string>>, texts: seq<string>)
    requires |ps| == |texts|
    requires forall i :: 0 <= i < |ps| ==> ps[i] == Some(texts[i])
    ensures JoinPieces(ps) == Some(Concat(texts))
    decreases |ps|
  {
    if ps != [] {
      var n := |ps| - 1;
      JoinPresent(ps[..n], texts[..n]);
    }
  }

  /** Parts that are all double-quoted constants concatenate to their insides,
      in order. */
  lemma QuotedPartsConcat(sheet: Sheet, texts: seq<string>, parts: seq<string>, cell: string)
    requires |parts| == |texts|
    requires forall i :: 0 <= i < |parts| ==> parts[i] == "\"" + texts[i] + "\""
    ensures JoinPieces(Pieces(sheet, parts, cell)) == Some(Concat(texts))
  {
    var ps := Pieces(sheet, parts, cell);
    forall i | 0 <= i < |parts|
      ensures ps[i] == Some(texts[i])
    {
      QuotedPiece(sheet, texts[i], cell);
    }
    JoinPresent(ps, texts);
  }

  /** The texts joined with no separator: `''.join(texts)`. */
  function Concat(texts: seq<string>): (r: string)
    ensures |texts| == 1 ==> r == texts[0]
  {
    if texts == [] then [] else Concat(texts[..|texts| - 1]) + texts[|texts| - 1]
  }

  /** Joining distributes over the list: `''.join(a + b)` is `''.join(a)`
      followed by `''.join(b)`. */
  lemma {:induction false} ConcatAppend(a: seq<string>, b: seq<string>)
    ensures Concat(a + b) == Concat(a) + Concat(b)
    decreases |b|
  {
    if b == [] {
      assert a + b == a;
      assert Concat(a) + [] == Concat(a);
    } else {
      var b' := b[..|b| - 1];
      var last := b[|b| - 1];
      ConcatAppend(a, b');
      assert (a + b)[..|a + b| - 1] == a + b';
      assert (a + b)[|a + b| - 1] == last;
      assert Concat(a) + Concat(b') + last == Concat(a) + (Concat(b') + last);
    }
  }

  /** A part that is a readable cell reference contributes the text of the
      cell's value, nothing for an empty cell. */
  lemma CellPiece(sheet: Sheet, p: string, cell: string, v: Value)
    requires Strip(p) == p && !WrappedIn(p, '"') && IsCellRefText(p)
    requires CellAt(sheet, p) == Some(v)
    ensures PieceText(sheet, p, cell) == Some(if v.Empty? then "" else ValueStr(v))
  {
  }

  /** A part naming an empty cell contributes nothing. */
  lemma EmptyCellPiece(sheet: Sheet, col: nat, row: nat, cell: string)
    requires 1 <= col <= MaxThreeLetterColumn && 1 <= row <= MaxRow
    requires Coord(col, row) !in sheet
    ensures PieceText(sheet, CoordText(ColumnLetters(col), row), cell) == Some("")
  {
    var letters := ColumnLetters(col);
    var ref := CoordText(letters, row);
    CoordTextRoundTrip(col, row);
    LettersDigitsIsCell(letters, NatToString(row));
    assert ref[0] != '"';
    CellPiece(sheet, ref, cell, Empty);
  }

  // ---------------------------------------------------------------------------
  // VLOOKUP calls in the INDIRECT argument
  // ---------------------------------------------------------------------------

  /** The repair of an expression cut short by the `&` split: an expression
      whose stripped text does not end in `)` gets `,FALSE)` appended when it
      has two commas or more, `)` otherwise. */
  function CloseVlookup(expr: string): (r: string)
    ensures EndsWith(Strip(expr), ")") ==> r == expr
    ensures !EndsWith(Strip(expr), ")") ==> |r| > 0 && StartsWith(r, Strip(expr)) && r[|r| - 1] == ')' 
  {
    var t := Strip(expr);
    if EndsWith(t, ")") then expr
    else if CountChar(expr, ',') >= 2 then t + ",FALSE)"
    else t + ")"
  }

  /** `VLOOKUP\s*\(` (any case) at `i`: the index just past the `(`. */
  function VlookupHeadAt(s: string, i: nat): (r: Option<nat>)
    requires i <= |s|
    ensures r.Some? ==> i + 8 <= r.value <= |s|
  {
    if i + 7 <= |s| && Upper(s[i..i + 7]) == "VLOOKUP" then
      var a := SpanWhile(s, i + 7, Spaces);
      if a < |s| && s[a] == '(' then Some(a + 1) else None
    else None
  }

  /** The index of the last `)` strictly between `d` and `j`. */
  function LastCloseBetween(s: string, d: nat, j: nat): (r: Option<nat>)
    requires j <= |s|
    ensures r.Some? ==> d < r.value < j && s[r.value] == ')'
    ensures r.Some? ==> forall k :: r.value < k < j ==> s[k] != ')'
    ensures r.None? ==> forall k :: d < k < j ==> s[k] != ')'
    decreases j
  {
    if j <= d + 1 then None
    else if s[j - 1] == ')' then Some(j - 1)
    else LastCloseBetween(s, d, j - 1)
  }

  /** The optional fourth argument `,\s*([^)]+)` then `\s*\)` after the comma at
      `c`: some text before the next `)`. */
  predicate FourthArgAt(s: string, c: nat)
    requires c < |s|
  {
    match FindChar(s, ')', c + 1)
    case None => false
    case Some(p) => p > c + 1
  }

  /** Where the third argument, which starts at `d`, ends. The greedy `[^,]+`
      first runs to the next comma and keeps it when a fourth argument and the
      closing `)` follow; otherwise it backs off to the last `)` before that
      comma (or before the end). */
  function ThirdArgEnd(s: string, d: nat): (r: Option<nat>)
    requires d <= |s|
    ensures r.Some? ==> d < r.value < |s|
  {
    match FindChar(s, ',', d)
    case Some(c) =>
      if c > d && FourthArgAt(s, c) then Some(c) else LastCloseBetween(s, d, c)
    case None => LastCloseBetween(s, d, |s|)
  }

  /** The three arguments that matter, as the regular expression captures them
      (before stripping). */
  datatype VlookupArgs = VlookupArgs(lookup: string, table: string, column: string)

  /** The arguments after the `(` at `b`: the first two end at the next commas
      and must not be empty. */
  function VlookupArgsFrom(s: string, b: nat): Option<VlookupArgs>
    requires b <= |s|
  {
    match FindChar(s, ',', b)
    case None => None
    case Some(c1) => if c1 == b then None else VlookupRestFrom(s, b, c1)
  }

  /** The second and third arguments once the first ends at the comma `c1`. */
  function VlookupRestFrom(s: string, b: nat, c1: nat): Option<VlookupArgs>
    requires b < c1 < |s|
  {
    match FindChar(s, ',', c1 + 1)
    case None => None
    case Some(c2) =>
      if c2 == c1 + 1 then None
      else
        match ThirdArgEnd(s, c2 + 1)
        case None => None
        case Some(m) => Some(VlookupArgs(s[b..c1], s[c1 + 1..c2], s[c2 + 1..m]))
  }

  /** The VLOOKUP pattern anchored at `i`. */
  function VlookupAt(s: string, i: nat): Option<VlookupArgs>
    requires i <= |s|
  {
    match VlookupHeadAt(s, i)
    case None => None
    case Some(b) => VlookupArgsFrom(s, b)
  }

  /** `re.search` of the VLOOKUP pattern: the match at the first position where
      there is one. */
  function VlookupSearch(s: string, i: nat): Option<VlookupArgs>
    requires i <= |s|
    decreases |s| - i
  {
    if VlookupAt(s, i).Some? then VlookupAt(s, i)
    else if i == |s| then None
    else VlookupSearch(s, i + 1)
  }

  /** `int(t)` for ASCII decimal text with an optional sign. */
  function ParseInt(t: string): Option<int>
  {
    if t != [] && (t[0] == '-' || t[0] == '+') then
      match ParseNat(t[1..])
      case None => None
      case Some(n) => var v: int := n; Some(if t[0] == '-' then -v else v)
    else
      match ParseNat(t)
      case None => None
      case Some(n) => Some(n)
  }

  /** Decimal digits, at least one. */
  function ParseNat(t: string): (r: Option<nat>)
    ensures r.Some? <==> t != [] && forall i :: 0 <= i < |t| ==> IsDigit(t[i])
  {
    if t != [] && forall i :: 0 <= i < |t| ==> IsDigit(t[i]) then Some(DigitsValue(t)) else None
  }

  /** `int(str(n)) == n`, signs included. */
  lemma ParseIntOfString(n: int)
    ensures ParseInt(IntToString(n)) == Some(n)
  {
    var m: nat := if n < 0 then -n else n;
    var digits := NatToString(m);
    DigitsValueOfNat(m);
    assert ParseNat(digits) == Some(m);
    if n < 0 {
      var t := IntToString(n);
      assert t == "-" + digits;
      assert t[1..] == digits;
    } else {
      assert IsDigit(digits[0]);
    }
  }

  /** `^[A-Z]+\d+$`: capital letters then digits, no `$`. */
  predicate IsPlainCellRef(s: string)
  {
    var j := SpanWhile(s, 0, Uppers);
    0 < j < SpanWhile(s, j, Digits) == |s|
  }

  /** The lookup value as written: a double-quoted constant is its inside, a
      plain cell reference the (evaluated) value of that cell, anything else
      the text itself. */
  function LookupOperand(sheet: Sheet, lv: string): Value
  {
    if WrappedIn(lv, '"') then Text(Unwrap(lv))
    else if IsPlainCellRef(lv) then CellValueWithFormulaCalc(sheet, lv)
    else Text(lv)
  }

  /** What `resolve_vlookup_full` returns: after the repair, the first match
      of the VLOOKUP pattern gives the lookup value, the table range and the
      column index (which must read as an integer), and the lookup runs on the
      sheet; empty when any step fails. */
  function VlookupValue(sheet: Sheet, expr: string): Value
  {
    var fixed := CloseVlookup(expr);
    match VlookupSearch(fixed, 0)
    case None => Empty
    case Some(args) =>
      match ParseInt(Strip(args.column))
      case None => Empty
      case Some(colIndex) => Vlookup(sheet, LookupOperand(sheet, Strip(args.lookup)), Strip(args.table), colIndex)
  }

  /** `s.find(c, i)` is `k` when `c` is at `k` and not in `s[i..k]`. */
  lemma FindCharAt(s: string, c: char, i: nat, k: nat)
    requires i <= k < |s| && s[k] == c && c !in s[i..k]
    ensures FindChar(s, c, i) == Some(k)
  {
    forall j | i <= j < k
      ensures s[j] != c
    {
      assert s[j] == s[i..k][j - i];
    }
  }

  /** `s.find(c, i)` finds nothing when `c` is not in `s[i..]`. */
  lemma FindCharNone(s: string, c: char, i: nat)
    requires i <= |s| && c !in s[i..]
    ensures FindChar(s, c, i) == None
  {
    forall j | i <= j < |s|
      ensures s[j] != c
    {
      assert s[j] == s[i..][j - i];
    }
  }

  /** The pieces of a VLOOKUP call that sit between its punctuation. */
  predicate CallLayout(s: string, h: string, x: string, y: string, z: string, c1: nat, c2: nat, c3: nat)
  {
    |h| == 7 && c1 == 8 + |x| && c2 == c1 + 1 + |y| && c3 == c2 + 1 + |z| && c3 < |s|
    && s[..7] == h && s[7] == '(' && s[8..c1] == x && s[c1] == ','
    && s[c1 + 1..c2] == y && s[c2] == ',' && s[c2 + 1..c3] == z
  }

  /** The slices of `h(x,y,z` followed by `tail`. */
  lemma CallSlices(s: string, h: string, x: string, y: string, z: string, tail: string)
    requires |h| == 7 && tail != [] && s == h + "(" + x + "," + y + "," + z + tail
    ensures CallLayout(s, h, x, y, z, 8 + |x|, 9 + |x| + |y|, 10 + |x| + |y| + |z|)
            && s[10 + |x| + |y| + |z|..] == tail
  {
  }

  /** Once the head and the first two arguments are where the layout says,
      the arguments are the two slices and whatever `ThirdArgEnd` finds. */
  lemma ArgsOfLayout(s: string, h: string, x: string, y: string, z: string, c1: nat, c2: nat, c3: nat)
    requires CallLayout(s, h, x, y, z, c1, c2, c3)
    requires Upper(h) == "VLOOKUP" && x != [] && y != [] && ',' !in x && ',' !in y
    ensures ThirdArgEnd(s, c2 + 1).Some? ==>
              VlookupAt(s, 0) == Some(VlookupArgs(x, y, s[c2 + 1..ThirdArgEnd(s, c2 + 1).value]))
  {
    SpanWhileExact(s, 7, 7, Spaces);
    assert VlookupHeadAt(s, 0) == Some(8);
    FindCharAt(s, ',', 8, c1);
    FindCharAt(s, ',', c1 + 1, c2);
  }

  /** After the comma at `c`, a non-empty fourth argument without `)` and
      the closing `)` make up the rest of the text. */
  lemma FourthArgTail(s: string, c: nat, w: string)
    requires c < |s| && s[c..] == "," + w + ")" && w != [] && ')' !in w
    ensures s[c] == ',' && FourthArgAt(s, c)
  {
    assert s[c] == s[c..][0];
    assert s[c + 1..|s| - 1] == w;
    assert s[|s| - 1] == s[c..][|s| - 1 - c];
    FindCharAt(s, ')', c + 1, |s| - 1);
  }

  /** A four-argument call `VLOOKUP(x,y,z,w)` (the name in any case) is read
      as lookup value `x`, table `y` and column `z`, whatever `z` holds apart
      from commas, as long as the fourth argument has no `)`. */
  lemma VlookupFourArgs(s: string, h: string, x: string, y: string, z: string, w: string)
    requires |h| == 7 && Upper(h) == "VLOOKUP"
    requires x != [] && y != [] && z != [] && w != []
    requires ',' !in x && ',' !in y && ',' !in z && ')' !in w
    requires s == h + "(" + x + "," + y + "," + z + "," + w + ")"
    ensures VlookupAt(s, 0) == Some(VlookupArgs(x, y, z))
  {
    var tail := "," + w + ")";
    assert s == h + "(" + x + "," + y + "," + z + tail;
    CallSlices(s, h, x, y, z, tail);
    FourArgsOfLayout(s, h, x, y, z, w, 8 + |x|, 9 + |x| + |y|, 10 + |x| + |y| + |z|);
  }

  /** The four-argument reading, on the layout of the call. */
  lemma FourArgsOfLayout(s: string, h: string, x: string, y: string, z: string, w: string, c1: nat, c2: nat, c3: nat)
    requires CallLayout(s, h, x, y, z, c1, c2, c3) && s[c3..] == "," + w + ")"
    requires Upper(h) == "VLOOKUP" && x != [] && y != [] && z != [] && w != []
    requires ',' !in x && ',' !in y && ',' !in z && ')' !in w
    ensures VlookupAt(s, 0) == Some(VlookupArgs(x, y, z))
  {
    ArgsOfLayout(s, h, x, y, z, c1, c2, c3);
    FourthArgTail(s, c3, w);
    FindCharAt(s, ',', c2 + 1, c3);
  }

  /** A three-argument call `VLOOKUP(x,y,z)` is read as lookup value `x`,
      table `y` and column `z` when `z` has no comma and no `)`. */
  lemma VlookupThreeArgs(s: string, h: string, x: string, y: string, z: string)
    requires |h| == 7 && Upper(h) == "VLOOKUP"
    requires x != [] && y != [] && z != []
    requires ',' !in x && ',' !in y && ',' !in z && ')' !in z
    requires s == h + "(" + x + "," + y + "," + z + ")"
    ensures VlookupAt(s, 0) == Some(VlookupArgs(x, y, z))
  {
    CallSlices(s, h, x, y, z, ")");
    var c1, c2, c3 := 8 + |x|, 9 + |x| + |y|, 10 + |x| + |y| + |z|;
    ArgsOfLayout(s, h, x, y, z, c1, c2, c3);
    assert s[c2 + 1..] == z + ")";
    FindCharNone(s, ',', c2 + 1);
    assert ThirdArgEnd(s, c2 + 1) == Some(c3);
  }

  /** The search stops at the first position: a call at the start of the text
      is the one that is read. */
  lemma SearchFindsCallAtStart(s: string)
    requires VlookupAt(s, 0).Some?
    ensures VlookupSearch(s, 0) == VlookupAt(s, 0)
  {
  }

  /** A complete four-argument call whose column argument reads as `n` looks
      up the lookup operand in the stripped table at column `n`: the repair
      leaves it alone and the arguments are read as written. */
  lemma VlookupOfCall(sheet: Sheet, s: string, h: string, x: string, y: string, z: string, w: string, n: int)
    requires |h| == 7 && Upper(h) == "VLOOKUP"
    requires x != [] && y != [] && z != [] && w != []
    requires ',' !in x && ',' !in y && ',' !in z && ')' !in w
    requires s == h + "(" + x + "," + y + "," + z + "," + w + ")"
    requires ParseInt(Strip(z)) == Some(n)
    ensures VlookupValue(sheet, s) == Vlookup(sheet, LookupOperand(sheet, Strip(x)), Strip(y), n)
  {
    VlookupFourArgs(s, h, x, y, z, w);
    SearchFindsCallAtStart(s);
    CompleteCallKept(s, h);
    ValueOfParsedCall(sheet, s, VlookupArgs(x, y, z), n);
  }

  /** The repair leaves a call that starts with the name and ends with `)`
      alone. */
  lemma CompleteCallKept(s: string, h: string)
    requires |h| == 7 && Upper(h) == "VLOOKUP" && |s| > 7 && s[..7] == h && s[|s| - 1] == ')'
    ensures CloseVlookup(s) == s
  {
    assert s[0] == h[0];
    assert UpperChar(h[0]) == Upper(h)[0] == 'V';
    StripUnpadded(s);
    assert EndsWith(s, ")");
  }

  /** Once the repaired text reads as `args` with a column number `n`, the
      value is the lookup those arguments describe. */
  lemma ValueOfParsedCall(sheet: Sheet, s: string, args: VlookupArgs, n: int)
    requires CloseVlookup(s) == s && VlookupSearch(s, 0) == Some(args)
    requires ParseInt(Strip(args.column)) == Some(n)
    ensures VlookupValue(sheet, s) == Vlookup(sheet, LookupOperand(sheet, Strip(args.lookup)), Strip(args.table), n)
  {
  }

  /** A double-quoted lookup value is looked up as the text between the
      quotes. */
  lemma QuotedLookup(sheet: Sheet, key: string)
    ensures LookupOperand(sheet, "\"" + key + "\"") == Text(key)
  {
  }

  // ---------------------------------------------------------------------------
  // Dispatch over function names
  // ---------------------------------------------------------------------------

  /** `resolve_function_smart`: by the upper-cased name the text starts with,
      VLOOKUP, ROW or COLUMN (relative to `context`); any other function is
      returned as its own text. */
  function ResolveFunctionSmart(sheet: Sheet, text: string, context: string): (r: Value)
    ensures (!StartsWith(Upper(text), "VLOOKUP") && !StartsWith(Upper(text), "ROW")
             && !StartsWith(Upper(text), "COLUMN")) ==> r == Text(text)
  {
    var name := Upper(text);
    if StartsWith(name, "VLOOKUP") then VlookupValue(sheet, text)
    else if StartsWith(name, "ROW") then PositionValue(text, RowFn, context)
    else if StartsWith(name, "COLUMN") then PositionValue(text, ColumnFn, context)
    else Text(text)
  }

  /** ROW() met inside an INDIRECT argument resolves to the row of the cell
      that holds the formula. */
  lemma SmartRowOfCell(sheet: Sheet, text: string, col: nat, row: nat)
    requires col >= 1 && text == "ROW()"
    ensures ResolveFunctionSmart(sheet, text, CoordText(ColumnLetters(col), row)) == Num(row)
  {
    UpperUnchanged(text);
    assert !StartsWith(text, "VLOOKUP");
    assert StartsWith(text, "ROW") by {
      assert text[..3] == "ROW";
    }
    PositionOfCoordinate(col, row);
  }

  /** COLUMN() met inside an INDIRECT argument resolves to the column of the
      cell that holds the formula. */
  lemma SmartColumnOfCell(sheet: Sheet, text: string, col: nat, row: nat)
    requires col >= 1 && text == "COLUMN()"
    ensures ResolveFunctionSmart(sheet, text, CoordText(ColumnLetters(col), row)) == Num(col)
  {
    UpperUnchanged(text);
    assert !StartsWith(text, "VLOOKUP") by {
      assert text[0] != 'V';
    }
    assert !StartsWith(text, "ROW") by {
      assert text[0] != 'R';
    }
    assert StartsWith(text, "COLUMN") by {
      assert text[..6] == "COLUMN";
    }
    PositionOfCoordinate(col, row);
  }
}
