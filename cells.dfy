/** Worksheet cells as the resolver reads them: values, coordinates in A1
    notation, and a sheet as a map from coordinates to values. */
module Cells {
  import opened Text

  /** A cell value: empty (Python `None`), a number, or text. */
  datatype Value = Empty | Num(n: int) | Text(s: string)

  /** Python's `str()` of a cell value. */
  function ValueStr(v: Value): string
  {
    match v
    case Empty => "None"
    case Num(n) => IntToString(n)
    case Text(s) => s
  }

  /** A cell position: 1-based column and row numbers. */
  datatype Coord = Coord(col: nat, row: nat)

  /** The cells of one worksheet; a coordinate not in the map is an empty cell. */
  type Sheet = map<Coord, Value>

  /** The last row a worksheet has. */
  const MaxRow: nat := 1048576

  predicate AllUpper(s: string)
  {
    forall i :: 0 <= i < |s| ==> IsUpper(s[i])
  }

  /** Column letters read as a bijective base-26 numeral, with A = 1 and Z = 26
      (so AA = 27). */
  function ColumnNumber(letters: string): nat
    requires AllUpper(letters)
  {
    if letters == [] then 0
    else
      var c := letters[|letters| - 1];
      assert IsUpper(c);
      ColumnNumber(letters[..|letters| - 1]) * 26 + (c as int - 'A' as int + 1)
  }

  /** The letters of column `n`, the inverse of `ColumnNumber`. */
  function ColumnLetters(n: nat): (r: string)
    requires n >= 1
    ensures r != [] && AllUpper(r)
  {
    if n <= 26 then ['A' + (n - 1) as char]
    else ColumnLetters((n - 1) / 26) + ['A' + ((n - 1) % 26) as char]
  }

  lemma {:induction false} ColumnNumberPositive(letters: string)
    requires AllUpper(letters) && letters != []
    ensures ColumnNumber(letters) >= 1
  {
    var init := letters[..|letters| - 1];
    if init != [] {
      ColumnNumberPositive(init);
    }
  }

  /** Reading back the letters of column `n` gives `n`. */
  lemma {:induction false} ColumnLettersRoundTrip(n: nat)
    requires n >= 1
    ensures ColumnNumber(ColumnLetters(n)) == n
  {
    if n > 26 {
      var q := (n - 1) / 26;
      var init := ColumnLetters(q);
      var r := ColumnLetters(n);
      assert r[..|r| - 1] == init;
      ColumnLettersRoundTrip(q);
    }
  }

  /** Every non-empty run of capital letters names exactly one column. */
  lemma {:induction false} ColumnNumberRoundTrip(letters: string)
    requires AllUpper(letters) && letters != []
    ensures ColumnLetters(ColumnNumber(letters)) == letters
  {
    var init := letters[..|letters| - 1];
    var c := letters[|letters| - 1];
    var v := c as int - 'A' as int + 1;
    assert 1 <= v <= 26;
    var n := ColumnNumber(letters);
    if init == [] {
      assert letters == [c];
    } else {
      ColumnNumberPositive(init);
      ColumnNumberRoundTrip(init);
      var m := ColumnNumber(init);
      assert n - 1 == m * 26 + (v - 1);
      assert (n - 1) / 26 == m && (n - 1) % 26 == v - 1;
      assert letters == init + [c];
    }
  }

  /** How the worksheet library reads a coordinate such as `B7`, `$B$7` or `b7`:
      an optional `$`, one to three letters of either case, an optional `$`, and
      a row number from 1 to `MaxRow`, with nothing before or after. Anything else
      makes the library raise, which is `None` here. */
  function ParseCoord(ref: string): (r: Option<Coord>)
    ensures r.Some? ==> 1 <= r.value.row <= MaxRow && r.value.col >= 1
  {
    var i := if |ref| > 0 && ref[0] == '$' then 1 else 0;
    var j := SpanWhile(ref, i, Letters);
    var k := if j < |ref| && ref[j] == '$' then j + 1 else j;
    var e := SpanWhile(ref, k, Digits);
    if 1 <= j - i <= 3 && k < e == |ref| then
      SpanWhileRun(ref, i, Letters);
      SpanWhileRun(ref, k, Digits);
      var row := DigitsValue(ref[k..e]);
      var letters := Upper(ref[i..j]);
      UpperLetters(ref[i..j]);
      ColumnNumberPositive(letters);
      if 1 <= row <= MaxRow then Some(Coord(ColumnNumber(letters), row)) else None
    else None
  }

  lemma UpperLetters(s: string)
    requires forall i :: 0 <= i < |s| ==> IsLetter(s[i])
    ensures AllUpper(Upper(s))
  {
  }

  /** `worksheet[ref].value`: the value at a coordinate, or `None` when the
      library rejects the coordinate. */
  function CellAt(sheet: Sheet, ref: string): (r: Option<Value>)
    ensures r.Some? <==> ParseCoord(ref).Some?
    ensures r.Some? && ParseCoord(ref).value !in sheet ==> r.value == Empty
    ensures r.Some? && ParseCoord(ref).value in sheet ==> r.value == sheet[ParseCoord(ref).value]
  {
    match ParseCoord(ref)
    case None => None
    case Some(c) => Some(if c in sheet then sheet[c] else Empty)
  }

  /** The text `letters` followed by the decimal row number, as an f-string
      builds a coordinate. */
  function CoordText(letters: string, row: nat): string
  {
    letters + NatToString(row)
  }

  /** The last column three letters can name (ZZZ). */
  const MaxThreeLetterColumn: nat := 18278

  lemma ColumnLettersTwo(n: nat)
    requires 1 <= n <= 702
    ensures |ColumnLetters(n)| <= 2
  {
    if n > 26 {
      assert (n - 1) / 26 <= 26;
    }
  }

  lemma ColumnLettersShort(n: nat)
    requires 1 <= n <= MaxThreeLetterColumn
    ensures |ColumnLetters(n)| <= 3
  {
    if n > 26 {
      ColumnLettersTwo((n - 1) / 26);
    }
  }

  lemma UpperOfUpper(s: string)
    requires AllUpper(s)
    ensures Upper(s) == s
  {
  }

  /** Letters followed by digits, with no `$`, read as the coordinate they spell. */
  lemma ParsePlainCoord(letters: string, digits: string)
    requires 1 <= |letters| <= 3 && forall i :: 0 <= i < |letters| ==> IsLetter(letters[i])
    requires digits != [] && forall i :: 0 <= i < |digits| ==> IsDigit(digits[i])
    requires 1 <= DigitsValue(digits) <= MaxRow
    ensures AllUpper(Upper(letters))
    ensures ParseCoord(letters + digits) == Some(Coord(ColumnNumber(Upper(letters)), DigitsValue(digits)))
  {
    var ref := letters + digits;
    assert forall i :: 0 <= i < |letters| ==> ref[i] == letters[i];
    assert forall i :: 0 <= i < |digits| ==> ref[|letters| + i] == digits[i];
    assert ref[0] != '$';
    SpanWhileExact(ref, 0, |letters|, Letters);
    assert ref[|letters|] != '$';
    SpanWhileExact(ref, |letters|, |ref|, Digits);
    assert ref[0..|letters|] == letters;
    assert ref[|letters|..|ref|] == digits;
    UpperLetters(letters);
  }

  /** Writing a coordinate the way the resolver builds cell addresses and reading
      it back gives the same coordinate. */
  lemma CoordTextRoundTrip(col: nat, row: nat)
    requires 1 <= col <= MaxThreeLetterColumn && 1 <= row <= MaxRow
    ensures ParseCoord(CoordText(ColumnLetters(col), row)) == Some(Coord(col, row))
  {
    var letters := ColumnLetters(col);
    ColumnLettersShort(col);
    DigitsValueOfNat(row);
    ParsePlainCoord(letters, NatToString(row));
    UpperOfUpper(letters);
    ColumnLettersRoundTrip(col);
  }
}
