/** The classifier the resolver applies to each `&`-separated part of an
    INDIRECT argument: quoted text, a cell reference, a function call, or
    anything else. */
module Classify {
  import opened Text

  /** What `identify_component_type` reports about one part. */
  datatype Component =
    | StringConst(text: string)
    | CellRef(ref: string)
    | FunctionCall(text: string)
    | Expression(text: string)

  /** Python's `s[1:-1]`: the text between the first and the last character,
      empty when there are fewer than two. */
  function Unwrap(s: string): (r: string)
    ensures |s| >= 2 ==> s == [s[0]] + r + [s[|s| - 1]]
    ensures |s| < 2 ==> r == []
  {
    if |s| < 2 then [] else s[1..|s| - 1]
  }

  /** `s.startswith(q) and s.endswith(q)` for a one-character `q` (a lone `q`
      passes). */
  predicate WrappedIn(s: string, q: char)
  {
    |s| >= 1 && s[0] == q && s[|s| - 1] == q
  }

  /** A part the first test takes as quoted text. */
  predicate IsQuotedText(s: string)
  {
    WrappedIn(s, '"') || WrappedIn(s, '\'')
  }

  /** `^\$?[A-Z]+\$?\d+$` on stripped text: an optional `$`, capital letters, an
      optional `$`, digits, and nothing else. */
  predicate IsCellRefText(s: string)
  {
    var i := if |s| > 0 && s[0] == '$' then 1 else 0;
    var j := SpanWhile(s, i, Uppers);
    var k := if j < |s| && s[j] == '$' then j + 1 else j;
    var e := SpanWhile(s, k, Digits);
    i < j && k < e && e == |s|
  }

  /** `^[A-Z]+\s*\(`: capital letters, optional whitespace, then `(`. */
  predicate IsFunctionHead(s: string)
  {
    var j := SpanWhile(s, 0, Uppers);
    var a := SpanWhile(s, j, Spaces);
    0 < j && a < |s| && s[a] == '('
  }

  /** `identify_component_type`: the stripped part is classified in a fixed order,
      quoted text first, then a cell reference, then a function call. */
  function IdentifyComponentType(component: string): (r: Component)
    ensures r.StringConst? <==> IsQuotedText(Strip(component))
    ensures r.StringConst? ==> r.text == Unwrap(Strip(component))
    ensures r.CellRef? <==> !IsQuotedText(Strip(component)) && IsCellRefText(Strip(component))
    ensures r.CellRef? ==> r.ref == Strip(component)
    ensures r.FunctionCall? <==>
              && !IsQuotedText(Strip(component))
              && !IsCellRefText(Strip(component))
              && IsFunctionHead(Strip(component))
    ensures r.FunctionCall? ==> r.text == Strip(component)
    ensures r.Expression? <==>
              && !IsQuotedText(Strip(component))
              && !IsCellRefText(Strip(component))
              && !IsFunctionHead(Strip(component))
    ensures r.Expression? ==> r.text == Strip(component)
  {
    var comp := Strip(component);
    if IsQuotedText(comp) then StringConst(Unwrap(comp))
    else if IsCellRefText(comp) then CellRef(comp)
    else if IsFunctionHead(comp) then FunctionCall(comp)
    else Expression(comp)
  }

  /** A cell reference never looks like a function call, so the order of the
      second and third tests does not matter. */
  lemma CellRefIsNotFunction(s: string)
    requires IsCellRefText(s)
    ensures !IsFunctionHead(s)
  {
    var i := if |s| > 0 && s[0] == '$' then 1 else 0;
    var j := SpanWhile(s, i, Uppers);
    var k := if j < |s| && s[j] == '$' then j + 1 else j;
    var e := SpanWhile(s, k, Digits);
    SpanWhileRun(s, i, Uppers);
    SpanWhileRun(s, k, Digits);
    var j0 := SpanWhile(s, 0, Uppers);
    SpanWhileRun(s, 0, Uppers);
    if i == 1 {
      assert j0 == 0;
    } else {
      assert j0 == j;
      var a := SpanWhile(s, j0, Spaces);
      SpanWhileRun(s, j0, Spaces);
      if j0 < |s| {
        assert s[j0] == '$' || IsDigit(s[j0]);
        assert a == j0;
      }
    }
  }

  /** Whatever lies between a matching pair of quotes, the part is string
      constant `t`, even when `t` looks like a cell or holds quotes itself. */
  lemma QuotedIsString(q: char, t: string)
    requires IsQuote(q)
    ensures IdentifyComponentType([q] + t + [q]) == StringConst(t)
  {
    var s := [q] + t + [q];
    StripUnpadded(s);
  }

  /** Capital letters followed by digits are classified as that cell
      reference. */
  lemma LettersDigitsIsCell(x: string, a: string)
    requires x != [] && forall i :: 0 <= i < |x| ==> IsUpper(x[i])
    requires a != [] && forall i :: 0 <= i < |a| ==> IsDigit(a[i])
    ensures IdentifyComponentType(x + a) == CellRef(x + a)
  {
    var s := x + a;
    StripUnpadded(s);
    assert forall i :: 0 <= i < |x| ==> s[i] == x[i];
    assert forall i :: |x| <= i < |s| ==> s[i] == a[i - |x|];
    SpanWhileExact(s, 0, |x|, Uppers);
    SpanWhileExact(s, |x|, |s|, Digits);
  }

  /** Absolute and mixed references, as `$A$1`, `$A1` and `A$1`, are cell
      references too, kept with their `$` signs. */
  lemma DollarLettersDigitsIsCell(x: string, a: string, d1: bool, d2: bool)
    requires x != [] && forall i :: 0 <= i < |x| ==> IsUpper(x[i])
    requires a != [] && forall i :: 0 <= i < |a| ==> IsDigit(a[i])
    ensures var s := (if d1 then "$" else "") + x + (if d2 then "$" else "") + a;
            IdentifyComponentType(s) == CellRef(s)
  {
    var s := (if d1 then "$" else "") + x + (if d2 then "$" else "") + a;
    DollarCellText(x, a, d1, d2);
    assert s[|s| - 1] == a[|a| - 1];
    StripUnpadded(s);
  }

  lemma DollarCellText(x: string, a: string, d1: bool, d2: bool)
    requires x != [] && forall i :: 0 <= i < |x| ==> IsUpper(x[i])
    requires a != [] && forall i :: 0 <= i < |a| ==> IsDigit(a[i])
    ensures var s := (if d1 then "$" else "") + x + (if d2 then "$" else "") + a;
            s != [] && !IsSpace(s[0]) && IsCellRefText(s)
  {
    var p1 := if d1 then "$" else "";
    var p2 := if d2 then "$" else "";
    var s := p1 + x + p2 + a;
    var i := |p1|;
    var j := i + |x|;
    var k := j + |p2|;
    assert forall m :: i <= m < j ==> s[m] == x[m - i];
    assert forall m :: k <= m < |s| ==> s[m] == a[m - k];
    assert s[0] == '$' <==> d1;
    SpanWhileExact(s, i, j, Uppers);
    assert j < |s| && (s[j] == '$' <==> d2);
    SpanWhileExact(s, k, |s|, Digits);
  }

  /** A call `NAME(args)` with a capital-letter name is a function call. */
  lemma CallIsFunction(name: string, args: string)
    requires name != [] && forall i :: 0 <= i < |name| ==> IsUpper(name[i])
    ensures IdentifyComponentType(name + "(" + args + ")") == FunctionCall(name + "(" + args + ")")
  {
    var s := name + "(" + args + ")";
    StripUnpadded(s);
    assert s[|name|] == '(';
    assert forall i :: 0 <= i < |name| ==> s[i] == name[i];
    SpanWhileExact(s, 0, |name|, Uppers);
    SpanWhileExact(s, |name|, |name|, Spaces);
    assert IsFunctionHead(s);
    if IsCellRefText(s) {
      var e := SpanWhile(s, |name|, Digits);
      SpanWhileExact(s, |name|, |name|, Digits);
      assert false;
    }
  }
}
