/** The archived predecessor of the INDIRECT resolver: it recognises INDIRECT
    formulas, cuts out the argument of the first call with a regular
    expression, and turns the argument into a reference by substituting cell
    values and gluing the `&`-separated pieces together without looking at
    quotes. Cell reads are a parameter. */
module Archive {
  import opened Text
  import opened Classify
  import Formulas
  import Scan

  // ---------------------------------------------------------------------------
  // Recognising an INDIRECT formula
  // ---------------------------------------------------------------------------

  const IndirectName := "INDIRECT"

  /** `is_indirect_formula`: false for a missing, non-text or empty formula,
      otherwise whether the upper-cased formula mentions INDIRECT. A missing or
      non-text formula is `None`. */
  predicate IsIndirectFormula(formula: Option<string>)
  {
    formula.Some? && formula.value != [] && Contains(Upper(formula.value), IndirectName)
  }

  /** A missing or empty formula is not an INDIRECT formula; one that spells
      INDIRECT in capitals or in lower case is. */
  lemma IndirectFormulaCases(formula: Option<string>)
    ensures formula.None? ==> !IsIndirectFormula(formula)
    ensures formula == Some([]) ==> !IsIndirectFormula(formula)
    ensures formula.Some? && Contains(formula.value, IndirectName) ==> IsIndirectFormula(formula)
    ensures formula.Some? && Contains(formula.value, "indirect") ==> IsIndirectFormula(formula)
  {
    if formula.Some? {
      var s := formula.value;
      UpperUnchanged(IndirectName);
      assert Upper("indirect") == IndirectName;
      if Contains(s, IndirectName) {
        UpperOccurs(s, IndirectName, FindFrom(s, IndirectName, 0).value);
      }
      if Contains(s, "indirect") {
        UpperOccurs(s, "indirect", FindFrom(s, "indirect", 0).value);
      }
    }
  }

  /** An occurrence of `pat` in `s` is an occurrence of its upper case in the
      upper case of `s`. */
  lemma UpperOccurs(s: string, pat: string, k: nat)
    requires OccursAt(s, pat, k)
    ensures OccursAt(Upper(s), Upper(pat), k)
    ensures FindFrom(Upper(s), Upper(pat), 0).Some?
  {
    assert Upper(s)[k..k + |pat|] == Upper(s[k..k + |pat|]);
    OccursFound(Upper(s), Upper(pat), k);
  }

  // ---------------------------------------------------------------------------
  // INDIRECT\s*\(\s*([^)]+)\s*\) under IGNORECASE
  // ---------------------------------------------------------------------------

  /** One entry of `extract_indirect_functions`: the whole match, the captured
      argument and the match's start and end. */
  datatype IndirectCall = IndirectCall(fullMatch: string, parameters: string, start: nat, end: nat)

  /** Whether the eight characters at `p` spell INDIRECT in any case. */
  predicate NameAt(s: string, p: nat)
  {
    p + 8 <= |s| && Upper(s[p..p + 8]) == IndirectName
  }

  /** The match starting exactly at `p`. After the name, optional spaces and
      `(`, the greedy `\s*` takes every space and the greedy `[^)]+` runs to
      the first `)`; the final `\s*` is then empty. When nothing but spaces
      lies between `(` and `)`, the leading `\s*` gives back one space so that
      `[^)]+` can match it; with nothing at all there, or no `)` at all, there
      is no match at `p`. */
  function IndirectAt(s: string, p: nat): (r: Option<IndirectCall>)
    requires p <= |s|
    ensures r.Some? ==> r.value.start == p < r.value.end <= |s|
  {
    if NameAt(s, p) then
      var o := SpanWhile(s, p + 8, Spaces);
      if o < |s| && s[o] == '(' then
        var q := SpanWhile(s, o + 1, Spaces);
        match FindChar(s, ')', o + 1)
        case None => None
        case Some(c) =>
          if q < c then Some(IndirectCall(s[p..c + 1], s[q..c], p, c + 1))
          else if o + 1 < c then Some(IndirectCall(s[p..c + 1], s[c - 1..c], p, c + 1))
          else None
      else None
    else None
  }

  /** `re.finditer` from `p`: a match is taken at the first position where one
      starts and the search goes on from its end. */
  function IndirectFrom(s: string, p: nat): seq<IndirectCall>
    requires p <= |s|
    decreases |s| - p
  {
    if p == |s| then []
    else
      match IndirectAt(s, p)
      case Some(m) => [m] + IndirectFrom(s, m.end)
      case None => IndirectFrom(s, p + 1)
  }

  /** `extract_indirect_functions`. */
  function IndirectCalls(formula: Option<string>): seq<IndirectCall>
  {
    if IsIndirectFormula(formula) then IndirectFrom(formula.value, 0) else []
  }

  /** The loop over the matches, collecting one entry per match. */
  method ExtractIndirectFunctions(formula: Option<string>) returns (calls: seq<IndirectCall>)
    ensures calls == IndirectCalls(formula)
  {
    if !IsIndirectFormula(formula) {
      return [];
    }
    var s := formula.value;
    calls := [];
    var p := 0;
    while p < |s|
      invariant p <= |s|
      invariant calls + IndirectFrom(s, p) == IndirectFrom(s, 0)
      decreases |s| - p
    {
      var m := IndirectAt(s, p);
      if m.Some? {
        assert calls + IndirectFrom(s, p) == (calls + [m.value]) + IndirectFrom(s, m.value.end);
        calls := calls + [m.value];
        p := m.value.end;
      } else {
        p := p + 1;
      }
    }
  }

  /** What one match is: the name in any case, then `(`, an argument that is
      not empty and holds no `)`, and the first `)` after the opening one. */
  predicate WellFormedCall(s: string, m: IndirectCall)
  {
    && m.start + 11 <= m.end <= |s|
    && m.fullMatch == s[m.start..m.end]
    && NameAt(s, m.start)
    && s[m.end - 1] == ')'
    && m.parameters != []
    && ')' !in m.parameters
    && m.start + 9 + |m.parameters| < m.end
    && s[m.end - 1 - |m.parameters|..m.end - 1] == m.parameters
  }

  lemma IndirectAtShape(s: string, p: nat)
    requires p <= |s| && IndirectAt(s, p).Some?
    ensures WellFormedCall(s, IndirectAt(s, p).value)
  {
    var o := SpanWhile(s, p + 8, Spaces);
    var q := SpanWhile(s, o + 1, Spaces);
    var c := FindChar(s, ')', o + 1).value;
    var m := IndirectAt(s, p).value;
    var a := if q < c then q else c - 1;
    assert m == IndirectCall(s[p..c + 1], s[a..c], p, c + 1);
    assert p + 8 <= o < a < c;
    CallFromSpan(s, p, o, a, c);
  }

  /** The call spelled by the name at `p`, the argument `s[a..c]` and the first
      `)` after `o` is well formed. */
  lemma CallFromSpan(s: string, p: nat, o: nat, a: nat, c: nat)
    requires p + 8 <= o < a < c < |s| && NameAt(s, p)
    requires FindChar(s, ')', o + 1) == Some(c)
    ensures WellFormedCall(s, IndirectCall(s[p..c + 1], s[a..c], p, c + 1))
  {
    NoCloseBefore(s, o + 1, a, c);
  }

  /** A slice that ends before the first `)` after `o` holds no `)`. */
  lemma NoCloseBefore(s: string, o: nat, a: nat, c: nat)
    requires o <= a <= c <= |s| && FindChar(s, ')', o) == Some(c)
    ensures ')' !in s[a..c]
  {
    forall i | 0 <= i < c - a ensures s[a..c][i] != ')' {
      assert s[a..c][i] == s[a + i];
    }
  }

  /** The matches lie after `p`, each one is the match at its own start, and
      they come in the order of the text without overlapping. */
  predicate IndirectScan(s: string, p: nat, ms: seq<IndirectCall>)
  {
    IndirectMatches(s, ms) && IndirectOrdered(p, |s|, ms)
  }

  /** Each element is the match at its own start. */
  predicate IndirectMatches(s: string, ms: seq<IndirectCall>)
  {
    forall i :: 0 <= i < |ms| ==> ms[i].start <= |s| && IndirectAt(s, ms[i].start) == Some(ms[i])
  }

  /** The spans lie in `[p, n)` in order without overlapping. */
  predicate IndirectOrdered(p: nat, n: nat, ms: seq<IndirectCall>)
  {
    && (forall i :: 0 <= i < |ms| ==> p <= ms[i].start < ms[i].end <= n)
    && (forall i, j :: 0 <= i < j < |ms| ==> ms[i].end <= ms[j].start)
  }

  lemma {:induction false} IndirectFromShape(s: string, p: nat)
    requires p <= |s|
    ensures IndirectScan(s, p, IndirectFrom(s, p))
    decreases |s| - p
  {
    if p < |s| {
      match IndirectAt(s, p)
      case Some(m) =>
        IndirectFromShape(s, m.end);
        ScanCons(s, p, m, IndirectFrom(s, m.end));
      case None =>
        IndirectFromShape(s, p + 1);
        OrderedLater(p, |s|, IndirectFrom(s, p + 1));
    }
  }

  /** The match at `p` followed by the matches from its end. */
  lemma ScanCons(s: string, p: nat, m: IndirectCall, rest: seq<IndirectCall>)
    requires p <= |s| && IndirectAt(s, p) == Some(m)
    requires IndirectScan(s, m.end, rest)
    ensures IndirectScan(s, p, [m] + rest)
  {
    MatchesCons(s, m, rest);
    OrderedCons(p, |s|, m, rest);
  }

  /** The match at its start followed by matches is matches. */
  lemma MatchesCons(s: string, m: IndirectCall, rest: seq<IndirectCall>)
    requires m.start <= |s| && IndirectAt(s, m.start) == Some(m)
    requires IndirectMatches(s, rest)
    ensures IndirectMatches(s, [m] + rest)
  {
    var ms := [m] + rest;
    forall i | 0 <= i < |ms|
      ensures ms[i].start <= |s| && IndirectAt(s, ms[i].start) == Some(ms[i])
    {
      if i > 0 {
        assert ms[i] == rest[i - 1];
      }
    }
  }

  /** A span in `[p, n)` followed by ordered spans from its end is ordered
      from `p`. */
  lemma OrderedCons(p: nat, n: nat, m: IndirectCall, rest: seq<IndirectCall>)
    requires p <= m.start < m.end <= n
    requires IndirectOrdered(m.end, n, rest)
    ensures IndirectOrdered(p, n, [m] + rest)
  {
    var ms := [m] + rest;
    assert forall i :: 0 < i < |ms| ==> ms[i] == rest[i - 1];
  }

  /** Spans ordered from `p + 1` are ordered from `p`. */
  lemma OrderedLater(p: nat, n: nat, ms: seq<IndirectCall>)
    requires IndirectOrdered(p + 1, n, ms)
    ensures IndirectOrdered(p, n, ms)
  {
  }

  /** Every extracted entry is a well-formed call of the formula, and the
      entries come in positional order without overlapping. */
  lemma ExtractedCallsShape(s: string)
    ensures var ms := IndirectCalls(Some(s));
            && (forall i :: 0 <= i < |ms| ==> WellFormedCall(s, ms[i]))
            && (forall i, j :: 0 <= i < j < |ms| ==> ms[i].end <= ms[j].start)
  {
    var ms := IndirectCalls(Some(s));
    if ms != [] {
      IndirectFromShape(s, 0);
      forall i | 0 <= i < |ms| ensures WellFormedCall(s, ms[i]) {
        IndirectAtShape(s, ms[i].start);
      }
    }
  }

  /** The case-insensitive name of a match is a case-sensitive occurrence in
      the upper-cased formula. */
  lemma NameInUpper(s: string, p: nat)
    requires NameAt(s, p)
    ensures OccursAt(Upper(s), IndirectName, p)
  {
    assert Upper(s)[p..p + 8] == Upper(s[p..p + 8]);
  }

  /** The `is_indirect_formula` guard of the extraction changes nothing: a
      formula that is not an INDIRECT formula has no match of the pattern
      either, so extraction is the plain scan for every text. */
  lemma ExtractionGuardRedundant(s: string)
    ensures IndirectCalls(Some(s)) == IndirectFrom(s, 0)
  {
    var ms := IndirectFrom(s, 0);
    if ms != [] {
      IndirectFromShape(s, 0);
      IndirectAtShape(s, ms[0].start);
      NameInUpper(s, ms[0].start);
      assert FindFrom(Upper(s), IndirectName, 0).Some?;
    }
  }

  /** Without any `)` after `p` there is no match from `p` on. */
  lemma {:induction false} UnclosedHasNoCall(s: string, p: nat)
    requires p <= |s|
    requires forall k :: p <= k < |s| ==> s[k] != ')'
    ensures IndirectFrom(s, p) == []
    decreases |s| - p
  {
    if p < |s| {
      if NameAt(s, p) {
        var o := SpanWhile(s, p + 8, Spaces);
        if o < |s| && s[o] == '(' {
          assert FindChar(s, ')', o + 1).None?;
        }
      }
      UnclosedHasNoCall(s, p + 1);
    }
  }

  /** A call written `INDIRECT(args)` at `p`, with `args` free of `)` and not
      starting with a space, is matched with exactly `args` as its
      parameters. */
  lemma PlainCallMatched(s: string, p: nat, args: string)
    requires NameAt(s, p) && p + 9 + |args| < |s|
    requires s[p + 8] == '(' && s[p + 9..p + 9 + |args|] == args && s[p + 9 + |args|] == ')'
    requires args != [] && !IsSpace(args[0]) && ')' !in args
    ensures IndirectAt(s, p) == Some(IndirectCall(s[p..p + 10 + |args|], args, p, p + 10 + |args|))
  {
    var c := p + 9 + |args|;
    assert SpanWhile(s, p + 8, Spaces) == p + 8;
    assert s[p + 9] == args[0];
    assert SpanWhile(s, p + 9, Spaces) == p + 9;
    forall k | p + 9 <= k < c ensures s[k] != ')' {
      assert s[k] == args[k - p - 9];
    }
    assert FindChar(s, ')', p + 9) == Some(c);
  }

  // ---------------------------------------------------------------------------
  // Cell references: \b[A-Z]+\d+\b
  // ---------------------------------------------------------------------------

  /** The end of the cell word starting exactly at `p`, if one does: capital
      letters then digits, with a word boundary on both sides. Letters and
      digits are word characters, so giving back part of either greedy run
      can never leave a boundary behind: the match is the greedy one or none. */
  function CellWordAt(s: string, p: nat): (e: Option<nat>)
    requires p <= |s|
    ensures e.Some? ==> p < e.value <= |s|
  {
    if p < |s| && (p == 0 || !IsWordChar(s[p - 1])) then
      var l := SpanWhile(s, p, Uppers);
      var d := SpanWhile(s, l, Digits);
      if p < l < d && (d == |s| || !IsWordChar(s[d])) then Some(d) else None
    else None
  }

  /** `re.findall` of the cell pattern from `p`, in the order of the text. */
  function CellWordsFrom(s: string, p: nat): (ws: seq<string>)
    requires p <= |s|
    ensures [] !in ws
    decreases |s| - p
  {
    if p == |s| then []
    else
      match CellWordAt(s, p)
      case Some(e) => [s[p..e]] + CellWordsFrom(s, e)
      case None => CellWordsFrom(s, p + 1)
  }

  /** `_contains_cell_references`: whether `re.search` finds the pattern. */
  predicate ContainsCellReferences(parameters: string)
  {
    CellWordsFrom(parameters, 0) != []
  }

  /** The independent description: `s[a..b]` is capital letters followed by
      digits, and no word character touches it on either side. */
  predicate IsCellToken(s: string, a: nat, b: nat)
  {
    a < b <= |s| && (a == 0 || !IsWordChar(s[a - 1])) && (b == |s| || !IsWordChar(s[b]))
    && exists l :: a < l < b && UppersThenDigits(s, a, l, b)
  }

  predicate UppersThenDigits(s: string, a: nat, l: nat, b: nat)
    requires a <= l <= b <= |s|
  {
    (forall i :: a <= i < l ==> IsUpper(s[i])) && (forall i :: l <= i < b ==> IsDigit(s[i]))
  }

  /** A text that is one cell name, such as `D29`, and nothing else. */
  predicate IsCellName(w: string)
  {
    IsCellToken(w, 0, |w|)
  }

  lemma CellWordAtIsToken(s: string, a: nat, b: nat)
    requires a <= |s|
    ensures CellWordAt(s, a) == Some(b) <==> IsCellToken(s, a, b)
  {
    if a < |s| && (a == 0 || !IsWordChar(s[a - 1])) {
      var l := SpanWhile(s, a, Uppers);
      var d := SpanWhile(s, l, Digits);
      SpanWhileRun(s, a, Uppers);
      SpanWhileRun(s, l, Digits);
      if IsCellToken(s, a, b) {
        var l' :| a < l' < b && UppersThenDigits(s, a, l', b);
        SpanWhileExact(s, a, l', Uppers);
        SpanWhileExact(s, l', b, Digits);
      }
      if CellWordAt(s, a) == Some(b) {
        assert UppersThenDigits(s, a, l, b);
      }
    }
  }

  /** A cell word at or after `p` makes the scan from `p` find something. */
  lemma {:induction false} CellWordFound(s: string, p: nat, a: nat)
    requires p <= a <= |s| && CellWordAt(s, a).Some?
    ensures CellWordsFrom(s, p) != []
    decreases a - p
  {
    if p < a && CellWordAt(s, p).None? {
      CellWordFound(s, p + 1, a);
    }
  }

  /** Whatever the scan from `p` finds first is a cell word at or after `p`. */
  lemma {:induction false} FirstCellWord(s: string, p: nat) returns (a: nat, b: nat)
    requires p <= |s| && CellWordsFrom(s, p) != []
    ensures p <= a <= |s| && CellWordAt(s, a) == Some(b)
    decreases |s| - p
  {
    if CellWordAt(s, p).Some? {
      a, b := p, CellWordAt(s, p).value;
    } else {
      a, b := FirstCellWord(s, p + 1);
    }
  }

  /** `_contains_cell_references` holds exactly when the parameters hold a
      cell token somewhere. */
  lemma ContainsCellReferencesIff(s: string)
    ensures ContainsCellReferences(s) <==> exists a: nat, b: nat :: a <= |s| && IsCellToken(s, a, b)
  {
    if ContainsCellReferences(s) {
      var a, b := FirstCellWord(s, 0);
      CellWordAtIsToken(s, a, b);
    }
    if exists a: nat, b: nat :: a <= |s| && IsCellToken(s, a, b) {
      var a: nat, b: nat :| a <= |s| && IsCellToken(s, a, b);
      CellWordAtIsToken(s, a, b);
      CellWordFound(s, 0, a);
    }
  }

  // ---------------------------------------------------------------------------
  // _evaluate_string_concatenation
  // ---------------------------------------------------------------------------

  /** What one `&`-separated part contributes: the part trimmed, and without
      its enclosing `"` pair when it both starts and ends with `"` (a lone `"`
      contributes nothing). */
  function Piece(part: string): string
  {
    var t := Strip(part);
    if WrappedIn(t, '"') then Unwrap(t) else t
  }

  /** The contributions of the parts, glued together in order. */
  function Pieces(parts: seq<string>): string
  {
    if parts == [] then [] else Pieces(parts[..|parts| - 1]) + Piece(parts[|parts| - 1])
  }

  /** The value `_evaluate_string_concatenation` computes: split on every `&`,
      quoted or not, and glue the contributions. */
  function NaiveConcat(expression: string): string
  {
    Pieces(SplitOn(expression, '&'))
  }

  /** The loop of `_evaluate_string_concatenation`, appending each part's
      contribution to `result`. */
  method EvaluateStringConcatenation(expression: string) returns (result: string)
    ensures result == NaiveConcat(expression)
  {
    var parts := SplitOn(expression, '&');
    result := "";
    for i := 0 to |parts|
      invariant result == Pieces(parts[..i])
    {
      assert parts[..i + 1][..i] == parts[..i];
      var part := Strip(parts[i]);
      if |part| >= 1 && part[0] == '"' && part[|part| - 1] == '"' {
        result := result + Unwrap(part);
      } else {
        result := result + part;
      }
    }
    assert parts[..|parts|] == parts;
  }

  /** The list `a` with `w` appended to its last element. */
  function ExtendLast(a: seq<string>, w: string): (r: seq<string>)
    requires |a| >= 1
    ensures |r| == |a|
  {
    a[..|a| - 1] + [a[|a| - 1] + w]
  }

  lemma ExtendLastTwice(a: seq<string>, w: string, c: char)
    requires |a| >= 1
    ensures ExtendLast(ExtendLast(a, w), [c]) == ExtendLast(a, w + [c])
  {
    var b := ExtendLast(a, w);
    assert b[..|b| - 1] == a[..|a| - 1];
    assert b[|b| - 1] + [c] == a[|a| - 1] + (w + [c]);
  }

  /** Text free of `&` extends the last piece of the split. */
  lemma {:induction false} SplitExtend(t: string, w: string)
    requires '&' !in w
    ensures SplitOn(t + w, '&') == ExtendLast(SplitOn(t, '&'), w)
    decreases |w|
  {
    var a := SplitOn(t, '&');
    if w == [] {
      assert t + w == t;
      assert a[|a| - 1] + w == a[|a| - 1];
      assert a == a[..|a| - 1] + [a[|a| - 1]];
    } else {
      var w' := w[..|w| - 1];
      var c := w[|w| - 1];
      assert c in w;
      assert w == w' + [c];
      SplitExtend(t, w');
      var u := t + w';
      assert t + w == u + [c];
      Scan.SplitOnSnoc(u, c);
      ExtendLastTwice(a, w', c);
    }
  }

  /** Splitting undoes joining when no piece holds the separator. */
  lemma {:induction false} SplitJoin(ps: seq<string>)
    requires |ps| >= 1
    requires forall i :: 0 <= i < |ps| ==> '&' !in ps[i]
    ensures SplitOn(Join(ps, '&'), '&') == ps
    decreases |ps|
  {
    var last := ps[|ps| - 1];
    if |ps| == 1 {
      SplitExtend([], last);
      assert [] + last == last;
    } else {
      var init := ps[..|ps| - 1];
      assert ps == init + [last];
      SplitJoin(init);
      var j := Join(init, '&');
      var t := j + ['&'];
      Scan.SplitOnSnoc(j, '&');
      assert SplitOn(t, '&') == init + [[]];
      SplitExtend(t, last);
      assert Join(ps, '&') == t + last;
      var e := init + [[]];
      assert ExtendLast(e, last) == init + [[] + last];
      assert [] + last == last;
    }
  }

  /** A quoted text `"v"`. */
  function Quote(v: string): (q: string)
    ensures |q| == |v| + 2 && WrappedIn(q, '"') && Unwrap(q) == v
  {
    ['"'] + v + ['"']
  }

  /** A quoted part contributes its text. */
  lemma QuotedPiece(v: string)
    ensures Piece(Quote(v)) == v
  {
    StripUnpadded(Quote(v));
  }

  function QuoteAll(vs: seq<string>): (qs: seq<string>)
    ensures |qs| == |vs|
  {
    seq(|vs|, i requires 0 <= i < |vs| => Quote(vs[i]))
  }

  /** Quoted texts contribute the texts themselves, glued in order. */
  lemma {:induction false} QuotedPieces(vs: seq<string>)
    ensures Pieces(QuoteAll(vs)) == Formulas.Concat(vs)
    decreases |vs|
  {
    if vs != [] {
      var init := vs[..|vs| - 1];
      QuotedPieces(init);
      QuotedPiece(vs[|vs| - 1]);
      assert QuoteAll(vs)[..|vs| - 1] == QuoteAll(init);
    }
  }

  /** The documented behaviour: texts quoted and joined by `&`, as in
      `"Sheet"&"2"&"!A1"`, evaluate to the texts glued together, as long as no
      text holds an `&`. */
  lemma QuotedJoinEvaluates(vs: seq<string>)
    requires |vs| >= 1
    requires forall i :: 0 <= i < |vs| ==> '&' !in vs[i]
    ensures NaiveConcat(Join(QuoteAll(vs), '&')) == Formulas.Concat(vs)
  {
    var qs := QuoteAll(vs);
    forall i | 0 <= i < |qs| ensures '&' !in qs[i] {
      assert qs[i] == ['"'] + vs[i] + ['"'];
    }
    SplitJoin(qs);
    QuotedPieces(vs);
  }

  /** An `&` inside quotes is cut like any other: `"a&b"` splits into `"a`
      and `b"`, neither of which is a quoted part, so the quotes stay in the
      result. The quote-aware split keeps `"a&b"` whole. */
  lemma QuotedAmpersandCut(a: string, b: string)
    requires '&' !in a && '&' !in b
    requires a != [] && b != [] && !IsSpace(a[|a| - 1]) && !IsSpace(b[0]) && a[|a| - 1] != '"' && b[0] != '"'
    ensures NaiveConcat(['"'] + a + ['&'] + b + ['"']) == ['"'] + a + b + ['"']
  {
    var x := ['"'] + a;
    var y := b + ['"'];
    assert '&' !in x && '&' !in y;
    SplitJoin([x, y]);
    assert Join([x, y], '&') == ['"'] + a + ['&'] + b + ['"'];
    StripUnpadded(x);
    StripUnpadded(y);
    assert x[|x| - 1] == a[|a| - 1];
    assert Piece(x) == x;
    assert Piece(y) == y;
    PiecesOfTwo(x, y);
  }

  lemma PiecesOfTwo(x: string, y: string)
    ensures Pieces([x, y]) == Piece(x) + Piece(y)
  {
    var xs: seq<string> := [x];
    assert [x, y][..1] == xs;
    assert xs[..0] == [];
    assert Pieces(xs) == Piece(x);
  }

  // ---------------------------------------------------------------------------
  // Substituting cell values
  // ---------------------------------------------------------------------------

  /** What `read_cell_with_resolved_references` gives for the cells of the
      sheet being resolved: the text of each readable cell's display value,
      by cell name. A cell whose read raises has no entry. */
  type CellTexts = map<string, string>

  /** The text a cell reference is replaced by, without its quotes: the
      display value, or nothing when the read fails. */
  function DisplayText(texts: CellTexts, cell: string): string
  {
    if cell in texts then texts[cell] else ""
  }

  /** Where `re.sub` goes on after position `p`: past the cell word that
      starts there, or one character on. */
  function NextPos(s: string, p: nat): (q: nat)
    requires p < |s|
    ensures p < q <= |s|
  {
    match CellWordAt(s, p)
    case Some(e) => e
    case None => p + 1
  }

  /** What `re.sub` writes for position `p`: the quoted display text of the
      cell word starting there, or the character itself. */
  function Emit(s: string, p: nat, texts: CellTexts): string
    requires p < |s|
  {
    match CellWordAt(s, p)
    case Some(e) => Quote(DisplayText(texts, s[p..e]))
    case None => [s[p]]
  }

  /** `re.sub` of the cell pattern from `p`: each cell word, taken as a whole
      word, becomes its quoted display text; everything else is kept. */
  function Substitute(s: string, p: nat, texts: CellTexts): string
    requires p <= |s|
    decreases |s| - p
  {
    if p == |s| then [] else Emit(s, p, texts) + Substitute(s, NextPos(s, p), texts)
  }

  /** Substitute the cells as whole words, then evaluate the concatenation:
      the hard-coded-text path, and the evidently intended cell-reference
      path. */
  function SubstitutedConcat(parameters: string, texts: CellTexts): string
  {
    NaiveConcat(Substitute(parameters, 0, texts))
  }

  /** Text without cell words is left as it is. */
  lemma {:induction false} SubstituteNothing(s: string, p: nat, texts: CellTexts)
    requires p <= |s| && CellWordsFrom(s, p) == []
    ensures Substitute(s, p, texts) == s[p..]
    decreases |s| - p
  {
    if p < |s| {
      assert CellWordAt(s, p).None?;
      assert NextPos(s, p) == p + 1;
      SubstituteNothing(s, p + 1, texts);
      assert s[p..] == [s[p]] + s[p + 1..];
    }
  }

  /** `w` sits at the end of `s`, from `off` on, behind a non-word character. */
  predicate Tail(s: string, w: string, off: nat)
  {
    && off <= |s|
    && s[off..] == w
    && (off > 0 ==> !IsWordChar(s[off - 1]))
  }

  lemma TailOfAppend(y: string, w: string)
    requires y == [] || !IsWordChar(y[|y| - 1])
    ensures Tail(y + w, w, |y|)
  {
  }

  /** A greedy run is not changed by text in front of it. */
  lemma {:induction false} SpanWhileAfter(s: string, w: string, off: nat, i: nat, k: CharClass)
    requires Tail(s, w, off) && i <= |w|
    ensures SpanWhile(s, off + i, k) == off + SpanWhile(w, i, k)
    decreases |w| - i
  {
    if i < |w| {
      assert s[off + i] == w[i];
      SpanWhileAfter(s, w, off, i + 1, k);
    }
  }

  /** No word character is a capital letter or a digit's neighbour of a
      different kind: a non-word character stops both runs. */
  lemma NonWordStops(c: char)
    requires !IsWordChar(c)
    ensures !InClass(c, Uppers) && !InClass(c, Digits)
  {
  }

  /** Text before a non-word character does not change the cell words after it. */
  lemma CellWordAfter(s: string, w: string, off: nat, i: nat)
    requires Tail(s, w, off) && i <= |w|
    ensures CellWordAt(w, i).None? ==> CellWordAt(s, off + i).None?
    ensures CellWordAt(w, i).Some? ==> CellWordAt(s, off + i) == Some(off + CellWordAt(w, i).value)
  {
    if i < |w| {
      assert s[off + i] == w[i];
      if i > 0 {
        assert s[off + i - 1] == w[i - 1];
      }
      SpanWhileAfter(s, w, off, i, Uppers);
      var l := SpanWhile(w, i, Uppers);
      SpanWhileAfter(s, w, off, l, Digits);
      var d := SpanWhile(w, l, Digits);
      if d < |w| {
        assert s[off + d] == w[d];
      }
    }
  }

  /** `t` is the start of `s`, followed in `s` by a non-word character if by anything. */
  predicate Head(s: string, t: string)
  {
    && |t| <= |s|
    && s[..|t|] == t
    && (|t| < |s| ==> !IsWordChar(s[|t|]))
  }

  /** A greedy run is not changed by text after it that is outside its class. */
  lemma {:induction false} SpanWhileBefore(s: string, t: string, i: nat, k: CharClass)
    requires Head(s, t) && i <= |t| && (|t| < |s| ==> !InClass(s[|t|], k))
    ensures SpanWhile(s, i, k) == SpanWhile(t, i, k)
    decreases |t| - i
  {
    if i < |t| {
      assert s[i] == t[i];
      SpanWhileBefore(s, t, i + 1, k);
    }
  }

  /** Text after a non-word character does not change the cell words before it. */
  lemma CellWordBefore(s: string, t: string, p: nat)
    requires Head(s, t) && p <= |t|
    ensures CellWordAt(s, p) == (if p < |t| then CellWordAt(t, p) else None)
  {
    if |t| < |s| {
      NonWordStops(s[|t|]);
    }
    if p < |t| {
      assert s[p] == t[p];
      if p > 0 {
        assert s[p - 1] == t[p - 1];
      }
      SpanWhileBefore(s, t, p, Uppers);
      var l := SpanWhile(t, p, Uppers);
      SpanWhileBefore(s, t, l, Digits);
      var d := SpanWhile(t, l, Digits);
      if d < |t| {
        assert s[d] == t[d];
      }
    }
  }

  lemma SliceBefore(s: string, t: string, a: nat, b: nat)
    requires Head(s, t) && a <= b <= |t|
    ensures s[a..b] == t[a..b]
  {
    assert s[..|t|][a..b] == s[a..b];
  }

  /** Substitution before a non-word character ignores what follows it. */
  lemma {:induction false} SubstituteBefore(s: string, t: string, p: nat, texts: CellTexts)
    requires Head(s, t) && p <= |t|
    ensures Substitute(s, p, texts)
            == Substitute(t, p, texts) + Substitute(s, |t|, texts)
    decreases |t| - p
  {
    if p < |t| {
      var n := NextPos(t, p);
      SubstituteBefore(s, t, n, texts);
      BeforeAligned(s, t, p, texts);
      BeforeStep(s, t, p, n, texts);
    } else {
      assert Substitute(t, p, texts) == [];
    }
  }

  /** At a position of `t`, `s` writes the same and goes on at the same place. */
  lemma BeforeAligned(s: string, t: string, p: nat, texts: CellTexts)
    requires Head(s, t) && p < |t|
    ensures Emit(s, p, texts) == Emit(t, p, texts) && NextPos(s, p) == NextPos(t, p)
  {
    CellWordBefore(s, t, p);
    assert s[p] == t[p];
    if CellWordAt(t, p).Some? {
      SliceBefore(s, t, p, CellWordAt(t, p).value);
    }
  }

  lemma BeforeStep(s: string, t: string, p: nat, n: nat, texts: CellTexts)
    requires p < |t| <= |s| && n == NextPos(t, p)
    requires Emit(s, p, texts) == Emit(t, p, texts) && NextPos(s, p) == n
    requires Substitute(s, n, texts) == Substitute(t, n, texts) + Substitute(s, |t|, texts)
    ensures Substitute(s, p, texts)
            == Substitute(t, p, texts) + Substitute(s, |t|, texts)
  {
    AppendAssociates(Emit(t, p, texts), Substitute(t, n, texts), Substitute(s, |t|, texts));
  }

  /** One step of the substitution at a cell word, and at any other character. */
  lemma SubstituteAtWord(s: string, p: nat, e: nat, texts: CellTexts)
    requires p < |s| && CellWordAt(s, p) == Some(e)
    ensures Substitute(s, p, texts)
            == Quote(DisplayText(texts, s[p..e])) + Substitute(s, e, texts)
  {
  }

  lemma SubstituteAtOther(s: string, p: nat, texts: CellTexts)
    requires p < |s| && CellWordAt(s, p).None?
    ensures Substitute(s, p, texts) == [s[p]] + Substitute(s, p + 1, texts)
  {
  }

  lemma SliceAfter(s: string, w: string, off: nat, a: nat, b: nat)
    requires Tail(s, w, off) && a <= b <= |w|
    ensures s[off + a..off + b] == w[a..b]
  {
    assert s[off..][a..b] == s[off + a..off + b];
  }

  /** Substitution after a non-word character ignores what precedes it. */
  lemma {:induction false} SubstituteAfter(s: string, w: string, off: nat, i: nat, texts: CellTexts)
    requires Tail(s, w, off) && i <= |w|
    ensures Substitute(s, off + i, texts) == Substitute(w, i, texts)
    decreases |w| - i
  {
    if i < |w| {
      var n := NextPos(w, i);
      SubstituteAfter(s, w, off, n, texts);
      AfterAligned(s, w, off, i, texts);
      AfterJoin(s, w, off, i, n, texts);
    }
  }

  /** One step of `SubstituteAfter`: agreement from the next position on
      extends to agreement from position `i` on. */
  lemma AfterJoin(s: string, w: string, off: nat, i: nat, n: nat, texts: CellTexts)
    requires off + i < |s| && i < |w| && n == NextPos(w, i)
    requires Emit(s, off + i, texts) == Emit(w, i, texts) && NextPos(s, off + i) == off + n
    requires Substitute(s, off + n, texts) == Substitute(w, n, texts)
    ensures Substitute(s, off + i, texts) == Substitute(w, i, texts)
  {
    SubstituteStep(s, off + i, off + n, texts);
    SubstituteStep(w, i, n, texts);
    SameSplit(Substitute(s, off + i, texts), Emit(s, off + i, texts), Substitute(s, off + n, texts),
              Substitute(w, i, texts), Emit(w, i, texts), Substitute(w, n, texts));
  }

  /** Two texts split into equal heads and equal rests are equal. */
  lemma SameSplit(x: string, hx: string, rx: string, y: string, hy: string, ry: string)
    requires x == hx + rx && y == hy + ry && hx == hy && rx == ry
    ensures x == y
  {
  }

  /** One step of the substitution: what position `p` writes, then the rest
      from the next position `q`. */
  lemma SubstituteStep(s: string, p: nat, q: nat, texts: CellTexts)
    requires p < |s| && q == NextPos(s, p)
    ensures Substitute(s, p, texts) == Emit(s, p, texts) + Substitute(s, q, texts)
  {
  }

  /** At position `i` of `w` and the same position `off + i` of `s`, the
      substitution writes the same and goes on at the same place. */
  lemma AfterAligned(s: string, w: string, off: nat, i: nat, texts: CellTexts)
    requires Tail(s, w, off) && i < |w|
    ensures off + i < |s|
    ensures Emit(s, off + i, texts) == Emit(w, i, texts)
    ensures NextPos(s, off + i) == off + NextPos(w, i)
  {
    CellWordAfter(s, w, off, i);
    var j := off + i;
    match CellWordAt(w, i)
    case Some(e) =>
      assert CellWordAt(s, j) == Some(off + e);
      SliceAfter(s, w, off, i, e);
      var v := w[i..e];
      assert s[j..off + e] == v;
      EmitAtWord(w, i, e, v, texts);
      EmitAtWord(s, j, off + e, v, texts);
    case None =>
      assert CellWordAt(s, j).None?;
      assert s[j] == w[i] by {
        assert s[off..][i] == s[j];
      }
      EmitAtOther(w, i, texts);
      EmitAtOther(s, j, texts);
  }

  lemma EmitAtWord(s: string, p: nat, e: nat, v: string, texts: CellTexts)
    requires p < |s| && CellWordAt(s, p) == Some(e) && s[p..e] == v
    ensures Emit(s, p, texts) == Quote(DisplayText(texts, v)) && NextPos(s, p) == e
  {
  }

  lemma EmitAtOther(s: string, p: nat, texts: CellTexts)
    requires p < |s| && CellWordAt(s, p).None?
    ensures Emit(s, p, texts) == [s[p]] && NextPos(s, p) == p + 1
  {
  }

  /** A cell name on its own becomes its quoted display text. */
  lemma SubstituteCellName(w: string, texts: CellTexts)
    requires IsCellName(w)
    ensures Substitute(w, 0, texts) == Quote(DisplayText(texts, w))
  {
    CellWordAtIsToken(w, 0, |w|);
    assert w[0..|w|] == w;
  }

  /** The display texts of a list of cell names. */
  function DisplayTexts(refs: seq<string>, texts: CellTexts): (vs: seq<string>)
    ensures |vs| == |refs|
  {
    seq(|refs|, i requires 0 <= i < |refs| => DisplayText(texts, refs[i]))
  }

  /** Substitution splits at a non-word character. */
  lemma SubstituteSplit(x: string, c: char, y: string, texts: CellTexts)
    requires !IsWordChar(c)
    ensures Substitute(x + [c] + y, 0, texts)
            == Substitute(x, 0, texts) + ([c] + Substitute(y, 0, texts))
  {
    var full := x + [c] + y;
    var m := |x|;
    AppendAssociates(x, [c], y);
    assert Head(full, x);
    SubstituteBefore(full, x, 0, texts);
    assert CellWordAt(full, m).None? by {
      assert full[m] == c;
    }
    SubstituteAtOther(full, m, texts);
    TailOfAppend(x + [c], y);
    SubstituteWholeTail(full, y, m + 1, texts);
  }

  /** `SubstituteAfter` from the start of the tail. */
  lemma SubstituteWholeTail(s: string, w: string, off: nat, texts: CellTexts)
    requires Tail(s, w, off)
    ensures Substitute(s, off, texts) == Substitute(w, 0, texts)
  {
    SubstituteAfter(s, w, off, 0, texts);
    assert off + 0 == off;
  }

  /** `SubstituteSplit` on texts given by name. */
  lemma SplitWith(x: string, y: string, sx: string, sy: string, s: string, r: string, texts: CellTexts)
    requires s == x + ['&'] + y && r == sx + ['&'] + sy
    requires Substitute(x, 0, texts) == sx && Substitute(y, 0, texts) == sy
    ensures Substitute(s, 0, texts) == r
  {
    SubstituteSplit(x, '&', y, texts);
    AppendAssociates(sx, ['&'], sy);
  }

  /** Cell names joined by `&` become their quoted display texts joined by `&`. */
  lemma {:induction false} SubstituteJoin(refs: seq<string>, texts: CellTexts)
    requires |refs| >= 1
    requires forall i :: 0 <= i < |refs| ==> IsCellName(refs[i])
    ensures Substitute(Join(refs, '&'), 0, texts)
            == Join(QuoteAll(DisplayTexts(refs, texts)), '&')
    decreases |refs|
  {
    var last := refs[|refs| - 1];
    assert IsCellName(last);
    SubstituteCellName(last, texts);
    if |refs| > 1 {
      var init := refs[..|refs| - 1];
      CellNamesOfPrefix(refs, init);
      SubstituteJoin(init, texts);
      JoinStepFacts(refs, init, last, texts);
      SplitWith(Join(init, '&'), last, Join(QuoteAll(DisplayTexts(init, texts)), '&'),
                Quote(DisplayText(texts, last)), Join(refs, '&'), Join(QuoteAll(DisplayTexts(refs, texts)), '&'), texts);
    } else {
      assert Join(QuoteAll(DisplayTexts(refs, texts)), '&') == Quote(DisplayText(texts, last));
    }
  }

  lemma CellNamesOfPrefix(refs: seq<string>, init: seq<string>)
    requires |init| <= |refs| && init == refs[..|init|]
    requires forall i :: 0 <= i < |refs| ==> IsCellName(refs[i])
    ensures forall i :: 0 <= i < |init| ==> IsCellName(init[i])
  {
    forall i | 0 <= i < |init|
      ensures IsCellName(init[i])
    {
      assert init[i] == refs[i];
    }
  }

  /** One more name at the end of the list, on both sides of `SubstituteJoin`. */
  lemma JoinStepFacts(refs: seq<string>, init: seq<string>, last: string, texts: CellTexts)
    requires |init| >= 1 && refs == init + [last]
    ensures Join(refs, '&') == Join(init, '&') + ['&'] + last
    ensures Join(QuoteAll(DisplayTexts(refs, texts)), '&')
            == Join(QuoteAll(DisplayTexts(init, texts)), '&') + ['&'] + Quote(DisplayText(texts, last))
  {
    JoinSnoc(init, last, '&');
    QuotedTextsSnoc(init, last, texts);
    JoinSnoc(QuoteAll(DisplayTexts(init, texts)), Quote(DisplayText(texts, last)), '&');
  }

  lemma QuotedTextsSnoc(init: seq<string>, last: string, texts: CellTexts)
    ensures QuoteAll(DisplayTexts(init + [last], texts))
            == QuoteAll(DisplayTexts(init, texts)) + [Quote(DisplayText(texts, last))]
  {
    var a := QuoteAll(DisplayTexts(init + [last], texts));
    var b := QuoteAll(DisplayTexts(init, texts)) + [Quote(DisplayText(texts, last))];
    assert |a| == |b|;
    forall k | 0 <= k < |a| ensures a[k] == b[k] {
      if k < |init| {
        assert (init + [last])[k] == init[k];
      }
    }
  }

  /** The evidently intended behaviour of the cell-reference path: `D29&D26`
      evaluates to the display text of D29 followed by that of D26, for any
      number of refs, as long as no display text holds an `&`. */
  lemma CellJoinResolves(refs: seq<string>, texts: CellTexts)
    requires |refs| >= 1
    requires forall i :: 0 <= i < |refs| ==> IsCellName(refs[i])
    requires forall i :: 0 <= i < |refs| ==> '&' !in DisplayText(texts, refs[i])
    ensures SubstitutedConcat(Join(refs, '&'), texts)
            == Formulas.Concat(DisplayTexts(refs, texts))
  {
    SubstituteJoin(refs, texts);
    QuotedJoinEvaluates(DisplayTexts(refs, texts));
  }

  // ---------------------------------------------------------------------------
  // _resolve_cell_reference_parameters, as written
  // ---------------------------------------------------------------------------

  /** The keys of the `cell_values` dictionary in insertion order: each cell
      name once, where it first occurs. */
  function Distinct(refs: seq<string>): (ks: seq<string>)
    ensures forall k :: k in ks <==> k in refs
  {
    if refs == [] then []
    else
      var init := refs[..|refs| - 1];
      var last := refs[|refs| - 1];
      assert refs == init + [last];
      if last in init then Distinct(init) else Distinct(init) + [last]
  }

  /** The `cell_values` dictionary: every cell name found, with the text of
      its display value, or nothing when its read raises. */
  function CellValues(refs: seq<string>, texts: CellTexts): (values: map<string, string>)
    ensures forall k :: k in values <==> k in refs
  {
    map k | k in refs :: DisplayText(texts, k)
  }

  /** `str.replace` of every key in turn, in the given order, by its quoted
      value: each replacement works on the text the earlier ones left. */
  function ReplaceEach(s: string, keys: seq<string>, values: map<string, string>): string
    requires [] !in keys && forall k :: k in keys ==> k in values
  {
    if keys == [] then s
    else
      var k := keys[|keys| - 1];
      ReplaceAll(ReplaceEach(s, keys[..|keys| - 1], values), k, Quote(values[k]))
  }

  /** What `_resolve_cell_reference_parameters` returns: every cell name,
      wherever it occurs as plain text, replaced in order of first
      occurrence, then the naive concatenation. */
  function CellPathAsWritten(parameters: string, texts: CellTexts): string
  {
    var refs := CellWordsFrom(parameters, 0);
    NaiveConcat(ReplaceEach(parameters, Distinct(refs), CellValues(refs, texts)))
  }

  /** The reading loop: one dictionary entry per cell name, a repeated name
      keeping its first place. */
  method ReadCellValues(refs: seq<string>, texts: CellTexts) returns (values: map<string, string>, order: seq<string>)
    ensures values == CellValues(refs, texts) && order == Distinct(refs)
  {
    values := map[];
    order := [];
    for i := 0 to |refs|
      invariant values == CellValues(refs[..i], texts)
      invariant order == Distinct(refs[..i])
    {
      var r := refs[i];
      assert refs[..i + 1] == refs[..i] + [r];
      CellValuesSnoc(refs[..i], r, texts);
      if r !in values {
        order := order + [r];
      }
      values := values[r := DisplayText(texts, r)];
    }
    assert refs[..|refs|] == refs;
  }

  lemma CellValuesSnoc(init: seq<string>, r: string, texts: CellTexts)
    ensures CellValues(init + [r], texts) == CellValues(init, texts)[r := DisplayText(texts, r)]
  {
    var a := CellValues(init + [r], texts);
    var b := CellValues(init, texts)[r := DisplayText(texts, r)];
    assert forall k :: k in a <==> k in b;
    assert forall k :: k in a ==> a[k] == b[k];
  }

  /** The replacing loop over the dictionary's entries. */
  method ReplaceCellValues(parameters: string, order: seq<string>, values: map<string, string>) returns (resolved: string)
    requires [] !in order && forall k :: k in order ==> k in values
    ensures resolved == ReplaceEach(parameters, order, values)
  {
    resolved := parameters;
    for i := 0 to |order|
      invariant resolved == ReplaceEach(parameters, order[..i], values)
    {
      assert order[..i + 1][..i] == order[..i];
      resolved := ReplaceAll(resolved, order[i], Quote(values[order[i]]));
    }
    assert order[..|order|] == order;
  }

  /** `_resolve_cell_reference_parameters`: find the cell names, read them,
      replace them as plain text and evaluate the concatenation. */
  method ResolveCellReferenceParameters(parameters: string, texts: CellTexts) returns (resolved: string)
    ensures resolved == CellPathAsWritten(parameters, texts)
  {
    var refs := CellWordsFrom(parameters, 0);
    var values, order := ReadCellValues(refs, texts);
    var replaced := ReplaceCellValues(parameters, order, values);
    resolved := EvaluateStringConcatenation(replaced);
  }

  /** Where the names do not overlap the plain-text replacement is harmless:
      a lone cell name gives its display text, as the whole-word path does. */
  lemma SingleCellAsWritten(w: string, texts: CellTexts)
    requires IsCellName(w) && '&' !in DisplayText(texts, w)
    ensures CellPathAsWritten(w, texts) == DisplayText(texts, w)
    ensures SubstitutedConcat(w, texts) == DisplayText(texts, w)
  {
    var v := DisplayText(texts, w);
    SingleCellReplaced(w, texts);
    QuotedAlone(v);
    SubstituteCellName(w, texts);
  }

  /** The one entry of a lone cell name replaces the whole text. */
  lemma SingleCellReplaced(w: string, texts: CellTexts)
    requires IsCellName(w)
    ensures CellWordsFrom(w, 0) == [w]
    ensures ReplaceEach(w, Distinct([w]), CellValues([w], texts)) == Quote(DisplayText(texts, w))
  {
    CellWordAtIsToken(w, 0, |w|);
    assert w[0..|w|] == w;
    assert CellWordsFrom(w, 0) == [w[0..|w|]] + CellWordsFrom(w, |w|);
    var xs: seq<string> := [w];
    assert xs[..0] == [];
    assert Distinct(xs) == xs;
    var q := Quote(DisplayText(texts, w));
    ReplaceLeading(w, q, []);
    assert w + [] == w;
  }

  /** A quoted text on its own evaluates to the text. */
  lemma QuotedAlone(v: string)
    requires '&' !in v
    ensures NaiveConcat(Quote(v)) == v
  {
    var vs: seq<string> := [v];
    QuotedJoinEvaluates(vs);
    assert QuoteAll(vs) == [Quote(v)];
    assert Join(QuoteAll(vs), '&') == Quote(v);
    assert vs[..0] == [];
    assert Formulas.Concat(vs) == v;
  }

  /** The plain-text replacement of `_resolve_cell_reference_parameters`:
      with `A1` and `A10` in one argument, `A1` is replaced first and also
      inside `A10`, which is then no longer found, so `A1&A10` gives `x"x"0`
      (`PrefixNamesWholeWord` gives `xy`). */
  lemma PrefixNameReplacedInside(s: string, texts: CellTexts)
    requires s == "A1&A10"
    requires "A1" in texts && texts["A1"] == "x"
    requires "A10" in texts && texts["A10"] == "y"
    ensures CellPathAsWritten(s, texts) == "x\"x\"0"
  {
    var refs := ["A1", "A10"];
    PrefixWords(s);
    assert Distinct(refs) == refs;
    var values := CellValues(refs, texts);
    assert values["A1"] == "x" && values["A10"] == "y";
    var replaced := PrefixReplaced(s, values);
    PrefixEvaluated(replaced);
  }

  /** The same argument through whole-word substitution. */
  lemma PrefixNamesWholeWord(s: string, texts: CellTexts)
    requires s == "A1&A10"
    requires "A1" in texts && texts["A1"] == "x"
    requires "A10" in texts && texts["A10"] == "y"
    ensures SubstitutedConcat(s, texts) == "xy"
  {
    var a, b := "A1", "A10";
    assert UppersThenDigits(a, 0, 1, 2) && IsCellName(a);
    assert UppersThenDigits(b, 0, 1, 3) && IsCellName(b);
    var refs := [a, b];
    assert Join(refs, '&') == s;
    assert DisplayTexts(refs, texts) == ["x", "y"];
    CellJoinResolves(refs, texts);
  }

  lemma PrefixWords(s: string)
    requires s == "A1&A10"
    ensures CellWordsFrom(s, 0) == ["A1", "A10"]
  {
    assert s[0] == 'A' && s[1] == '1' && s[2] == '&' && s[3] == 'A' && s[4] == '1' && s[5] == '0';
    assert UppersThenDigits(s, 3, 4, 6);
    CellWordAtIsToken(s, 3, 6);
    assert UppersThenDigits(s, 0, 1, 2);
    CellWordAtIsToken(s, 0, 2);
    assert CellWordsFrom(s, 6) == [];
    assert CellWordAt(s, 5).None?;
    assert CellWordsFrom(s, 5) == [];
    assert CellWordAt(s, 4).None?;
    assert CellWordsFrom(s, 4) == [];
    assert CellWordsFrom(s, 3) == [s[3..6]];
    assert CellWordAt(s, 2).None?;
    assert CellWordsFrom(s, 2) == [s[3..6]];
    assert CellWordsFrom(s, 0) == [s[0..2]] + [s[3..6]];
    assert s[0..2] == "A1" && s[3..6] == "A10";
  }

  lemma PrefixReplaced(s: string, values: map<string, string>) returns (replaced: string)
    requires s == "A1&A10"
    requires "A1" in values && values["A1"] == "x"
    requires "A10" in values && values["A10"] == "y"
    ensures replaced == "\"x\"&\"x\"0"
    ensures ReplaceEach(s, ["A1", "A10"], values) == replaced
  {
    var a, b := "A1", "A10";
    var q := Quote(values[a]);
    assert q == "\"x\"";
    var rest := "&A10";
    assert s == a + rest;
    ReplaceLeading(a, q, rest);
    assert rest[..2] != a;
    assert ReplaceAll(rest, a, q) == ['&'] + ReplaceAll(b, a, q);
    assert b == a + "0";
    ReplaceLeading(a, q, "0");
    assert ReplaceAll("0", a, q) == "0";
    replaced := q + ['&'] + q + "0";
    var keys := [a, b];
    var first: seq<string> := [a];
    assert keys[..1] == first && first[..0] == [];
    assert ReplaceEach(s, first, values) == replaced;
    assert forall k :: 0 <= k ==> !OccursAt(replaced, b, k);
    ReplaceAbsent(replaced, b, Quote(values[b]));
  }

  /** Two parts without `&` joined by one `&` contribute their pieces. */
  lemma NaiveConcatOfTwo(x: string, y: string)
    requires '&' !in x && '&' !in y
    ensures NaiveConcat(x + ['&'] + y) == Piece(x) + Piece(y)
  {
    assert Join([x, y], '&') == x + ['&'] + y;
    SplitJoin([x, y]);
    PiecesOfTwo(x, y);
  }

  /** A quoted text, `&`, and the same quoted text with one more character
      after it: the first loses its quotes, the second keeps them. */
  lemma QuotedThenTrailing(v: string, d: char)
    requires '&' !in v && d != '&' && d != '"' && !IsSpace(d)
    ensures NaiveConcat(Quote(v) + ['&'] + (Quote(v) + [d])) == v + (Quote(v) + [d])
  {
    var x := Quote(v);
    var y := x + [d];
    assert '&' !in x;
    NaiveConcatOfTwo(x, y);
    QuotedPiece(v);
    assert y[0] == '"' && y[|y| - 1] == d;
    StripUnpadded(y);
    assert !WrappedIn(y, '"');
  }

  lemma PrefixEvaluated(replaced: string)
    requires replaced == "\"x\"&\"x\"0"
    ensures NaiveConcat(replaced) == "x\"x\"0"
  {
    var q := Quote("x");
    assert replaced == q + ['&'] + (q + ['0']);
    QuotedThenTrailing("x", '0');
  }

  // ---------------------------------------------------------------------------
  // _resolve_indirect_parameters
  // ---------------------------------------------------------------------------

  const RowMarker := "ROW()"
  const ColumnMarker := "COLUMN()"
  const CharMarker := "CHAR("
  const ConcatenateMarker := "CONCATENATE("

  /** Whether the upper-cased argument names one of the functions whose
      evaluation is not implemented. */
  predicate HasFunctionMarker(u: string)
  {
    Contains(u, RowMarker) || Contains(u, ColumnMarker) || Contains(u, CharMarker) || Contains(u, ConcatenateMarker)
  }

  /** `_resolve_indirect_parameters`, tried in order: an argument with a cell
      name goes through the cell-reference path (here the whole-word
      substitution, see `PrefixNameReplacedInside`); one with a `"` through the
      hard-coded path; one naming ROW(), COLUMN(), CHAR( or CONCATENATE( is
      not resolved; anything else is the argument without enclosing `"`. */
  function ResolveIndirectParameters(parameters: string, texts: CellTexts): (r: Option<string>)
    ensures r.None? <==>
              && !ContainsCellReferences(parameters)
              && '"' !in parameters
              && HasFunctionMarker(Upper(parameters))
  {
    if ContainsCellReferences(parameters) then Some(SubstitutedConcat(parameters, texts))
    else if '"' in parameters then Some(SubstitutedConcat(parameters, texts))
    else if HasFunctionMarker(Upper(parameters)) then None
    else Some(StripChars(parameters, {'"'}))
  }

  /** An argument that is cell names joined by `&`, as `D29&D26`, resolves to
      their display texts glued together. */
  lemma CellJoinDispatched(refs: seq<string>, texts: CellTexts)
    requires |refs| >= 1
    requires forall i :: 0 <= i < |refs| ==> IsCellName(refs[i])
    requires forall i :: 0 <= i < |refs| ==> '&' !in DisplayText(texts, refs[i])
    ensures ResolveIndirectParameters(Join(refs, '&'), texts)
            == Some(Formulas.Concat(DisplayTexts(refs, texts)))
  {
    JoinHasCellWord(refs);
    CellJoinResolves(refs, texts);
  }

  /** A join of cell names starts with a cell word. */
  lemma JoinHasCellWord(refs: seq<string>)
    requires |refs| >= 1
    requires forall i :: 0 <= i < |refs| ==> IsCellName(refs[i])
    ensures ContainsCellReferences(Join(refs, '&'))
  {
    var full := Join(refs, '&');
    var w := refs[0];
    assert IsCellName(w);
    JoinHead(refs, '&');
    assert Head(full, w);
    CellWordBefore(full, w, 0);
    CellWordAtIsToken(w, 0, |w|);
    assert CellWordAt(full, 0) == Some(|w|);
  }

  /** The hard-coded path never reads a cell: without cell names the
      argument is only evaluated, whatever the cells hold. */
  lemma QuotedParametersNeverRead(parameters: string, texts: CellTexts)
    requires !ContainsCellReferences(parameters) && '"' in parameters
    ensures ResolveIndirectParameters(parameters, texts) == Some(NaiveConcat(parameters))
  {
    SubstituteNothing(parameters, 0, texts);
    assert parameters[0..] == parameters;
  }

  /** An argument that names ROW(), COLUMN(), CHAR( or CONCATENATE( and has
      neither a cell name nor a `"` is never resolved. */
  lemma FunctionMarkerUnresolved(parameters: string, texts: CellTexts)
    requires !ContainsCellReferences(parameters) && '"' !in parameters
    requires HasFunctionMarker(Upper(parameters))
    ensures ResolveIndirectParameters(parameters, texts).None?
  {
  }

  /** The last case keeps the argument as it is: it holds no `"` to strip. */
  lemma PlainParametersKept(parameters: string, texts: CellTexts)
    requires !ContainsCellReferences(parameters) && '"' !in parameters
    requires !HasFunctionMarker(Upper(parameters))
    ensures ResolveIndirectParameters(parameters, texts) == Some(parameters)
  {
    if parameters != [] {
      assert parameters[0] in parameters && parameters[|parameters| - 1] in parameters;
    }
    TrimUnpadded(parameters, {'"'});
  }

  // ---------------------------------------------------------------------------
  // resolve_indirect_formula
  // ---------------------------------------------------------------------------

  /** `resolution_status`. The `error` status is not modelled: nothing in
      the resolution raises, since every helper catches its own errors. */
  datatype Status = NotIndirect | NoIndirectFound | Success | ResolutionFailed

  /** The result dictionary; keys the source leaves out are `None`. */
  datatype Resolution = Resolution(
    isIndirect: bool,
    originalFormula: Option<string>,
    originalIndirectFormula: Option<string>,
    resolvedReference: Option<string>,
    indirectParameters: Option<string>,
    status: Status)

  /** `resolve_indirect_formula`: only the first INDIRECT call is resolved,
      and an empty result counts as a failure. */
  function ResolveIndirectFormula(formula: Option<string>, texts: CellTexts): (r: Resolution)
    ensures r.originalFormula == formula
    ensures r.isIndirect <==> IsIndirectFormula(formula)
    ensures r.status == NotIndirect <==> !IsIndirectFormula(formula)
    ensures r.status == NoIndirectFound <==> IsIndirectFormula(formula) && IndirectCalls(formula) == []
    ensures r.status == Success <==> r.resolvedReference.Some?
    ensures r.resolvedReference.Some? ==> r.resolvedReference.value != []
    ensures r.indirectParameters.Some? <==> IndirectCalls(formula) != []
    ensures IndirectCalls(formula) != [] ==>
              r.resolvedReference
              == (match ResolveIndirectParameters(IndirectCalls(formula)[0].parameters, texts)
                  case Some(v) => if v != [] then Some(v) else None
                  case None => None)
    ensures r.indirectParameters.Some? ==>
              && r.indirectParameters.value == IndirectCalls(formula)[0].parameters
              && r.originalIndirectFormula == Some(IndirectCalls(formula)[0].fullMatch)
  {
    if !IsIndirectFormula(formula) then
      Resolution(false, formula, None, None, None, NotIndirect)
    else
      var calls := IndirectCalls(formula);
      if calls == [] then
        Resolution(true, formula, None, None, None, NoIndirectFound)
      else
        var first := calls[0];
        match ResolveIndirectParameters(first.parameters, texts)
        case Some(v) =>
          if v != [] then Resolution(true, formula, Some(first.fullMatch), Some(v), Some(first.parameters), Success)
          else Resolution(true, formula, Some(first.fullMatch), None, Some(first.parameters), ResolutionFailed)
        case None => Resolution(true, formula, Some(first.fullMatch), None, Some(first.parameters), ResolutionFailed)
  }

  /** A formula that mentions INDIRECT but never closes a parenthesis has no
      call to resolve. */
  lemma UnclosedIsNotFound(s: string, texts: CellTexts)
    requires IsIndirectFormula(Some(s)) && ')' !in s
    ensures ResolveIndirectFormula(Some(s), texts).status == NoIndirectFound
  {
    UnclosedHasNoCall(s, 0);
  }

  /** End to end: `INDIRECT(D29&D26)` resolves to the display texts of the
      cells glued together, when that is not empty. */
  lemma CellJoinFormulaResolves(s: string, refs: seq<string>, texts: CellTexts)
    requires |refs| >= 1
    requires forall i :: 0 <= i < |refs| ==> IsCellName(refs[i])
    requires forall i :: 0 <= i < |refs| ==> '&' !in DisplayText(texts, refs[i])
    requires s == IndirectName + "(" + Join(refs, '&') + ")"
    requires Formulas.Concat(DisplayTexts(refs, texts)) != []
    ensures ResolveIndirectFormula(Some(s), texts)
            == Resolution(true, Some(s), Some(s), Some(Formulas.Concat(DisplayTexts(refs, texts))),
                          Some(Join(refs, '&')), Success)
  {
    var args := Join(refs, '&');
    FormulaCallMatched(s, refs);
    CellJoinDispatched(refs, texts);
    assert args == IndirectCalls(Some(s))[0].parameters;
  }

  /** The call in `INDIRECT(D29&D26)` is the whole formula, with the joined
      names as its argument. */
  lemma FormulaCallMatched(s: string, refs: seq<string>)
    requires |refs| >= 1
    requires forall i :: 0 <= i < |refs| ==> IsCellName(refs[i])
    requires s == IndirectName + "(" + Join(refs, '&') + ")"
    ensures IsIndirectFormula(Some(s))
    ensures IndirectCalls(Some(s)) != []
    ensures IndirectCalls(Some(s))[0] == IndirectCall(s, Join(refs, '&'), 0, |s|)
  {
    var args := Join(refs, '&');
    CellNamesJoinedPlain(refs);
    UpperIsNotSpace(args[0]);
    WholeCallMatched(s, args);
    FirstCallAtStart(s);
  }

  /** `INDIRECT(args)` with a plain argument is one call spanning the text. */
  lemma WholeCallMatched(s: string, args: string)
    requires s == IndirectName + "(" + args + ")"
    requires args != [] && !IsSpace(args[0]) && ')' !in args
    ensures IndirectAt(s, 0) == Some(IndirectCall(s, args, 0, |s|))
  {
    assert s[0..8] == IndirectName;
    UpperUnchanged(IndirectName);
    assert NameAt(s, 0);
    assert s[8] == '(' && s[9..9 + |args|] == args && s[9 + |args|] == ')';
    PlainCallMatched(s, 0, args);
    assert s[0..10 + |args|] == s;
  }

  /** A match at the very start is the first extracted call. */
  lemma FirstCallAtStart(s: string)
    requires IndirectAt(s, 0).Some?
    ensures IsIndirectFormula(Some(s))
    ensures IndirectCalls(Some(s)) != [] && IndirectCalls(Some(s))[0] == IndirectAt(s, 0).value
  {
    IndirectAtShape(s, 0);
    NameInUpper(s, 0);
    assert FindFrom(Upper(s), IndirectName, 0).Some?;
    ExtractionGuardRedundant(s);
  }

  /** A join of cell names holds no `)` and starts with a capital letter. */
  lemma CellNamesJoinedPlain(refs: seq<string>)
    requires |refs| >= 1
    requires forall i :: 0 <= i < |refs| ==> IsCellName(refs[i])
    ensures Join(refs, '&') != [] && IsUpper(Join(refs, '&')[0])
    ensures ')' !in Join(refs, '&')
  {
    forall i | 0 <= i < |refs|
      ensures ')' !in refs[i]
    {
      CellNameChars(refs[i]);
    }
    JoinAvoids(refs, '&', ')');
    JoinHead(refs, '&');
    CellNameChars(refs[0]);
    assert Join(refs, '&')[0] == refs[0][0];
  }

  /** A cell name is capital letters and digits. */
  lemma CellNameChars(w: string)
    requires IsCellName(w)
    ensures w != [] && IsUpper(w[0])
    ensures forall i :: 0 <= i < |w| ==> IsUpper(w[i]) || IsDigit(w[i])
  {
    var l :| 0 < l < |w| && UppersThenDigits(w, 0, l, |w|);
  }
}
