/** The reference extractor of the dependency exploder: the cells a formula
    names, found by two patterns. The anchored pattern finds `Sheet!A1`,
    `'My Sheet'!$B$2` and `'C:\dir\[book.xlsx]Sheet'!C3`; the bare pattern finds
    `A1` standing alone as a word. Anchored references come first, and a bare
    match lying inside an anchored one is not reported again.

    Both patterns are written out here as deterministic scanners: at every
    position each of them can match in at most one way, so the leftmost match
    that `re.finditer` reports is the one these functions compute. */
module References {
  import opened Text
  import opened Classify
  import opened Links

  /** How a reference was written: with a workbook, with a sheet of the same
      workbook, or as a bare cell of the current sheet. */
  datatype RefKind = External | LocalAbsolute | Relative

  /** One entry of the list `parse_formula_references` returns. */
  datatype Reference = Reference(workbook: string, sheet: string, cell: string, kind: RefKind)

  /** A match of the anchored pattern: its span `[start, end)`, the sheet
      prefix including its `!`, and the column letters and row digits. */
  datatype AnchoredMatch = AnchoredMatch(start: nat, end: nat, sheetPart: string, col: string, row: string)

  /** A match of the bare pattern: its span and its letters and digits. */
  datatype BareMatch = BareMatch(start: nat, end: nat, col: string, row: string)

  // ---------------------------------------------------------------------------
  // The anchored pattern
  // ---------------------------------------------------------------------------

  /** The end of the sheet prefix that starts at `p`, just after its `!`.
      The prefix is `''path''!` (doubled quotes, no quote inside), `'name'!`
      (at least one character, no quote inside) or an unquoted run of
      characters outside `SheetStops` followed by `!`. */
  function SheetPartEnd(s: string, p: nat): (g: Option<nat>)
    requires p <= |s|
    ensures g.Some? ==> p < g.value - 1 && g.value <= |s| && s[g.value - 1] == '!'
  {
    if p < |s| && s[p] == '\'' then
      if p + 1 < |s| && s[p + 1] == '\'' then
        var q := SpanWhile(s, p + 2, NonQuotes);
        if q + 2 < |s| && s[q + 1] == '\'' && s[q + 2] == '!' then Some(q + 3) else None
      else
        var q := SpanWhile(s, p + 1, NonQuotes);
        if p + 1 < q && q + 1 < |s| && s[q + 1] == '!' then Some(q + 2) else None
    else
      var q := SpanWhile(s, p, SheetChars);
      if p < q && q < |s| && s[q] == '!' then Some(q + 1) else None
  }

  /** The cell after a sheet prefix ending at `g`: `\$?[A-Z]{1,3}\$?[0-9]{1,7}`.
      More than three letters cannot match, and at most seven digits are
      taken; the result is the end of the match, the letters and the digits. */
  function CellAfter(s: string, g: nat): (r: Option<(nat, string, string)>)
    requires g <= |s|
    ensures r.Some? ==> g < r.value.0 <= |s|
    ensures r.Some? ==> 1 <= |r.value.1| <= 3 && 1 <= |r.value.2| <= 7
  {
    var a := if g < |s| && s[g] == '$' then g + 1 else g;
    var l := SpanWhile(s, a, Uppers);
    if l == a || l - a > 3 then None
    else
      var b := if l < |s| && s[l] == '$' then l + 1 else l;
      var d := SpanWhile(s, b, Digits);
      if d == b then None
      else
        var e := if d - b > 7 then b + 7 else d;
        Some((e, s[a..l], s[b..e]))
  }

  /** The column of an anchored match is capital letters and its row digits. */
  lemma CellAfterShape(s: string, g: nat, e: nat, col: string, row: string)
    requires g <= |s| && CellAfter(s, g) == Some((e, col, row))
    ensures forall i :: 0 <= i < |col| ==> IsUpper(col[i])
    ensures forall i :: 0 <= i < |row| ==> IsDigit(row[i])
  {
    var a := if g < |s| && s[g] == '$' then g + 1 else g;
    SpanWhileRun(s, a, Uppers);
    var l := SpanWhile(s, a, Uppers);
    var b := if l < |s| && s[l] == '$' then l + 1 else l;
    SpanWhileRun(s, b, Digits);
    var d := SpanWhile(s, b, Digits);
    var f := if d - b > 7 then b + 7 else d;
    assert col == s[a..l] && row == s[b..f];
    forall i | 0 <= i < |col|
      ensures IsUpper(col[i])
    {
      assert col[i] == s[a + i];
    }
    forall i | 0 <= i < |row|
      ensures IsDigit(row[i])
    {
      assert row[i] == s[b + i];
    }
  }

  /** The anchored match starting exactly at `p`, if there is one. */
  function AnchoredAt(s: string, p: nat): (r: Option<AnchoredMatch>)
    requires p <= |s|
    ensures r.Some? ==> r.value.start == p < r.value.end <= |s|
  {
    match SheetPartEnd(s, p)
    case None => None
    case Some(g) =>
      match CellAfter(s, g)
      case None => None
      case Some(c) => Some(AnchoredMatch(p, c.0, s[p..g], c.1, c.2))
  }

  /** `re.finditer` of the anchored pattern from `p`: try each position in
      turn and resume after each match. */
  function AnchoredFrom(s: string, p: nat): seq<AnchoredMatch>
    requires p <= |s|
    decreases |s| - p
  {
    if p == |s| then []
    else
      match AnchoredAt(s, p)
      case Some(m) => [m] + AnchoredFrom(s, m.end)
      case None => AnchoredFrom(s, p + 1)
  }

  /** The anchored matches lie after `p`, each is the match at its start, and
      they follow one another without overlapping. */
  lemma {:induction false} AnchoredFromShape(s: string, p: nat)
    requires p <= |s|
    ensures AnchoredScan(s, p, AnchoredFrom(s, p))
    decreases |s| - p
  {
    if p < |s| {
      var r := AnchoredAt(s, p);
      if r.Some? {
        var m := r.value;
        var rest := AnchoredFrom(s, m.end);
        assert AnchoredFrom(s, p) == [m] + rest;
        AnchoredFromShape(s, m.end);
        AnchoredMatchesCons(s, m, rest);
        AnchoredOrderedCons(p, |s|, m, rest);
      } else {
        assert AnchoredFrom(s, p) == AnchoredFrom(s, p + 1);
        AnchoredFromShape(s, p + 1);
        AnchoredOrderedLater(p, |s|, AnchoredFrom(s, p + 1));
      }
    }
  }

  /** The match at its start followed by matches is matches. */
  lemma AnchoredMatchesCons(s: string, m: AnchoredMatch, rest: seq<AnchoredMatch>)
    requires m.start <= |s| && AnchoredAt(s, m.start) == Some(m)
    requires AnchoredMatches(s, rest)
    ensures AnchoredMatches(s, [m] + rest)
  {
    var ms := [m] + rest;
    forall i | 0 <= i < |ms|
      ensures ms[i].start <= |s| && AnchoredAt(s, ms[i].start) == Some(ms[i])
    {
      if i > 0 {
        assert ms[i] == rest[i - 1];
      }
    }
  }

  /** A span in `[p, n)` followed by ordered spans from its end is ordered
      from `p`. */
  lemma AnchoredOrderedCons(p: nat, n: nat, m: AnchoredMatch, rest: seq<AnchoredMatch>)
    requires p <= m.start < m.end <= n
    requires AnchoredOrdered(m.end, n, rest)
    ensures AnchoredOrdered(p, n, [m] + rest)
  {
    var ms := [m] + rest;
    assert forall i :: 0 < i < |ms| ==> ms[i] == rest[i - 1];
  }

  /** Spans ordered from `p + 1` are ordered from `p`. */
  lemma AnchoredOrderedLater(p: nat, n: nat, ms: seq<AnchoredMatch>)
    requires AnchoredOrdered(p + 1, n, ms)
    ensures AnchoredOrdered(p, n, ms)
  {
  }

  /** `ms` lies after `p`, each element is the match at its start, and the
      elements follow one another without overlapping. */
  predicate AnchoredScan(s: string, p: nat, ms: seq<AnchoredMatch>)
  {
    AnchoredMatches(s, ms) && AnchoredOrdered(p, |s|, ms)
  }

  /** Each element is the match at its own start. */
  predicate AnchoredMatches(s: string, ms: seq<AnchoredMatch>)
  {
    forall i :: 0 <= i < |ms| ==> ms[i].start <= |s| && AnchoredAt(s, ms[i].start) == Some(ms[i])
  }

  /** The spans lie in `[p, n)` in order without overlapping. */
  predicate AnchoredOrdered(p: nat, n: nat, ms: seq<AnchoredMatch>)
  {
    && (forall i :: 0 <= i < |ms| ==> p <= ms[i].start < ms[i].end <= n)
    && (forall i, j :: 0 <= i < j < |ms| ==> ms[i].end <= ms[j].start)
  }

  /** The bare match starting exactly at `p`: `\b[A-Z]{1,3}[0-9]{1,7}\b`. The
      word boundaries force the match to be a whole word, so more than three
      letters or more than seven digits cannot match. */
  function BareAt(s: string, p: nat): (r: Option<BareMatch>)
    requires p <= |s|
    ensures r.Some? ==> r.value.start == p < r.value.end <= |s|
  {
    if p < |s| && (p == 0 || !IsWordChar(s[p - 1])) then
      var l := SpanWhile(s, p, Uppers);
      var d := SpanWhile(s, l, Digits);
      if 1 <= l - p <= 3 && 1 <= d - l <= 7 && (d == |s| || !IsWordChar(s[d])) then
        Some(BareMatch(p, d, s[p..l], s[l..d]))
      else None
    else None
  }

  /** `re.finditer` of the bare pattern from `p`. */
  function BareFrom(s: string, p: nat): seq<BareMatch>
    requires p <= |s|
    decreases |s| - p
  {
    if p == |s| then []
    else
      match BareAt(s, p)
      case Some(m) => [m] + BareFrom(s, m.end)
      case None => BareFrom(s, p + 1)
  }

  /** Every bare match lies after `p` and is the match at its start. */
  lemma {:induction false} BareFromShape(s: string, p: nat)
    requires p <= |s|
    ensures BareScan(s, p, BareFrom(s, p))
    decreases |s| - p
  {
    if p < |s| {
      match BareAt(s, p)
      case Some(m) =>
        BareFromShape(s, m.end);
        var rest := BareFrom(s, m.end);
        var ms := [m] + rest;
        assert BareFrom(s, p) == ms;
        assert forall i :: 0 < i < |ms| ==> ms[i] == rest[i - 1];
        assert BareScan(s, p, ms);
      case None =>
        BareFromShape(s, p + 1);
    }
  }

  /** `ms` lies after `p` and each element is the match at its start. */
  predicate BareScan(s: string, p: nat, ms: seq<BareMatch>)
  {
    forall i :: 0 <= i < |ms| ==> p <= ms[i].start < ms[i].end <= |s| && BareAt(s, ms[i].start) == Some(ms[i])
  }

  /** The independent description of a bare reference: `s[a..b]` is a whole
      word (nothing word-like touches it on either side) made of one to three
      capital letters followed by one to seven digits. */
  predicate IsCellWord(s: string, a: nat, b: nat)
  {
    a < b <= |s| && (a == 0 || !IsWordChar(s[a - 1])) && (b == |s| || !IsWordChar(s[b]))
    && exists l :: a < l < b && l - a <= 3 && b - l <= 7 && LettersThenDigits(s, a, l, b)
  }

  predicate LettersThenDigits(s: string, a: nat, l: nat, b: nat)
    requires a <= l <= b <= |s|
  {
    (forall i :: a <= i < l ==> IsUpper(s[i])) && (forall i :: l <= i < b ==> IsDigit(s[i]))
  }

  /** The scanner finds a bare match at `a` ending at `b` exactly when
      `s[a..b]` is a cell word. */
  lemma BareAtIsCellWord(s: string, a: nat, b: nat)
    requires a <= |s|
    ensures (BareAt(s, a).Some? && BareAt(s, a).value.end == b) <==> IsCellWord(s, a, b)
  {
    if a < |s| && (a == 0 || !IsWordChar(s[a - 1])) {
      var l := SpanWhile(s, a, Uppers);
      var d := SpanWhile(s, l, Digits);
      SpanWhileRun(s, a, Uppers);
      SpanWhileRun(s, l, Digits);
      if IsCellWord(s, a, b) {
        var l' :| a < l' < b && l' - a <= 3 && b - l' <= 7 && LettersThenDigits(s, a, l', b);
        SpanWhileExact(s, a, l', Uppers);
        SpanWhileExact(s, l', b, Digits);
      }
      if BareAt(s, a).Some? && BareAt(s, a).value.end == b {
        assert LettersThenDigits(s, a, l, b);
      }
    }
  }

  /** The characters of a bare match are all word characters. */
  lemma BareMatchIsWord(s: string, p: nat)
    requires p <= |s| && BareAt(s, p).Some?
    ensures forall i :: p <= i < BareAt(s, p).value.end ==> IsWordChar(s[i])
  {
    var l := SpanWhile(s, p, Uppers);
    SpanWhileRun(s, p, Uppers);
    SpanWhileRun(s, l, Digits);
  }

  /** Every cell word at or after `p` is reported by the scan from `p`. */
  lemma {:induction false} BareFromFinds(s: string, p: nat, a: nat, b: nat)
    requires p <= a && IsCellWord(s, a, b)
    ensures exists i :: 0 <= i < |BareFrom(s, p)| && Some(BareFrom(s, p)[i]) == BareAt(s, a)
    decreases |s| - p
  {
    BareAtIsCellWord(s, a, b);
    if p == a {
      assert BareFrom(s, p)[0] == BareAt(s, a).value;
    } else {
      match BareAt(s, p)
      case None =>
        BareFromFinds(s, p + 1, a, b);
        var i :| 0 <= i < |BareFrom(s, p + 1)| && Some(BareFrom(s, p + 1)[i]) == BareAt(s, a);
        assert BareFrom(s, p) == BareFrom(s, p + 1);
      case Some(m) =>
        BareMatchIsWord(s, p);
        assert m.end < a by {
          assert !IsWordChar(s[a - 1]);
        }
        BareFromFinds(s, m.end, a, b);
        var i :| 0 <= i < |BareFrom(s, m.end)| && Some(BareFrom(s, m.end)[i]) == BareAt(s, a);
        assert BareFrom(s, p)[i + 1] == BareFrom(s, m.end)[i];
    }
  }

  // ---------------------------------------------------------------------------
  // From matches to references
  // ---------------------------------------------------------------------------

  /** The characters stripped from both ends of an external prefix, and of a
      local one. */
  const ExternalStops: set<char> := {'\'', ' ', '!', '"'}
  const LocalStops: set<char> := {'\'', '!'}

  /** The cleaning of an external prefix before it is split: quotes, spaces
      and `!` stripped from both ends, then whitespace, doubled backslashes
      made single, and one more pair of enclosing quotes removed. */
  function CleanExternal(raw: string): string
  {
    var c1 := Strip(StripChars(raw, ExternalStops));
    var c2 := ReplaceAll(c1, "\\\\", "\\");
    if WrappedIn(c2, '\'') then Strip(Unwrap(c2)) else c2
  }

  /** `dir[file]sheet` split at its last `]` and then at the last `[` before
      it, into the joined workbook path (trailing `]`s dropped from the file
      name) and the sheet name. Either split may fail, as the unpacking of a
      one-element `rsplit` result fails. */
  function SplitWorkbookSheet(c: string): (r: Option<(string, string)>)
  {
    match FindLast(c, ']')
    case None => None
    case Some(i) =>
      var wp := c[..i] + "]";
      match FindLast(wp, '[')
      case None => None
      case Some(j) => Some((PathJoin(wp[..j], TrimRight(wp[j + 1..], {']'})), c[i + 1..]))
  }

  /** The reference one anchored match contributes, if any: with `[` and `]`
      in its prefix an external reference when the prefix splits, otherwise a
      reference to another sheet of the current workbook. */
  function AnchoredReference(m: AnchoredMatch, workbook: string): (r: Option<Reference>)
    ensures r.Some? ==> r.value.kind != Relative && r.value.cell == m.col + m.row
  {
    var cell := m.col + m.row;
    if '[' in m.sheetPart && ']' in m.sheetPart then
      match SplitWorkbookSheet(CleanExternal(m.sheetPart))
      case None => None
      case Some(t) => Some(Reference(t.0, t.1, cell, External))
    else Some(Reference(workbook, StripChars(m.sheetPart, LocalStops), cell, LocalAbsolute))
  }

  function OptionSeq<T>(o: Option<T>): seq<T>
  {
    match o
    case None => []
    case Some(x) => [x]
  }

  /** The references of the anchored matches, in match order; a match whose
      prefix does not split contributes nothing. */
  function AnchoredReferences(ms: seq<AnchoredMatch>, workbook: string): (r: seq<Reference>)
    ensures |r| <= |ms|
  {
    if ms == [] then []
    else AnchoredReferences(ms[..|ms| - 1], workbook) + OptionSeq(AnchoredReference(ms[|ms| - 1], workbook))
  }

  /** The spans of the anchored matches, as the set `processed_spans`. */
  function SpanSet(ms: seq<AnchoredMatch>): set<(nat, nat)>
  {
    if ms == [] then {}
    else SpanSet(ms[..|ms| - 1]) + {(ms[|ms| - 1].start, ms[|ms| - 1].end)}
  }

  /** A bare match lying inside one of the spans. */
  predicate CoveredBy(b: BareMatch, spans: set<(nat, nat)>)
  {
    exists sp :: sp in spans && sp.0 <= b.start && b.end <= sp.1
  }

  /** The references of the bare matches not lying inside a span, in match
      order, all in the current workbook and sheet. */
  function BareReferences(bs: seq<BareMatch>, spans: set<(nat, nat)>, workbook: string, sheet: string): (r: seq<Reference>)
    ensures |r| <= |bs|
  {
    if bs == [] then []
    else
      var b := bs[|bs| - 1];
      BareReferences(bs[..|bs| - 1], spans, workbook, sheet)
        + (if CoveredBy(b, spans) then [] else [Reference(workbook, sheet, b.col + b.row, Relative)])
  }

  /** What `parse_formula_references` returns: nothing unless the formula
      starts with `=`; otherwise the anchored references followed by the bare
      ones. */
  function ParseReferences(formula: string, workbook: string, sheet: string): (r: seq<Reference>)
    ensures !StartsWith(formula, "=") ==> r == []
  {
    if !StartsWith(formula, "=") then []
    else
      var ms := AnchoredFrom(formula, 0);
      AnchoredReferences(ms, workbook) + BareReferences(BareFrom(formula, 0), SpanSet(ms), workbook, sheet)
  }

  /** `parse_formula_references`: the anchored matches are turned into
      references while their spans are recorded, then each bare match is
      checked against the recorded spans. */
  method ParseFormulaReferences(formula: string, workbook: string, sheet: string) returns (refs: seq<Reference>)
    ensures refs == ParseReferences(formula, workbook, sheet)
  {
    if !StartsWith(formula, "=") {
      return [];
    }
    var ms := AnchoredFrom(formula, 0);
    var spans;
    refs, spans := CollectAnchored(ms, workbook);
    var bare := CollectBare(BareFrom(formula, 0), spans, workbook, sheet);
    refs := refs + bare;
  }

  /** The loop over the anchored matches. */
  method CollectAnchored(ms: seq<AnchoredMatch>, workbook: string) returns (refs: seq<Reference>, spans: set<(nat, nat)>)
    ensures refs == AnchoredReferences(ms, workbook) && spans == SpanSet(ms)
  {
    refs := [];
    spans := {};
    for i := 0 to |ms|
      invariant refs == AnchoredReferences(ms[..i], workbook)
      invariant spans == SpanSet(ms[..i])
    {
      assert ms[..i + 1][..i] == ms[..i];
      spans := spans + {(ms[i].start, ms[i].end)};
      var r := AnchoredReference(ms[i], workbook);
      if r.Some? {
        refs := refs + [r.value];
      }
    }
    assert ms[..|ms|] == ms;
  }

  /** The loop over the bare matches. */
  method CollectBare(bs: seq<BareMatch>, spans: set<(nat, nat)>, workbook: string, sheet: string) returns (refs: seq<Reference>)
    ensures refs == BareReferences(bs, spans, workbook, sheet)
  {
    refs := [];
    for j := 0 to |bs|
      invariant refs == BareReferences(bs[..j], spans, workbook, sheet)
    {
      assert bs[..j + 1][..j] == bs[..j];
      var processed := IsProcessed(bs[j], spans);
      if !processed {
        refs := refs + [Reference(workbook, sheet, bs[j].col + bs[j].row, Relative)];
      }
    }
    assert bs[..|bs|] == bs;
  }

  /** The inner loop over `processed_spans`: stop at the first span holding
      the match. */
  method IsProcessed(b: BareMatch, spans: set<(nat, nat)>) returns (processed: bool)
    ensures processed <==> CoveredBy(b, spans)
  {
    var rest := spans;
    while rest != {}
      invariant rest <= spans
      invariant forall sp :: sp in spans && sp !in rest ==> !(sp.0 <= b.start && b.end <= sp.1)
      decreases |rest|
    {
      var sp: (nat, nat) :| sp in rest;
      if sp.0 <= b.start && b.end <= sp.1 {
        return true;
      }
      rest := rest - {sp};
    }
    return false;
  }

  // ---------------------------------------------------------------------------
  // Properties of the extraction
  // ---------------------------------------------------------------------------

  /** Anchored matches never give relative references. */
  lemma {:induction false} AnchoredKinds(ms: seq<AnchoredMatch>, workbook: string)
    ensures NoneRelative(AnchoredReferences(ms, workbook))
  {
    if ms != [] {
      AnchoredKinds(ms[..|ms| - 1], workbook);
      var a := AnchoredReferences(ms[..|ms| - 1], workbook);
      var o := OptionSeq(AnchoredReference(ms[|ms| - 1], workbook));
      assert NoneRelative(o);
      assert forall i :: |a| <= i < |a + o| ==> (a + o)[i] == o[i - |a|];
      assert NoneRelative(a + o);
    }
  }

  predicate NoneRelative(r: seq<Reference>)
  {
    forall i :: 0 <= i < |r| ==> r[i].kind != Relative
  }

  predicate AllRelativeTo(r: seq<Reference>, workbook: string, sheet: string)
  {
    forall i :: 0 <= i < |r| ==> r[i].kind == Relative && r[i].workbook == workbook && r[i].sheet == sheet
  }

  /** Bare matches give relative references to the current workbook and
      sheet. */
  lemma {:induction false} BareKinds(bs: seq<BareMatch>, spans: set<(nat, nat)>, workbook: string, sheet: string)
    ensures AllRelativeTo(BareReferences(bs, spans, workbook, sheet), workbook, sheet)
  {
    if bs != [] {
      BareKinds(bs[..|bs| - 1], spans, workbook, sheet);
      var a := BareReferences(bs[..|bs| - 1], spans, workbook, sheet);
      var b := bs[|bs| - 1];
      var o := if CoveredBy(b, spans) then [] else [Reference(workbook, sheet, b.col + b.row, Relative)];
      assert forall i :: |a| <= i < |a + o| ==> (a + o)[i] == o[i - |a|];
      assert AllRelativeTo(a + o, workbook, sheet);
    }
  }

  /** Every anchored reference comes before every bare one. */
  lemma AnchoredBeforeBare(formula: string, workbook: string, sheet: string)
    ensures var r := ParseReferences(formula, workbook, sheet);
            forall i, j :: 0 <= i < j < |r| && r[i].kind == Relative ==> r[j].kind == Relative
  {
    if StartsWith(formula, "=") {
      var ms := AnchoredFrom(formula, 0);
      var a := AnchoredReferences(ms, workbook);
      var b := BareReferences(BareFrom(formula, 0), SpanSet(ms), workbook, sheet);
      AnchoredKinds(ms, workbook);
      BareKinds(BareFrom(formula, 0), SpanSet(ms), workbook, sheet);
      assert forall i :: 0 <= i < |a| ==> (a + b)[i] == a[i];
      assert forall i :: |a| <= i < |a + b| ==> (a + b)[i] == b[i - |a|];
    }
  }

  lemma {:induction false} AnchoredReferencesAppend(a: seq<AnchoredMatch>, b: seq<AnchoredMatch>, workbook: string)
    ensures AnchoredReferences(a + b, workbook) == AnchoredReferences(a, workbook) + AnchoredReferences(b, workbook)
    decreases |b|
  {
    if b == [] {
      assert a + b == a;
    } else {
      var b' := b[..|b| - 1];
      assert (a + b)[..|a + b| - 1] == a + b';
      AnchoredReferencesAppend(a, b', workbook);
    }
  }

  /** A match whose external prefix does not split is skipped and nothing else
      changes: the result is the one without that match. */
  lemma FailedSplitSkipped(a: seq<AnchoredMatch>, m: AnchoredMatch, b: seq<AnchoredMatch>, workbook: string)
    requires AnchoredReference(m, workbook).None?
    ensures AnchoredReferences(a + [m] + b, workbook) == AnchoredReferences(a + b, workbook)
  {
    var w := workbook;
    assert AnchoredReferences([m], w) == [] by {
      assert [m][..0] == [];
    }
    calc {
      AnchoredReferences(a + [m] + b, w);
      { AnchoredReferencesAppend(a + [m], b, w); }
      AnchoredReferences(a + [m], w) + AnchoredReferences(b, w);
      { AnchoredReferencesAppend(a, [m], w); }
      AnchoredReferences(a, w) + AnchoredReferences(b, w);
      { AnchoredReferencesAppend(a, b, w); }
      AnchoredReferences(a + b, w);
    }
  }

  lemma {:induction false} BareReferencesAppend(a: seq<BareMatch>, b: seq<BareMatch>, spans: set<(nat, nat)>, workbook: string, sheet: string)
    ensures BareReferences(a + b, spans, workbook, sheet) == BareReferences(a, spans, workbook, sheet) + BareReferences(b, spans, workbook, sheet)
    decreases |b|
  {
    if b == [] {
      assert a + b == a;
    } else {
      var b' := b[..|b| - 1];
      assert (a + b)[..|a + b| - 1] == a + b';
      BareReferencesAppend(a, b', spans, workbook, sheet);
    }
  }

  /** A bare match inside an anchored span is never emitted: the result is
      the one without that match. */
  lemma CoveredMatchSkipped(a: seq<BareMatch>, m: BareMatch, b: seq<BareMatch>, spans: set<(nat, nat)>, workbook: string, sheet: string)
    requires CoveredBy(m, spans)
    ensures BareReferences(a + [m] + b, spans, workbook, sheet) == BareReferences(a + b, spans, workbook, sheet)
  {
    BareReferencesAppend(a + [m], b, spans, workbook, sheet);
    BareReferencesAppend(a, [m], spans, workbook, sheet);
    BareReferencesAppend(a, b, spans, workbook, sheet);
    assert [m][..0] == [];
  }

  /** A bare match outside every span is emitted as a reference to that cell
      of the current sheet. */
  lemma UncoveredMatchKept(a: seq<BareMatch>, m: BareMatch, b: seq<BareMatch>, spans: set<(nat, nat)>, workbook: string, sheet: string)
    requires !CoveredBy(m, spans)
    ensures BareReferences(a + [m] + b, spans, workbook, sheet)
            == BareReferences(a, spans, workbook, sheet) + [Reference(workbook, sheet, m.col + m.row, Relative)] + BareReferences(b, spans, workbook, sheet)
  {
    BareReferencesAppend(a + [m], b, spans, workbook, sheet);
    BareReferencesAppend(a, [m], spans, workbook, sheet);
    assert [m][..0] == [];
  }

  /** A prefix `dir[file]sheet` whose sheet holds no `]` and whose file name
      holds neither bracket splits into the joined path and the sheet. */
  lemma SplitOfTarget(dir: string, file: string, sheet: string)
    requires ']' !in sheet && '[' !in file && ']' !in file
    ensures SplitWorkbookSheet(dir + "[" + file + "]" + sheet) == Some((PathJoin(dir, file), sheet))
  {
    var wp := dir + "[" + file + "]";
    var c := wp + sheet;
    var j := |dir|;
    var i := j + 1 + |file|;
    LastCloseOfTarget(wp, sheet, i);
    TargetSlices(dir, file, sheet);
    LastOpenOfTarget(dir, file);
    SplitAt(c, i, j);
    TrimRightBracket(file);
  }

  /** The pieces of `dir[file]sheet` around its two brackets. */
  lemma TargetSlices(dir: string, file: string, sheet: string)
    ensures var c := dir + "[" + file + "]" + sheet;
            c[..|dir| + 1 + |file|] + "]" == dir + "[" + file + "]"
    ensures var c := dir + "[" + file + "]" + sheet;
            c[..|dir|] == dir && c[|dir| + 1..|dir| + 1 + |file|] == file && c[|dir| + 1 + |file| + 1..] == sheet
  {
    var wp := dir + "[" + file + "]";
    var c := wp + sheet;
    var i := |dir| + 1 + |file|;
    assert c[..i] == wp[..i];
    assert wp[..i] + [wp[i]] == wp;
  }

  /** The `]` closing the workbook name is the last one. */
  lemma LastCloseOfTarget(wp: string, sheet: string, i: nat)
    requires i + 1 == |wp| && wp[i] == ']' && ']' !in sheet
    ensures FindLast(wp + sheet, ']') == Some(i)
  {
    var c := wp + sheet;
    assert forall k :: i < k < |c| ==> c[k] == sheet[k - i - 1];
    FindLastAt(c, ']', i);
  }

  /** The `[` opening the workbook name is the last one before its `]`. */
  lemma LastOpenOfTarget(dir: string, file: string)
    requires '[' !in file
    ensures FindLast(dir + "[" + file + "]", '[') == Some(|dir|)
  {
    var tail := file + "]";
    var wp := dir + "[" + file + "]";
    var j := |dir|;
    assert wp == (dir + "[") + tail;
    forall k | j < k < |wp|
      ensures wp[k] != '['
    {
      assert wp[k] == tail[k - j - 1];
    }
    FindLastAt(wp, '[', j);
  }

  /** The split of `c` at its last `]`, index `i`, and at the last `[` before
      it, index `j`. */
  lemma SplitAt(c: string, i: nat, j: nat)
    requires FindLast(c, ']') == Some(i)
    requires FindLast(c[..i] + "]", '[') == Some(j)
    ensures j < i
    ensures SplitWorkbookSheet(c) == Some((PathJoin(c[..j], TrimRight(c[j + 1..i] + "]", {']'})), c[i + 1..]))
  {
    var wp := c[..i] + "]";
    assert wp[..j] == c[..j];
    assert wp[j + 1..] == c[j + 1..i] + "]";
  }

  /** A quoted external prefix `'t'!` is cleaned down to `t` when `t` has
      ordinary characters at both ends and no doubled backslash. */
  lemma CleanQuotedTarget(t: string)
    requires t != [] && t[0] !in ExternalStops && t[|t| - 1] !in ExternalStops
    requires !IsSpace(t[0]) && !IsSpace(t[|t| - 1])
    requires forall k :: 0 <= k < |t| - 1 ==> !(t[k] == '\\' && t[k + 1] == '\\')
    ensures CleanExternal("'" + t + "'!") == t
  {
    var raw := "'" + t + "'!";
    assert forall k :: 1 <= k < |raw| - 2 ==> raw[k] == t[k - 1];
    TrimEnds(raw, ExternalStops, 1, |raw| - 2);
    assert raw[1..|raw| - 2] == t;
    StripUnpadded(t);
    forall k | 0 <= k
      ensures !OccursAt(t, "\\\\", k)
    {
      if k + 2 <= |t| {
        assert t[k..k + 2][0] == t[k] && t[k..k + 2][1] == t[k + 1];
      }
    }
    ReplaceAbsent(t, "\\\\", "\\");
  }

  /** `'dir[file]sheet'!A1`, with ordinary names, is an external reference to
      cell `A1` of sheet `sheet` in the workbook `dir` joined with `file`. */
  lemma ExternalReferenceOf(dir: string, file: string, sheet: string, start: nat, end: nat, col: string, row: string, workbook: string)
    requires ']' !in sheet && '[' !in file && ']' !in file
    requires dir != [] && dir[0] !in ExternalStops && !IsSpace(dir[0])
    requires sheet != [] && sheet[|sheet| - 1] !in ExternalStops && !IsSpace(sheet[|sheet| - 1])
    requires var t := dir + "[" + file + "]" + sheet;
             forall k :: 0 <= k < |t| - 1 ==> !(t[k] == '\\' && t[k + 1] == '\\')
    ensures AnchoredReference(AnchoredMatch(start, end, "'" + dir + "[" + file + "]" + sheet + "'!", col, row), workbook)
            == Some(Reference(PathJoin(dir, file), sheet, col + row, External))
  {
    var t := dir + "[" + file + "]" + sheet;
    var raw := "'" + t + "'!";
    assert raw == "'" + dir + "[" + file + "]" + sheet + "'!";
    assert t[0] == dir[0] && t[|t| - 1] == sheet[|sheet| - 1];
    CleanQuotedTarget(t);
    SplitOfTarget(dir, file, sheet);
    assert raw[|dir| + 1] == '[' && raw[|dir| + 2 + |file|] == ']';
  }

  /** Without a `[` before its last `]` a prefix does not split. */
  lemma SplitWithoutOpen(c: string, i: nat)
    requires FindLast(c, ']') == Some(i)
    requires '[' !in c[..i]
    ensures SplitWorkbookSheet(c).None?
  {
    var wp := c[..i] + "]";
    forall j | 0 <= j < |wp|
      ensures wp[j] != '['
    {
      if j < i {
        assert wp[j] == c[..i][j];
      }
    }
  }

  lemma {:induction false} FindLastAt(s: string, c: char, i: nat)
    requires i < |s| && s[i] == c
    requires forall j :: i < j < |s| ==> s[j] != c
    ensures FindLast(s, c) == Some(i)
    decreases |s|
  {
    if i < |s| - 1 {
      var t := s[..|s| - 1];
      assert t[i] == s[i];
      FindLastAt(t, c, i);
    }
  }

  /** Stripping trailing `]`s from a name followed by one `]` gives the name,
      when the name holds no `]`. */
  lemma TrimRightBracket(file: string)
    requires ']' !in file
    ensures TrimRight(file + "]", {']'}) == file
  {
    var s := file + "]";
    assert s[..|s| - 1] == file;
    if file != [] {
      assert file[|file| - 1] in file;
    }
  }

  /** A sheet written `'name'!` is taken by its name. */
  lemma QuotedLocalSheet(name: string, start: nat, end: nat, col: string, row: string, workbook: string)
    requires name != [] && name[0] !in LocalStops && name[|name| - 1] !in LocalStops
    requires '[' !in name
    ensures AnchoredReference(AnchoredMatch(start, end, "'" + name + "'!", col, row), workbook)
            == Some(Reference(workbook, name, col + row, LocalAbsolute))
  {
    var raw := "'" + name + "'!";
    assert forall j :: 1 <= j < |raw| - 2 ==> raw[j] == name[j - 1];
    assert '[' !in raw by {
      forall j | 0 <= j < |raw|
        ensures raw[j] != '['
      {
        if 1 <= j < |raw| - 2 {
          assert name[j - 1] in name;
        }
      }
    }
    TrimEnds(raw, LocalStops, 1, |raw| - 2);
    assert raw[1..|raw| - 2] == name;
  }

  /** A sheet written `name!` without quotes is taken by its name. */
  lemma PlainLocalSheet(name: string, start: nat, end: nat, col: string, row: string, workbook: string)
    requires name != [] && forall j :: 0 <= j < |name| ==> name[j] !in SheetStops && name[j] != '['
    ensures AnchoredReference(AnchoredMatch(start, end, name + "!", col, row), workbook)
            == Some(Reference(workbook, name, col + row, LocalAbsolute))
  {
    var raw := name + "!";
    assert forall j :: 0 <= j < |raw| - 1 ==> raw[j] == name[j];
    TrimEnds(raw, LocalStops, 0, |raw| - 1);
    assert raw[0..|raw| - 1] == name;
  }

  /** `Trim` keeps exactly `s[a..b]` when everything outside it is dropped and
      its two ends are kept. */
  lemma TrimEnds(s: string, drop: set<char>, a: nat, b: nat)
    requires a < b <= |s|
    requires forall j :: 0 <= j < a ==> s[j] in drop
    requires forall j :: b <= j < |s| ==> s[j] in drop
    requires s[a] !in drop && s[b - 1] !in drop
    ensures Trim(s, drop) == s[a..b]
  {
    var r := Trim(s, drop);
    var k := TrimShape(s, drop);
    assert s[a] !in drop;
    assert k == a;
    assert k + |r| == b;
  }
}
