/** The pure (workbook-only) resolution of an INDIRECT formula: take the
    argument of the first INDIRECT call, replace the external-link
    placeholders, and when the argument is a concatenation resolve each of its
    components and glue the final reference together. */
module Pipeline {
  import opened Text
  import opened Cells
  import opened Scan
  import opened Classify
  import opened Formulas
  import opened Links

  /** A component as `resolve_concatenation_components_full` records it:
      string constants with their text, cells with their reference and value,
      functions with their complete text and their result, and any other
      expression with its text. */
  datatype Resolved =
    | StrComp(text: string)
    | CellComp(ref: string, value: Value)
    | FuncComp(text: string, result: Value)
    | ExprComp(text: string)

  /** One part of the argument `content`, classified and resolved. A function
      call is first completed from `content` (the split may have cut it at an
      `&` inside it), and ROW()/COLUMN() in it are taken relative to the part's
      own text, which is what the resolver passes as context. */
  function ResolveComponent(sheet: Sheet, part: string, content: string): Resolved
  {
    var p := Strip(part);
    match IdentifyComponentType(p)
    case StringConst(t) => StrComp(t)
    case CellRef(ref) => CellComp(ref, CellValueWithFormulaCalc(sheet, ref))
    case FunctionCall(t) =>
      var complete := CompleteFunctionFromPart(p, content);
      FuncComp(complete, ResolveFunctionSmart(sheet, complete, t))
    case Expression(t) => ExprComp(p)
  }

  /** The resolved components of the parts, in order. */
  function ComponentsOf(sheet: Sheet, content: string, parts: seq<string>): (r: seq<Resolved>)
    ensures |r| == |parts|
    ensures forall i :: 0 <= i < |parts| ==> r[i] == ResolveComponent(sheet, parts[i], content)
  {
    seq(|parts|, i requires 0 <= i < |parts| => ResolveComponent(sheet, parts[i], content))
  }

  /** `resolve_concatenation_components_full`: split `content` on the `&`s
      outside quotes and resolve the parts one by one. */
  method ResolveConcatenationComponents(sheet: Sheet, content: string) returns (comps: seq<Resolved>)
    ensures comps == ComponentsOf(sheet, content, SmartSplitParts(content))
  {
    var parts := SmartSplit(content);
    comps := [];
    for i := 0 to |parts|
      invariant comps == ComponentsOf(sheet, content, parts[..i])
    {
      var c := ResolveComponent(sheet, parts[i], content);
      ComponentsOfSnoc(sheet, content, parts[..i], parts[i]);
      assert parts[..i] + [parts[i]] == parts[..i + 1];
      comps := comps + [c];
    }
    assert parts[..|parts|] == parts;
  }

  /** Resolving one more part adds its component at the end. */
  lemma ComponentsOfSnoc(sheet: Sheet, content: string, parts: seq<string>, part: string)
    ensures ComponentsOf(sheet, content, parts + [part])
            == ComponentsOf(sheet, content, parts) + [ResolveComponent(sheet, part, content)]
  {
    var a := ComponentsOf(sheet, content, parts + [part]);
    var b := ComponentsOf(sheet, content, parts) + [ResolveComponent(sheet, part, content)];
    forall k | 0 <= k < |a|
      ensures a[k] == b[k]
    {
      if k < |parts| {
        assert (parts + [part])[k] == parts[k];
      }
    }
  }

  /** What one component contributes to the final reference: a string
      constant its text, a cell with a value the text of that value, and
      anything else (an empty cell, every function, every other expression)
      its own text in parentheses. */
  function ComponentText(c: Resolved): string
  {
    match c
    case StrComp(t) => t
    case CellComp(ref, v) => if v.Empty? then "(" + ref + ")" else ValueStr(v)
    case FuncComp(t, _) => "(" + t + ")"
    case ExprComp(t) => "(" + t + ")"
  }

  /** The contributions of the components, in order. */
  function Contributions(comps: seq<Resolved>): (r: seq<string>)
    ensures |r| == |comps|
    ensures forall i :: 0 <= i < |comps| ==> r[i] == ComponentText(comps[i])
  {
    seq(|comps|, i requires 0 <= i < |comps| => ComponentText(comps[i]))
  }

  /** The contributions of all the components joined in order. */
  function FinalReference(comps: seq<Resolved>): string
  {
    Concat(Contributions(comps))
  }

  /** `build_final_reference_full`. */
  method BuildFinalReference(comps: seq<Resolved>) returns (r: string)
    ensures r == FinalReference(comps)
  {
    ghost var texts := Contributions(comps);
    r := "";
    for i := 0 to |comps|
      invariant r == Concat(texts[..i])
    {
      assert texts[..i + 1][..i] == texts[..i];
      r := r + ComponentText(comps[i]);
    }
    assert texts[..|comps|] == texts;
  }

  /** The final reference of `a + b` is that of `a` followed by that of `b`. */
  lemma FinalReferenceAppend(a: seq<Resolved>, b: seq<Resolved>)
    ensures FinalReference(a + b) == FinalReference(a) + FinalReference(b)
  {
    assert Contributions(a + b) == Contributions(a) + Contributions(b);
    ConcatAppend(Contributions(a), Contributions(b));
  }

  /** A function's result never reaches the final reference: replacing it
      changes nothing. */
  lemma FunctionResultIgnored(a: seq<Resolved>, t: string, v: Value, w: Value, b: seq<Resolved>)
    ensures FinalReference(a + [FuncComp(t, v)] + b) == FinalReference(a + [FuncComp(t, w)] + b)
  {
    FinalReferenceAppend(a + [FuncComp(t, v)], b);
    FinalReferenceAppend(a + [FuncComp(t, w)], b);
    FinalReferenceAppend(a, [FuncComp(t, v)]);
    FinalReferenceAppend(a, [FuncComp(t, w)]);
    assert Contributions([FuncComp(t, v)]) == Contributions([FuncComp(t, w)]);
  }

  /** String constants contribute exactly their texts, concatenated. */
  lemma StringsConcatenate(comps: seq<Resolved>, texts: seq<string>)
    requires |comps| == |texts|
    requires forall i :: 0 <= i < |comps| ==> comps[i] == StrComp(texts[i])
    ensures FinalReference(comps) == Concat(texts)
  {
    assert Contributions(comps) == texts;
  }

  /** A part written as a quoted constant resolves to its inside. */
  lemma QuotedComponent(sheet: Sheet, q: char, t: string, content: string)
    requires IsQuote(q)
    ensures ResolveComponent(sheet, [q] + t + [q], content) == StrComp(t)
  {
    var p := [q] + t + [q];
    StripUnpadded(p);
    QuotedIsString(q, t);
  }

  /** When every part is a quoted constant, the final reference is the
      concatenation of what the quotes enclose. */
  lemma QuotedPartsReference(sheet: Sheet, content: string, parts: seq<string>, quotes: seq<char>, texts: seq<string>)
    requires |parts| == |texts| == |quotes|
    requires forall i :: 0 <= i < |parts| ==> IsQuote(quotes[i]) && parts[i] == [quotes[i]] + texts[i] + [quotes[i]]
    ensures FinalReference(ComponentsOf(sheet, content, parts)) == Concat(texts)
  {
    var comps := ComponentsOf(sheet, content, parts);
    forall i | 0 <= i < |parts|
      ensures comps[i] == StrComp(texts[i])
    {
      QuotedComponent(sheet, quotes[i], texts[i], content);
    }
    StringsConcatenate(comps, texts);
  }

  /** A part classified as a cell reference is resolved to that cell and its
      value (a formula in it evaluated). */
  lemma CellComponent(sheet: Sheet, p: string, content: string)
    requires Strip(p) == p && IdentifyComponentType(p) == CellRef(p)
    ensures ResolveComponent(sheet, p, content) == CellComp(p, CellValueWithFormulaCalc(sheet, p))
  {
  }

  /** A part classified as a function call contributes the complete call in
      parentheses, whatever the call evaluates to. */
  lemma FunctionComponentParenthesised(sheet: Sheet, part: string, content: string)
    requires IdentifyComponentType(Strip(part)).FunctionCall?
    ensures ComponentText(ResolveComponent(sheet, part, content))
            == "(" + CompleteFunctionFromPart(Strip(part), content) + ")"
  {
  }

  /** A part that is none of a constant, a cell and a call contributes its
      stripped text in parentheses. */
  lemma ExpressionComponentParenthesised(sheet: Sheet, part: string, content: string)
    requires IdentifyComponentType(Strip(part)).Expression?
    ensures ComponentText(ResolveComponent(sheet, part, content)) == "(" + Strip(part) + ")"
  {
  }

  /** A part naming an empty cell stays in the reference as its own name in
      parentheses. */
  lemma EmptyCellComponent(sheet: Sheet, col: nat, row: nat, content: string)
    requires 1 <= col <= MaxThreeLetterColumn && 1 <= row <= MaxRow
    requires Coord(col, row) !in sheet
    ensures var ref := CoordText(ColumnLetters(col), row);
            ComponentText(ResolveComponent(sheet, ref, content)) == "(" + ref + ")"
  {
    var ref := CellPart(col, row);
    CellComponent(sheet, ref, content);
    CoordTextRoundTrip(col, row);
    assert CellValueWithFormulaCalc(sheet, ref) == Empty;
  }

  /** A part naming a cell that holds a plain value contributes the text of
      that value. */
  lemma ValueCellComponent(sheet: Sheet, col: nat, row: nat, content: string)
    requires 1 <= col <= MaxThreeLetterColumn && 1 <= row <= MaxRow
    requires Coord(col, row) in sheet && !sheet[Coord(col, row)].Empty? && !IsFormula(sheet[Coord(col, row)])
    ensures var ref := CoordText(ColumnLetters(col), row);
            ComponentText(ResolveComponent(sheet, ref, content)) == ValueStr(sheet[Coord(col, row)])
  {
    var ref := CellPart(col, row);
    CellComponent(sheet, ref, content);
    CoordTextRoundTrip(col, row);
    assert CellValueWithFormulaCalc(sheet, ref) == sheet[Coord(col, row)];
  }

  /** The text of a coordinate is classified as that cell. */
  lemma CellPart(col: nat, row: nat) returns (ref: string)
    requires col >= 1
    ensures ref == CoordText(ColumnLetters(col), row)
    ensures Strip(ref) == ref && IdentifyComponentType(ref) == CellRef(ref)
  {
    var letters := ColumnLetters(col);
    ref := CoordText(letters, row);
    ColumnLettersRoundTrip(col);
    LettersDigitsIsCell(letters, NatToString(row));
    StripUnpadded(ref);
  }

  /** What `pure_mode_calculation` returns for `formula`: none when there is
      no INDIRECT argument or it is empty; otherwise the argument with its
      placeholders replaced, resolved component by component when it holds an
      `&`. */
  function PureMode(sheet: Sheet, links: map<string, string>, formula: string): Option<string>
  {
    match IndirectContent(formula)
    case None => None
    case Some(c) =>
      if c == [] then None
      else
        var fixed := FixExternalReferences(links, c);
        if '&' in fixed then Some(FinalReference(ComponentsOf(sheet, fixed, SmartSplitParts(fixed))))
        else Some(fixed)
  }

  /** `pure_mode_calculation`. */
  method PureModeCalculation(sheet: Sheet, links: map<string, string>, formula: string) returns (r: Option<string>)
    ensures r == PureMode(sheet, links, formula)
  {
    var content := ExtractIndirectContent(formula);
    if content.None? || content.value == [] {
      return None;
    }
    var fixed := FixExternalReferences(links, content.value);
    if '&' in fixed {
      var comps := ResolveConcatenationComponents(sheet, fixed);
      var reference := BuildFinalReference(comps);
      r := Some(reference);
    } else {
      r := Some(fixed);
    }
  }

  /** An argument without `&` and without `[` is itself the resolved
      reference. */
  lemma PlainArgumentIsReference(sheet: Sheet, links: map<string, string>, formula: string, c: string)
    requires IndirectContent(formula) == Some(c) && c != []
    requires '&' !in c && '[' !in c
    ensures PureMode(sheet, links, formula) == Some(c)
  {
    NoPlaceholderUnchanged(links, c);
  }

  /** Without an INDIRECT call there is nothing to resolve. */
  lemma NoIndirectNoReference(sheet: Sheet, links: map<string, string>, formula: string)
    requires !Contains(Upper(formula), "INDIRECT(")
    ensures PureMode(sheet, links, formula).None?
  {
  }
}
