/** The quote-aware character scanners of the late-bound (INDIRECT) resolver:
    the balanced-parenthesis scan that extracts an `INDIRECT(...)` argument or a
    whole function call, and the splitter that cuts an expression at every `&`
    lying outside a quoted span. */
module Scan {
  import opened Text

  /** Whether a scan is inside a quoted span, and which quote character opened it
      (the source's `in_quotes` / `quote_char` pair). */
  datatype Quote = Outside | Inside(q: char)

  /** The quote transition both scanners share: outside a span either quote
      character opens one; inside, only the character that opened it closes it. */
  function NextQuote(st: Quote, c: char): Quote
  {
    if st.Outside? && IsQuote(c) then Inside(c)
    else if st.Inside? && c == st.q then Outside
    else st
  }

  /** The quote state after reading `t` from state `q0`. */
  function QuoteRun(q0: Quote, t: string): Quote
  {
    if t == [] then q0 else NextQuote(QuoteRun(q0, t[..|t| - 1]), t[|t| - 1])
  }

  lemma {:induction false} QuoteRunAppend(q0: Quote, a: string, b: string)
    ensures QuoteRun(q0, a + b) == QuoteRun(QuoteRun(q0, a), b)
    decreases |b|
  {
    if b != [] {
      var b' := b[..|b| - 1];
      assert (a + b)[..|a + b| - 1] == a + b';
      assert (a + b)[|a + b| - 1] == b[|b| - 1];
      QuoteRunAppend(q0, a, b');
    } else {
      assert a + b == a;
    }
  }

  /** From outside any span, an open span was always opened by a quote character. */
  lemma {:induction false} QuoteRunOpensOnQuote(t: string)
    ensures QuoteRun(Outside, t).Inside? ==> IsQuote(QuoteRun(Outside, t).q)
  {
    if t != [] { QuoteRunOpensOnQuote(t[..|t| - 1]); }
  }

  // ---------------------------------------------------------------------------
  // Balanced-parenthesis scan
  // ---------------------------------------------------------------------------

  /** The scanner's state: the open-parenthesis count and the quote state. */
  datatype ScanState = ScanState(depth: int, quote: Quote)

  /** The state just past an opening parenthesis. */
  const Init := ScanState(1, Outside)

  /** One character of the scan: update the quote state first, then count a
      parenthesis only when the new state is outside any quoted span. */
  function Step(st: ScanState, c: char): ScanState
  {
    var quote := NextQuote(st.quote, c);
    var depth := if quote.Outside? && c == '(' then st.depth + 1
                 else if quote.Outside? && c == ')' then st.depth - 1
                 else st.depth;
    ScanState(depth, quote)
  }

  function Run(st: ScanState, t: string): ScanState
  {
    if t == [] then st else Step(Run(st, t[..|t| - 1]), t[|t| - 1])
  }

  lemma {:induction false} RunAppend(st: ScanState, a: string, b: string)
    ensures Run(st, a + b) == Run(Run(st, a), b)
    decreases |b|
  {
    if b != [] {
      var b' := b[..|b| - 1];
      assert (a + b)[..|a + b| - 1] == a + b';
      assert (a + b)[|a + b| - 1] == b[|b| - 1];
      RunAppend(st, a, b');
    } else {
      assert a + b == a;
    }
  }

  lemma {:induction false} RunQuote(st: ScanState, t: string)
    ensures Run(st, t).quote == QuoteRun(st.quote, t)
  {
    if t != [] { RunQuote(st, t[..|t| - 1]); }
  }

  /** Parentheses inside a quoted span are not counted: removing a whole quoted
      span `q body q` (with no `q` inside) from the text leaves the scan unchanged. */
  lemma {:induction false} QuotedSpanIgnored(st: ScanState, a: string, q: char, body: string, b: string)
    requires IsQuote(q) && q !in body
    requires Run(st, a).quote.Outside?
    ensures Run(st, a + [q] + body + [q] + b) == Run(st, a + b)
  {
    var mid := Run(st, a);
    InsideSpanFlat(mid, q, body, |body|);
    assert body[..|body|] == body;
    var open := [q] + body;
    assert ([q] + body + [q])[..|open|] == open;
    RunAppend(st, a, [q] + body + [q]);
    RunAppend(st, a + [q] + body + [q], b);
    RunAppend(st, a, b);
    assert a + [q] + body + [q] == a + ([q] + body + [q]);
  }

  lemma {:induction false} InsideSpanFlat(st: ScanState, q: char, body: string, k: nat)
    requires IsQuote(q) && q !in body && st.quote.Outside? && k <= |body|
    ensures Run(st, [q] + body[..k]) == ScanState(st.depth, Inside(q))
  {
    if k > 0 {
      InsideSpanFlat(st, q, body, k - 1);
      assert ([q] + body[..k])[..k] == [q] + body[..k - 1];
    }
  }

  /** `e` is where the scan of `s` from `from` stops: every earlier prefix is
      still open, and at `e` the count has dropped to zero or the text ended. */
  predicate ClosesAt(s: string, from: nat, e: nat)
    requires from <= |s|
  {
    && from <= e <= |s|
    && (forall k :: from <= k < e ==> Run(Init, s[from..k]).depth > 0)
    && (e == |s| || Run(Init, s[from..e]).depth <= 0)
  }

  lemma ClosesAtUnique(s: string, from: nat, e1: nat, e2: nat)
    requires from <= |s| && ClosesAt(s, from, e1) && ClosesAt(s, from, e2)
    ensures e1 == e2
  {
  }

  /** The scan of `s` from `from` never closes: the count stays positive up to
      and including the end of the text. */
  predicate StaysOpen(s: string, from: nat)
    requires from <= |s|
  {
    forall k :: from <= k <= |s| ==> Run(Init, s[from..k]).depth > 0
  }

  /** Scanning one more character of `s` is one more step. */
  lemma RunSliceStep(s: string, from: nat, pos: nat)
    requires from <= pos < |s|
    ensures Run(Init, s[from..pos + 1]) == Step(Run(Init, s[from..pos]), s[pos])
  {
    SubSlice(s, from, pos + 1, from, pos);
  }

  /** The count never goes below zero where the scan stops. */
  lemma ClosesAtDepth(s: string, from: nat, e: nat)
    requires from <= |s| && ClosesAt(s, from, e)
    ensures Run(Init, s[from..e]).depth >= 0
  {
    if e > from {
      assert s[from..e][..e - 1 - from] == s[from..e - 1];
    }
  }

  function MatchEndFrom(s: string, from: nat, k: nat): (e: nat)
    requires from <= k <= |s|
    requires forall j :: from <= j < k ==> Run(Init, s[from..j]).depth > 0
    ensures ClosesAt(s, from, e)
    decreases |s| - k
  {
    if k == |s| || Run(Init, s[from..k]).depth <= 0 then k
    else MatchEndFrom(s, from, k + 1)
  }

  /** Where the balanced scan started just past an opening parenthesis stops. */
  function MatchEnd(s: string, from: nat): (e: nat)
    requires from <= |s|
    ensures ClosesAt(s, from, e)
  {
    MatchEndFrom(s, from, from)
  }

  /** The scan loop the three extractors share: walk from `from` until the
      count reaches zero or the text ends. */
  method ScanToMatch(s: string, from: nat) returns (pos: nat, st: ScanState)
    requires from <= |s|
    ensures pos == MatchEnd(s, from)
    ensures st == Run(Init, s[from..pos])
  {
    var bracketCount := 1;
    var inQuotes := false;
    var quoteChar := ' ';
    pos := from;
    while pos < |s| && bracketCount > 0
      invariant from <= pos <= |s|
      invariant ScanState(bracketCount, if inQuotes then Inside(quoteChar) else Outside)
                == Run(Init, s[from..pos])
      invariant forall k :: from <= k < pos ==> Run(Init, s[from..k]).depth > 0
    {
      RunSliceStep(s, from, pos);
      var c := s[pos];
      if IsQuote(c) && !inQuotes {
        inQuotes := true;
        quoteChar := c;
      } else if c == quoteChar && inQuotes {
        inQuotes := false;
      }
      if !inQuotes {
        if c == '(' {
          bracketCount := bracketCount + 1;
        } else if c == ')' {
          bracketCount := bracketCount - 1;
        }
      }
      pos := pos + 1;
    }
    st := ScanState(bracketCount, if inQuotes then Inside(quoteChar) else Outside);
    ClosesAtUnique(s, from, pos, MatchEnd(s, from));
  }

  /** `c` is a complete argument: scanning it keeps the count open throughout
      and ends outside any quote with exactly the opening parenthesis left open,
      so the next `)` closes it. */
  predicate MatchedBody(c: string)
  {
    && Run(Init, c) == ScanState(1, Outside)
    && forall k :: 0 <= k <= |c| ==> Run(Init, c[..k]).depth > 0
  }

  /** Only one prefix of a text can be a matched body followed by `)`. */
  lemma {:induction false} MatchedBodyUnique(t: string, c1: string, c2: string)
    requires MatchedBody(c1) && StartsWith(t, c1 + ")")
    requires MatchedBody(c2) && StartsWith(t, c2 + ")")
    ensures c1 == c2
  {
    if |c1| < |c2| {
      ClosesWithParen(t, c1, c2);
    } else if |c2| < |c1| {
      ClosesWithParen(t, c2, c1);
    } else {
      assert c1 == t[..|c1|] == c2;
    }
  }

  lemma {:induction false} ClosesWithParen(t: string, c1: string, c2: string)
    requires MatchedBody(c1) && StartsWith(t, c1 + ")")
    requires StartsWith(t, c2 + ")") && |c1| < |c2|
    ensures !MatchedBody(c2)
  {
    var k := |c1| + 1;
    assert c2[..k] == t[..k] == c1 + ")";
    assert (c1 + ")")[..|c1|] == c1;
    assert Run(Init, c2[..k]).depth == 0;
  }

  /** Index just past the first `INDIRECT(` (found case-insensitively). */
  function IndirectStart(formula: string): (b: Option<nat>)
    ensures b.Some? ==> 9 <= b.value <= |formula|
  {
    match FindFrom(Upper(formula), "INDIRECT(", 0)
    case None => None
    case Some(i) => Some(i + 9)
  }

  /** The argument text of the first `INDIRECT(...)` call: none when there is no
      such call; otherwise the text up to the parenthesis that balances the
      opening one (parentheses in quoted spans not counted), or none when the
      formula ends while a parenthesis is still open. */
  function IndirectContent(formula: string): (r: Option<string>)
    ensures !Contains(Upper(formula), "INDIRECT(") ==> r.None?
    ensures r.Some? ==> IndirectStart(formula).Some?
    ensures r.Some? ==>
              var b := IndirectStart(formula).value;
              && StartsWith(formula[b..], r.value + ")")
              && MatchedBody(r.value)
    ensures r.None? && IndirectStart(formula).Some? ==>
              var b := IndirectStart(formula).value;
              forall k :: b <= k <= |formula| ==> Run(Init, formula[b..k]).depth > 0
  {
    match IndirectStart(formula)
    case None => None
    case Some(b) =>
      var e := MatchEnd(formula, b);
      ClosesAtDepth(formula, b, e);
      if Run(Init, formula[b..e]).depth == 0 then
        var c := formula[b..e - 1];
        ClosedBody(formula, b, e);
        Some(c)
      else
        None
  }

  /** When the scan stopped on a zero count, the text before the stop is a
      matched body and the character at the stop is the closing `)`. */
  lemma {:induction false} ClosedBody(s: string, b: nat, e: nat)
    requires b <= |s| && ClosesAt(s, b, e) && Run(Init, s[b..e]).depth == 0
    ensures b < e && s[e - 1] == ')'
    ensures MatchedBody(s[b..e - 1]) && StartsWith(s[b..], s[b..e - 1] + ")")
  {
    var c := s[b..e - 1];
    assert s[b..e][..e - 1 - b] == c;
    RunQuote(Init, c);
    QuoteRunOpensOnQuote(c);
    forall k | 0 <= k <= |c| ensures Run(Init, c[..k]).depth > 0 {
      assert c[..k] == s[b..b + k];
    }
    assert s[b..][..|c| + 1] == c + ")";
  }

  /** `extract_indirect_content_pure` (and its twin for the spreadsheet-application
      mode): locate `INDIRECT(` and scan to its balancing parenthesis. */
  method ExtractIndirectContent(formula: string) returns (r: Option<string>)
    ensures r == IndirectContent(formula)
  {
    var found := FindFrom(Upper(formula), "INDIRECT(", 0);
    if found.None? {
      return None;
    }
    var startPos := found.value + 9;
    var pos, st := ScanToMatch(formula, startPos);
    if st.depth == 0 {
      r := Some(formula[startPos..pos - 1]);
    } else {
      r := None;
    }
  }

  /** The whole call that starts at `start`: from `start` up to and including the
      parenthesis that balances the first `(` at or after `start` (or to the end
      of the text if none balances it); `part` itself if there is no `(`. */
  function CompleteFunction(part: string, full: string, start: nat): (r: string)
    requires start <= |full|
    ensures FindChar(full, '(', start).None? ==> r == part
    ensures FindChar(full, '(', start).Some? ==>
              var o := FindChar(full, '(', start).value;
              && StartsWith(full[start..], r)
              && |r| > o - start
              && ((|r| >= o + 2 - start && EndsWith(r, ")") && MatchedBody(r[o + 1 - start..|r| - 1]))
                  || (start + |r| == |full|
                      && StaysOpen(full, o + 1)))
  {
    match FindChar(full, '(', start)
    case None => part
    case Some(o) =>
      var e := MatchEnd(full, o + 1);
      CallShape(full, start, o, e);
      full[start..e]
  }

  lemma CallShape(full: string, start: nat, o: nat, e: nat)
    requires start <= o < |full| && ClosesAt(full, o + 1, e)
    ensures var r := full[start..e];
            && StartsWith(full[start..], r)
            && |r| > o - start
            && ((|r| >= o + 2 - start && EndsWith(r, ")") && MatchedBody(r[o + 1 - start..|r| - 1]))
                || (start + |r| == |full|
                    && StaysOpen(full, o + 1)))
  {
    ClosesAtDepth(full, o + 1, e);
    var r := full[start..e];
    assert full[start..][..|r|] == r;
    if Run(Init, full[o + 1..e]).depth == 0 {
      ClosedBody(full, o + 1, e);
      assert |r| == e - start;
      SubSlice(full, start, e, o + 1, e - 1);
      assert r[o + 1 - start..|r| - 1] == full[o + 1..e - 1];
      assert r[|r| - 1..] == [full[e - 1]];
      assert EndsWith(r, ")");
      assert MatchedBody(r[o + 1 - start..|r| - 1]);
    } else {
      assert e == |full|;
    }
  }

  lemma SubSlice(s: string, a: nat, b: nat, i: nat, j: nat)
    requires a <= i <= j <= b <= |s|
    ensures s[a..b][i - a..j - a] == s[i..j]
  {
    var t := s[a..b][i - a..j - a];
    assert |t| == j - i;
    forall k | 0 <= k < j - i
      ensures t[k] == s[i..j][k]
    {
      assert t[k] == s[a..b][i - a + k] == s[i + k];
    }
  }

  /** `extract_complete_function`: find the first `(` at or after `startPos`,
      then run the balanced scan from just past it. */
  method ExtractCompleteFunction(part: string, full: string, startPos: nat) returns (r: string)
    requires startPos <= |full|
    ensures r == CompleteFunction(part, full, startPos)
  {
    var bracketCount := 0;
    var pos := startPos;
    while pos < |full|
      invariant startPos <= pos <= |full|
      invariant forall k :: startPos <= k < pos ==> full[k] != '('
    {
      if full[pos] == '(' {
        bracketCount := 1;
        break;
      }
      pos := pos + 1;
    }
    if bracketCount == 0 {
      return part;
    }
    assert FindChar(full, '(', startPos) == Some(pos);
    var end, st := ScanToMatch(full, pos + 1);
    r := full[startPos..end];
  }

  /** `extract_complete_function_from_part`: a part with balanced, non-zero
      parenthesis counts is already complete; otherwise re-expand it from its
      first occurrence in the unsplit text. */
  function CompleteFunctionFromPart(part: string, full: string): string
  {
    if CountChar(part, '(') == CountChar(part, ')') && CountChar(part, '(') > 0 then part
    else
      match FindFrom(full, part, 0)
      case None => part
      case Some(i) => CompleteFunction(part, full, i)
  }

  /** A part with balanced, non-zero parenthesis counts is kept; any other part
      is re-expanded from its first occurrence `i` in the unsplit text into a
      piece of that text starting at `i`, which is the part itself when no `(`
      follows `i`. */
  lemma CompleteFunctionFromPartShape(part: string, full: string, i: nat)
    requires i <= |full| && OccursAt(full, part, i)
    requires forall k :: 0 <= k < i ==> !OccursAt(full, part, k)
    ensures CountChar(part, '(') == CountChar(part, ')') && CountChar(part, '(') > 0
            ==> CompleteFunctionFromPart(part, full) == part
    ensures !(CountChar(part, '(') == CountChar(part, ')') && CountChar(part, '(') > 0)
            ==> StartsWith(full[i..], CompleteFunctionFromPart(part, full))
    ensures !(CountChar(part, '(') == CountChar(part, ')') && CountChar(part, '(') > 0)
            && FindChar(full, '(', i).None?
            ==> CompleteFunctionFromPart(part, full) == part
  {
    var f := FindFrom(full, part, 0);
    assert f.Some?;
    assert f.value == i;
  }

  // ---------------------------------------------------------------------------
  // Quote-aware ampersand split
  // ---------------------------------------------------------------------------

  /** The splitter's state: segments already cut off, the current segment, and
      the quote state. */
  datatype SplitState = SplitState(done: seq<string>, cur: string, quote: Quote)

  /** One character of the split: an `&` outside quotes ends the current
      segment; every other character (quotes included) is kept. */
  function SplitStep(st: SplitState, c: char): SplitState
  {
    if c == '&' && st.quote.Outside? then SplitState(st.done + [st.cur], [], Outside)
    else SplitState(st.done, st.cur + [c], NextQuote(st.quote, c))
  }

  function SplitRun(t: string): SplitState
  {
    if t == [] then SplitState([], [], Outside) else SplitStep(SplitRun(t[..|t| - 1]), t[|t| - 1])
  }

  /** The untrimmed segments between the `&`s that lie outside quotes. */
  function RawSegments(t: string): seq<string>
  {
    SplitRun(t).done + [SplitRun(t).cur]
  }

  /** Trimmed segments, blank ones dropped. */
  function KeepNonBlank(segs: seq<string>): seq<string>
  {
    if segs == [] then []
    else
      var last := Strip(segs[|segs| - 1]);
      KeepNonBlank(segs[..|segs| - 1]) + (if last != [] then [last] else [])
  }

  lemma SplitRunSnoc(t: string, i: nat)
    requires i < |t|
    ensures SplitRun(t[..i + 1]) == SplitStep(SplitRun(t[..i]), t[i])
  {
    assert t[..i + 1][..i] == t[..i];
  }

  lemma KeepNonBlankSnoc(segs: seq<string>, seg: string)
    ensures KeepNonBlank(segs + [seg])
            == KeepNonBlank(segs) + (if Strip(seg) != [] then [Strip(seg)] else [])
  {
    assert (segs + [seg])[..|segs|] == segs;
  }

  /** Reading one more character is one more step. */
  lemma SplitRunAppendChar(t: string, c: char)
    ensures SplitRun(t + [c]) == SplitStep(SplitRun(t), c)
  {
    assert (t + [c])[..|t|] == t;
  }

  /** Text with no quote and no `&`, read outside quotes, joins the current segment. */
  lemma {:induction false} PlainTextKept(a: string, w: string)
    requires SplitRun(a).quote.Outside?
    requires forall i :: 0 <= i < |w| ==> w[i] != '&' && !IsQuote(w[i])
    ensures SplitRun(a + w) == SplitState(SplitRun(a).done, SplitRun(a).cur + w, Outside)
    decreases |w|
  {
    if w == [] {
      assert a + w == a;
    } else {
      var w', c := w[..|w| - 1], w[|w| - 1];
      assert w == w' + [c];
      assert a + w == (a + w') + [c];
      PlainTextKept(a, w');
      SplitRunAppendChar(a + w', c);
      assert SplitRun(a).cur + w' + [c] == SplitRun(a).cur + w;
    }
  }

  lemma {:induction false} InsideQuoteKept(a: string, q: char, body: string, k: nat)
    requires SplitRun(a).quote.Outside? && IsQuote(q) && q !in body && k <= |body|
    ensures SplitRun(a + [q] + body[..k])
            == SplitState(SplitRun(a).done, SplitRun(a).cur + [q] + body[..k], Inside(q))
  {
    if k == 0 {
      assert a + [q] + body[..k] == a + [q];
      SplitRunAppendChar(a, q);
    } else {
      var c := body[k - 1];
      assert body[..k] == body[..k - 1] + [c];
      assert a + [q] + body[..k] == (a + [q] + body[..k - 1]) + [c];
      InsideQuoteKept(a, q, body, k - 1);
      SplitRunAppendChar(a + [q] + body[..k - 1], c);
      assert SplitRun(a).cur + [q] + body[..k - 1] + [c] == SplitRun(a).cur + [q] + body[..k];
    }
  }

  /** A quoted span read outside quotes joins the current segment whole, whatever
      `&` it holds. */
  lemma QuotedSpanKept(a: string, q: char, body: string)
    requires SplitRun(a).quote.Outside? && IsQuote(q) && q !in body
    ensures SplitRun(a + [q] + body + [q])
            == SplitState(SplitRun(a).done, SplitRun(a).cur + [q] + body + [q], Outside)
  {
    InsideQuoteKept(a, q, body, |body|);
    assert body[..|body|] == body;
    var t := a + [q] + body + [q];
    assert t[..|t| - 1] == a + [q] + body;
  }

  lemma AmpersandCuts(a: string)
    requires SplitRun(a).quote.Outside?
    ensures SplitRun(a + "&") == SplitState(SplitRun(a).done + [SplitRun(a).cur], [], Outside)
  {
    assert (a + "&")[..|a|] == a;
  }

  lemma QuotedThenCellRun(t: string)
    requires t == "\"a&b\"&C1"
    ensures SplitRun(t) == SplitState(["\"a&b\""], "C1", Outside)
    ensures RawSegments(t) == ["\"a&b\"", "C1"]
  {
    var p1 := "\"a&b\"";
    QuotedSpanKept([], '"', "a&b");
    assert [] + ['"'] + "a&b" + ['"'] == p1;
    AmpersandCuts(p1);
    PlainTextKept(p1 + "&", "C1");
    assert p1 + "&" + "C1" == "\"a&b\"&C1";
  }

  lemma KeepTwoUnpadded(p1: string, p2: string)
    requires p1 != [] && !IsSpace(p1[0]) && !IsSpace(p1[|p1| - 1])
    requires p2 != [] && !IsSpace(p2[0]) && !IsSpace(p2[|p2| - 1])
    ensures KeepNonBlank([p1, p2]) == [p1, p2]
  {
    StripUnpadded(p1);
    StripUnpadded(p2);
    KeepNonBlankSnoc([p1], p2);
    KeepNonBlankSnoc([], p1);
    assert [] + [p1] == [p1];
  }

  /** The quoted `&` of `"a&b"&C1` does not split it: two parts come out. */
  lemma QuotedAmpersandNotSplit(t: string)
    requires t == "\"a&b\"&C1"
    ensures SmartSplitParts(t) == ["\"a&b\"", "C1"]
  {
    QuotedThenCellRun(t);
    KeepTwoUnpadded("\"a&b\"", "C1");
  }

  /** What `smart_split_by_ampersand` returns. */
  function SmartSplitParts(t: string): seq<string>
  {
    KeepNonBlank(RawSegments(t))
  }

  /** `smart_split_by_ampersand`. */
  method SmartSplit(content: string) returns (parts: seq<string>)
    ensures parts == SmartSplitParts(content)
  {
    parts := [];
    var currentPart := "";
    var inQuotes := false;
    var quoteChar := ' ';
    ghost var done: seq<string> := [];
    var i := 0;
    while i < |content|
      invariant 0 <= i <= |content|
      invariant SplitRun(content[..i])
                == SplitState(done, currentPart, if inQuotes then Inside(quoteChar) else Outside)
      invariant KeepNonBlank(done) == parts
    {
      var c := content[i];
      SplitRunSnoc(content, i);
      if IsQuote(c) && !inQuotes {
        inQuotes := true;
        quoteChar := c;
        currentPart := currentPart + [c];
      } else if c == quoteChar && inQuotes {
        inQuotes := false;
        currentPart := currentPart + [c];
      } else if c == '&' && !inQuotes {
        var piece := Strip(currentPart);
        KeepNonBlankSnoc(done, currentPart);
        done := done + [currentPart];
        if piece != [] {
          parts := parts + [piece];
        }
        currentPart := "";
      } else {
        currentPart := currentPart + [c];
      }
      i := i + 1;
    }
    assert content[..|content|] == content;
    var piece := Strip(currentPart);
    KeepNonBlankSnoc(done, currentPart);
    if piece != [] {
      parts := parts + [piece];
    }
  }

  /** Every `&` in `seg` lies inside a quoted span of `seg`. */
  predicate NoBareAmpersand(seg: string)
  {
    forall j :: 0 <= j < |seg| ==> !BareAt(seg, j)
  }

  /** The `&` at `j` lies outside every quoted span of `t`. */
  predicate BareAt(t: string, j: nat)
    requires j < |t|
  {
    t[j] == '&' && QuoteRun(Outside, t[..j]).Outside?
  }

  /** The `&` at `j` lies inside a quoted span of `t`. */
  predicate QuotedAt(t: string, j: nat)
    requires j < |t|
  {
    t[j] == '&' && QuoteRun(Outside, t[..j]).Inside?
  }

  lemma {:induction false} SplitRunQuote(t: string)
    ensures SplitRun(t).quote == QuoteRun(Outside, SplitRun(t).cur) == QuoteRun(Outside, t)
  {
    if t != [] {
      var t' := t[..|t| - 1];
      var c := t[|t| - 1];
      SplitRunQuote(t');
      var st := SplitRun(t');
      if !(c == '&' && st.quote.Outside?) {
        assert (st.cur + [c])[..|st.cur|] == st.cur;
      }
    }
  }

  lemma NoBareExtend(cur: string, c: char)
    requires NoBareAmpersand(cur)
    requires c == '&' ==> QuoteRun(Outside, cur).Inside?
    ensures NoBareAmpersand(cur + [c])
  {
    var cur' := cur + [c];
    assert cur'[..|cur|] == cur;
    forall j | 0 <= j < |cur'| ensures !BareAt(cur', j) {
      if j < |cur| {
        assert cur'[..j] == cur[..j];
        assert !BareAt(cur, j);
      }
    }
  }

  lemma {:induction false} SplitRunSegments(t: string)
    ensures NoBareAmpersand(SplitRun(t).cur)
    ensures forall i :: 0 <= i < |SplitRun(t).done| ==> NoBareAmpersand(SplitRun(t).done[i])
  {
    if t != [] {
      var t' := t[..|t| - 1];
      var c := t[|t| - 1];
      SplitRunSegments(t');
      SplitRunQuote(t');
      var st := SplitRun(t');
      if !(c == '&' && st.quote.Outside?) {
        NoBareExtend(st.cur, c);
      }
    }
  }

  lemma {:induction false} SplitRunJoin(t: string)
    ensures Join(RawSegments(t), '&') == t
  {
    if t != [] {
      var t' := t[..|t| - 1];
      var c := t[|t| - 1];
      assert t == t' + [c];
      SplitRunJoin(t');
      var st := SplitRun(t');
      if c == '&' && st.quote.Outside? {
        assert RawSegments(t)[..|st.done| + 1] == st.done + [st.cur];
      } else {
        JoinExtendLast(st.done + [st.cur], '&', c);
        assert (st.done + [st.cur])[..|st.done|] == st.done;
      }
    }
  }

  /** The splitter loses nothing but the separators: joining its raw segments
      with `&` gives back the text, and every `&` left inside a segment is quoted. */
  lemma RawSegmentsRoundTrip(t: string)
    ensures Join(RawSegments(t), '&') == t
    ensures forall i :: 0 <= i < |RawSegments(t)| ==> NoBareAmpersand(RawSegments(t)[i])
  {
    SplitRunJoin(t);
    SplitRunSegments(t);
  }

  /** `Trim` returns a slice of its input preceded only by dropped characters. */
  lemma TrimSlice(s: string, drop: set<char>) returns (a: nat)
    ensures a + |Trim(s, drop)| <= |s| && Trim(s, drop) == s[a..a + |Trim(s, drop)|]
    ensures forall i :: 0 <= i < a ==> s[i] in drop
  {
    a := TrimShape(s, drop);
  }

  /** Stripping leading whitespace keeps the quote structure of a segment. */
  lemma {:induction false} StripKeepsNoBareAmpersand(seg: string)
    requires NoBareAmpersand(seg)
    ensures NoBareAmpersand(Strip(seg))
  {
    var p := Strip(seg);
    var a := TrimSlice(seg, Whitespace);
    SpacesKeepOutside(seg[..a]);
    SliceKeepsNoBareAmpersand(seg, a, |p|);
    assert p == seg[a..a + |p|];
  }

  lemma SliceKeepsNoBareAmpersand(seg: string, a: nat, n: nat)
    requires a + n <= |seg| && NoBareAmpersand(seg) && QuoteRun(Outside, seg[..a]) == Outside
    ensures NoBareAmpersand(seg[a..a + n])
  {
    var p := seg[a..a + n];
    forall j | 0 <= j < |p| ensures !BareAt(p, j) {
      assert seg[a + j] == p[j];
      assert seg[..a + j] == seg[..a] + p[..j];
      QuoteRunAppend(Outside, seg[..a], p[..j]);
      assert !BareAt(seg, a + j);
    }
  }

  lemma {:induction false} SpacesKeepOutside(w: string)
    requires forall i :: 0 <= i < |w| ==> w[i] in Whitespace
    ensures QuoteRun(Outside, w) == Outside
  {
    if w != [] { SpacesKeepOutside(w[..|w| - 1]); }
  }

  lemma {:induction false} KeepNonBlankParts(segs: seq<string>)
    requires forall i :: 0 <= i < |segs| ==> NoBareAmpersand(segs[i])
    ensures forall i :: 0 <= i < |KeepNonBlank(segs)| ==>
              KeepNonBlank(segs)[i] != [] && NoBareAmpersand(KeepNonBlank(segs)[i])
              && exists j :: 0 <= j < |segs| && KeepNonBlank(segs)[i] == Strip(segs[j])
  {
    if segs != [] {
      var init := segs[..|segs| - 1];
      KeepNonBlankParts(init);
      StripKeepsNoBareAmpersand(segs[|segs| - 1]);
      forall i | 0 <= i < |KeepNonBlank(init)|
        ensures exists j :: 0 <= j < |segs| && KeepNonBlank(init)[i] == Strip(segs[j])
      {
        var j :| 0 <= j < |init| && KeepNonBlank(init)[i] == Strip(init[j]);
        assert segs[j] == init[j];
      }
    }
  }

  /** Every part `smart_split_by_ampersand` returns is non-blank, is one raw
      segment with its surrounding whitespace stripped, and has no `&` outside a
      quoted span of its own. */
  lemma SmartSplitPartsShape(t: string)
    ensures forall i :: 0 <= i < |SmartSplitParts(t)| ==>
              var p := SmartSplitParts(t)[i];
              && p != []
              && !IsSpace(p[0]) && !IsSpace(p[|p| - 1])
              && NoBareAmpersand(p)
              && exists j :: 0 <= j < |RawSegments(t)| && p == Strip(RawSegments(t)[j])
  {
    RawSegmentsRoundTrip(t);
    KeepNonBlankParts(RawSegments(t));
    forall i | 0 <= i < |SmartSplitParts(t)|
      ensures var p := SmartSplitParts(t)[i];
              p != [] ==> !IsSpace(p[0]) && !IsSpace(p[|p| - 1])
    {
      var j :| 0 <= j < |RawSegments(t)| && SmartSplitParts(t)[i] == Strip(RawSegments(t)[j]);
      StripShape(RawSegments(t)[j]);
    }
  }

  /** Every `&` of `t` lies outside the quoted spans of `t`. */
  predicate AllAmpersandsBare(t: string)
  {
    forall j :: 0 <= j < |t| ==> !QuotedAt(t, j)
  }

  /** Extending the last piece of two piece lists by the same character keeps
      them equal or unequal. */
  lemma ExtendLastInjective(x: seq<string>, y: seq<string>, c: char)
    requires |x| >= 1 && |y| >= 1
    ensures x[..|x| - 1] + [x[|x| - 1] + [c]] == y[..|y| - 1] + [y[|y| - 1] + [c]] <==> x == y
  {
    var x' := x[..|x| - 1] + [x[|x| - 1] + [c]];
    var y' := y[..|y| - 1] + [y[|y| - 1] + [c]];
    if x' == y' {
      assert |x| == |y|;
      assert x[..|x| - 1] == x'[..|x| - 1] == y'[..|y| - 1] == y[..|y| - 1];
      var lx := x[|x| - 1];
      var ly := y[|y| - 1];
      assert lx + [c] == ly + [c];
      assert lx == (lx + [c])[..|lx|] == (ly + [c])[..|ly|] == ly;
      assert x == x[..|x| - 1] + [lx];
      assert y == y[..|y| - 1] + [ly];
    }
  }

  lemma AppendEmptyInjective(x: seq<string>, y: seq<string>)
    ensures x + [[]] == y + [[]] <==> x == y
  {
    if x + [[]] == y + [[]] {
      assert x == (x + [[]])[..|x|] == (y + [[]])[..|y|] == y;
    }
  }

  lemma RawSegmentsSnoc(t: string, c: char)
    ensures var r := RawSegments(t);
            RawSegments(t + [c])
            == if c == '&' && QuoteRun(Outside, t).Outside? then r + [[]]
               else r[..|r| - 1] + [r[|r| - 1] + [c]]
  {
    SplitRunQuote(t);
    assert (t + [c])[..|t|] == t;
    var st := SplitRun(t);
    assert (st.done + [st.cur])[..|st.done|] == st.done;
  }

  lemma SplitOnSnoc(t: string, c: char)
    ensures var a := SplitOn(t, '&');
            SplitOn(t + [c], '&')
            == if c == '&' then a + [[]] else a[..|a| - 1] + [a[|a| - 1] + [c]]
  {
    assert (t + [c])[..|t|] == t;
  }

  lemma AllAmpersandsBareSnoc(t: string, c: char)
    ensures AllAmpersandsBare(t + [c])
            <==> AllAmpersandsBare(t) && (c == '&' ==> QuoteRun(Outside, t).Outside?)
  {
    var t' := t + [c];
    assert t'[..|t|] == t;
    forall j | 0 <= j < |t| ensures QuotedAt(t', j) == QuotedAt(t, j) {
      assert t'[..j] == t[..j];
    }
    assert QuotedAt(t', |t|) <==> c == '&' && QuoteRun(Outside, t).Inside?;
  }

  /** The archived resolver's plain `split('&')` and the quote-aware split cut the
      text into the same raw segments exactly when no `&` sits inside quotes. */
  lemma {:induction false} NaiveSplitAgreesIff(t: string)
    ensures SplitOn(t, '&') == RawSegments(t) <==> AllAmpersandsBare(t)
  {
    if t != [] {
      var t' := t[..|t| - 1];
      var c := t[|t| - 1];
      assert t == t' + [c];
      NaiveSplitAgreesIff(t');
      SplitOnSnoc(t', c);
      RawSegmentsSnoc(t', c);
      AllAmpersandsBareSnoc(t', c);
      var a := SplitOn(t', '&');
      var r := RawSegments(t');
      if c == '&' && QuoteRun(Outside, t').Outside? {
        AppendEmptyInjective(a, r);
      } else if c == '&' {
        var rr := r[..|r| - 1] + [r[|r| - 1] + [c]];
        assert rr[|rr| - 1] != [];
      } else {
        ExtendLastInjective(a, r, c);
      }
    }
  }
}
