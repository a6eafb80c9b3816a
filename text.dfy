/** Character classes and the few string operations of the host language
    that the resolver and the exploder rely on, restricted to ASCII. */
module Text {

  datatype Option<T> = None | Some(value: T)

  predicate IsDigit(c: char) { '0' <= c <= '9' }
  predicate IsUpper(c: char) { 'A' <= c <= 'Z' }
  predicate IsLower(c: char) { 'a' <= c <= 'z' }
  predicate IsLetter(c: char) { IsUpper(c) || IsLower(c) }

  /** A character that `\w` matches, so one that `\b` separates from a non-word character. */
  predicate IsWordChar(c: char) { IsDigit(c) || IsLetter(c) || c == '_' }

  /** Whitespace as `str.strip()` and `\s` see it (the ASCII part). */
  const Whitespace: set<char> :=
    {' ', '\t', '\n', '\U{0B}', '\U{0C}', '\r', '\U{1C}', '\U{1D}', '\U{1E}', '\U{1F}'}

  predicate IsSpace(c: char) { c in Whitespace }

  /** The two characters that open and close a quoted span in a formula. */
  predicate IsQuote(c: char) { c == '"' || c == '\'' }

  function UpperChar(c: char): char
  {
    if IsLower(c) then (c as int - 32) as char else c
  }

  /** `str.upper()` on ASCII text. */
  function Upper(s: string): (r: string)
    ensures |r| == |s|
  {
    seq(|s|, i requires 0 <= i < |s| => UpperChar(s[i]))
  }

  /** Drop the characters of `drop` from the front of `s`. */
  function TrimLeft(s: string, drop: set<char>): string
    decreases |s|
  {
    if s != [] && s[0] in drop then TrimLeft(s[1..], drop) else s
  }

  /** Drop the characters of `drop` from the back of `s`. */
  function TrimRight(s: string, drop: set<char>): string
    decreases |s|
  {
    if s != [] && s[|s| - 1] in drop then TrimRight(s[..|s| - 1], drop) else s
  }

  /** `str.strip(chars)`: drop the characters of `drop` from both ends. */
  function Trim(s: string, drop: set<char>): string
  {
    var l := TrimLeft(s, drop);
    var r := TrimRight(l, drop);
    r
  }

  /** `str.strip()` with no argument. */
  function Strip(s: string): string
  {
    Trim(s, Whitespace)
  }

  /** `TrimLeft` drops a prefix of characters of `drop` and stops at one that
      is not. */
  lemma {:induction false} TrimLeftShape(s: string, drop: set<char>)
    ensures var r := TrimLeft(s, drop);
            && |r| <= |s| && r == s[|s| - |r|..]
            && (r != [] ==> r[0] !in drop)
            && forall i :: 0 <= i < |s| - |r| ==> s[i] in drop
    decreases |s|
  {
    if s != [] && s[0] in drop {
      TrimLeftShape(s[1..], drop);
      var r := TrimLeft(s[1..], drop);
      assert s[1..][|s| - 1 - |r|..] == s[|s| - |r|..];
      forall i | 1 <= i < |s| - |r|
        ensures s[i] in drop
      {
        assert s[1..][i - 1] == s[i];
      }
    }
  }

  /** `TrimRight` drops a suffix of characters of `drop` and stops at one that
      is not. */
  lemma {:induction false} TrimRightShape(s: string, drop: set<char>)
    ensures var r := TrimRight(s, drop);
            && |r| <= |s| && r == s[..|r|]
            && (r != [] ==> r[|r| - 1] !in drop)
            && forall i :: |r| <= i < |s| ==> s[i] in drop
    decreases |s|
  {
    if s != [] && s[|s| - 1] in drop {
      TrimRightShape(s[..|s| - 1], drop);
      var r := TrimRight(s[..|s| - 1], drop);
      assert s[..|s| - 1][..|r|] == s[..|r|];
      forall i | |r| <= i < |s| - 1
        ensures s[i] in drop
      {
        assert s[..|s| - 1][i] == s[i];
      }
    }
  }

  /** `Trim` returns a slice of its input, starting after dropped characters
      only, ending before dropped characters only, and neither starting nor
      ending with a dropped character; it is empty exactly when every
      character is dropped. */
  lemma TrimShape(s: string, drop: set<char>) returns (a: nat)
    ensures var r := Trim(s, drop);
            && a + |r| <= |s| && r == s[a..a + |r|]
            && (forall i :: 0 <= i < a ==> s[i] in drop)
            && (forall i :: a + |r| <= i < |s| ==> s[i] in drop)
            && (r != [] ==> r[0] !in drop && r[|r| - 1] !in drop)
            && (r == [] <==> forall i :: 0 <= i < |s| ==> s[i] in drop)
  {
    var l := TrimLeft(s, drop);
    TrimLeftShape(s, drop);
    TrimRightShape(l, drop);
    a := |s| - |l|;
    var r := TrimRight(l, drop);
    assert l[..|r|] == s[a..a + |r|];
    forall i | a + |r| <= i < |s|
      ensures s[i] in drop
    {
      assert l[i - a] == s[i];
    }
    if r != [] {
      assert r[0] == l[0];
    }
  }

  /** `Strip` neither starts nor ends with whitespace, and is empty exactly
      for blank text. */
  lemma StripShape(s: string)
    ensures var r := Strip(s);
            && |r| <= |s|
            && (r != [] ==> !IsSpace(r[0]) && !IsSpace(r[|r| - 1]))
            && (r == [] <==> forall i :: 0 <= i < |s| ==> IsSpace(s[i]))
  {
    var a := TrimShape(s, Whitespace);
  }

  /** No capital letter is whitespace. */
  lemma UpperIsNotSpace(c: char)
    requires IsUpper(c)
    ensures !IsSpace(c)
  {
  }

  /** Text that neither starts nor ends with whitespace is left as it is. */
  lemma StripUnpadded(s: string)
    requires s != [] ==> !IsSpace(s[0]) && !IsSpace(s[|s| - 1])
    ensures Strip(s) == s
  {
    assert TrimLeft(s, Whitespace) == s;
    assert TrimRight(s, Whitespace) == s;
  }

  /** Text that neither starts nor ends with a character of `drop` is left as
      it is. */
  lemma TrimUnpadded(s: string, drop: set<char>)
    requires s != [] ==> s[0] !in drop && s[|s| - 1] !in drop
    ensures Trim(s, drop) == s
  {
    assert TrimLeft(s, drop) == s;
    assert TrimRight(s, drop) == s;
  }

  /** Stripping twice is stripping once. */
  lemma StripIdempotent(s: string)
    ensures Strip(Strip(s)) == Strip(s)
  {
    StripShape(s);
    StripUnpadded(Strip(s));
  }

  /** `str.strip(chars)` with an explicit set of characters. */
  function StripChars(s: string, cs: set<char>): string
  {
    Trim(s, cs)
  }

  predicate StartsWith(s: string, p: string) { |p| <= |s| && s[..|p|] == p }
  predicate EndsWith(s: string, p: string) { |p| <= |s| && s[|s| - |p|..] == p }

  predicate OccursAt(s: string, pat: string, k: int)
  {
    0 <= k && k + |pat| <= |s| && s[k..k + |pat|] == pat
  }

  /** `s.find(pat, i)`: the first occurrence of `pat` at or after `i`. */
  function FindFrom(s: string, pat: string, i: nat): (r: Option<nat>)
    requires i <= |s|
    ensures r.Some? ==> i <= r.value && OccursAt(s, pat, r.value)
    ensures r.Some? ==> forall k :: i <= k < r.value ==> !OccursAt(s, pat, k)
    ensures r.None? ==> forall k :: i <= k ==> !OccursAt(s, pat, k)
    decreases |s| - i
  {
    if OccursAt(s, pat, i) then Some(i)
    else if i + |pat| >= |s| then None
    else FindFrom(s, pat, i + 1)
  }

  /** `s.find(c, i)` for a single character. */
  function FindChar(s: string, c: char, i: nat): (r: Option<nat>)
    requires i <= |s|
    ensures r.Some? ==> i <= r.value < |s| && s[r.value] == c
    ensures r.Some? ==> forall k :: i <= k < r.value ==> s[k] != c
    ensures r.None? ==> forall k :: i <= k < |s| ==> s[k] != c
    decreases |s| - i
  {
    if i == |s| then None
    else if s[i] == c then Some(i)
    else FindChar(s, c, i + 1)
  }

  /** `pat in s`. */
  predicate Contains(s: string, pat: string)
  {
    FindFrom(s, pat, 0).Some?
  }

  /** A text with an occurrence of `pat` contains `pat`. */
  lemma OccursFound(s: string, pat: string, k: nat)
    requires OccursAt(s, pat, k)
    ensures Contains(s, pat)
  {
    assert FindFrom(s, pat, 0).None? ==> !OccursAt(s, pat, k);
  }

  /** Every text contains itself. */
  lemma ContainsSelf(s: string)
    ensures Contains(s, s)
  {
    assert OccursAt(s, s, 0);
  }

  /** A pattern whose first character does not occur in `s` is not in `s`. */
  lemma AbsentLead(s: string, pat: string)
    requires pat != [] && pat[0] !in s
    ensures !Contains(s, pat)
  {
    forall k | 0 <= k && k + |pat| <= |s|
      ensures !OccursAt(s, pat, k)
    {
      assert s[k] in s;
      assert s[k..k + |pat|][0] == s[k];
    }
  }

  /** Text without lower-case letters is its own upper case. */
  lemma UpperUnchanged(s: string)
    requires forall i :: 0 <= i < |s| ==> !IsLower(s[i])
    ensures Upper(s) == s
  {
  }

  /** `s.rfind(c)`: the index of the last `c` in `s`, if any. */
  function FindLast(s: string, c: char): (r: Option<nat>)
    ensures r.Some? ==> r.value < |s| && s[r.value] == c
    ensures r.Some? ==> forall j :: r.value < j < |s| ==> s[j] != c
    ensures r.None? ==> forall j :: 0 <= j < |s| ==> s[j] != c
    decreases |s|
  {
    if s == [] then None
    else if s[|s| - 1] == c then Some(|s| - 1)
    else FindLast(s[..|s| - 1], c)
  }

  /** `s.replace(pat, rep)`: every occurrence of `pat`, taken left to right
      without overlap, replaced by `rep`. */
  function ReplaceAll(s: string, pat: string, rep: string): string
    requires pat != []
    decreases |s|
  {
    if |s| < |pat| then s
    else if s[..|pat|] == pat then rep + ReplaceAll(s[|pat|..], pat, rep)
    else [s[0]] + ReplaceAll(s[1..], pat, rep)
  }

  /** Text in which `pat` does not occur is left alone by `ReplaceAll`. */
  lemma {:induction false} ReplaceAbsent(s: string, pat: string, rep: string)
    requires pat != []
    requires forall k :: 0 <= k ==> !OccursAt(s, pat, k)
    ensures ReplaceAll(s, pat, rep) == s
    decreases |s|
  {
    if |s| >= |pat| {
      assert !OccursAt(s, pat, 0);
      forall k | 0 <= k
        ensures !OccursAt(s[1..], pat, k)
      {
        if OccursAt(s[1..], pat, k) {
          assert s[k + 1..k + 1 + |pat|] == s[1..][k..k + |pat|];
          assert OccursAt(s, pat, k + 1);
        }
      }
      ReplaceAbsent(s[1..], pat, rep);
      assert [s[0]] + s[1..] == s;
    }
  }

  /** An occurrence of `pat` at the front is replaced and the rest is
      processed on its own. */
  lemma ReplaceLeading(pat: string, rep: string, rest: string)
    requires pat != []
    ensures ReplaceAll(pat + rest, pat, rep) == rep + ReplaceAll(rest, pat, rep)
  {
    assert (pat + rest)[..|pat|] == pat;
    assert (pat + rest)[|pat|..] == rest;
  }

  /** Concatenation regroups freely. Stated as a lemma because the solver does
      not always regroup on its own inside large goals. */
  lemma AppendAssociates<T>(a: seq<T>, b: seq<T>, c: seq<T>)
    ensures a + (b + c) == (a + b) + c
  {
  }

  /** `s.count(c)` for a single character. */
  function CountChar(s: string, c: char): nat
  {
    multiset(s)[c]
  }

  /** The character classes the formula patterns use (`\d`, `[A-Z]`, `[A-Z]` under
      IGNORECASE, `\s`). */
  datatype CharClass = Digits | Uppers | Letters | Spaces | Words | NonQuotes | SheetChars

  /** The characters that cannot appear in an unquoted sheet prefix `Sheet!`
      of an anchored cell reference: quote, `!`, comma, operators, brackets
      and space. */
  const SheetStops: set<char> := {'\'', '!', ',', '=', '+', '-', '*', '/', '^', '&', '(', ')', '<', '>', ' '}

  predicate InClass(c: char, k: CharClass)
  {
    match k
    case Digits => IsDigit(c)
    case Uppers => IsUpper(c)
    case Letters => IsLetter(c)
    case Spaces => IsSpace(c)
    case Words => IsWordChar(c)
    case NonQuotes => c != '\''
    case SheetChars => c !in SheetStops
  }

  /** The index of the first character at or after `i` outside class `k`:
      the end of the greedy run `k*` starting at `i`. */
  function SpanWhile(s: string, i: nat, k: CharClass): (e: nat)
    requires i <= |s|
    ensures i <= e <= |s|
    decreases |s| - i
  {
    if i < |s| && InClass(s[i], k) then SpanWhile(s, i + 1, k) else i
  }

  /** Every character of the run is in the class, and the one after it is not.
      (Kept apart from `SpanWhile`'s contract so the quantifier is only present
      where a proof asks for it.) */
  lemma {:induction false} SpanWhileRun(s: string, i: nat, k: CharClass)
    requires i <= |s|
    ensures forall j :: i <= j < SpanWhile(s, i, k) ==> InClass(s[j], k)
    ensures SpanWhile(s, i, k) < |s| ==> !InClass(s[SpanWhile(s, i, k)], k)
    decreases |s| - i
  {
    if i < |s| && InClass(s[i], k) {
      SpanWhileRun(s, i + 1, k);
    }
  }

  /** A run that ends where class `k` stops is the greedy run. */
  lemma {:induction false} SpanWhileExact(s: string, i: nat, e: nat, k: CharClass)
    requires i <= e <= |s|
    requires forall j :: i <= j < e ==> InClass(s[j], k)
    requires e < |s| ==> !InClass(s[e], k)
    ensures SpanWhile(s, i, k) == e
    decreases e - i
  {
    if i < e {
      SpanWhileExact(s, i + 1, e, k);
    }
  }

  /** `re.search` of `k+` from `i`: the first maximal run of class `k`, as a
      start and end index. */
  function FirstRun(s: string, i: nat, k: CharClass): (r: Option<(nat, nat)>)
    requires i <= |s|
    ensures r.Some? ==> i <= r.value.0 < r.value.1 <= |s|
    ensures r.Some? ==> forall j :: i <= j < r.value.0 ==> !InClass(s[j], k)
    ensures r.Some? ==> forall j :: r.value.0 <= j < r.value.1 ==> InClass(s[j], k)
    ensures r.Some? && r.value.1 < |s| ==> !InClass(s[r.value.1], k)
    ensures r.None? ==> forall j :: i <= j < |s| ==> !InClass(s[j], k)
    decreases |s| - i
  {
    if i == |s| then None
    else if InClass(s[i], k) then
      SpanWhileRun(s, i, k);
      Some((i, SpanWhile(s, i, k)))
    else FirstRun(s, i + 1, k)
  }

  function DigitChar(d: nat): (c: char)
    requires d < 10
    ensures IsDigit(c)
  {
    ('0' as int + d) as char
  }

  /** `str(n)` for a natural number. */
  function NatToString(n: nat): (r: string)
    ensures |r| >= 1
    ensures forall i :: 0 <= i < |r| ==> IsDigit(r[i])
  {
    if n < 10 then [DigitChar(n)] else NatToString(n / 10) + [DigitChar(n % 10)]
  }

  /** `str(i)` for an integer. */
  function IntToString(i: int): string
  {
    if i < 0 then "-" + NatToString(-i) else NatToString(i)
  }

  /** `int(ds)` for a run of decimal digits. */
  function DigitsValue(ds: string): nat
    requires forall i :: 0 <= i < |ds| ==> IsDigit(ds[i])
  {
    if ds == [] then 0
    else
      assert IsDigit(ds[|ds| - 1]);
      DigitsValue(ds[..|ds| - 1]) * 10 + (ds[|ds| - 1] as int - '0' as int)
  }

  /** `int(str(n)) == n`. */
  lemma {:induction false} DigitsValueOfNat(n: nat)
    ensures DigitsValue(NatToString(n)) == n
  {
    if n >= 10 {
      DigitsValueOfNat(n / 10);
      var r := NatToString(n);
      assert r[..|r| - 1] == NatToString(n / 10);
    }
  }

  /** `sep.join(parts)` for a one-character separator. */
  function Join(parts: seq<string>, sep: char): string
  {
    if |parts| == 0 then []
    else if |parts| == 1 then parts[0]
    else Join(parts[..|parts| - 1], sep) + [sep] + parts[|parts| - 1]
  }

  /** `s.split(sep)` for a one-character separator: pieces without `sep`
      that join back to `s`. */
  function SplitOn(s: string, sep: char): (r: seq<string>)
    ensures |r| >= 1
    ensures forall i :: 0 <= i < |r| ==> sep !in r[i]
    ensures Join(r, sep) == s
    decreases |s|
  {
    if s == [] then [[]]
    else
      var init := SplitOn(s[..|s| - 1], sep);
      var c := s[|s| - 1];
      assert s == s[..|s| - 1] + [c];
      if c == sep then init + [[]]
      else
        var last := init[|init| - 1] + [c];
        var r := init[..|init| - 1] + [last];
        JoinExtendLast(init, sep, c);
        r
  }

  lemma {:induction false} JoinExtendLast(parts: seq<string>, sep: char, c: char)
    requires |parts| >= 1
    ensures Join(parts[..|parts| - 1] + [parts[|parts| - 1] + [c]], sep) == Join(parts, sep) + [c]
  {
    var n := |parts|;
    var q := parts[..n - 1] + [parts[n - 1] + [c]];
    if n == 1 {
    } else {
      assert q[..n - 1] == parts[..n - 1];
    }
  }

  /** A join starts with its first part, followed by the separator when
      there are more parts. */
  lemma {:induction false} JoinHead(parts: seq<string>, sep: char)
    requires |parts| >= 1
    ensures var j := Join(parts, sep);
            && |parts[0]| <= |j| && j[..|parts[0]|] == parts[0]
            && (|parts| > 1 ==> |parts[0]| < |j| && j[|parts[0]|] == sep)
  {
    var n := |parts|;
    if n > 1 {
      var init := parts[..n - 1];
      JoinHead(init, sep);
      var ji := Join(init, sep);
      var j := Join(parts, sep);
      assert j == ji + [sep] + parts[n - 1];
      assert init[0] == parts[0];
      assert j[..|ji|] == ji;
      if n == 2 {
        assert ji == parts[0];
      }
    }
  }

  /** A character that is not the separator and is in no part is not in the
      join. */
  lemma {:induction false} JoinAvoids(parts: seq<string>, sep: char, c: char)
    requires c != sep && forall i :: 0 <= i < |parts| ==> c !in parts[i]
    ensures c !in Join(parts, sep)
  {
    var n := |parts|;
    if n > 1 {
      var init := parts[..n - 1];
      assert forall i :: 0 <= i < |init| ==> init[i] == parts[i];
      JoinAvoids(init, sep, c);
      assert Join(parts, sep) == Join(init, sep) + [sep] + parts[n - 1];
    }
  }

  /** Joining one more part puts the separator and the part at the end. */
  lemma JoinSnoc(parts: seq<string>, last: string, sep: char)
    requires |parts| >= 1
    ensures Join(parts + [last], sep) == Join(parts, sep) + [sep] + last
  {
    assert (parts + [last])[..|parts|] == parts;
  }
}
