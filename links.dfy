/** External-workbook links: the `[n]` placeholders a formula uses for linked
    workbooks, their replacement by the quoted workbook path, and the table
    of link numbers that the resolver infers from files next to the open
    workbook. */
module Links {
  import opened Text

  // ---------------------------------------------------------------------------
  // Path stand-ins
  // ---------------------------------------------------------------------------

  /** A path separator on Windows. */
  predicate IsSep(c: char) { c == '\\' || c == '/' }

  /** The index of the last separator in `p`, if any. */
  function LastSep(p: string): (r: Option<nat>)
    ensures r.Some? ==> r.value < |p| && IsSep(p[r.value])
    ensures r.Some? ==> forall j :: r.value < j < |p| ==> !IsSep(p[j])
    ensures r.None? ==> forall j :: 0 <= j < |p| ==> !IsSep(p[j])
    decreases |p|
  {
    if p == [] then None
    else if IsSep(p[|p| - 1]) then Some(|p| - 1)
    else LastSep(p[..|p| - 1])
  }

  /** `os.path.basename`: the text after the last separator. */
  function BaseName(p: string): string
  {
    match LastSep(p)
    case None => p
    case Some(i) => p[i + 1..]
  }

  /** `os.path.dirname`: the text before the last separator. */
  function DirName(p: string): string
  {
    match LastSep(p)
    case None => []
    case Some(i) => p[..i]
  }

  /** A path is its directory, one separator and its file name, and the file
      name holds no separator. */
  lemma SplitPath(p: string)
    ensures forall j :: 0 <= j < |BaseName(p)| ==> !IsSep(BaseName(p)[j])
    ensures LastSep(p).None? ==> DirName(p) == [] && BaseName(p) == p
    ensures LastSep(p).Some? ==> p == DirName(p) + [p[LastSep(p).value]] + BaseName(p)
  {
    if LastSep(p).Some? {
      var i := LastSep(p).value;
      assert forall j :: 0 <= j < |BaseName(p)| ==> BaseName(p)[j] == p[i + 1 + j];
    }
  }

  /** `os.path.join(dir, name)`: a separator is inserted unless `dir` is empty
      or already ends with one. */
  function PathJoin(dir: string, name: string): (r: string)
    ensures StartsWith(r, dir) && EndsWith(r, name)
  {
    if dir == [] || IsSep(dir[|dir| - 1]) then dir + name else dir + "\\" + name
  }

  /** The file name of a joined path is the name joined on, when that name
      holds no separator. */
  lemma BaseNameOfJoin(dir: string, name: string)
    requires forall j :: 0 <= j < |name| ==> !IsSep(name[j])
    ensures BaseName(PathJoin(dir, name)) == name
  {
    var p := PathJoin(dir, name);
    var k := |p| - |name|;
    assert p[k..] == name;
    if dir != [] {
      assert IsSep(p[k - 1]);
      assert LastSep(p) == Some(k - 1) by {
        LastSepAfter(p, k - 1);
      }
    } else {
      assert p == name;
    }
  }

  /** When the characters after a separator at `i` are no separators, `i` is
      the last separator. */
  lemma {:induction false} LastSepAfter(p: string, i: nat)
    requires i < |p| && IsSep(p[i])
    requires forall j :: i < j < |p| ==> !IsSep(p[j])
    ensures LastSep(p) == Some(i)
    decreases |p|
  {
    if i < |p| - 1 {
      var q := p[..|p| - 1];
      assert q[i] == p[i];
      LastSepAfter(q, i);
    }
  }

  // ---------------------------------------------------------------------------
  // `[n]` placeholders
  // ---------------------------------------------------------------------------

  /** The URL prefix dropped from a link target. */
  const FileUrlPrefix := "file:///"

  /** The link target as a local path: without a leading `file:///`. */
  function LocalPath(path: string): string
  {
    if StartsWith(path, FileUrlPrefix) then path[|FileUrlPrefix|..] else path
  }

  /** `'dir\[file]'`: how a formula names a sheet-less external workbook. */
  function LinkText(path: string): string
  {
    var local := LocalPath(path);
    "'" + DirName(local) + "\\[" + BaseName(local) + "]'"
  }

  /** What replaces `[digits]`: the workbook the link table names, or
      `[Unknown_digits]`. */
  function Replacement(links: map<string, string>, digits: string): string
  {
    if digits in links then LinkText(links[digits]) else "[Unknown_" + digits + "]"
  }

  /** The pattern `\[(\d+)\]` at the start of `s`: the index of its `]`. */
  function LinkRefAt(s: string): (r: Option<nat>)
    ensures r.Some? ==> 2 <= r.value < |s| && s[0] == '[' && s[r.value] == ']'
  {
    if s != [] && s[0] == '[' then
      var e := SpanWhile(s, 1, Digits);
      if 1 < e < |s| && s[e] == ']' then Some(e) else None
    else None
  }

  /** The digits of the placeholder that `LinkRefAt` found. */
  lemma LinkRefDigits(s: string)
    requires LinkRefAt(s).Some?
    ensures forall j :: 1 <= j < LinkRefAt(s).value ==> IsDigit(s[j])
  {
    SpanWhileRun(s, 1, Digits);
  }

  /** `fix_external_references` (`re.sub` of `\[(\d+)\]`): each placeholder,
      scanning left to right without overlaps, becomes its replacement; every
      other character is kept. */
  function FixExternalReferences(links: map<string, string>, s: string): string
    decreases |s|
  {
    if s == [] then []
    else
      match LinkRefAt(s)
      case Some(e) => Replacement(links, s[1..e]) + FixExternalReferences(links, s[e + 1..])
      case None => [s[0]] + FixExternalReferences(links, s[1..])
  }

  /** Text without a `[` is left unchanged. */
  lemma {:induction false} NoPlaceholderUnchanged(links: map<string, string>, s: string)
    requires '[' !in s
    ensures FixExternalReferences(links, s) == s
    decreases |s|
  {
    if s != [] {
      assert s[0] in s;
      assert forall c :: c in s[1..] ==> c in s;
      NoPlaceholderUnchanged(links, s[1..]);
      assert s == [s[0]] + s[1..];
    }
  }

  /** A character that does not open a placeholder is copied. */
  lemma KeepsPlainChar(links: map<string, string>, c: char, rest: string)
    requires c != '['
    ensures FixExternalReferences(links, [c] + rest) == [c] + FixExternalReferences(links, rest)
  {
    var s := [c] + rest;
    assert s[1..] == rest;
  }

  /** A placeholder `[d]` at the front becomes its replacement, and the rest is
      fixed on its own. */
  lemma ReplacesPlaceholder(links: map<string, string>, d: string, rest: string)
    requires d != [] && forall j :: 0 <= j < |d| ==> IsDigit(d[j])
    ensures FixExternalReferences(links, "[" + d + "]" + rest)
            == Replacement(links, d) + FixExternalReferences(links, rest)
  {
    var s := "[" + d + "]" + rest;
    var e := |d| + 1;
    assert forall j :: 1 <= j < e ==> s[j] == d[j - 1];
    assert s[e] == ']';
    SpanWhileExact(s, 1, e, Digits);
    assert LinkRefAt(s) == Some(e);
    assert s[1..e] == d;
    assert s[e + 1..] == rest;
  }

  /** An index with no entry in the table is marked as unknown. */
  lemma UnknownIndex(links: map<string, string>, d: string, rest: string)
    requires d != [] && forall j :: 0 <= j < |d| ==> IsDigit(d[j])
    requires d !in links
    ensures FixExternalReferences(links, "[" + d + "]" + rest)
            == "[Unknown_" + d + "]" + FixExternalReferences(links, rest)
  {
    ReplacesPlaceholder(links, d, rest);
  }

  // ---------------------------------------------------------------------------
  // The inferred link table
  // ---------------------------------------------------------------------------

  /** The workbook names tried, in order, next to the open workbook. */
  const CommonFiles: seq<string> := [
    "Link1.xlsx", "Link2.xlsx", "Link3.xlsx",
    "File1.xlsx", "File2.xlsx", "File3.xlsx",
    "Data.xlsx", "GDP.xlsx", "Test.xlsx"
  ]

  /** The paths among `files` (joined to `dir`) that exist, in order. */
  function Candidates(dir: string, existing: set<string>, files: seq<string>): (r: seq<string>)
    ensures |r| <= |files|
    ensures forall k :: 0 <= k < |r| ==> r[k] in existing
  {
    if files == [] then []
    else
      var full := PathJoin(dir, files[0]);
      if full in existing then [full] + Candidates(dir, existing, files[1..])
      else Candidates(dir, existing, files[1..])
  }

  /** The key of the `k`-th link written from link number `index`. */
  function LinkKey(index: nat, k: nat): string
  {
    NatToString(index + k)
  }

  /** `key` is one of the first `n` keys written from link number `index`. */
  predicate IsLinkKey(key: string, index: nat, n: nat)
  {
    exists k :: 0 <= k < n && key == LinkKey(index, k)
  }

  /** The table after the loop of `infer_external_links_from_formulas` has run
      over `files` from link number `index` on table `m`: each existing path
      is written under the next number. */
  function MergeLinks(m: map<string, string>, dir: string, existing: set<string>, files: seq<string>, index: nat): map<string, string>
    decreases |files|
  {
    if files == [] then m
    else
      var full := PathJoin(dir, files[0]);
      if full in existing then MergeLinks(m[NatToString(index) := full], dir, existing, files[1..], index + 1)
      else MergeLinks(m, dir, existing, files[1..], index)
  }

  /** Distinct numbers have distinct decimal texts. */
  lemma NatToStringInjective(a: nat, b: nat)
    requires NatToString(a) == NatToString(b)
    ensures a == b
  {
    DigitsValueOfNat(a);
    DigitsValueOfNat(b);
  }

  /** The first key written is none of the later ones. */
  lemma FirstKeyFresh(index: nat, n: nat)
    ensures !IsLinkKey(LinkKey(index, 0), index + 1, n)
  {
    if IsLinkKey(LinkKey(index, 0), index + 1, n) {
      var j :| 0 <= j < n && LinkKey(index, 0) == LinkKey(index + 1, j);
      NatToStringInjective(index, index + 1 + j);
    }
  }

  /** The loop keeps every entry of the table whose key it does not write. */
  lemma {:induction false} MergeKeeps(m: map<string, string>, dir: string, existing: set<string>, files: seq<string>, index: nat)
    ensures forall key :: key in m && !IsLinkKey(key, index, |Candidates(dir, existing, files)|) ==>
              key in MergeLinks(m, dir, existing, files, index) && MergeLinks(m, dir, existing, files, index)[key] == m[key]
    decreases |files|
  {
    if files != [] {
      var full := PathJoin(dir, files[0]);
      if full in existing {
        var c' := Candidates(dir, existing, files[1..]);
        var m' := m[NatToString(index) := full];
        var r := MergeLinks(m', dir, existing, files[1..], index + 1);
        assert Candidates(dir, existing, files) == [full] + c';
        assert MergeLinks(m, dir, existing, files, index) == r;
        MergeKeeps(m', dir, existing, files[1..], index + 1);
        forall key | key in m && !IsLinkKey(key, index, |c'| + 1)
          ensures key in r && r[key] == m[key]
        {
          NotLaterKey(key, index, |c'|);
          assert key in m' && m'[key] == m[key];
        }
      } else {
        MergeKeeps(m, dir, existing, files[1..], index);
      }
    }
  }

  /** A key none of the `n + 1` numbers from `index` is neither `index` nor
      one of the `n` numbers from `index + 1`. */
  lemma NotLaterKey(key: string, index: nat, n: nat)
    requires !IsLinkKey(key, index, n + 1)
    ensures !IsLinkKey(key, index + 1, n) && key != NatToString(index)
  {
    assert key != LinkKey(index, 0);
    var next := index + 1;
    forall j | 0 <= j < n
      ensures key != LinkKey(next, j)
    {
      assert LinkKey(next, j) == LinkKey(index, j + 1);
    }
  }

  /** The loop writes the `k`-th existing path under number `index + k`. */
  lemma {:induction false} MergeWrites(m: map<string, string>, dir: string, existing: set<string>, files: seq<string>, index: nat)
    ensures forall k :: 0 <= k < |Candidates(dir, existing, files)| ==>
              LinkKey(index, k) in MergeLinks(m, dir, existing, files, index)
              && MergeLinks(m, dir, existing, files, index)[LinkKey(index, k)] == Candidates(dir, existing, files)[k]
    decreases |files|
  {
    if files != [] {
      var full := PathJoin(dir, files[0]);
      if full in existing {
        var m' := m[NatToString(index) := full];
        var c' := Candidates(dir, existing, files[1..]);
        var r := MergeLinks(m', dir, existing, files[1..], index + 1);
        assert Candidates(dir, existing, files) == [full] + c';
        assert MergeLinks(m, dir, existing, files, index) == r;
        MergeWrites(m', dir, existing, files[1..], index + 1);
        MergeKeeps(m', dir, existing, files[1..], index + 1);
        FirstKeyFresh(index, |c'|);
        assert LinkKey(index, 0) == NatToString(index);
        MergeWritesStep(full, index, r, c');
      } else {
        MergeWrites(m, dir, existing, files[1..], index);
      }
    }
  }

  /** The first path under `index` and the rest from `index + 1` are all the
      paths from `index`. */
  lemma MergeWritesStep(full: string, index: nat, r: map<string, string>, c': seq<string>)
    requires LinkKey(index, 0) in r && r[LinkKey(index, 0)] == full
    requires forall k :: 0 <= k < |c'| ==> LinkKey(index + 1, k) in r && r[LinkKey(index + 1, k)] == c'[k]
    ensures forall k :: 0 <= k < |[full] + c'| ==> LinkKey(index, k) in r && r[LinkKey(index, k)] == ([full] + c')[k]
  {
    forall k | 0 <= k < |[full] + c'|
      ensures LinkKey(index, k) in r && r[LinkKey(index, k)] == ([full] + c')[k]
    {
      if k > 0 {
        assert LinkKey(index, k) == LinkKey(index + 1, k - 1);
        assert ([full] + c')[k] == c'[k - 1];
      }
    }
  }

  /** The loop adds no key besides the numbers it writes. */
  lemma {:induction false} MergeOnly(m: map<string, string>, dir: string, existing: set<string>, files: seq<string>, index: nat)
    ensures forall key :: key in MergeLinks(m, dir, existing, files, index) ==>
              key in m || IsLinkKey(key, index, |Candidates(dir, existing, files)|)
    decreases |files|
  {
    if files != [] {
      var full := PathJoin(dir, files[0]);
      if full in existing {
        var r := MergeLinks(m, dir, existing, files, index);
        var c' := Candidates(dir, existing, files[1..]);
        var m' := m[NatToString(index) := full];
        assert Candidates(dir, existing, files) == [full] + c';
        assert r == MergeLinks(m', dir, existing, files[1..], index + 1);
        MergeOnly(m', dir, existing, files[1..], index + 1);
        forall key | key in r && key !in m
          ensures IsLinkKey(key, index, |c'| + 1)
        {
          if key == NatToString(index) {
            assert key == LinkKey(index, 0);
          } else {
            LinkKeyShift(key, index, |c'|);
          }
        }
      } else {
        MergeOnly(m, dir, existing, files[1..], index);
      }
    }
  }

  /** A key written from link number `index + 1` is one written from `index`. */
  lemma LinkKeyShift(key: string, index: nat, n: nat)
    requires IsLinkKey(key, index + 1, n)
    ensures IsLinkKey(key, index, n + 1)
  {
    var j :| 0 <= j < n && key == LinkKey(index + 1, j);
    assert key == LinkKey(index, j + 1);
  }

  /** The link table of the resolver: link number (as text) to workbook path. */
  class ExternalLinkTable {
    var links: map<string, string>

    constructor ()
      ensures links == map[]
    {
      links := map[];
    }

    /** `infer_external_links_from_formulas`: try each common workbook name
        next to `currentFile` and, for each one in `existing` (the files on
        disk), record it under the next link number, starting at 1. */
    method InferExternalLinks(currentFile: string, existing: set<string>)
      modifies this
      ensures links == MergeLinks(old(links), DirName(currentFile), existing, CommonFiles, 1)
    {
      var baseDir := DirName(currentFile);
      var index := 1;
      var i := 0;
      while i < |CommonFiles|
        invariant 0 <= i <= |CommonFiles| && index >= 1
        invariant MergeLinks(links, baseDir, existing, CommonFiles[i..], index)
                  == MergeLinks(old(links), baseDir, existing, CommonFiles, 1)
      {
        var fullPath := PathJoin(baseDir, CommonFiles[i]);
        assert CommonFiles[i..][1..] == CommonFiles[i + 1..];
        if fullPath in existing {
          links := links[NatToString(index) := fullPath];
          index := index + 1;
        }
        i := i + 1;
      }
    }

    /** After inference, `[k]` in a formula names the `k`-th common workbook
        that exists; an index past them stays unknown unless the table had it
        before. */
    lemma InferredThenFixed(m: map<string, string>, currentFile: string, existing: set<string>, k: nat, rest: string)
      requires links == MergeLinks(m, DirName(currentFile), existing, CommonFiles, 1)
      ensures var c := Candidates(DirName(currentFile), existing, CommonFiles);
              && (1 <= k <= |c| ==>
                    FixExternalReferences(links, "[" + NatToString(k) + "]" + rest)
                    == LinkText(c[k - 1]) + FixExternalReferences(links, rest))
              && (k > |c| && NatToString(k) !in m ==>
                    FixExternalReferences(links, "[" + NatToString(k) + "]" + rest)
                    == "[Unknown_" + NatToString(k) + "]" + FixExternalReferences(links, rest))
    {
      var dir := DirName(currentFile);
      var c := Candidates(dir, existing, CommonFiles);
      MergeWrites(m, dir, existing, CommonFiles, 1);
      MergeOnly(m, dir, existing, CommonFiles, 1);
      ReplacesPlaceholder(links, NatToString(k), rest);
      if 1 <= k <= |c| {
        assert NatToString(k) == LinkKey(1, k - 1);
      } else if k > |c| && NatToString(k) !in m && NatToString(k) in links {
        var j :| 0 <= j < |c| && NatToString(k) == LinkKey(1, j);
        NatToStringInjective(k, 1 + j);
      }
    }
  }
}
