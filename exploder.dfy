/** The dependency exploder: a depth-first walk from one cell through the
    cells its formula references, bounded by a depth limit, with cycle
    detection by a set of the cells on the current path, and a summary of
    the resulting tree.

    The cell reader is a parameter of type `Reader`. The traversal is
    specified by the function `Explode`, and the class method
    `DependencyExploder.ExplodeDependencies` is proved to compute it. */
module Exploder {
  import opened Text
  import opened Links
  import opened References

  // ---------------------------------------------------------------------------
  // Cells as the reader reports them, and the nodes of the tree
  // ---------------------------------------------------------------------------

  /** What the reader returns for a cell: a record with an `error` entry, or
      the cell's displayed and calculated values, its formula and its type,
      each of which may be missing. */
  datatype CellInfo =
    | ReadFailure(message: string)
    | CellRecord(display: Option<string>, calculated: Option<string>, formula: Option<string>, cellType: Option<string>)

  /** A read either returns a record or raises with a message. */
  datatype ReadOutcome = Returned(info: CellInfo) | Raised(message: string)

  /** The reader, taking a workbook path, a sheet name and a cell address. */
  type Reader = (string, string, string) -> ReadOutcome

  /** The `type` of a node: the three kinds of leaf the walk makes itself,
      or the type the reader gave the cell. */
  datatype Kind = LimitReached | CircularRef | ErrorNode | CellKind(name: string)

  /** The `type` entry as text. */
  function KindName(k: Kind): string
  {
    match k
    case LimitReached => "limit_reached"
    case CircularRef => "circular_ref"
    case ErrorNode => "error"
    case CellKind(name) => name
  }

  /** A node of the tree. `forms` holds the short and the full address, which
      only nodes built from a successful read carry; `calculated` likewise. */
  datatype Node = Node(
    address: string,
    forms: Option<(string, string)>,
    workbook: string,
    sheet: string,
    cell: string,
    value: string,
    calculated: Option<string>,
    formula: Option<string>,
    kind: Kind,
    children: seq<Node>,
    depth: nat,
    error: Option<string>)

  /** The key of a cell in the visited set and the list of cycles. */
  function CellId(workbook: string, sheet: string, cell: string): string
  {
    workbook + "|" + sheet + "|" + cell
  }

  function GetOr(o: Option<string>, default: string): string
  {
    if o.Some? then o.value else default
  }

  // ---------------------------------------------------------------------------
  // Display addresses
  // ---------------------------------------------------------------------------

  /** A workbook file name without its `.xlsx`, `.xls` or `.xlsm` extension
      (the text before the last `.`), other names unchanged. */
  function DropExcelExtension(name: string): string
  {
    name[..|name| - ExcelExtensionLength(name)]
  }

  /** 5 for a name ending in `.xlsx` or `.xlsm`, 4 for one ending in `.xls`,
      0 otherwise; compared character by character. */
  function ExcelExtensionLength(name: string): nat
  {
    var n := |name|;
    if n >= 5 && name[n - 5] == '.' && name[n - 4] == 'x' && name[n - 3] == 'l' && name[n - 2] == 's'
       && (name[n - 1] == 'x' || name[n - 1] == 'm') then 5
    else if n >= 4 && name[n - 4] == '.' && name[n - 3] == 'x' && name[n - 2] == 'l' && name[n - 1] == 's' then 4
    else 0
  }

  /** The workbook the walk started from: the root path when one was given. */
  function CurrentWorkbook(root: string, workbook: string): string
  {
    if root != [] then root else workbook
  }

  /** The address of a limit, cycle or error leaf: `[name]sheet!cell` without
      the extension for a workbook other than the root one, `sheet!cell`
      otherwise. */
  function LeafAddress(root: string, workbook: string, sheet: string, cell: string): string
  {
    if CurrentWorkbook(root, workbook) != workbook then
      "[" + DropExcelExtension(BaseName(workbook)) + "]" + sheet + "!" + cell
    else sheet + "!" + cell
  }

  /** The short and full addresses of a node built from a read: at the root,
      or in a workbook other than the root one, `[file]sheet!cell` and
      `'dir\[file]sheet'!cell` with the extension kept; otherwise
      `sheet!cell` twice. */
  function ReadForms(root: string, workbook: string, sheet: string, cell: string, depth: nat): (string, string)
  {
    if CurrentWorkbook(root, workbook) != workbook || depth == 0 then
      var name := BaseName(workbook);
      ("[" + name + "]" + sheet + "!" + cell, "'" + DirName(workbook) + "\\[" + name + "]" + sheet + "'!" + cell)
    else (sheet + "!" + cell, sheet + "!" + cell)
  }

  // ---------------------------------------------------------------------------
  // The formula shown on a node
  // ---------------------------------------------------------------------------

  /** `re.sub(r"''([^']*?)''", r"'\1'", s)`: each `''text''` without a quote
      inside becomes `'text'`, scanning left to right. */
  function CollapseDoubledQuotes(s: string): string
    decreases |s|
  {
    if s == [] then []
    else if |s| >= 2 && s[0] == '\'' && s[1] == '\'' then
      var q := SpanWhile(s, 2, NonQuotes);
      if q + 1 < |s| && s[q + 1] == '\'' then "'" + s[2..q] + "'" + CollapseDoubledQuotes(s[q + 2..])
      else [s[0]] + CollapseDoubledQuotes(s[1..])
    else [s[0]] + CollapseDoubledQuotes(s[1..])
  }

  /** A doubled-quote span loses one quote at each end. */
  lemma CollapseQuotedSpan(t: string, rest: string)
    requires '\'' !in t
    ensures CollapseDoubledQuotes("''" + t + "''" + rest) == "'" + t + "'" + CollapseDoubledQuotes(rest)
  {
    var s := "''" + t + "''" + rest;
    var q := 2 + |t|;
    forall j | 2 <= j < q
      ensures InClass(s[j], NonQuotes)
    {
      assert s[j] == t[j - 2];
      assert t[j - 2] in t;
    }
    SpanWhileExact(s, 2, q, NonQuotes);
    assert s[2..q] == t;
    assert s[q + 2..] == rest;
  }

  /** Text without two quotes in a row is left as it is. */
  lemma {:induction false} CollapseWithoutDoubledQuotes(s: string)
    requires forall j :: 0 <= j < |s| - 1 ==> !(s[j] == '\'' && s[j + 1] == '\'')
    ensures CollapseDoubledQuotes(s) == s
    decreases |s|
  {
    if s != [] {
      CollapseWithoutDoubledQuotes(s[1..]);
      assert [s[0]] + s[1..] == s;
    }
  }

  /** The formula a node shows: doubled backslashes made single and doubled
      quotes collapsed; none for a missing or empty formula. */
  function ShownFormula(f: Option<string>): Option<string>
  {
    if f.Some? && f.value != [] then Some(CollapseDoubledQuotes(ReplaceAll(f.value, "\\\\", "\\")))
    else None
  }

  // ---------------------------------------------------------------------------
  // Nodes
  // ---------------------------------------------------------------------------

  // The texts the nodes carry, named so that the walk's proofs do not unfold
  // them.
  const LimitValue: string := "Max depth reached"
  const LimitMessage: string := "Maximum recursion depth reached"
  const CircularValue: string := "Circular reference"
  const CircularMessage: string := "Circular reference detected"
  const ErrorValue: string := "Error"
  const Missing: string := "N/A"
  const UnknownType: string := "unknown"
  const FormulaType: string := "formula"

  function Leaf(kind: Kind, value: string, message: string, root: string, workbook: string, sheet: string, cell: string, depth: nat): Node
  {
    Node(LeafAddress(root, workbook, sheet, cell), None, workbook, sheet, cell, value, None, None, kind, [], depth, Some(message))
  }

  function LimitLeaf(root: string, workbook: string, sheet: string, cell: string, depth: nat): Node
  {
    Leaf(LimitReached, LimitValue, LimitMessage, root, workbook, sheet, cell, depth)
  }

  function CircularLeaf(root: string, workbook: string, sheet: string, cell: string, depth: nat): Node
  {
    Leaf(CircularRef, CircularValue, CircularMessage, root, workbook, sheet, cell, depth)
  }

  function ErrorLeaf(message: string, root: string, workbook: string, sheet: string, cell: string, depth: nat): Node
  {
    Leaf(ErrorNode, ErrorValue, message, root, workbook, sheet, cell, depth)
  }

  /** The node of a cell that was read, before its children are added. */
  function ReadNode(info: CellInfo, root: string, workbook: string, sheet: string, cell: string, depth: nat): Node
    requires info.CellRecord?
  {
    var forms := ReadForms(root, workbook, sheet, cell, depth);
    Node(forms.0, Some(forms), workbook, sheet, cell, GetOr(info.display, Missing), Some(GetOr(info.calculated, Missing)),
         ShownFormula(info.formula), CellKind(GetOr(info.cellType, UnknownType)), [], depth, None)
  }

  /** The formula whose references become children: only for a cell of type
      `formula` with a non-empty formula. */
  function ChildFormula(info: CellInfo): Option<string>
  {
    if info.CellRecord? && info.cellType == Some(FormulaType) && info.formula.Some? && info.formula.value != [] then info.formula
    else None
  }

  // ---------------------------------------------------------------------------
  // The walk
  // ---------------------------------------------------------------------------

  /** How references are extracted from a formula, given the workbook and
      sheet holding it; the exploder uses `ParseReferences`. */
  type Parser = (string, string, string) -> seq<Reference>

  /** What stays fixed during one walk: whether a read that reports an error
      unmarks the cell (the source does not, see `ReadErrorLeavesMark`; the
      corrected walk does), the reader, the reference extractor and the depth
      limit. */
  datatype Walk = Walk(discardOnError: bool, read: Reader, parse: Parser, maxDepth: nat)

  /** The walk from one cell: the node, the cells found to close a cycle (in
      the order found) and the visited set afterwards. A cell at the depth
      limit, or already on the current path, is not read. */
  function Explode(w: Walk, visited: set<string>, workbook: string, sheet: string, cell: string, depth: nat, root: string)
    : (res: (Node, seq<string>, set<string>))
    ensures res.0.workbook == workbook && res.0.sheet == sheet && res.0.cell == cell && res.0.depth == depth
    ensures w.discardOnError ==> res.2 == visited
    decreases w.maxDepth - depth, 2
  {
    var id := CellId(workbook, sheet, cell);
    if depth >= w.maxDepth then (LimitLeaf(root, workbook, sheet, cell, depth), [], visited)
    else if id in visited then (CircularLeaf(root, workbook, sheet, cell, depth), [id], visited)
    else ExplodeRead(w, visited, w.read(workbook, sheet, cell), workbook, sheet, cell, depth, root)
  }

  /** The walk from a cell that was read: the cell is marked while its
      references are walked and unmarked afterwards. */
  function ExplodeRead(w: Walk, visited: set<string>, outcome: ReadOutcome, workbook: string, sheet: string, cell: string,
                       depth: nat, root: string)
    : (res: (Node, seq<string>, set<string>))
    requires depth < w.maxDepth && CellId(workbook, sheet, cell) !in visited
    ensures res.0.workbook == workbook && res.0.sheet == sheet && res.0.cell == cell && res.0.depth == depth
    ensures w.discardOnError ==> res.2 == visited
    decreases w.maxDepth - depth, 1
  {
    var id := CellId(workbook, sheet, cell);
    var marked := visited + {id};
    match outcome
    case Raised(message) => (ErrorLeaf(message, root, workbook, sheet, cell, depth), [], marked - {id})
    case Returned(info) =>
      if info.ReadFailure? then
        (ErrorLeaf(info.message, root, workbook, sheet, cell, depth), [], if w.discardOnError then marked - {id} else marked)
      else
        var node := ReadNode(info, root, workbook, sheet, cell, depth);
        match ChildFormula(info)
        case None => (node, [], marked - {id})
        case Some(f) =>
          var kids := ExplodeChildren(w, marked, w.parse(f, workbook, sheet), depth + 1, CurrentWorkbook(root, workbook));
          (node.(children := kids.0), kids.1, kids.2 - {id})
  }

  /** The walks from the references, in order, each starting from the
      visited set the previous one left. */
  function ExplodeChildren(w: Walk, visited: set<string>, refs: seq<Reference>, depth: nat, root: string)
    : (res: (seq<Node>, seq<string>, set<string>))
    requires 0 < depth <= w.maxDepth
    ensures |res.0| == |refs|
    ensures w.discardOnError ==> res.2 == visited
    decreases w.maxDepth - depth + 1, 0, |refs|
  {
    if refs == [] then ([], [], visited)
    else
      var init := ExplodeChildren(w, visited, refs[..|refs| - 1], depth, root);
      var r := refs[|refs| - 1];
      var last := Explode(w, init.2, r.workbook, r.sheet, r.cell, depth, root);
      (init.0 + [last.0], init.1 + last.1, last.2)
  }

  // ---------------------------------------------------------------------------
  // The exploder object
  // ---------------------------------------------------------------------------

  /** `DependencyExploder`: the depth limit, the cells on the current path
      and the cycles found so far, with the cell reader and the reference
      extractor it uses (`parse_formula_references`, that is
      `ParseReferences`). */
  class DependencyExploder {
    var maxDepth: nat
    var visited: set<string>
    var circularRefs: seq<string>
    const read: Reader
    const parse: Parser

    constructor (read: Reader, maxDepth: nat)
      ensures this.maxDepth == maxDepth && visited == {} && circularRefs == []
      ensures this.read == read && parse == ParseReferences
    {
      this.maxDepth := maxDepth;
      visited := {};
      circularRefs := [];
      this.read := read;
      parse := ParseReferences;
    }

    /** The walk this exploder performs: cells are unmarked on every path
        out of a read. */
    function Config(): Walk
      reads this
    {
      Walk(true, read, parse, maxDepth)
    }

    /** `explode_dependencies`, with the cell unmarked on every path out of
        a read. The node is the one `Explode` describes, the cycles it found
        are appended to `circularRefs`, and the visited set is as before. */
    method ExplodeDependencies(workbook: string, sheet: string, cell: string, depth: nat, root: string)
      returns (node: Node)
      modifies this
      ensures maxDepth == old(maxDepth)
      ensures node == Explode(Config(), old(visited), workbook, sheet, cell, depth, root).0
      ensures circularRefs == old(circularRefs) + Explode(Config(), old(visited), workbook, sheet, cell, depth, root).1
      ensures visited == old(visited)
      decreases maxDepth - depth, 1
    {
      var id := CellId(workbook, sheet, cell);
      if depth >= maxDepth {
        return LimitLeaf(root, workbook, sheet, cell, depth);
      }
      if id in visited {
        circularRefs := circularRefs + [id];
        return CircularLeaf(root, workbook, sheet, cell, depth);
      }
      visited := visited + {id};
      var outcome := read(workbook, sheet, cell);
      if outcome.Raised? {
        visited := visited - {id};
        return ErrorLeaf(outcome.message, root, workbook, sheet, cell, depth);
      }
      var info := outcome.info;
      if info.ReadFailure? {
        visited := visited - {id};
        return ErrorLeaf(info.message, root, workbook, sheet, cell, depth);
      }
      node := ReadNode(info, root, workbook, sheet, cell, depth);
      var formula := ChildFormula(info);
      if formula.Some? {
        var refs := parse(formula.value, workbook, sheet);
        var childRoot := CurrentWorkbook(root, workbook);
        var children := ExplodeReferences(refs, depth + 1, childRoot);
        node := node.(children := children);
      }
      visited := visited - {id};
    }

    /** The loop over the references: one child per reference, in order. */
    method ExplodeReferences(refs: seq<Reference>, depth: nat, root: string) returns (children: seq<Node>)
      requires 0 < depth <= maxDepth
      modifies this
      ensures maxDepth == old(maxDepth)
      ensures children == ExplodeChildren(Config(), old(visited), refs, depth, root).0
      ensures circularRefs == old(circularRefs) + ExplodeChildren(Config(), old(visited), refs, depth, root).1
      ensures visited == old(visited)
      decreases maxDepth - depth + 1, 0
    {
      ghost var w := Config();
      ghost var v0 := visited;
      ghost var c0 := circularRefs;
      ghost var acc: (seq<Node>, seq<string>, set<string>) := ([], [], v0);
      children := [];
      for i := 0 to |refs|
        invariant maxDepth == w.maxDepth && visited == v0
        invariant acc == ExplodeChildren(w, v0, refs[..i], depth, root)
        invariant children == acc.0 && circularRefs == c0 + acc.1
      {
        var child := ExplodeDependencies(refs[i].workbook, refs[i].sheet, refs[i].cell, depth, root);
        ghost var last := Explode(w, v0, refs[i].workbook, refs[i].sheet, refs[i].cell, depth, root);
        ExplodeChildrenStep(w, v0, refs, i, depth, root, acc, last);
        AppendAssociates(c0, acc.1, last.1);
        acc := (acc.0 + [last.0], acc.1 + last.1, last.2);
        children := children + [child];
      }
      assert refs[..|refs|] == refs;
    }

    /** `get_explosion_summary`: the size, depth and kinds of the tree, with
        the cycles this exploder has recorded. */
    method GetExplosionSummary(tree: Node) returns (summary: Summary)
      ensures summary == Summary(Size(tree), MaxDepth(tree), Distribution(tree), |circularRefs|, circularRefs)
    {
      var total := CountNodes(tree);
      var counts := CountByType(tree, map[]);
      CountsAreDistribution(tree);
      summary := Summary(total, MaxDepth(tree), counts, |circularRefs|, circularRefs);
    }
  }

  /** `explode_cell_dependencies`: a fresh exploder walks from the cell at
      depth zero, then summarises the tree. */
  method ExplodeCellDependencies(read: Reader, workbook: string, sheet: string, cell: string, maxDepth: nat)
    returns (tree: Node, summary: Summary)
    ensures var res := Explode(Walk(true, read, ParseReferences, maxDepth), {}, workbook, sheet, cell, 0, "");
            tree == res.0 && summary == Summary(Size(tree), MaxDepth(tree), Distribution(tree), |res.1|, res.1)
  {
    var exploder := new DependencyExploder(read, maxDepth);
    tree := exploder.ExplodeDependencies(workbook, sheet, cell, 0, "");
    summary := exploder.GetExplosionSummary(tree);
  }

  // ---------------------------------------------------------------------------
  // The summary
  // ---------------------------------------------------------------------------

  datatype Summary = Summary(totalNodes: nat, maxDepth: nat, typeDistribution: map<string, nat>,
                             circularReferences: nat, circularRefList: seq<string>)

  /** The number of nodes of a tree. */
  function Size(n: Node): nat
    decreases n, 1
  {
    1 + SizeAll(n.children)
  }

  function SizeAll(ns: seq<Node>): nat
    decreases ns, 0
  {
    if ns == [] then 0 else SizeAll(ns[..|ns| - 1]) + Size(ns[|ns| - 1])
  }

  /** The type names of the nodes of a tree, with multiplicity. */
  function KindsOf(n: Node): multiset<string>
    decreases n, 1
  {
    multiset{KindName(n.kind)} + KindsOfAll(n.children)
  }

  function KindsOfAll(ns: seq<Node>): multiset<string>
    decreases ns, 0
  {
    if ns == [] then multiset{} else KindsOfAll(ns[..|ns| - 1]) + KindsOf(ns[|ns| - 1])
  }

  /** The type distribution: each type name that occurs with its number of
      nodes. */
  function Distribution(n: Node): map<string, nat>
  {
    map t | t in KindsOf(n) :: KindsOf(n)[t]
  }

  /** `get_max_depth`: the depth of a leaf, or the largest over the
      children. */
  function MaxDepth(n: Node): nat
    decreases n, 1
  {
    if n.children == [] then n.depth else MaxDepthAll(n.children)
  }

  function MaxDepthAll(ns: seq<Node>): nat
    requires ns != []
    decreases ns, 0
  {
    if |ns| == 1 then MaxDepth(ns[0])
    else
      var a := MaxDepthAll(ns[..|ns| - 1]);
      var b := MaxDepth(ns[|ns| - 1]);
      if a < b then b else a
  }

  /** The depths of the leaves of a tree. */
  function LeafDepths(n: Node): set<nat>
    decreases n, 1
  {
    if n.children == [] then {n.depth} else LeafDepthsAll(n.children)
  }

  function LeafDepthsAll(ns: seq<Node>): set<nat>
    decreases ns, 0
  {
    if ns == [] then {} else LeafDepthsAll(ns[..|ns| - 1]) + LeafDepths(ns[|ns| - 1])
  }

  /** The nodes the walk marked as closing a cycle. */
  function Circulars(n: Node): nat
    decreases n, 1
  {
    (if n.kind == CircularRef then 1 else 0) + CircularsAll(n.children)
  }

  function CircularsAll(ns: seq<Node>): nat
    decreases ns, 0
  {
    if ns == [] then 0 else CircularsAll(ns[..|ns| - 1]) + Circulars(ns[|ns| - 1])
  }

  /** `count_nodes`: one for the node plus the count of each child. */
  method CountNodes(n: Node) returns (count: nat)
    ensures count == Size(n)
    decreases n
  {
    count := 1;
    for i := 0 to |n.children|
      invariant count == 1 + SizeAll(n.children[..i])
    {
      assert n.children[..i + 1][..i] == n.children[..i];
      var c := CountNodes(n.children[i]);
      count := count + c;
    }
    assert n.children[..|n.children|] == n.children;
  }

  function Count(counts: map<string, nat>, t: string): nat
  {
    if t in counts then counts[t] else 0
  }

  /** The type names of a tree in the order `count_by_type` visits them:
      the node, then each child's subtree in turn. */
  function Preorder(n: Node): seq<string>
    decreases n, 1
  {
    [KindName(n.kind)] + PreorderAll(n.children)
  }

  function PreorderAll(ns: seq<Node>): seq<string>
    decreases ns, 0
  {
    if ns == [] then [] else PreorderAll(ns[..|ns| - 1]) + Preorder(ns[|ns| - 1])
  }

  /** One more occurrence of `t`. */
  function Bump(counts: map<string, nat>, t: string): map<string, nat>
  {
    counts[t := Count(counts, t) + 1]
  }

  /** The counts after adding each name of `names` in turn. */
  function AddNames(counts: map<string, nat>, names: seq<string>): map<string, nat>
  {
    if names == [] then counts else Bump(AddNames(counts, names[..|names| - 1]), names[|names| - 1])
  }

  /** `count_by_type`: adds the tree's type names to the counts it is given,
      in visiting order (the source updates one dictionary in place; here it
      is passed in and returned). */
  method CountByType(n: Node, counts: map<string, nat>) returns (r: map<string, nat>)
    ensures r == AddNames(counts, Preorder(n))
    decreases n
  {
    var name := KindName(n.kind);
    r := Bump(counts, name);
    assert r == AddNames(counts, [name]);
    for i := 0 to |n.children|
      invariant r == AddNames(counts, [name] + PreorderAll(n.children[..i]))
    {
      var child := n.children[i];
      ghost var before := [name] + PreorderAll(n.children[..i]);
      r := CountByType(child, r);
      AddNamesAppend(counts, before, Preorder(child));
      assert n.children[..i + 1][..i] == n.children[..i];
      AppendAssociates([name], PreorderAll(n.children[..i]), Preorder(child));
    }
    assert n.children[..|n.children|] == n.children;
  }

  lemma {:induction false} AddNamesAppend(counts: map<string, nat>, a: seq<string>, b: seq<string>)
    ensures AddNames(AddNames(counts, a), b) == AddNames(counts, a + b)
    decreases |b|
  {
    if b != [] {
      AddNamesAppend(counts, a, b[..|b| - 1]);
      assert (a + b)[..|a + b| - 1] == a + b[..|b| - 1];
    } else {
      assert a + b == a;
    }
  }

  /** Adding names counts each name as often as it occurs, and keeps the
      other entries. */
  lemma {:induction false} AddNamesCounts(counts: map<string, nat>, names: seq<string>)
    ensures forall t :: t in AddNames(counts, names) <==> t in counts || t in multiset(names)
    ensures forall t :: Count(AddNames(counts, names), t) == Count(counts, t) + multiset(names)[t]
  {
    if names != [] {
      var front := names[..|names| - 1];
      AddNamesCounts(counts, front);
      assert names == front + [names[|names| - 1]];
    }
  }

  /** The visiting order holds each node's type name once. */
  lemma {:induction false} PreorderKinds(n: Node)
    ensures multiset(Preorder(n)) == KindsOf(n)
    decreases n, 1
  {
    PreorderKindsAll(n.children);
  }

  lemma {:induction false} PreorderKindsAll(ns: seq<Node>)
    ensures multiset(PreorderAll(ns)) == KindsOfAll(ns)
    decreases ns, 0
  {
    if ns != [] {
      PreorderKindsAll(ns[..|ns| - 1]);
      PreorderKinds(ns[|ns| - 1]);
    }
  }

  /** Counting from an empty dictionary gives the type distribution. */
  lemma CountsAreDistribution(n: Node)
    ensures AddNames(map[], Preorder(n)) == Distribution(n)
  {
    var counts := AddNames(map[], Preorder(n));
    AddNamesCounts(map[], Preorder(n));
    PreorderKinds(n);
    forall t | t in counts
      ensures counts[t] == Distribution(n)[t]
    {
      assert Count(counts, t) == counts[t];
    }
  }

  // ---------------------------------------------------------------------------
  // Properties of the walk
  // ---------------------------------------------------------------------------

  /** The same, for the first `i + 1` references of `refs`. */
  lemma ExplodeChildrenStep(w: Walk, visited: set<string>, refs: seq<Reference>, i: nat, depth: nat, root: string,
                            init: (seq<Node>, seq<string>, set<string>), last: (Node, seq<string>, set<string>))
    requires 0 < depth <= w.maxDepth && i < |refs|
    requires init == ExplodeChildren(w, visited, refs[..i], depth, root)
    requires last == Explode(w, init.2, refs[i].workbook, refs[i].sheet, refs[i].cell, depth, root)
    ensures ExplodeChildren(w, visited, refs[..i + 1], depth, root) == (init.0 + [last.0], init.1 + last.1, last.2)
  {
    ExplodeChildrenSnoc(w, visited, refs[..i], refs[i], depth, root, init, last);
    assert refs[..i + 1] == refs[..i] + [refs[i]];
  }

  /** One more reference adds the walk from it, started from the visited
      set the earlier ones left. */
  lemma ExplodeChildrenSnoc(w: Walk, visited: set<string>, refs: seq<Reference>, r: Reference, depth: nat, root: string,
                            init: (seq<Node>, seq<string>, set<string>), last: (Node, seq<string>, set<string>))
    requires 0 < depth <= w.maxDepth
    requires init == ExplodeChildren(w, visited, refs, depth, root)
    requires last == Explode(w, init.2, r.workbook, r.sheet, r.cell, depth, root)
    ensures ExplodeChildren(w, visited, refs + [r], depth, root) == (init.0 + [last.0], init.1 + last.1, last.2)
  {
    assert (refs + [r])[..|refs|] == refs;
  }

  /** The children are the cells of the references, in order, at `depth`. */
  predicate FollowReferences(kids: seq<Node>, refs: seq<Reference>, depth: nat)
  {
    |kids| == |refs|
    && forall i :: 0 <= i < |refs| ==> kids[i].workbook == refs[i].workbook && kids[i].sheet == refs[i].sheet
                                       && kids[i].cell == refs[i].cell && kids[i].depth == depth
  }

  /** There is one child per reference, in order, for the cell the reference
      names, one level down. */
  lemma {:induction false} ChildrenFollowReferences(w: Walk, visited: set<string>, refs: seq<Reference>, depth: nat, root: string)
    requires 0 < depth <= w.maxDepth
    ensures FollowReferences(ExplodeChildren(w, visited, refs, depth, root).0, refs, depth)
    decreases |refs|
  {
    if refs != [] {
      var front := refs[..|refs| - 1];
      var r := refs[|refs| - 1];
      ChildrenFollowReferences(w, visited, front, depth, root);
      var init := ExplodeChildren(w, visited, front, depth, root);
      var last := Explode(w, init.2, r.workbook, r.sheet, r.cell, depth, root);
      ExplodeChildrenSnoc(w, visited, front, r, depth, root, init, last);
      assert front + [r] == refs;
      FollowSnoc(init.0, last.0, front, r, depth);
    }
  }

  lemma FollowSnoc(kids: seq<Node>, n: Node, refs: seq<Reference>, r: Reference, depth: nat)
    requires FollowReferences(kids, refs, depth)
    requires n.workbook == r.workbook && n.sheet == r.sheet && n.cell == r.cell && n.depth == depth
    ensures FollowReferences(kids + [n], refs + [r], depth)
  {
    assert forall i :: 0 <= i < |refs| ==> (kids + [n])[i] == kids[i] && (refs + [r])[i] == refs[i];
  }

  /** No node is deeper than the limit, and each child is one level below its
      parent. */
  predicate DepthsWithin(n: Node, maxDepth: nat)
  {
    n.depth <= maxDepth && AllWithin(n.children, n.depth + 1, maxDepth)
  }

  /** Every node of `ns` is at `depth` and its subtree within the limit. */
  predicate AllWithin(ns: seq<Node>, depth: nat, maxDepth: nat)
  {
    forall i :: 0 <= i < |ns| ==> ns[i].depth == depth && DepthsWithin(ns[i], maxDepth)
  }

  /** A walk that starts within the depth limit builds a tree in which every
      node is within the limit and every child one level below its parent. */
  lemma {:induction false} ExplodeWithinDepth(w: Walk, visited: set<string>, workbook: string, sheet: string, cell: string,
                                              depth: nat, root: string)
    requires depth <= w.maxDepth
    ensures DepthsWithin(Explode(w, visited, workbook, sheet, cell, depth, root).0, w.maxDepth)
    decreases w.maxDepth - depth, 2
  {
    if depth < w.maxDepth && CellId(workbook, sheet, cell) !in visited {
      ReadWithinDepth(w, visited, w.read(workbook, sheet, cell), workbook, sheet, cell, depth, root);
    }
  }

  lemma {:induction false} ReadWithinDepth(w: Walk, visited: set<string>, outcome: ReadOutcome, workbook: string, sheet: string,
                                           cell: string, depth: nat, root: string)
    requires depth < w.maxDepth && CellId(workbook, sheet, cell) !in visited
    ensures DepthsWithin(ExplodeRead(w, visited, outcome, workbook, sheet, cell, depth, root).0, w.maxDepth)
    decreases w.maxDepth - depth, 1
  {
    if outcome.Returned? && outcome.info.CellRecord? && ChildFormula(outcome.info).Some? {
      var refs := w.parse(ChildFormula(outcome.info).value, workbook, sheet);
      ChildrenWithinDepth(w, visited + {CellId(workbook, sheet, cell)}, refs, depth + 1, CurrentWorkbook(root, workbook));
    }
  }

  lemma {:induction false} ChildrenWithinDepth(w: Walk, visited: set<string>, refs: seq<Reference>, depth: nat, root: string)
    requires 0 < depth <= w.maxDepth
    ensures AllWithin(ExplodeChildren(w, visited, refs, depth, root).0, depth, w.maxDepth)
    decreases w.maxDepth - depth + 1, 0, |refs|
  {
    if refs != [] {
      var front := refs[..|refs| - 1];
      var r := refs[|refs| - 1];
      ChildrenWithinDepth(w, visited, front, depth, root);
      var init := ExplodeChildren(w, visited, front, depth, root);
      var last := Explode(w, init.2, r.workbook, r.sheet, r.cell, depth, root);
      ExplodeWithinDepth(w, init.2, r.workbook, r.sheet, r.cell, depth, root);
      ExplodeChildrenSnoc(w, visited, front, r, depth, root, init, last);
      assert front + [r] == refs;
      AllWithinSnoc(init.0, last.0, depth, w.maxDepth);
    }
  }

  lemma AllWithinSnoc(ns: seq<Node>, n: Node, depth: nat, maxDepth: nat)
    requires AllWithin(ns, depth, maxDepth) && n.depth == depth && DepthsWithin(n, maxDepth)
    ensures AllWithin(ns + [n], depth, maxDepth)
  {
    assert forall i :: 0 <= i < |ns| ==> (ns + [n])[i] == ns[i];
  }

  /** At the depth limit the walk makes a limit leaf without reading the cell
      and records nothing. */
  lemma AtDepthLimit(w: Walk, other: Reader, visited: set<string>, workbook: string, sheet: string, cell: string,
                     depth: nat, root: string)
    requires depth >= w.maxDepth
    ensures var res := Explode(w, visited, workbook, sheet, cell, depth, root);
            res.0.kind == LimitReached && res.0.children == [] && res.1 == [] && res.2 == visited
            && res == Explode(w.(read := other), visited, workbook, sheet, cell, depth, root)
  {
  }

  /** A cell already on the current path is not read again: it becomes a
      cycle leaf and its key is recorded once. */
  lemma CycleCut(w: Walk, other: Reader, visited: set<string>, workbook: string, sheet: string, cell: string,
                 depth: nat, root: string)
    requires depth < w.maxDepth && CellId(workbook, sheet, cell) in visited
    ensures var res := Explode(w, visited, workbook, sheet, cell, depth, root);
            res.0.kind == CircularRef && res.0.children == [] && res.1 == [CellId(workbook, sheet, cell)] && res.2 == visited
            && res == Explode(w.(read := other), visited, workbook, sheet, cell, depth, root)
  {
  }

  /** A read that reports an error gives an error leaf carrying the message.
      As written, the source returns here without unmarking the cell, so the
      cell stays in the visited set; the corrected walk unmarks it. */
  lemma ReadErrorLeavesMark(w: Walk, visited: set<string>, workbook: string, sheet: string, cell: string,
                            depth: nat, root: string, message: string)
    requires depth < w.maxDepth && CellId(workbook, sheet, cell) !in visited
    requires w.read(workbook, sheet, cell) == Returned(ReadFailure(message))
    ensures var res := Explode(w, visited, workbook, sheet, cell, depth, root);
            res.0.kind == ErrorNode && res.0.error == Some(message) && res.0.children == [] && res.1 == []
            && (w.discardOnError ==> res.2 == visited)
            && (!w.discardOnError ==> res.2 == visited + {CellId(workbook, sheet, cell)})
  {
  }

  /** The consequence: a formula that names an unreadable cell twice (such as
      `=A1+A1`) gets, as written, a cycle leaf for the second reference,
      although there is no cycle; the corrected walk gives an error leaf for
      both. */
  lemma RepeatedUnreadableCell(w: Walk, visited: set<string>, r: Reference, depth: nat, root: string, message: string)
    requires 0 < depth < w.maxDepth && CellId(r.workbook, r.sheet, r.cell) !in visited
    requires w.read(r.workbook, r.sheet, r.cell) == Returned(ReadFailure(message))
    ensures var kids := ExplodeChildren(w, visited, [r, r], depth, root).0;
            kids[0].kind == ErrorNode
            && (w.discardOnError ==> kids[1].kind == ErrorNode)
            && (!w.discardOnError ==> kids[1].kind == CircularRef)
  {
    var e := Explode(w, visited, r.workbook, r.sheet, r.cell, depth, root);
    ReadErrorLeavesMark(w, visited, r.workbook, r.sheet, r.cell, depth, root, message);
    ExplodeChildrenSnoc(w, visited, [], r, depth, root, ([], [], visited), e);
    assert [] + [r] == [r];
    var first := ExplodeChildren(w, visited, [r], depth, root);
    var second := Explode(w, first.2, r.workbook, r.sheet, r.cell, depth, root);
    ExplodeChildrenSnoc(w, visited, [r], r, depth, root, first, second);
    assert [r] + [r] == [r, r];
    if w.discardOnError {
      ReadErrorLeavesMark(w, first.2, r.workbook, r.sheet, r.cell, depth, root, message);
    } else {
      CycleCut(w, w.read, first.2, r.workbook, r.sheet, r.cell, depth, root);
    }
  }

  /** A formula cell within the limit and not on the path gets one child per
      extracted reference, and the children's cycles are its cycles. */
  lemma FormulaCellChildren(w: Walk, visited: set<string>, workbook: string, sheet: string, cell: string,
                            depth: nat, root: string, info: CellInfo)
    requires depth < w.maxDepth && CellId(workbook, sheet, cell) !in visited
    requires w.read(workbook, sheet, cell) == Returned(info) && ChildFormula(info).Some?
    ensures var res := Explode(w, visited, workbook, sheet, cell, depth, root);
            var refs := w.parse(ChildFormula(info).value, workbook, sheet);
            res.0.kind == CellKind(FormulaType) && res.0.error == None
            && FollowReferences(res.0.children, refs, depth + 1)
            && res.1 == ExplodeChildren(w, visited + {CellId(workbook, sheet, cell)}, refs, depth + 1, CurrentWorkbook(root, workbook)).1
  {
    var refs := w.parse(ChildFormula(info).value, workbook, sheet);
    ChildrenFollowReferences(w, visited + {CellId(workbook, sheet, cell)}, refs, depth + 1, CurrentWorkbook(root, workbook));
  }

  /** A cell that is read and has no formula to follow is a leaf. */
  lemma ValueCellIsLeaf(w: Walk, visited: set<string>, workbook: string, sheet: string, cell: string,
                        depth: nat, root: string, info: CellInfo)
    requires depth < w.maxDepth && CellId(workbook, sheet, cell) !in visited
    requires w.read(workbook, sheet, cell) == Returned(info) && info.CellRecord? && ChildFormula(info).None?
    ensures var res := Explode(w, visited, workbook, sheet, cell, depth, root);
            res.0.children == [] && res.1 == [] && res.2 == visited && res.0.error == None
            && res.0.kind == CellKind(GetOr(info.cellType, UnknownType))
  {
  }

  /** The number of cycle leaves in the tree is the number of cycles the walk
      records. */
  lemma {:induction false} CircularsRecorded(w: Walk, visited: set<string>, workbook: string, sheet: string, cell: string,
                                             depth: nat, root: string)
    ensures var res := Explode(w, visited, workbook, sheet, cell, depth, root);
            Circulars(res.0) == |res.1|
    decreases w.maxDepth - depth, 2
  {
    if depth < w.maxDepth && CellId(workbook, sheet, cell) !in visited {
      ReadCircularsRecorded(w, visited, w.read(workbook, sheet, cell), workbook, sheet, cell, depth, root);
    }
  }

  lemma {:induction false} ReadCircularsRecorded(w: Walk, visited: set<string>, outcome: ReadOutcome, workbook: string,
                                                 sheet: string, cell: string, depth: nat, root: string)
    requires depth < w.maxDepth && CellId(workbook, sheet, cell) !in visited
    ensures var res := ExplodeRead(w, visited, outcome, workbook, sheet, cell, depth, root);
            Circulars(res.0) == |res.1|
    decreases w.maxDepth - depth, 1
  {
    if outcome.Returned? && outcome.info.CellRecord? && ChildFormula(outcome.info).Some? {
      var refs := w.parse(ChildFormula(outcome.info).value, workbook, sheet);
      ChildCircularsRecorded(w, visited + {CellId(workbook, sheet, cell)}, refs, depth + 1, CurrentWorkbook(root, workbook));
    }
  }

  lemma {:induction false} ChildCircularsRecorded(w: Walk, visited: set<string>, refs: seq<Reference>, depth: nat, root: string)
    requires 0 < depth <= w.maxDepth
    ensures var res := ExplodeChildren(w, visited, refs, depth, root);
            CircularsAll(res.0) == |res.1|
    decreases w.maxDepth - depth + 1, 0, |refs|
  {
    if refs != [] {
      var front := refs[..|refs| - 1];
      var r := refs[|refs| - 1];
      ChildCircularsRecorded(w, visited, front, depth, root);
      var init := ExplodeChildren(w, visited, front, depth, root);
      var last := Explode(w, init.2, r.workbook, r.sheet, r.cell, depth, root);
      CircularsRecorded(w, init.2, r.workbook, r.sheet, r.cell, depth, root);
      ExplodeChildrenSnoc(w, visited, front, r, depth, root, init, last);
      assert front + [r] == refs;
      assert (init.0 + [last.0])[..|init.0|] == init.0;
    }
  }

  /** Every node of the tree has a type the reader did not call
      `circular_ref`. */
  predicate NoReadCircular(n: Node)
    decreases n, 1
  {
    n.kind != CellKind("circular_ref") && NoReadCircularAll(n.children)
  }

  predicate NoReadCircularAll(ns: seq<Node>)
    decreases ns, 0
  {
    forall i :: 0 <= i < |ns| ==> NoReadCircular(ns[i])
  }

  /** The summary's `circular_ref` count in the type distribution agrees with
      the number of cycle leaves, provided no cell read reports that type. */
  lemma {:induction false} CircularTally(n: Node)
    requires NoReadCircular(n)
    ensures KindsOf(n)["circular_ref"] == Circulars(n)
    decreases n, 1
  {
    CircularTallyAll(n.children);
  }

  lemma {:induction false} CircularTallyAll(ns: seq<Node>)
    requires NoReadCircularAll(ns)
    ensures KindsOfAll(ns)["circular_ref"] == CircularsAll(ns)
    decreases ns, 0
  {
    if ns != [] {
      CircularTallyAll(ns[..|ns| - 1]);
      CircularTally(ns[|ns| - 1]);
    }
  }

  /** The node count is the number of type names counted. */
  lemma {:induction false} SizeIsKindCount(n: Node)
    ensures |KindsOf(n)| == Size(n)
    decreases n, 1
  {
    SizeIsKindCountAll(n.children);
  }

  lemma {:induction false} SizeIsKindCountAll(ns: seq<Node>)
    ensures |KindsOfAll(ns)| == SizeAll(ns)
    decreases ns, 0
  {
    if ns != [] {
      SizeIsKindCountAll(ns[..|ns| - 1]);
      SizeIsKindCount(ns[|ns| - 1]);
    }
  }

  /** The reported maximum depth is the greatest depth of a leaf. */
  lemma {:induction false} MaxDepthOfLeaves(n: Node)
    ensures MaxDepth(n) in LeafDepths(n)
    ensures forall d :: d in LeafDepths(n) ==> d <= MaxDepth(n)
    decreases n, 1
  {
    if n.children != [] {
      MaxDepthOfLeavesAll(n.children);
    }
  }

  lemma {:induction false} MaxDepthOfLeavesAll(ns: seq<Node>)
    requires ns != []
    ensures MaxDepthAll(ns) in LeafDepthsAll(ns)
    ensures forall d :: d in LeafDepthsAll(ns) ==> d <= MaxDepthAll(ns)
    decreases ns, 0
  {
    MaxDepthOfLeaves(ns[|ns| - 1]);
    if |ns| > 1 {
      MaxDepthOfLeavesAll(ns[..|ns| - 1]);
    } else {
      assert ns[..0] == [];
    }
  }

  /** In a tree within the limit the reported maximum depth lies between the
      root's depth and the limit. */
  lemma {:induction false} MaxDepthWithin(n: Node, maxDepth: nat)
    requires DepthsWithin(n, maxDepth)
    ensures n.depth <= MaxDepth(n) <= maxDepth
    decreases n, 1
  {
    if n.children != [] {
      MaxDepthWithinAll(n.children, n.depth + 1, maxDepth);
    }
  }

  lemma {:induction false} MaxDepthWithinAll(ns: seq<Node>, depth: nat, maxDepth: nat)
    requires ns != [] && AllWithin(ns, depth, maxDepth)
    ensures depth <= MaxDepthAll(ns) <= maxDepth
    decreases ns, 0
  {
    MaxDepthWithin(ns[|ns| - 1], maxDepth);
    if |ns| > 1 {
      MaxDepthWithinAll(ns[..|ns| - 1], depth, maxDepth);
    }
  }

  /** The summary of a walk from depth zero reports a maximum depth within
      the limit. */
  lemma SummaryDepthWithinLimit(w: Walk, visited: set<string>, workbook: string, sheet: string, cell: string, root: string)
    ensures MaxDepth(Explode(w, visited, workbook, sheet, cell, 0, root).0) <= w.maxDepth
  {
    ExplodeWithinDepth(w, visited, workbook, sheet, cell, 0, root);
    MaxDepthWithin(Explode(w, visited, workbook, sheet, cell, 0, root).0, w.maxDepth);
  }

  // ---------------------------------------------------------------------------
  // Display addresses
  // ---------------------------------------------------------------------------

  /** The extension test agrees with `endswith`: each of the three
      extensions is dropped, and a name with none of them is kept. */
  lemma ExcelExtensionDropped(name: string)
    ensures EndsWith(name, ".xlsx") || EndsWith(name, ".xlsm") ==> DropExcelExtension(name) == name[..|name| - 5]
    ensures !EndsWith(name, ".xlsx") && !EndsWith(name, ".xlsm") && EndsWith(name, ".xls") ==> DropExcelExtension(name) == name[..|name| - 4]
    ensures !EndsWith(name, ".xlsx") && !EndsWith(name, ".xlsm") && !EndsWith(name, ".xls") ==> DropExcelExtension(name) == name
  {
    var n := |name|;
    if n >= 5 {
      var t := name[n - 5..];
      assert t[0] == name[n - 5] && t[1] == name[n - 4] && t[2] == name[n - 3] && t[3] == name[n - 2] && t[4] == name[n - 1];
    }
    if n >= 4 {
      var t := name[n - 4..];
      assert t[0] == name[n - 4] && t[1] == name[n - 3] && t[2] == name[n - 2] && t[3] == name[n - 1];
    }
  }

  /** The root node, read at depth zero, shows its file name in brackets and
      its full form names the folder as well. */
  lemma RootNodeForms(root: string, workbook: string, sheet: string, cell: string)
    ensures ReadForms(root, workbook, sheet, cell, 0)
            == ("[" + BaseName(workbook) + "]" + sheet + "!" + cell,
                "'" + DirName(workbook) + "\\[" + BaseName(workbook) + "]" + sheet + "'!" + cell)
  {
  }

  /** A node below the root in the root's own workbook shows `sheet!cell`. */
  lemma LocalNodeForms(root: string, workbook: string, sheet: string, cell: string, depth: nat)
    requires depth > 0 && CurrentWorkbook(root, workbook) == workbook
    ensures ReadForms(root, workbook, sheet, cell, depth) == (sheet + "!" + cell, sheet + "!" + cell)
    ensures LeafAddress(root, workbook, sheet, cell) == sheet + "!" + cell
  {
  }
}
