# Formula-reference machinery of a spreadsheet dependency tracer

This project models the parts of the tracer that work on formula text. It has
three of them.

1. **The unified INDIRECT resolver** (`indirect_tool/unified_indirect_resolver.py`).
   It works in "pure" mode. The argument of the first `INDIRECT(` is found with a
   quote-aware balanced-parenthesis scan. Its `[n]` external-link placeholders are
   substituted. If it holds an `&`, it is cut at every `&` outside quotes. Each part
   is classified as a string constant, a cell, a function call or another expression
   and resolved. The resolved texts are then concatenated into the final reference.
   - Cells are read from a `Sheet`, a map from coordinates to values. A formula found
     in a cell is evaluated by the resolver's small evaluator: single-column `SUM`,
     `&` concatenation, `ROW()`/`ROW()+N`, `COLUMN()` and a linear-scan `VLOOKUP`.
   - The external-link table is a class whose method fills it in place from the
     workbooks found next to the open one.
2. **The dependency explosion engine** (`utils/dependency_exploder.py`).
   - A reference extractor takes all sheet-qualified matches first, then every bare
     `A1`-style match that lies outside their spans. Both regular expressions are
     written out as scanners.
   - A depth-first walk with a depth limit and a path-scoped visited set. It is a
     class whose methods mutate the visited set and the list of cycles.
   - The tree summary.
   - The cell reader is a function parameter that returns a record, an error record,
     or an exception message.
3. **The archived resolver** (`archive/indirect_testing_archive/indirect_resolver.py`).
   This is the older, non-quote-aware predecessor. It has its own INDIRECT test and
   extraction, a dispatch over four parameter paths, plain-text cell substitution
   and a naive `&` concatenation. Lemmas state where it differs from the
   quote-aware splitter.

Modules:
- `Text`: strings, stripping, searching, decimal digits.
- `Cells`: values, coordinates, column letters.
- `Scan`: the scanners and the `&` splitter.
- `Classify`: the component classifier.
- `Evaluate`: ROW/COLUMN, value matching and VLOOKUP, SUM.
- `Formulas`: cell formulas, the string-concatenation formula, VLOOKUP parsing, the smart function dispatch.
- `Links`: paths, the link table, placeholder substitution.
- `Pipeline`: component resolution, the final reference, the pure mode.
- `References`: `parse_formula_references`.
- `Exploder`: the walk and the summary.
- `Archive`: the archived resolver.

The loops of the source are methods with loop invariants, each proved equal to a
specification function. The properties are proved about those functions.

## Model

| member | source | states |
|---|---|---|
| Cells.ParseCoord | indirect_tool/unified_indirect_resolver.py:630-631 | a coordinate the worksheet library accepts has a row from 1 to 1048576 and a column of at least 1; a rejected coordinate is none (the library raises) |
| Cells.CellAt | indirect_tool/unified_indirect_resolver.py:630-631 | `worksheet[ref].value` is defined exactly for accepted coordinates; it is the stored value, or empty for a cell never written |
| Cells.ColumnLettersRoundTrip | indirect_tool/unified_indirect_resolver.py:1050-1055 | reading the letters of column n as base 26 with A = 1 gives back n |
| Cells.ColumnNumberRoundTrip | indirect_tool/unified_indirect_resolver.py:1050-1055 | every non-empty run of capitals is the letters of exactly one column number (the base-26 reading is a bijection) |
| Cells.ParsePlainCoord | indirect_tool/unified_indirect_resolver.py:843-844 | letters then digits, in any case, address the column those letters spell and the row those digits spell |
| Cells.CoordTextRoundTrip | indirect_tool/unified_indirect_resolver.py:692-694 | an address built as `f"{letters}{row}"` reads back as the same column and row |
| Scan.QuotedSpanIgnored | indirect_tool/unified_indirect_resolver.py:440-458 | parentheses inside a `'…'` or `"…"` span do not count: removing a whole quoted span leaves the depth and quote state unchanged |
| Scan.MatchedBodyUnique | indirect_tool/unified_indirect_resolver.py:440-461 | at most one prefix of a text is a balanced argument followed by its closing `)` |
| Scan.ScanToMatch | indirect_tool/unified_indirect_resolver.py:440-458 | the shared scanning loop stops exactly where the balanced scan closes (count back to zero) or at the end of the text, with the scan state reached there |
| Scan.IndirectContent | indirect_tool/unified_indirect_resolver.py:427-465 | none without `INDIRECT(` in any case; otherwise the balanced text after it up to its matching `)`, or none when the formula ends with the count still above zero |
| Scan.ClosedBody | indirect_tool/unified_indirect_resolver.py:460-461 | when the scan stops on a zero count, the text before the stop is a balanced argument and the stop is a `)` |
| Scan.ExtractIndirectContent | indirect_tool/unified_indirect_resolver.py:377-465 | both extractors (pure and spreadsheet-application mode) return the argument `IndirectContent` describes |
| Scan.CompleteFunction | indirect_tool/unified_indirect_resolver.py:958-1000 | the part itself when no `(` follows the start; otherwise a piece of the text from the start that reaches past the first `(` and ends with the `)` that balances it, or, only when no `)` ever balances it, runs to the end of the text |
| Scan.ExtractCompleteFunction | indirect_tool/unified_indirect_resolver.py:958-1000 | the loop returns exactly the call `CompleteFunction` describes |
| Scan.CompleteFunctionFromPartShape | indirect_tool/unified_indirect_resolver.py:942-956 | a part with equal, non-zero counts of `(` and `)` is kept; any other part is re-expanded into a piece of the full text starting at its first occurrence, which is the part itself when no `(` follows |
| Scan.SmartSplit | indirect_tool/unified_indirect_resolver.py:879-917 | the splitting loop returns exactly `SmartSplitParts`: the raw segments between unquoted `&`s, stripped, blank ones dropped |
| Scan.SmartSplitPartsShape | indirect_tool/unified_indirect_resolver.py:879-917 | every part is non-empty, has no surrounding whitespace, is one raw segment stripped, and has no `&` outside its own quotes |
| Scan.RawSegmentsRoundTrip | indirect_tool/unified_indirect_resolver.py:879-917 | joining the raw segments with `&` gives back the text: only unquoted separators are lost, and quote characters are kept |
| Scan.QuotedAmpersandNotSplit | indirect_tool/unified_indirect_resolver.py:879-917 | `"a&b"&C1` gives exactly the two parts `"a&b"` and `C1` |
| Scan.NaiveSplitAgreesIff | archive/indirect_testing_archive/indirect_resolver.py:237 | the archived `split('&')` and the quote-aware split give the same segments if and only if no `&` lies inside quotes |
| Classify.IdentifyComponentType | indirect_tool/unified_indirect_resolver.py:919-940 | each class holds exactly when its test is the first to pass on the stripped part: a string constant (its inside) when it starts and ends with the same quote; otherwise a cell reference when it matches `$?[A-Z]+$?\d+`; otherwise a function call when it starts with capitals, optional spaces and `(`; otherwise an expression |
| Classify.CellRefIsNotFunction | indirect_tool/unified_indirect_resolver.py:930-935 | no cell-reference text matches the function head, so the cell and function tests cannot both apply |
| Classify.QuotedIsString | indirect_tool/unified_indirect_resolver.py:925-927 | a quoted part is the string constant of its inside, even when the inside looks like a cell or holds quotes |
| Classify.LettersDigitsIsCell | indirect_tool/unified_indirect_resolver.py:930-931 | capital letters followed by digits are classified as that cell |
| Classify.DollarLettersDigitsIsCell | indirect_tool/unified_indirect_resolver.py:930-931 | `$A$1`, `$A1` and `A$1` are classified as cell references, `$` signs kept |
| Classify.CallIsFunction | indirect_tool/unified_indirect_resolver.py:934-935 | `NAME(args)` with a capital name is a function call |
| Evaluate.ResolvePositionAware | indirect_tool/unified_indirect_resolver.py:1028-1059 | the method returns `PositionValue`: ROW is the first digit run of the context cell, plus N for `ROW()+N`; COLUMN is the base-26 value of its letters; otherwise the literal `ROW()`/`COLUMN()` |
| Evaluate.PositionOfCoordinate | indirect_tool/unified_indirect_resolver.py:1034-1055 | in the cell at column c, row r, ROW() is r and COLUMN() is c |
| Evaluate.RowPlusOffset | indirect_tool/unified_indirect_resolver.py:1038-1045 | `ROW()+N` in the cell at row r is r + N |
| Evaluate.MatchIgnoresCase | indirect_tool/unified_indirect_resolver.py:864-877 | a text lookup matches the same cells as its upper-cased form |
| Evaluate.MatchReflexive | indirect_tool/unified_indirect_resolver.py:864-877 | every non-empty value matches itself |
| Evaluate.StripUpperCommute | indirect_tool/unified_indirect_resolver.py:875 | stripping then upper-casing equals upper-casing then stripping, so the order inside the text comparison does not matter |
| Evaluate.PerformVlookup | indirect_tool/unified_indirect_resolver.py:811-862 | the scan returns `Vlookup`: the value of the first matching row of the start column, read from column `chr(start + index - 1)`; empty for a range without `:` or with no match |
| Evaluate.LookupRow | indirect_tool/unified_indirect_resolver.py:842-856 | one row yields nothing when its first cell cannot be read or does not match, otherwise the result-column cell; a failed read of that cell is skipped |
| Evaluate.ScanFromMiss | indirect_tool/unified_indirect_resolver.py:840-862 | when no row in the range yields a value, the lookup returns empty |
| Evaluate.ScanFromHit | indirect_tool/unified_indirect_resolver.py:841-856 | the lookup returns the value of the first row that yields one: earlier rows are scanned first and later rows are never consulted |
| Evaluate.CalculateSum | indirect_tool/unified_indirect_resolver.py:676-704 | the method returns `SumValue`: the start column's numeric sum over the row range, or empty when the `SUM(Xn:Ym)` pattern does not match |
| Evaluate.SumRows | indirect_tool/unified_indirect_resolver.py:691-698 | the row loop adds exactly the numbers in rows start to end inclusive of the start column |
| Evaluate.ColumnSumSplit | indirect_tool/unified_indirect_resolver.py:691-698 | a sum over a row range splits at any row in between |
| Evaluate.ColumnSumSkipsNonNumbers | indirect_tool/unified_indirect_resolver.py:694-697 | text and empty cells add nothing: a non-number in a cell sums as if the cell were absent |
| Evaluate.SumReadsStartColumn | indirect_tool/unified_indirect_resolver.py:679-689 | `=SUM(Xa:Yb)` is read as column X, rows a to b; the end column Y plays no part |
| Formulas.CellValueWithFormulaCalc | indirect_tool/unified_indirect_resolver.py:627-674 | an unreadable reference gives empty, and a cell not holding a formula gives its stored value unchanged |
| Formulas.CellHoldsFormula | indirect_tool/unified_indirect_resolver.py:630-644 | a cell holding text that starts with `=` is evaluated as that formula |
| Formulas.FormulaCellKnowsRow | indirect_tool/unified_indirect_resolver.py:655-659 | a cell holding `=ROW()` evaluates to its own row |
| Formulas.FormulaCellKnowsColumn | indirect_tool/unified_indirect_resolver.py:661-665 | a cell holding `=COLUMN()` evaluates to its own column |
| Formulas.CalculateStringConcat | indirect_tool/unified_indirect_resolver.py:706-754 | the method returns `StringConcatValue`: the joined pieces of the parts split outside quotes, or the formula body when a cell read fails |
| Formulas.JoinPartPieces | indirect_tool/unified_indirect_resolver.py:715-748 | the part loop returns the pieces joined in order, and none as soon as one part cannot be read |
| Formulas.JoinPiecesAppend | indirect_tool/unified_indirect_resolver.py:715-748 | joining distributes over the parts, and the whole fails when either side fails |
| Formulas.QuotedPartsConcat | indirect_tool/unified_indirect_resolver.py:719-722 | double-quoted constants concatenate to their insides, in order |
| Formulas.CellPiece | indirect_tool/unified_indirect_resolver.py:725-728 | a readable cell reference contributes the text of its value, nothing for an empty cell |
| Formulas.EmptyCellPiece | indirect_tool/unified_indirect_resolver.py:725-728 | a part naming an empty cell contributes the empty text |
| Formulas.CloseVlookup | indirect_tool/unified_indirect_resolver.py:762-766 | an expression already ending in `)` is kept; any other is extended from its stripped text and ends with `)` |
| Formulas.VlookupFourArgs | indirect_tool/unified_indirect_resolver.py:770-785 | `VLOOKUP(x,y,z,w)` with the name in any case is read as lookup x, table y, column z |
| Formulas.VlookupThreeArgs | indirect_tool/unified_indirect_resolver.py:770-785 | `VLOOKUP(x,y,z)` is read as lookup x, table y, column z when z has no comma and no `)` |
| Formulas.VlookupOfCall | indirect_tool/unified_indirect_resolver.py:756-809 | a complete call whose column reads as n looks up the lookup operand in the stripped table at column n |
| Formulas.ParseIntOfString | indirect_tool/unified_indirect_resolver.py:787-791 | `int(str(n)) == n`, sign included |
| Formulas.QuotedLookup | indirect_tool/unified_indirect_resolver.py:794-800 | a double-quoted lookup value is looked up as the text between the quotes |
| Formulas.ResolveFunctionSmart | indirect_tool/unified_indirect_resolver.py:1002-1026 | text starting with none of VLOOKUP, ROW and COLUMN, in any case, is returned as itself |
| Formulas.SmartRowOfCell | indirect_tool/unified_indirect_resolver.py:1012-1013 | ROW() resolved in the context of a cell gives that cell's row |
| Formulas.SmartColumnOfCell | indirect_tool/unified_indirect_resolver.py:1016-1017 | COLUMN() resolved in the context of a cell gives that cell's column |
| Links.SplitPath | indirect_tool/unified_indirect_resolver.py:543-544 | a path is its directory, one separator and its file name, and the file name holds no separator |
| Links.BaseNameOfJoin | indirect_tool/unified_indirect_resolver.py:523-545 | the file name shown for a workbook path built by `join(dir, name)` is `name` |
| Links.NoPlaceholderUnchanged | indirect_tool/unified_indirect_resolver.py:532-551 | text without `[` comes back unchanged |
| Links.ReplacesPlaceholder | indirect_tool/unified_indirect_resolver.py:535-549 | a leading `[digits]` becomes its replacement and the rest is substituted on its own |
| Links.UnknownIndex | indirect_tool/unified_indirect_resolver.py:546 | an index missing from the table becomes `[Unknown_digits]` |
| Links.MergeKeeps | indirect_tool/unified_indirect_resolver.py:521-527 | the inference loop keeps every table entry whose key it does not write |
| Links.MergeWrites | indirect_tool/unified_indirect_resolver.py:521-527 | the k-th existing common workbook is written under link number `index + k` |
| Links.MergeOnly | indirect_tool/unified_indirect_resolver.py:521-527 | the loop adds no key besides the link numbers it writes |
| Links.ExternalLinkTable.constructor | indirect_tool/unified_indirect_resolver.py:46 | a new resolver starts with an empty link table |
| Links.ExternalLinkTable.InferExternalLinks | indirect_tool/unified_indirect_resolver.py:511-530 | the table after inference is the old table merged with the existing common workbooks, numbered from 1 in list order |
| Links.ExternalLinkTable.InferredThenFixed | indirect_tool/unified_indirect_resolver.py:511-551 | after inference `[k]` names the k-th existing common workbook; an index past them stays unknown unless it was in the table before |
| Pipeline.ResolveConcatenationComponents | indirect_tool/unified_indirect_resolver.py:553-600 | the components are those of the quote-aware parts, one per part, in order |
| Pipeline.BuildFinalReference | indirect_tool/unified_indirect_resolver.py:602-625 | the loop returns the contributions of the components concatenated in order, with no separator |
| Pipeline.FinalReferenceAppend | indirect_tool/unified_indirect_resolver.py:602-625 | the final reference of two lists of components is the concatenation of their final references |
| Pipeline.FunctionResultIgnored | indirect_tool/unified_indirect_resolver.py:612-617 | a function component's computed result never reaches the final reference |
| Pipeline.QuotedPartsReference | indirect_tool/unified_indirect_resolver.py:553-625 | when every part is a quoted constant, the final reference is the concatenation of the texts inside the quotes |
| Pipeline.CellComponent | indirect_tool/unified_indirect_resolver.py:579-581 | a cell part resolves to that cell with its value, a formula in it evaluated |
| Pipeline.FunctionComponentParenthesised | indirect_tool/unified_indirect_resolver.py:584-617 | a function part contributes its completed call in parentheses, whatever the call evaluates to |
| Pipeline.ExpressionComponentParenthesised | indirect_tool/unified_indirect_resolver.py:592-617 | any other expression contributes its stripped text in parentheses |
| Pipeline.EmptyCellComponent | indirect_tool/unified_indirect_resolver.py:614-617 | an empty cell's part stays in the reference as its own name in parentheses |
| Pipeline.ValueCellComponent | indirect_tool/unified_indirect_resolver.py:614-615 | a cell holding a plain value contributes the text of that value |
| Pipeline.PureModeCalculation | indirect_tool/unified_indirect_resolver.py:347-375 | the method returns `PureMode`: none without an INDIRECT argument; otherwise the argument with placeholders substituted, resolved part by part when it holds `&` |
| Pipeline.PlainArgumentIsReference | indirect_tool/unified_indirect_resolver.py:353-371 | an argument without `&` and `[` is itself the resolved reference |
| Pipeline.NoIndirectNoReference | indirect_tool/unified_indirect_resolver.py:353-355 | without `INDIRECT(` there is no reference |
| References.CellAfterShape | utils/dependency_exploder.py:255 | the column of a sheet-qualified match is one to three capitals and its row one to seven digits |
| References.AnchoredFromShape | utils/dependency_exploder.py:257 | the sheet-qualified matches are each the match at their start, in text order, without overlap |
| References.BareAtIsCellWord | utils/dependency_exploder.py:308 | the bare scanner matches `s[a..b]` exactly when it is a whole word of one to three capitals then one to seven digits |
| References.BareFromFinds | utils/dependency_exploder.py:309 | every such whole word is reported by the bare scan |
| References.ParseFormulaReferences | utils/dependency_exploder.py:241-326 | the method returns `ParseReferences`: nothing unless the formula starts with `=`, then the sheet-qualified references followed by the bare ones |
| References.CollectAnchored | utils/dependency_exploder.py:257-305 | the first loop yields the references of the sheet-qualified matches and records every match's span |
| References.CollectBare | utils/dependency_exploder.py:309-324 | the second loop yields the references of the bare matches not inside a recorded span |
| References.IsProcessed | utils/dependency_exploder.py:310-314 | the span loop reports a match as processed exactly when a recorded span contains it |
| References.AnchoredKinds | utils/dependency_exploder.py:257-305 | sheet-qualified matches never give relative references |
| References.BareKinds | utils/dependency_exploder.py:316-324 | bare matches give relative references to the current workbook and sheet |
| References.AnchoredBeforeBare | utils/dependency_exploder.py:241-326 | every sheet-qualified reference precedes every relative one |
| References.FailedSplitSkipped | utils/dependency_exploder.py:280-296 | a prefix that does not split into workbook and sheet drops only its own match |
| References.CoveredMatchSkipped | utils/dependency_exploder.py:310-316 | a bare match inside a sheet-qualified span is never emitted |
| References.UncoveredMatchKept | utils/dependency_exploder.py:316-324 | a bare match outside every span is emitted, in place, as a relative reference |
| References.SplitOfTarget | utils/dependency_exploder.py:280-287 | `dir[file]sheet` splits at the last `]` and the last `[` into `join(dir, file)` and `sheet` |
| References.SplitWithoutOpen | utils/dependency_exploder.py:280-296 | without a `[` before the last `]` the prefix does not split |
| References.ExternalReferenceOf | utils/dependency_exploder.py:267-294 | `'dir[file]sheet'!A1` is an external reference to A1 of `sheet` in `join(dir, file)` |
| References.QuotedLocalSheet | utils/dependency_exploder.py:297-305 | `'name'!A1` is a local reference to sheet `name` of the current workbook |
| References.PlainLocalSheet | utils/dependency_exploder.py:297-305 | `name!A1` is a local reference to sheet `name` of the current workbook |
| Exploder.CollapseQuotedSpan | utils/dependency_exploder.py:130 | `''text''` loses one quote at each end |
| Exploder.CollapseWithoutDoubledQuotes | utils/dependency_exploder.py:130 | text without two quotes in a row is left as it is |
| Exploder.DependencyExploder.constructor | utils/dependency_exploder.py:14-17 | a new exploder has the given depth limit, no visited cells and no cycles |
| Exploder.DependencyExploder.ExplodeDependencies | utils/dependency_exploder.py:19-239 | returns the node `Explode` describes, appends the cycles found to `circular_refs`, and leaves the visited set as it was |
| Exploder.DependencyExploder.ExplodeReferences | utils/dependency_exploder.py:173-207 | one child per reference, in order, the cycles appended, the visited set restored |
| Exploder.DependencyExploder.GetExplosionSummary | utils/dependency_exploder.py:358-397 | node count, maximum depth, type distribution and the recorded cycles with their number |
| Exploder.ExplodeCellDependencies | utils/dependency_exploder.py:400-417 | a fresh exploder runs the corrected walk (an unreadable cell is unmarked, see Findings) from depth 0, and the summary describes that tree and its cycles |
| Exploder.CountNodes | utils/dependency_exploder.py:368-372 | the recursion counts the nodes of the tree |
| Exploder.CountByType | utils/dependency_exploder.py:379-389 | the counts gain each type name of the tree in visiting order |
| Exploder.AddNamesCounts | utils/dependency_exploder.py:379-389 | each name is counted as often as it occurs, and the other entries are kept |
| Exploder.CountsAreDistribution | utils/dependency_exploder.py:379-397 | counting from an empty dictionary gives the type distribution of the tree |
| Exploder.SizeIsKindCount | utils/dependency_exploder.py:368-397 | the distribution's values sum to the node count |
| Exploder.MaxDepthOfLeaves | utils/dependency_exploder.py:374-377 | the reported maximum depth is a leaf's depth and no leaf is deeper |
| Exploder.SummaryDepthWithinLimit | utils/dependency_exploder.py:36-58 | a walk from depth 0 reports a maximum depth within the depth limit |
| Exploder.ExplodeWithinDepth | utils/dependency_exploder.py:36-58 | no node is beyond the depth limit, and each child is one level below its parent |
| Exploder.AtDepthLimit | utils/dependency_exploder.py:36-58 | at the limit the result is a limit leaf; it records nothing, keeps the visited set and does not depend on the reader |
| Exploder.CycleCut | utils/dependency_exploder.py:61-84 | a cell already on the path becomes a cycle leaf, its id is recorded once, and the reader is not consulted |
| Exploder.ChildrenFollowReferences | utils/dependency_exploder.py:169-182 | one child per reference, in order, for the referenced cell, one level down |
| Exploder.FormulaCellChildren | utils/dependency_exploder.py:168-182 | a readable formula cell gets a child for each extracted reference, and the children's cycles are its own |
| Exploder.ValueCellIsLeaf | utils/dependency_exploder.py:152-169 | a cell with no formula to follow is a leaf of the type the reader gave; it records nothing and restores the visited set |
| Exploder.ReadErrorLeavesMark | utils/dependency_exploder.py:87-115 | a read reporting an error gives an error leaf with that message; as written the cell stays marked, and the corrected walk unmarks it |
| Exploder.RepeatedUnreadableCell | utils/dependency_exploder.py:87-115 | an unreadable cell named twice: as written the second child is a cycle leaf, and corrected both are error leaves |
| Exploder.CircularsRecorded | utils/dependency_exploder.py:61-84 | the number of cycle leaves in the tree equals the number of cycles recorded |
| Exploder.CircularTally | utils/dependency_exploder.py:379-397 | the summary's `circular_ref` count equals the number of cycle leaves, provided no reader reports that type |
| Exploder.ExcelExtensionDropped | utils/dependency_exploder.py:41-42 | `.xlsx`, `.xlsm` and `.xls` are dropped from a leaf's file name; other names are kept |
| Exploder.RootNodeForms | utils/dependency_exploder.py:136-145 | the root node shows `[file]sheet!cell` and names the folder in its full form |
| Exploder.LocalNodeForms | utils/dependency_exploder.py:146-150 | below the root, in the root's own workbook, both forms are `sheet!cell` |
| Archive.IndirectFormulaCases | archive/indirect_testing_archive/indirect_resolver.py:23-27 | a missing or empty formula is not an INDIRECT formula; one spelling INDIRECT in capitals or in lower case is |
| Archive.ExtractIndirectFunctions | archive/indirect_testing_archive/indirect_resolver.py:29-47 | the loop collects one entry per match of the INDIRECT pattern, as `IndirectCalls` describes |
| Archive.ExtractedCallsShape | archive/indirect_testing_archive/indirect_resolver.py:35-45 | every entry is a well-formed call, with an argument that is non-empty and free of `)`; entries come in text order without overlap |
| Archive.ExtractionGuardRedundant | archive/indirect_testing_archive/indirect_resolver.py:31-36 | the INDIRECT guard changes nothing: a formula failing it has no match anyway |
| Archive.UnclosedHasNoCall | archive/indirect_testing_archive/indirect_resolver.py:35 | without a `)` there is no match |
| Archive.PlainCallMatched | archive/indirect_testing_archive/indirect_resolver.py:35 | `INDIRECT(args)` with a plain argument is matched with exactly `args` as its parameters |
| Archive.ContainsCellReferencesIff | archive/indirect_testing_archive/indirect_resolver.py:153-157 | the cell test holds exactly when some whole word is capitals then digits |
| Archive.EvaluateStringConcatenation | archive/indirect_testing_archive/indirect_resolver.py:230-248 | the loop returns the naive concatenation: split on every `&`, trim, strip one enclosing `"` pair, glue |
| Archive.SplitJoin | archive/indirect_testing_archive/indirect_resolver.py:237 | splitting on `&` undoes joining when no piece holds `&` |
| Archive.QuotedJoinEvaluates | archive/indirect_testing_archive/indirect_resolver.py:230-248 | `"Sheet"&"2"&"!A1"`, and any quoted texts without `&`, evaluate to the texts glued together |
| Archive.QuotedAmpersandCut | archive/indirect_testing_archive/indirect_resolver.py:237-246 | an `&` inside quotes is cut too: `"a&b"` evaluates with its quotes kept, unlike the quote-aware split |
| Archive.SubstituteJoin | archive/indirect_testing_archive/indirect_resolver.py:166-184 | the corrected, whole-word substitution (see Findings) turns cell names joined by `&` into their quoted display texts joined by `&` |
| Archive.CellJoinResolves | archive/indirect_testing_archive/indirect_resolver.py:159-191 | under the corrected, whole-word substitution (see Findings), `D29&D26`, and any join of cell names, evaluates to their display texts glued together; as written this fails for names that prefix one another (`Archive.PrefixNameReplacedInside`) |
| Archive.ReadCellValues | archive/indirect_testing_archive/indirect_resolver.py:170-179 | one dictionary entry per cell name, with its display text or the empty text; repeated names keep their first place |
| Archive.ReplaceCellValues | archive/indirect_testing_archive/indirect_resolver.py:182-184 | each name in turn is replaced as plain text by its quoted value |
| Archive.ResolveCellReferenceParameters | archive/indirect_testing_archive/indirect_resolver.py:159-191 | the method returns the cell path as written: find, read, replace as plain text, concatenate |
| Archive.SingleCellAsWritten | archive/indirect_testing_archive/indirect_resolver.py:159-191 | a lone cell name gives its display text, as written and corrected alike |
| Archive.PrefixNameReplacedInside | archive/indirect_testing_archive/indirect_resolver.py:182-184 | as written, `A1&A10` with A1 = x and A10 = y gives `x"x"0` |
| Archive.PrefixNamesWholeWord | archive/indirect_testing_archive/indirect_resolver.py:182-184 | with whole-word substitution, `A1&A10` gives `xy` |
| Archive.ResolveIndirectParameters | archive/indirect_testing_archive/indirect_resolver.py:118-151 | the argument is left unresolved exactly when it has no cell name, no `"` and names ROW(), COLUMN(), CHAR( or CONCATENATE( |
| Archive.FunctionMarkerUnresolved | archive/indirect_testing_archive/indirect_resolver.py:140-143 | an argument naming one of those functions, with no cell name and no `"`, gives no result |
| Archive.CellJoinDispatched | archive/indirect_testing_archive/indirect_resolver.py:129-132 | an argument of cell names joined by `&` goes down the cell path and, with the corrected whole-word substitution, resolves to their display texts glued together |
| Archive.QuotedParametersNeverRead | archive/indirect_testing_archive/indirect_resolver.py:135-138 | an argument with `"` and no cell name is only evaluated, whatever the cells hold |
| Archive.PlainParametersKept | archive/indirect_testing_archive/indirect_resolver.py:141-147 | an argument with no cell name, no `"` and no function marker is returned as it is |
| Archive.ResolveIndirectFormula | archive/indirect_testing_archive/indirect_resolver.py:49-116 | `not_indirect` exactly for non-INDIRECT formulas; `no_indirect_found` exactly when no call is extracted; `success` exactly when a non-empty reference results; only the first call is resolved, and the resolved reference is that call's resolved argument when it is not empty |
| Archive.UnclosedIsNotFound | archive/indirect_testing_archive/indirect_resolver.py:61-79 | a formula mentioning INDIRECT with no `)` reports that no call was found |
| Archive.CellJoinFormulaResolves | archive/indirect_testing_archive/indirect_resolver.py:49-107 | `INDIRECT(D29&D26)` resolves with status success to the display texts glued together, when that text is not empty |
| Archive.FormulaCallMatched | archive/indirect_testing_archive/indirect_resolver.py:29-47 | in `INDIRECT(D29&D26)` the first call is the whole formula and its argument is the joined names |

## Left out

- Tk user interface, logging (`add_result`, `print`) and the `__main__` blocks: presentation and manual trial code only.
- Spreadsheet-application (COM) mode, `connect_to_excel`, `safe_excel_calculation`, `resolve_with_excel_mode`: these control a foreign process. The pure scan that mode shares is modelled (`Scan.ExtractIndirectContent`).
- The worksheet library: a sheet is a map from coordinates to values. The exploder's `read_cell_with_resolved_references` is a function parameter. The archive's reads are a map from cell names to display texts, where a name missing from the map is a read that raised. `_external_links` discovery is not part of this model.
- File existence in `infer_external_links_from_formulas` is a set of existing paths given as a parameter.
- `os.path.normpath`, `unquote` and `os.path.join`/`basename`/`dirname`: simple stand-ins. The workbook comparison uses text equality and no URL decoding is done.
- `Exploder.DependencyExploder.ExplodeDependencies`: the per-child `except` (utils/dependency_exploder.py:183-207) is not modelled. The recursive call catches every exception itself (214-239), so the only failure left is the reader raising, which is modelled as an error node.
- `_normalize_formula_paths` (utils/dependency_exploder.py:328-356): it is never called.
- `resolve_external_reference_full` (indirect_tool/unified_indirect_resolver.py:1062-1070): a hard-coded stub.
- The UI fallback `self.cell_var.get()` (indirect_tool/unified_indirect_resolver.py:1032): the context cell is a parameter.
- Floating point: cell numbers are integers. `isinstance(..., (int, float))` is modelled as "is a number".
- Upper-casing and `\s` are ASCII only, with no Unicode case mapping.
- `References.BareAt`: `\b` and `\d` are ASCII here. In the source they follow Unicode, so a cell name glued to a CJK letter (`價格A1`) is not matched there but is matched here.
- `Archive.CellWordAt`: `\b` and `\d` are ASCII here. In the source, `\d` also matches non-ASCII digits (`A１`) and `\b` treats any Unicode letter as a word character; `str.strip()` also drops Unicode spaces.
- `Formulas.ParseInt`: Python's `int()` also accepts `_` between digits (`"1_0"` is 10) and non-ASCII digits; the model rejects both.
- `_resolve_function_parameters` always returns `None`; the model gives no result on that path. `_resolve_hardcoded_parameters` is modelled as whole-word substitution followed by the naive concatenation. It is reached only when the argument holds no cell name, so its substitution never reads a cell (`Archive.QuotedParametersNeverRead`).
- The archive's unused `cache` dictionary (archive/indirect_testing_archive/indirect_resolver.py:21).
- The archive's `error` status (archive/indirect_testing_archive/indirect_resolver.py:109-116): every helper catches its own errors, so it cannot be reached.
- `Exploder.CountByType`: the source updates one dictionary in place; the method takes the counts and returns them.
- `Exploder.CircularTally`: holds only when no cell read itself reports the type `circular_ref`.
- `Pipeline.ResolveConcatenationComponents`: ROW()/COLUMN() inside a function part are resolved relative to the part's own text, because the source passes the part as context (indirect_tool/unified_indirect_resolver.py:588). The result never reaches the final reference (`Pipeline.FunctionResultIgnored`).
- `Archive.ResolveIndirectFormula`: the cell path uses whole-word substitution, the corrected behaviour. The plain-text replacement as written is `Archive.ResolveCellReferenceParameters`.

## Findings

| source | as written | input that shows it | evidently intended | confidence | as-written member | corrected member |
|---|---|---|---|---|---|---|
| utils/dependency_exploder.py:93-115 | a read that returns an error record returns before `discard`, so the cell stays in the visited set | `=A1+A1` with A1 unreadable: the second A1 becomes a `circular_ref` leaf | the cell is unmarked on every path out of the read, as on the success and exception paths | not executed | Exploder.RepeatedUnreadableCell | Exploder.DependencyExploder.ExplodeDependencies |
| archive/indirect_testing_archive/indirect_resolver.py:182-184 | each cell name is replaced with `str.replace`, so it is also replaced inside longer names | `A1&A10` with A1 = x and A10 = y gives `x"x"0` | replace cell names as whole words, giving `xy` | not executed | Archive.PrefixNameReplacedInside | Archive.PrefixNamesWholeWord |
