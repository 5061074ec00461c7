# Web table extraction, modelled in Dafny

This project models the core of a Rust library that pulls HTML tables out of web pages.
The core has three parts:

- **Table grid passes** (`src/table.rs`).
  - `Table::span` rewrites a table whose cells carry `colspan`/`rowspan` into an explicit grid of 1×1 cells.
    It first counts the columns, then places the cells row by row. A pending map holds the copies that rowspans project into later rows.
    It fails with `OverlapSpanError` when a colspan slot lands on a projected copy.
    It fails with `InvalidCellSpanError` when a colspan that is not the row's last runs into the column count.
  - `Table::pad` makes a ragged table rectangular with filler cells.
- **`SimpleTree`** (`src/misc/tree/simple_tree.rs`): an arena tree stored as a node vector plus a vector of child-id lists.
  It can add nodes and children, and it can splice another tree in.
  `merge_subtree` keeps the other tree's root; `merge_subtree_no_root` drops it.
- **The table extractor** (`src/extractors/table.rs`), which works in this order:
  1. Finds the `table` elements that contain no other table.
  2. Reads each one's caption, `thead`/`tbody` → `tr` → `td`/`th` structure and span attributes.
  3. Optionally spans the tables, dropping those whose span fails.
  4. Optionally pads them, keeping a table as it is when pad returns nothing.
  5. Optionally attaches their section context.
  6. Numbers them with a `table_no=i` query on the document URL.

Each part takes the form of its source:

- **Imperative code is modelled imperatively.** `Span`, `Pad`, the extractor loops and the `SimpleTree` methods are methods with loops. Each is proved equal to a functional model (`Spanned`, `Padded`, `ExtractTable`, `Discovered`, `SpanStep`, `WithContexts`, `Identified`, `Extracted`, `WithNode`, `WithChild`, `Merged`, `MergedNoRoot`). The properties are then lemmas about those functions.
- **`SimpleTree` is a class** with `seq` fields. `TreeValue` is the value it holds.
- **The parsed document is an abstract element tree** (`Dom.Node`).
- **Code whose source is not part of this model is a parameter.** Text extraction, attribute conversion, context extraction and URL parsing are function-valued fields of `Extractor.Collaborators`.

Modules:

- `Errors`: the error kinds, `Result` and `Option`.
- `Content`: attributes, rich text and context values.
- `Strings`: Rust's `trim`, `parse::<u16>` and `to_string`.
- `Collections`: filter, flat-map, and the first-error `collect`.
- `Tables` and `TableProperties`: the grid passes and their properties.
- `SimpleTrees`: the arena tree.
- `Dom`: the element tree.
- `Extractor` and `ExtractorProperties`: the extraction pipeline and its properties.

## Model

| member | source | states |
|---|---|---|
| Tables.Unit | src/table.rs:77-79 | the clone placed in the grid has colspan 1 and rowspan 1 and agrees with the source cell in every other field |
| Tables.MaxOf | src/table.rs:66 | the result is an element of the non-empty sequence and no element exceeds it |
| Tables.ColumnCount | src/table.rs:52-66 | the column count is the width of some row, and no row's width (own cells plus earlier cells whose rowspan covers it, each counted once) exceeds it |
| Tables.CountColumns | src/table.rs:52-64 | the per-row counts the nested loop builds are exactly the declarative widths: own cell count plus rowspan debt, with debt to rows past the end dropped |
| Tables.DrainOwed | src/table.rs:82-85 | after draining, nothing is pending at the cursor's position in the current row |
| Tables.DrainOwedLoop | src/table.rs:82-85 | the while loop that pops owed cells ends in the state given by DrainOwed |
| Tables.DrainEndLoop | src/table.rs:113-117 | the end-of-row loop, keyed (pj, pj), ends in the state given by DrainEnd |
| Tables.PlaceCellLoop | src/table.rs:76-111 | placing one source cell (drain, then one unit clone per colspan slot with rowspan projections, overlap and column-count checks) gives PlaceCell's outcome |
| Tables.SpanRowLoop | src/table.rs:72-121 | spanning one row gives SpanRow's outcome: the new pending map and the rebuilt row with its attributes |
| Tables.Span | src/table.rs:37-136 | Span equals the functional model Spanned; a table without rows is returned unchanged |
| Tables.Filler | src/table.rs:153-168 | the padding cell is 1×1 and carries the given header flag |
| Tables.Padded | src/table.rs:141-184 | None exactly when there are no rows or every row has row 0's length; otherwise every row is extended to the longest row's length, original cells kept as prefix, fillers copying the header flag of the row's last cell, and all other fields are kept |
| Tables.PadRowLoop | src/table.rs:163-173 | pushing the filler until the row reaches the width gives PadRow |
| Tables.PadRows | src/table.rs:162-174 | the row loop pads every row to the width, in order, and keeps the row count |
| Tables.Pad | src/table.rs:141-184 | Pad equals the functional model Padded |
| TableProperties.DrainOwedUnit | src/table.rs:82-85 | draining keeps every pending and placed cell 1×1 |
| TableProperties.DrainEndUnit | src/table.rs:113-117 | the end-of-row drain keeps every pending and placed cell 1×1 |
| TableProperties.ProjectUnit | src/table.rs:95-97 | projecting a 1×1 clone keeps every pending cell 1×1 |
| TableProperties.PlaceSlotsUnit | src/table.rs:88-109 | slot placement keeps every cell 1×1, and its only errors are the two span errors with empty message |
| TableProperties.PlaceCellsUnit | src/table.rs:76-111 | placing a row's cells keeps every cell 1×1, and its only errors are the two span errors |
| TableProperties.SpanRowsShape | src/table.rs:72-125 | spanning the remaining rows adds one row per input row, keeps each row's attributes, produces only 1×1 cells and fails only with a span error |
| TableProperties.SpanShape | src/table.rs:37-136 | on success the row count, every row's attributes and id/url/caption/attrs/context are kept and every cell is 1×1; failure is an overlap or invalid-span error |
| TableProperties.PlaceCellsIdentity | src/table.rs:76-111 | 1×1 cells that fit within the column count are placed in order, unchanged |
| TableProperties.SpanRowsIdentity | src/table.rs:72-125 | rows of 1×1 cells no wider than the column count come out unchanged |
| TableProperties.SpanUnitIdentity | src/table.rs:37-136 | a table whose cells are all 1×1 is spanned to itself |
| TableProperties.PlaceCellsNoOverlap | src/table.rs:88-92 | a row whose cells all have colspan 1 never raises an overlap while placing |
| TableProperties.SpanRowsNoOverlap | src/table.rs:88-92 | rows without any colspan above 1 never raise an overlap |
| TableProperties.SpanNoOverlapWithoutColspan | src/table.rs:88-92 | a table with no colspan above 1 never fails with OverlapSpanError |
| TableProperties.SpanThenPad | src/table.rs:37-184 | span followed by pad (falling back to the spanned table) gives a rectangular grid of 1×1 cells with the original row count |
| TableProperties.ProjectKeepsRow | src/table.rs:95-97 | projection registers copies only in later rows, never in the current one |
| TableProperties.PlaceSlotsOutcome | src/table.rs:88-109 | a cell's placement is an overlap exactly when one of the columns it reaches is already pending in the row; otherwise a non-last cell reaching the column count is an InvalidCellSpanError, the last cell is cut there, and every placed slot holds the unit clone |
| TableProperties.OverlapExample | src/table.rs:88-92 | a rowspan-2 cell above the second slot of a colspan-2 cell makes Span fail with OverlapSpanError |
| TableProperties.OverflowExample | src/table.rs:99-104 | a colspan running past the column count on a non-last cell makes Span fail with InvalidCellSpanError |
| TableProperties.TruncationExample | src/table.rs:99-107 | the same colspan on the row's last cell is silently cut at the column count |
| TableProperties.UnitPlacement | src/table.rs:76-111 | a 1×1 cell with nothing pending at the cursor and room to its right is placed at the cursor |
| TableProperties.DrainRowsColumns | src/table.rs:52-66 | in the three-row example every row, including the one covered by a rowspan-3 cell, is three columns wide |
| TableProperties.DrainRow0 | src/table.rs:72-121 | row 0 of the example places a, b, c and projects c to (1, 2) and (2, 2) |
| TableProperties.DrainRow1 | src/table.rs:113-117 | in row 1 the end-of-row drain takes the copy stored under key (2, 2) |
| TableProperties.DrainRow2 | src/table.rs:113-117 | row 2 then finds nothing at (2, 2) and keeps only its own two cells |
| TableProperties.EndDrainKeyExample | src/table.rs:113-117 | because the end-of-row drain looks up (pj, pj), a table of three-column rows spans to a last row of two cells |
| SimpleTrees.WithNode | src/misc/tree/simple_tree.rs:58-63 | adding a node appends it, appends an empty child list, and keeps all nodes, child lists and the root |
| SimpleTrees.WithChild | src/misc/tree/simple_tree.rs:65-70 | adding a child appends it to the parent's list only; the root becomes the parent exactly when the child was the root |
| SimpleTrees.Shifted | src/misc/tree/simple_tree.rs:110-114 | every id is moved up by the offset |
| SimpleTrees.Renumbered | src/misc/tree/simple_tree.rs:132-140 | ids above the dropped root move up by offset − 1, the others by offset |
| SimpleTrees.ShiftIds | src/misc/tree/simple_tree.rs:111-113 | the inner loop of merge_subtree leaves the child list at Shifted: every id moved up by the offset |
| SimpleTrees.ShiftLists | src/misc/tree/simple_tree.rs:110-114 | the outer loop shifts every child list of the subtree and keeps their number |
| SimpleTrees.RenumberIds | src/misc/tree/simple_tree.rs:133-139 | the inner loop of merge_subtree_no_root leaves the child list at Renumbered |
| SimpleTrees.RenumberLists | src/misc/tree/simple_tree.rs:132-140 | the outer loop renumbers every child list of the subtree and keeps their number |
| SimpleTrees.WithNodeWellFormed | src/misc/tree/simple_tree.rs:58-63 | adding a node preserves well-formedness (parallel vectors, root in range when non-empty, child ids in range) |
| SimpleTrees.WithChildWellFormed | src/misc/tree/simple_tree.rs:65-70 | adding an in-range child to an in-range parent preserves well-formedness |
| SimpleTrees.MergedCorrespondence | src/misc/tree/simple_tree.rs:106-117 | after merge_subtree the length is old + size, node old + k is the subtree's node k, list old + k is its list k shifted by old, the parent's list gains subtree root + old at the end, and root and old nodes are kept |
| SimpleTrees.MergedWellFormed | src/misc/tree/simple_tree.rs:106-117 | merging a non-empty well-formed subtree under an existing node preserves well-formedness |
| SimpleTrees.RenumberBijective | src/misc/tree/simple_tree.rs:132-140 | the renumbering maps the subtree's non-root ids one-to-one into [old, old + size − 1) |
| SimpleTrees.MergedNoRootCorrespondence | src/misc/tree/simple_tree.rs:120-150 | after merge_subtree_no_root the length is old + size − 1, every non-root node and child list lands at its renumbered id, the parent's list is extended in order by the root's renumbered children, and root and old nodes are kept |
| SimpleTrees.MergedNoRootWellFormed | src/misc/tree/simple_tree.rs:120-150 | when the subtree root is nobody's child, the merge without root preserves well-formedness |
| SimpleTrees.MergedNoRootDangling | src/misc/tree/simple_tree.rs:120-150 | without that condition a child id can point one past the end of the merged tree |
| SimpleTrees.SimpleTree.Empty | src/misc/tree/simple_tree.rs:12-18 | no nodes, no child lists, root 0 |
| SimpleTrees.SimpleTree.New | src/misc/tree/simple_tree.rs:20-26 | exactly the given node, root 0, one empty child list |
| SimpleTrees.SimpleTree.IsEmpty | src/misc/tree/simple_tree.rs:28-31 | true exactly when there are no nodes |
| SimpleTrees.SimpleTree.Len | src/misc/tree/simple_tree.rs:95-98 | the number of nodes |
| SimpleTrees.SimpleTree.GetRoot | src/misc/tree/simple_tree.rs:38-41 | the root node; only defined when the root is in range |
| SimpleTrees.SimpleTree.GetNode | src/misc/tree/simple_tree.rs:48-51 | node uid; only defined for an in-range uid |
| SimpleTrees.SimpleTree.GetChildIds | src/misc/tree/simple_tree.rs:72-75 | the child list of uid; only defined for an in-range uid |
| SimpleTrees.SimpleTree.SetNode | src/misc/tree/simple_tree.rs:53-56 | writing through get_node_mut replaces node uid and nothing else |
| SimpleTrees.SimpleTree.SetRoot | src/misc/tree/simple_tree.rs:43-46 | writing through get_root_mut replaces the root node and nothing else |
| SimpleTrees.SimpleTree.AddNode | src/misc/tree/simple_tree.rs:58-63 | returns the previous length and leaves the tree at WithNode of its old value |
| SimpleTrees.SimpleTree.AddChild | src/misc/tree/simple_tree.rs:65-70 | leaves the tree at WithChild of its old value |
| SimpleTrees.SimpleTree.MergeSubtree | src/misc/tree/simple_tree.rs:106-117 | the id-rewriting loops leave the tree at Merged of its old value and the subtree |
| SimpleTrees.SimpleTree.MergeSubtreeNoRoot | src/misc/tree/simple_tree.rs:120-150 | the id-rewriting loops leave the tree at MergedNoRoot of its old value and the subtree |
| Strings.SkipBlank | src/extractors/table.rs:284-285 | the position reached from i is the first that does not hold white space: everything skipped is white space and the character there is not |
| Strings.SkipBlankBack | src/extractors/table.rs:284-285 | going back from j, not below lo, only white space is skipped and the character before the stopping point is not white space |
| Strings.Trim | src/extractors/table.rs:284-285 | the result is the slice of the input starting at its first character other than white space, everything outside it is white space, and it has no white space at either end |
| Strings.TrimAround | src/extractors/table.rs:284-285 | text that starts and ends with a character other than white space trims to itself whatever white space surrounds it |
| Strings.TrimBlank | src/extractors/table.rs:287 | the trimmed value is empty exactly when the value is all white space |
| Strings.ParseU16 | src/extractors/table.rs:291-292 | the empty string and a lone + sign are rejected; the accepted forms are given by ParseU16Canonical and ParseU16Accepted |
| Strings.NatToString | src/extractors/table.rs:179 | the decimal form is non-empty digits without a leading zero |
| Strings.DecimalOfNatToString | src/extractors/table.rs:179 | the decimal form reads back as the number |
| Strings.NatToStringInjective | src/extractors/table.rs:179 | distinct numbers have distinct decimal forms |
| Strings.ParseU16OfNatToString | src/extractors/table.rs:291-292 | parsing the decimal form of a 16-bit value gives it back |
| Strings.ParseU16Plus | src/extractors/table.rs:291-292 | a leading + is accepted and does not change the value |
| Strings.DecimalZeroPrefix | src/extractors/table.rs:291-292 | leading zeros do not change the value of a digit string |
| Strings.DigitsCanonical | src/extractors/table.rs:291-292 | every non-empty digit string is zeros followed by the decimal form of its value |
| Strings.ParseU16Canonical | src/extractors/table.rs:291-292 | an optional +, any number of zeros and then the decimal form of a 16-bit value parse to that value |
| Strings.ParseU16Accepted | src/extractors/table.rs:291-292 | conversely every accepted string is an optional +, zeros and then the decimal form of the parsed value |
| Strings.ParseU16RejectsNonDigit | src/extractors/table.rs:291-292 | any character that is not a digit, other than one leading +, makes the parse fail |
| Strings.ParseU16RejectsOverflow | src/extractors/table.rs:291-292 | digits whose value is 65536 or more make the parse fail, with or without a + |
| Collections.Positions | src/extractors/table.rs:129-143 | the positions are in range, strictly increasing, and are exactly those whose element passes the test |
| Collections.CollectAll | src/extractors/table.rs:249 | a fallible step over a sequence succeeds exactly when every element succeeds, with the values in order; otherwise the result is the first element's error |
| Collections.FirstError | src/extractors/table.rs:249 | a failed loop reports the error of its first failing element, and every element before it succeeded |
| Collections.CollectAllFirstError | src/extractors/table.rs:117-123 | when one element fails and none before it does, its error is the result of the whole loop |
| Collections.CollectFilteredStops | src/extractors/table.rs:240-251 | once the selected elements before one have succeeded and it fails, its error is the result of the whole loop |
| Collections.CollectFlatStops | src/extractors/table.rs:226-258 | a failure in one section's rows, after earlier sections succeeded, is the result of the whole table |
| Dom.TableElements | src/extractors/table.rs:113-117 | every selected element is a table within the document |
| Extractor.NewExtractor | src/extractors/table.rs:36-62 | tags left unset default to discarding script, style, noscript and table and to ignoring div; no tag is kept |
| Extractor.DefaultExtractor | src/extractors/table.rs:84-100 | the default is the constructor with default tag sets and inline-only filtering off |
| Extractor.ParseSpan | src/extractors/table.rs:284-301 | an error is an InvalidCellSpanError carrying the trimmed, non-blank value |
| Extractor.ParseSpanMissing | src/extractors/table.rs:284-285 | a missing span attribute gives 1 |
| Extractor.ParseSpanBlank | src/extractors/table.rs:287-289 | a blank span attribute gives 1 |
| Extractor.ParseSpanDecimal | src/extractors/table.rs:290-294 | the decimal form of any 16-bit number, surrounded by white space, gives that number |
| Extractor.ParseSpanInvalid | src/extractors/table.rs:290-293 | a non-blank value that does not parse gives InvalidCellSpanError with the trimmed value |
| Extractor.ExtractCell | src/extractors/table.rs:279-320 | a cell is read exactly when both spans parse; it is a header exactly when its tag is th; colspan is reported first |
| Extractor.CaptionIsLast | src/extractors/table.rs:220-224 | the caption is the text of the last caption child |
| Extractor.CaptionAbsent | src/extractors/table.rs:214-224 | without a caption child the caption is empty |
| Extractor.ExtractedTableShape | src/extractors/table.rs:226-258 | rows come only from tr children of thead/tbody children, cells only from td/th children of those rows, in order |
| Extractor.ExtractCells | src/extractors/table.rs:240-251 | the cell loop reads the td and th children in order and stops at the first failure |
| Extractor.ExtractSectionRows | src/extractors/table.rs:232-258 | the row loop reads the tr children in order and stops at the first failure |
| Extractor.ExtractRowError | src/extractors/table.rs:242-251 | reading a row fails only with an InvalidCellSpanError from one of its cells |
| Extractor.ExtractTableError | src/extractors/table.rs:234-261 | reading a table fails only with an InvalidCellSpanError from one of its cells |
| Extractor.DiscoveredError | src/extractors/table.rs:117-123 | a failed discovery reports an InvalidCellSpanError from the first candidate table whose reading fails |
| Extractor.ExtractNonNestedTable | src/extractors/table.rs:214-272 | the whole loop equals ExtractTable: last caption, rows of every thead/tbody, first error aborts |
| Extractor.Candidates | src/extractors/table.rs:113-120 | the candidates are exactly the document's table elements without a table below them |
| Extractor.Discover | src/extractors/table.rs:113-123 | the discovery loop extracts every candidate in order, keeps them paired with their elements, and fails on the first failure |
| Extractor.SpanStep | src/extractors/table.rs:125-146 | the span filter keeps tables and elements paired and never grows the list |
| Extractor.Survivors | src/extractors/table.rs:129-143 | the kept positions increase and are exactly those whose span succeeds |
| Extractor.SpanStepSurvivors | src/extractors/table.rs:125-146 | the span filter never fails; it keeps exactly the spanned tables that succeed, in order, each with its own element |
| Extractor.SpanTables | src/extractors/table.rs:125-146 | the span loop equals SpanStep |
| Extractor.SpanStepSticky | src/extractors/table.rs:135-140 | an error that aborts the span loop is the loop's result |
| Extractor.PadAll | src/extractors/table.rs:148-153 | the pad step keeps the number of tables |
| Extractor.WithContexts | src/extractors/table.rs:155-164 | the context step succeeds exactly when every element's context does, and each table gets its own element's context |
| Extractor.AttachContexts | src/extractors/table.rs:155-164 | the in-place context loop equals WithContexts |
| Extractor.QueryPrefix | src/extractors/table.rs:168-175 | the id query starts with table_no= or with the document's query followed by &table_no= |
| Extractor.Identified | src/extractors/table.rs:176-184 | table i gets the document URL with query prefix + i as id and the document URL as url; everything else is kept |
| Extractor.AssignIds | src/extractors/table.rs:176-184 | the loop that extends and truncates the query buffer equals Identified |
| Extractor.IdQueriesDistinct | src/extractors/table.rs:178-182 | different table numbers give different queries |
| Extractor.Kept | src/extractors/table.rs:125-146 | the kept tables and elements stay paired |
| Extractor.ExtractTables | src/extractors/table.rs:103-184 | extract_tables, up to the id step, equals Extracted |
| ExtractorProperties.PadAllFallback | src/extractors/table.rs:148-153 | a table without rows or already rectangular is kept as it is; any other is replaced by its rectangular padded form with its cells as row prefixes |
| ExtractorProperties.ExtractedAbortsOnCellError | src/extractors/table.rs:117-123 | a span attribute that fails to parse in any candidate table fails the whole extraction; the error is an InvalidCellSpanError and comes from the first candidate, in document order, whose reading fails |
| ExtractorProperties.ExtractedIsFinished | src/extractors/table.rs:113-184 | a successful extraction had every candidate read, the span filter succeed, and is the finishing steps applied to what the filter kept |
| ExtractorProperties.DiscoveredContextsEmpty | src/extractors/table.rs:266-271 | tables fresh from discovery have an empty context |
| ExtractorProperties.KeptShape | src/extractors/table.rs:125-146 | with or without the span filter, each kept table comes from its origin with the same caption, attributes and context and stays paired with the origin's element |
| ExtractorProperties.FinishedShape | src/extractors/table.rs:148-184 | after the span filter each table keeps caption and attributes, its rows are padded when asked, it gets its element's context when asked, and it gets its id and url |
| ExtractorProperties.ExtractedOrigins | src/extractors/table.rs:113-146 | every output table comes from a distinct leaf table, in document order; with the span filter exactly those whose span succeeds remain |
| ExtractorProperties.ExtractedGrid | src/extractors/table.rs:125-153 | with the span filter and pad, every output table is a rectangular grid of 1×1 cells |
| ExtractorProperties.ExtractedIds | src/extractors/table.rs:166-184 | output table i has id document URL with query table_no=i, after the document's query and & when there is one, and url the document URL |
| ExtractorProperties.ExtractedIdQueriesDistinct | src/extractors/table.rs:178-182 | the id queries of different tables differ |
| ExtractorProperties.ExtractedContexts | src/extractors/table.rs:155-164 | with the context step each output table has its own element's context; without it every context is empty |

## Left out

- The Python binding layer (`#[pyclass]`, `#[pymethods]`, `Py::new`, `borrow_mut`, the `extract` wrapper at src/extractors/table.rs:64-81). `Py::new` failures are not modelled. Error downcasting (`is_instance_of`) becomes the `IsSpanError` test.
- HTML parsing and selection (`scraper`, `ego_tree`, `Document`). The document is the abstract `Dom.Node` tree, and `select("table")` is its preorder listing. `ElementRef::html` is a collaborator.
- `get_text`, `get_rich_text`, `convert_attrs`, `ContextExtractor::extract_context`, `Url::parse` with `query()`, and `set_query` with `as_str()`. These are function-valued parameters (`Extractor.Collaborators`), because their source is not part of this model. Their results are taken as given.
- URL normalisation and percent-encoding: ids are modelled as the collaborator applied to the plain query string.
- The relative-to-absolute URL rewrite pass at the end of `extract_tables` (src/extractors/table.rs:186-204), including `URLConverter::new` and its error. `URLConverter` is not part of this model.
- `std::str::from_utf8(&query)?` (src/extractors/table.rs:180): the query is built from strings, so the model has no byte/UTF-8 distinction there.
- `RichText::empty` and the text module. `EmptyRichText` stands for the empty rich text.
- `debug_assert!` checks on tag names (src/extractors/table.rs:231, 238, 246, 281). They do not affect release behaviour.
- `SimpleTree::iter_id_preorder`, `iter_node_preorder`, `iter`, `iter_mut` and the `ITree` trait implementation. The iterators are not part of this model; the rest are plain reads covered by the accessors.
- `SimpleTree::print_structure`: console output.
- `src/lib.rs` and `src/extractors/mod.rs`: module registration and a document wrapper.
- Integer widths: ids, cursors and counts are unbounded integers. The source's `usize`/`i32` never reach their limits for tables that fit in memory. Span values are `u16`, as in the source.
- Extractor.ExtractNonNestedTable: the source's three nested loops are three methods, one loop each (`ExtractCells`, `ExtractSectionRows`, `ExtractNonNestedTable`). An error from an inner loop propagates as the `?` does.
- SimpleTrees.SimpleTree.MergeSubtree and SimpleTrees.SimpleTree.MergeSubtreeNoRoot: the nested id-rewriting loops are module-level methods, one loop each (`ShiftIds`/`ShiftLists`, `RenumberIds`/`RenumberLists`). They work on a copy of the subtree's child lists, which the source rewrites in place in the consumed subtree.
- Tables.Pad: the row loop is its own method, `PadRows`.
- Extractor.WithContexts: the context collaborator is given only the table element's own subtree (`Dom.Node` has no link to its parent). `extract_context` at src/extractors/table.rs:159 takes an element reference that reaches the headings and text before the table. So the model does not capture contexts that depend on where a table sits: two tables with identical markup always get the same context here. `Extractor.AttachContexts` and `ExtractorProperties.ExtractedContexts` hold relative to this narrowed collaborator.
- Extractor.PadAll: its own contract states only the length. The fallback behaviour is stated by `ExtractorProperties.PadAllFallback` and `Tables.Padded`.
- An attribute that fails to parse fails the whole `extract_tables` call, through the `?` at src/extractors/table.rs:121, 249 and 293; the model follows this (`ExtractorProperties.ExtractedAbortsOnCellError`).
- Span errors raised by `Table::span` carry the empty string, as in the source.
