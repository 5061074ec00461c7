/** The table extractor: it finds the tables of a document that hold no other table,
    reads their captions, rows and cells, and then, as asked, spans them (dropping the
    tables that fail to span), pads them, attaches their section context and gives each
    an id. Text extraction, attribute conversion, context extraction and URL handling
    are collaborators whose code is not part of this model; they are passed in as
    functions. */
module Extractor {
  import opened Errors
  import opened Content
  import opened Strings
  import opened Collections
  import opened Dom
  import opened Tables
  import opened TableProperties

  /** The tag sets the extractor hands to rich-text extraction. */
  datatype TableExtractor = TableExtractor(
    ignoredTags: set<string>,
    discardTags: set<string>,
    keepTags: set<string>,
    onlyKeepInlineTags: bool)

  /** `TableExtractor::new`: tags left unset fall back to discarding script, style,
      noscript and table content and to ignoring div wrappers; no tag is always kept. */
  function NewExtractor(ignoredTags: Option<set<string>>, discardTags: Option<set<string>>,
                        onlyKeepInlineTags: bool): (x: TableExtractor)
    ensures x.discardTags == (if discardTags.Some? then discardTags.value else {"script", "style", "noscript", "table"})
    ensures x.ignoredTags == (if ignoredTags.Some? then ignoredTags.value else {"div"})
    ensures x.keepTags == {} && x.onlyKeepInlineTags == onlyKeepInlineTags
  {
    TableExtractor(ignoredTags.GetOr({"div"}), discardTags.GetOr({"script", "style", "noscript", "table"}),
                   {}, onlyKeepInlineTags)
  }

  /** `TableExtractor::default`: the default tag sets, and inline-only filtering off. */
  function DefaultExtractor(): (x: TableExtractor)
    ensures x == NewExtractor(None, None, false)
  {
    TableExtractor({"div"}, {"script", "style", "noscript", "table"}, {}, false)
  }

  /** The code the extractor calls but that is not part of this model. */
  datatype Collaborators = Collaborators(
    /** `text::get_text`. */
    getText: Node -> string,
    /** `text::get_rich_text` under the extractor's tag sets. */
    richText: (Node, TableExtractor) -> RichText,
    /** `ElementRef::html`, the serialised markup of an element. */
    html: Node -> string,
    /** `misc::convert_attrs`. */
    convertAttrs: map<string, string> -> Attrs,
    /** `ContextExtractor::extract_context`. */
    context: Node -> Result<seq<ContentHierarchy>>,
    /** `Url::parse` of the document URL followed by `query()`. */
    urlQuery: string -> Result<Option<string>>,
    /** `set_query(Some(query))` on the parsed document URL followed by `as_str()`. */
    withQuery: (string, string) -> string)

  // ---------------------------------------------------------------------------
  // Cells.

  /** A colspan or rowspan attribute: a missing one reads as "1"; after trimming, a
      blank value is 1, and anything else must parse as a 16-bit unsigned number or is
      an InvalidCellSpanError carrying the trimmed value. */
  function ParseSpan(value: Option<string>): (r: Result<u16>)
    ensures r.Err? ==> Trim(value.GetOr("1")) != [] && r.error == InvalidCellSpanError(Trim(value.GetOr("1")))
  {
    var raw := Trim(value.GetOr("1"));
    if raw == "" then Ok(1)
    else
      match ParseU16(raw)
      case Some(v) => Ok(v)
      case None => Err(InvalidCellSpanError(raw))
  }

  /** A missing attribute gives span 1. */
  lemma ParseSpanMissing()
    ensures ParseSpan(None) == Ok(1)
  {
    assert Digit(1) == '1';
    assert NatToString(1) == "1";
    ParseSpanDecimal("", 1, "");
    assert "" + NatToString(1) + "" == "1";
  }

  /** A blank attribute gives span 1. */
  lemma ParseSpanBlank(v: string)
    requires AllWhitespace(v)
    ensures ParseSpan(Some(v)) == Ok(1)
  {
    TrimBlank(v);
  }

  /** The decimal form of any 16-bit number, with white space around it, gives that number. */
  lemma ParseSpanDecimal(pre: string, v: u16, post: string)
    requires AllWhitespace(pre) && AllWhitespace(post)
    ensures ParseSpan(Some(pre + NatToString(v) + post)) == Ok(v)
  {
    var d := NatToString(v);
    assert !IsWhitespace(d[0]) && !IsWhitespace(d[|d| - 1]);
    TrimAround(pre, d, post);
    ParseU16OfNatToString(v);
  }

  /** A value that is not blank and does not parse is an InvalidCellSpanError carrying the
      trimmed value. */
  lemma ParseSpanInvalid(v: string)
    requires !AllWhitespace(v) && ParseU16(Trim(v)).None?
    ensures ParseSpan(Some(v)) == Err(InvalidCellSpanError(Trim(v)))
  {
    TrimBlank(v);
  }

  /** `extract_cell`: a td or th element becomes a cell, a header exactly when it is a
      th; its colspan is read first, so a bad colspan is the error reported. */
  function ExtractCell(x: TableExtractor, n: Node, col: Collaborators): (r: Result<Cell>)
    ensures r.Ok? <==> ParseSpan(Attr(n, "colspan")).Ok? && ParseSpan(Attr(n, "rowspan")).Ok?
    ensures r.Ok? ==> && r.value.isHeader == IsElement(n, "th")
                      && r.value.colspan == ParseSpan(Attr(n, "colspan")).value
                      && r.value.rowspan == ParseSpan(Attr(n, "rowspan")).value
    ensures r.Err? ==> r.error == (if ParseSpan(Attr(n, "colspan")).Err? then ParseSpan(Attr(n, "colspan"))
                                   else ParseSpan(Attr(n, "rowspan"))).error
  {
    var isHeader := IsElement(n, "th");
    match ParseSpan(Attr(n, "colspan"))
    case Err(e) => Err(e)
    case Ok(colspan) =>
      match ParseSpan(Attr(n, "rowspan"))
      case Err(e) => Err(e)
      case Ok(rowspan) =>
        Ok(Cell(isHeader, rowspan, colspan, col.convertAttrs(AttrsOf(n)), col.richText(n, x), col.html(n)))
  }

  // ---------------------------------------------------------------------------
  // Rows and tables.

  predicate IsSection(n: Node) {
    IsElement(n, "thead") || IsElement(n, "tbody")
  }

  predicate IsRowElement(n: Node) {
    IsElement(n, "tr")
  }

  predicate IsCellElement(n: Node) {
    IsElement(n, "td") || IsElement(n, "th")
  }

  /** The rows of a child of the table: the tr children of a thead or tbody. */
  function SectionRows(n: Node): seq<Node> {
    if IsSection(n) then Filter(ChildrenOf(n), IsRowElement) else []
  }

  /** The row elements of a table, in document order. */
  function RowElements(table: Node): seq<Node> {
    FlatMap(ChildrenOf(table), SectionRows)
  }

  /** The cell elements of a row: its td and th children. */
  function CellElements(row: Node): seq<Node> {
    Filter(ChildrenOf(row), IsCellElement)
  }

  function CellStep(x: TableExtractor, col: Collaborators): Node -> Result<Cell> {
    n => ExtractCell(x, n, col)
  }

  /** A row element becomes a row of its extracted cells and its converted attributes. */
  function ExtractRow(x: TableExtractor, row: Node, col: Collaborators): Result<Row> {
    match CollectAll(CellElements(row), CellStep(x, col))
    case Err(e) => Err(e)
    case Ok(cells) => Ok(Row(cells, col.convertAttrs(AttrsOf(row))))
  }

  function RowStep(x: TableExtractor, col: Collaborators): Node -> Result<Row> {
    n => ExtractRow(x, n, col)
  }

  /** The caption: the text of the last caption child, or empty. */
  function Caption(children: seq<Node>, getText: Node -> string): string {
    if children == [] then ""
    else if IsElement(children[|children| - 1], "caption") then getText(children[|children| - 1])
    else Caption(children[..|children| - 1], getText)
  }

  /** The table read from a table element, before spanning: no id, url or context yet. */
  function ExtractTable(x: TableExtractor, table: Node, col: Collaborators): Result<Table> {
    match CollectAll(RowElements(table), RowStep(x, col))
    case Err(e) => Err(e)
    case Ok(rows) =>
      Ok(Table("", "", Caption(ChildrenOf(table), col.getText), col.convertAttrs(AttrsOf(table)), [], rows))
  }

  /** Reading a row fails only with a span attribute that does not parse. */
  lemma ExtractRowError(x: TableExtractor, row: Node, col: Collaborators)
    requires ExtractRow(x, row, col).Err?
    ensures ExtractRow(x, row, col).error.InvalidCellSpanError?
  {
    var cells := CellElements(row);
    var e := CollectAll(cells, CellStep(x, col));
    assert e.Err? && ExtractRow(x, row, col).error == e.error;
    var j := FirstError(cells, CellStep(x, col));
    var cell := ExtractCell(x, cells[j], col);
    assert cell.Err? && cell.error == e.error;
  }

  /** Reading a table fails only with a span attribute that does not parse. */
  lemma ExtractTableError(x: TableExtractor, table: Node, col: Collaborators)
    requires ExtractTable(x, table, col).Err?
    ensures ExtractTable(x, table, col).error.InvalidCellSpanError?
  {
    var rows := RowElements(table);
    var j := FirstError(rows, RowStep(x, col));
    assert ExtractRow(x, rows[j], col) == Err(ExtractTable(x, table, col).error);
    ExtractRowError(x, rows[j], col);
  }

  /** The caption is the text of the last caption child: later ones overwrite earlier ones. */
  lemma {:induction false} CaptionIsLast(children: seq<Node>, getText: Node -> string, k: nat)
    requires k < |children| && IsElement(children[k], "caption")
    requires forall m :: k < m < |children| ==> !IsElement(children[m], "caption")
    ensures Caption(children, getText) == getText(children[k])
  {
    if k < |children| - 1 {
      assert children[..|children| - 1][k] == children[k];
      CaptionIsLast(children[..|children| - 1], getText, k);
    }
  }

  lemma {:induction false} CaptionAbsent(children: seq<Node>, getText: Node -> string)
    requires forall m :: 0 <= m < |children| ==> !IsElement(children[m], "caption")
    ensures Caption(children, getText) == ""
  {
    if children != [] {
      CaptionAbsent(children[..|children| - 1], getText);
    }
  }

  lemma {:induction false} FlatMapMember(s: seq<Node>, f: Node -> seq<Node>, y: Node)
    requires y in FlatMap(s, f)
    ensures exists i :: 0 <= i < |s| && y in f(s[i])
    decreases |s|
  {
    var last := s[|s| - 1];
    if y in FlatMap(s[..|s| - 1], f) {
      FlatMapMember(s[..|s| - 1], f, y);
      var i :| 0 <= i < |s| - 1 && y in f(s[..|s| - 1][i]);
      assert s[..|s| - 1][i] == s[i];
    } else {
      assert y in f(s[|s| - 1]);
    }
  }

  /** Rows come only from tr children of thead or tbody children of the table, and cells
      only from td and th children of those rows: every row of an extracted table is the
      extraction of such a tr, and its cells are the extractions of that tr's td and th
      children, in order. */
  lemma ExtractedTableShape(x: TableExtractor, table: Node, col: Collaborators)
    requires ExtractTable(x, table, col).Ok?
    ensures var t := ExtractTable(x, table, col).value;
      && |t.rows| == |RowElements(table)|
      && t.caption == Caption(ChildrenOf(table), col.getText)
      && forall k :: 0 <= k < |t.rows| ==>
           var tr := RowElements(table)[k];
           && IsRowElement(tr)
           && (exists c :: c in ChildrenOf(table) && IsSection(c) && tr in ChildrenOf(c))
           && ExtractRow(x, tr, col) == Ok(t.rows[k])
           && |t.rows[k].cells| == |CellElements(tr)|
           && forall j :: 0 <= j < |t.rows[k].cells| ==>
                IsCellElement(CellElements(tr)[j]) && CellElements(tr)[j] in ChildrenOf(tr)
                && ExtractCell(x, CellElements(tr)[j], col) == Ok(t.rows[k].cells[j])
  {
    var t := ExtractTable(x, table, col).value;
    forall k | 0 <= k < |t.rows|
      ensures var tr := RowElements(table)[k];
        && IsRowElement(tr)
        && (exists c :: c in ChildrenOf(table) && IsSection(c) && tr in ChildrenOf(c))
        && ExtractRow(x, tr, col) == Ok(t.rows[k])
    {
      var tr := RowElements(table)[k];
      assert RowStep(x, col)(tr) == Ok(t.rows[k]);
      FlatMapMember(ChildrenOf(table), SectionRows, tr);
      var i :| 0 <= i < |ChildrenOf(table)| && tr in SectionRows(ChildrenOf(table)[i]);
      var c := ChildrenOf(table)[i];
      assert IsSection(c) && tr in Filter(ChildrenOf(c), IsRowElement);
    }
    forall k, j | 0 <= k < |t.rows| && 0 <= j < |t.rows[k].cells|
      ensures var tr := RowElements(table)[k];
        j < |CellElements(tr)| && ExtractCell(x, CellElements(tr)[j], col) == Ok(t.rows[k].cells[j])
    {
      var tr := RowElements(table)[k];
      assert CellStep(x, col)(CellElements(tr)[j]) == Ok(t.rows[k].cells[j]);
    }
  }

  /** The cell loop of `extract_non_nested_table`: the td and th children of a row, in
      order, each read by `extract_cell`; the first failure ends the loop. */
  method ExtractCells(x: TableExtractor, cellRefs: seq<Node>, col: Collaborators) returns (r: Result<seq<Cell>>)
    ensures r == CollectAll(Filter(cellRefs, IsCellElement), CellStep(x, col))
  {
    var cells := [];
    for k := 0 to |cellRefs|
      invariant CollectAll(Filter(cellRefs[..k], IsCellElement), CellStep(x, col)) == Ok(cells)
    {
      var cellRef := cellRefs[k];
      ghost var before := Filter(cellRefs[..k], IsCellElement);
      FilterSnoc(cellRefs, k, IsCellElement);
      if !IsCellElement(cellRef) {
        assert Filter(cellRefs[..k + 1], IsCellElement) == before;
      }
      if cellRef.Element? {
        if cellRef.tag != "td" && cellRef.tag != "th" {
          continue;
        }
        var cell := ExtractCell(x, cellRef, col);
        assert CellStep(x, col)(cellRef) == cell;
        if cell.Err? {
          CollectFilteredStops(cellRefs, k, IsCellElement, CellStep(x, col));
          return Err(cell.error);
        }
        CollectAllSnoc(before, cellRef, CellStep(x, col));
        cells := cells + [cell.value];
      }
    }
    assert cellRefs[..|cellRefs|] == cellRefs;
    return Ok(cells);
  }

  /** The row loop of `extract_non_nested_table` over the children of a thead or tbody:
      every tr child, in order, becomes a row; the first failure ends the loop. */
  method ExtractSectionRows(x: TableExtractor, rowRefs: seq<Node>, col: Collaborators) returns (r: Result<seq<Row>>)
    ensures r == CollectAll(Filter(rowRefs, IsRowElement), RowStep(x, col))
  {
    var rows := [];
    for j := 0 to |rowRefs|
      invariant CollectAll(Filter(rowRefs[..j], IsRowElement), RowStep(x, col)) == Ok(rows)
    {
      var rowRef := rowRefs[j];
      ghost var before := Filter(rowRefs[..j], IsRowElement);
      FilterSnoc(rowRefs, j, IsRowElement);
      if !IsRowElement(rowRef) {
        assert Filter(rowRefs[..j + 1], IsRowElement) == before;
      }
      if rowRef.Element? {
        if rowRef.tag != "tr" {
          continue;
        }
        var cells := ExtractCells(x, rowRef.children, col);
        if cells.Err? {
          assert RowStep(x, col)(rowRef) == Err(cells.error);
          CollectFilteredStops(rowRefs, j, IsRowElement, RowStep(x, col));
          return Err(cells.error);
        }
        var row := Row(cells.value, col.convertAttrs(rowRef.attrs));
        assert RowStep(x, col)(rowRef) == Ok(row);
        CollectAllSnoc(before, rowRef, RowStep(x, col));
        rows := rows + [row];
      }
    }
    assert rowRefs[..|rowRefs|] == rowRefs;
    return Ok(rows);
  }

  /** `extract_non_nested_table`: walk the children of the table element, keeping the
      last caption and reading the rows of every thead and tbody; other nodes are
      skipped, and the first cell that fails to parse fails the table. */
  method ExtractNonNestedTable(x: TableExtractor, tableEl: Node, col: Collaborators) returns (r: Result<Table>)
    ensures r == ExtractTable(x, tableEl, col)
  {
    var caption := "";
    var rows := [];
    var children := ChildrenOf(tableEl);
    for i := 0 to |children|
      invariant caption == Caption(children[..i], col.getText)
      invariant CollectAll(FlatMap(children[..i], SectionRows), RowStep(x, col)) == Ok(rows)
    {
      var child := children[i];
      ghost var before := FlatMap(children[..i], SectionRows);
      assert children[..i + 1][..i] == children[..i];
      assert FlatMap(children[..i + 1], SectionRows) == before + SectionRows(child);
      if !IsSection(child) {
        assert FlatMap(children[..i + 1], SectionRows) == before;
      }
      if !child.Element? {
        continue;
      }
      if child.tag == "caption" {
        caption := col.getText(child);
        continue;
      }
      if child.tag != "thead" && child.tag != "tbody" {
        continue;
      }
      var sectionRows := ExtractSectionRows(x, child.children, col);
      if sectionRows.Err? {
        CollectFlatStops(children, i, SectionRows, RowStep(x, col));
        return Err(sectionRows.error);
      }
      CollectAllAppend(before, SectionRows(child), RowStep(x, col));
      rows := rows + sectionRows.value;
    }
    assert children[..|children|] == children;
    return Ok(Table("", "", caption, col.convertAttrs(AttrsOf(tableEl)), [], rows));
  }

  // ---------------------------------------------------------------------------
  // Discovery.

  predicate NoNestedTable(n: Node) {
    !HasNestedTable(n)
  }

  /** The table elements of the document that hold no other table, in document order. */
  function Candidates(doc: Node): (r: seq<Node>)
    ensures forall k :: 0 <= k < |r| ==> IsTable(r[k]) && !HasNestedTable(r[k]) && r[k] in SubtreeOf(doc)
    ensures forall n :: n in SubtreeOf(doc) && IsTable(n) && !HasNestedTable(n) ==> n in r
  {
    var r := Filter(TableElements(doc), NoNestedTable);
    assert forall n :: n in SubtreeOf(doc) && IsTable(n) ==> n in TableElements(doc);
    r
  }

  function TableStep(x: TableExtractor, col: Collaborators): Node -> Result<Table> {
    n => ExtractTable(x, n, col)
  }

  /** The first loop of `extract_tables`: every candidate is extracted, in order, and the
      first failure fails the whole extraction. */
  function Discovered(x: TableExtractor, doc: Node, col: Collaborators): Result<seq<Table>> {
    CollectAll(Candidates(doc), TableStep(x, col))
  }

  /** A failed discovery fails with an unparsable span attribute, from the first
      candidate whose reading fails. */
  lemma DiscoveredError(x: TableExtractor, doc: Node, col: Collaborators)
    requires Discovered(x, doc, col).Err?
    ensures Discovered(x, doc, col).error.InvalidCellSpanError?
    ensures exists k :: && 0 <= k < |Candidates(doc)|
                        && ExtractTable(x, Candidates(doc)[k], col) == Err(Discovered(x, doc, col).error)
                        && forall m :: 0 <= m < k ==> ExtractTable(x, Candidates(doc)[m], col).Ok?
  {
    var cs := Candidates(doc);
    var k := FirstError(cs, TableStep(x, col));
    assert ExtractTable(x, cs[k], col) == Err(Discovered(x, doc, col).error);
    forall m | 0 <= m < k
      ensures ExtractTable(x, cs[m], col).Ok?
    {
      assert TableStep(x, col)(cs[m]).Ok?;
    }
    ExtractTableError(x, cs[k], col);
  }

  /** The discovery loop: the tables read from the candidates, paired with them. */
  method Discover(x: TableExtractor, doc: Node, col: Collaborators) returns (r: Result<seq<Table>>, els: seq<Node>)
    ensures r == Discovered(x, doc, col)
    ensures r.Ok? ==> els == Candidates(doc)
  {
    var all := TableElements(doc);
    var tables := [];
    els := [];
    for i := 0 to |all|
      invariant els == Filter(all[..i], NoNestedTable)
      invariant CollectAll(els, TableStep(x, col)) == Ok(tables)
    {
      var el := all[i];
      FilterSnoc(all, i, NoNestedTable);
      if HasNestedTable(el) {
        continue;
      }
      var t := ExtractNonNestedTable(x, el, col);
      assert TableStep(x, col)(el) == t;
      if t.Err? {
        CollectFilteredStops(all, i, NoNestedTable, TableStep(x, col));
        return Err(t.error), els;
      }
      CollectAllSnoc(els, el, TableStep(x, col));
      tables := tables + [t.value];
      els := els + [el];
    }
    assert all[..|all|] == all;
    return Ok(tables), els;
  }

  // ---------------------------------------------------------------------------
  // The span filter.

  /** `auto_span`: every table is spanned in order; one whose span fails with an overlap
      or an invalid span is dropped together with its element, and any other error
      fails the extraction. */
  function SpanStep(tables: seq<Table>, els: seq<Node>): (r: Result<(seq<Table>, seq<Node>)>)
    requires |tables| == |els|
    ensures r.Ok? ==> |r.value.0| == |r.value.1| <= |tables|
  {
    if tables == [] then Ok(([], []))
    else
      var n := |tables| - 1;
      match SpanStep(tables[..n], els[..n])
      case Err(e) => Err(e)
      case Ok(kept) =>
        match Spanned(tables[n])
        case Ok(t) => Ok((kept.0 + [t], kept.1 + [els[n]]))
        case Err(e) => if e.IsSpanError() then Ok(kept) else Err(e)
  }

  /** Whether Span succeeds on a table. */
  predicate SpanSucceeds(t: Table) {
    Spanned(t).Ok?
  }

  /** The positions of the tables whose span succeeds, in increasing order. */
  function Survivors(tables: seq<Table>): (r: seq<nat>)
    ensures forall k :: 0 <= k < |r| ==> r[k] < |tables|
    ensures forall k, m :: 0 <= k < m < |r| ==> r[k] < r[m]
    ensures forall i :: 0 <= i < |tables| ==> (i in r <==> Spanned(tables[i]).Ok?)
  {
    Positions(tables, SpanSucceeds)
  }

  /** The span filter never fails (Span raises only the two tolerated errors); it keeps
      exactly the tables whose span succeeds, spanned, in their order and each paired
      with its own element. */
  lemma {:induction false} SpanStepSurvivors(tables: seq<Table>, els: seq<Node>)
    requires |tables| == |els|
    ensures SpanStep(tables, els).Ok?
    ensures var kept := SpanStep(tables, els).value; var s := Survivors(tables);
      && |kept.0| == |s|
      && forall k :: 0 <= k < |s| ==> Spanned(tables[s[k]]) == Ok(kept.0[k]) && kept.1[k] == els[s[k]]
  {
    if tables != [] {
      var n := |tables| - 1;
      SpanStepSurvivors(tables[..n], els[..n]);
      SpanShape(tables[n]);
      var kept := SpanStep(tables[..n], els[..n]).value;
      var s := Survivors(tables[..n]);
      assert Survivors(tables) == s + (if SpanSucceeds(tables[n]) then [n] else []);
      assert forall k :: 0 <= k < |s| ==> tables[..n][s[k]] == tables[s[k]] && els[..n][s[k]] == els[s[k]];
      if Spanned(tables[n]).Ok? {
        assert SpanStep(tables, els) == Ok((kept.0 + [Spanned(tables[n]).value], kept.1 + [els[n]]));
      } else {
        assert SpanStep(tables, els) == Ok(kept);
      }
    }
  }

  /** The span loop of `extract_tables`, calling Span on each table. */
  method SpanTables(tables: seq<Table>, els: seq<Node>) returns (r: Result<(seq<Table>, seq<Node>)>)
    requires |tables| == |els|
    ensures r == SpanStep(tables, els)
  {
    var newTables := [];
    var newEls := [];
    for i := 0 to |tables|
      invariant SpanStep(tables[..i], els[..i]) == Ok((newTables, newEls))
    {
      assert tables[..i + 1][..i] == tables[..i] && els[..i + 1][..i] == els[..i];
      var spanned := Span(tables[i]);
      if spanned.Ok? {
        newTables := newTables + [spanned.value];
        newEls := newEls + [els[i]];
      } else if !spanned.error.IsSpanError() {
        SpanStepSticky(tables, els, i + 1);
        return Err(spanned.error);
      }
    }
    assert tables[..|tables|] == tables && els[..|els|] == els;
    return Ok((newTables, newEls));
  }

  /** Once the span filter fails on a prefix, it fails the same way on the whole. */
  lemma {:induction false} SpanStepSticky(tables: seq<Table>, els: seq<Node>, i: nat)
    requires |tables| == |els| && i <= |tables|
    requires SpanStep(tables[..i], els[..i]).Err?
    ensures SpanStep(tables, els) == SpanStep(tables[..i], els[..i])
    decreases |tables| - i
  {
    if i < |tables| {
      assert tables[..i + 1][..i] == tables[..i] && els[..i + 1][..i] == els[..i];
      SpanStepSticky(tables, els, i + 1);
    } else {
      assert tables[..i] == tables && els[..i] == els;
    }
  }

  // ---------------------------------------------------------------------------
  // Pad, contexts and ids.

  /** `auto_pad`: each table is replaced by its padded form, or kept when Pad returns None. */
  function PadAll(tables: seq<Table>): (r: seq<Table>)
    ensures |r| == |tables|
  {
    seq(|tables|, i requires 0 <= i < |tables| => Padded(tables[i]).GetOr(tables[i]))
  }

  /** `extract_context`: each table gets the context of its own element; the first
      failure of the context extractor fails the extraction. */
  function WithContexts(tables: seq<Table>, els: seq<Node>, context: Node -> Result<seq<ContentHierarchy>>)
    : (r: Result<seq<Table>>)
    requires |tables| == |els|
    ensures r.Ok? <==> forall i :: 0 <= i < |els| ==> context(els[i]).Ok?
    ensures r.Ok? ==> |r.value| == |tables| && forall i :: 0 <= i < |tables| ==>
      r.value[i] == tables[i].(context := context(els[i]).value)
  {
    match CollectAll(els, context)
    case Err(e) => Err(e)
    case Ok(cs) => Ok(seq(|tables|, i requires 0 <= i < |tables| => tables[i].(context := cs[i])))
  }

  /** The context loop of `extract_tables`, overwriting each table's context in place. */
  method AttachContexts(tables: seq<Table>, els: seq<Node>, context: Node -> Result<seq<ContentHierarchy>>)
    returns (r: Result<seq<Table>>)
    requires |tables| == |els|
    ensures r == WithContexts(tables, els, context)
  {
    var ts := tables;
    for i := 0 to |tables|
      invariant |ts| == |tables|
      invariant forall k :: 0 <= k < i ==> context(els[k]).Ok? && ts[k] == tables[k].(context := context(els[k]).value)
      invariant forall k :: i <= k < |tables| ==> ts[k] == tables[k]
    {
      var c := context(els[i]);
      if c.Err? {
        CollectAllFirstError(els, i, context);
        return Err(c.error);
      }
      ts := ts[i := ts[i].(context := c.value)];
    }
    var w := WithContexts(tables, els, context);
    assert w.Ok?;
    assert w.value == ts;
    return Ok(ts);
  }

  /** The query the ids extend: `table_no=` alone, or after the document's own query and `&`. */
  function QueryPrefix(query: Option<string>): (p: string)
    ensures query.None? ==> p == "table_no="
    ensures query.Some? ==> p == query.value + "&table_no="
  {
    match query
    case None => "table_no="
    case Some(q) => q + "&table_no="
  }

  /** The i-th table's id is the document URL with query `prefix` followed by `i`, and its
      url is the document URL. */
  function Identified(tables: seq<Table>, docUrl: string, prefix: string, withQuery: (string, string) -> string)
    : (r: seq<Table>)
    ensures |r| == |tables|
    ensures forall i :: 0 <= i < |tables| ==>
      && r[i].rows == tables[i].rows && r[i].caption == tables[i].caption
      && r[i].attrs == tables[i].attrs && r[i].context == tables[i].context
      && r[i].id == withQuery(docUrl, prefix + NatToString(i)) && r[i].url == docUrl
  {
    seq(|tables|, i requires 0 <= i < |tables| =>
      tables[i].(id := withQuery(docUrl, prefix + NatToString(i)), url := docUrl))
  }

  /** The id loop of `extract_tables`: the query buffer is extended by the table number,
      used, and truncated back to the prefix on every iteration. */
  method AssignIds(tables: seq<Table>, docUrl: string, prefix: string, withQuery: (string, string) -> string)
    returns (r: seq<Table>)
    ensures r == Identified(tables, docUrl, prefix, withQuery)
  {
    var query := prefix;
    var queryLen := |query|;
    r := tables;
    for i := 0 to |tables|
      invariant query == prefix
      invariant |r| == |tables|
      invariant forall k :: 0 <= k < i ==> r[k] == tables[k].(id := withQuery(docUrl, prefix + NatToString(k)), url := docUrl)
      invariant forall k :: i <= k < |tables| ==> r[k] == tables[k]
    {
      query := query + NatToString(i);
      var id := withQuery(docUrl, query);
      r := r[i := r[i].(id := id)];
      query := query[..queryLen];
      r := r[i := r[i].(url := docUrl)];
    }
  }

  /** No two tables get the same id query: the table numbers differ, and so do their
      decimal forms, while the buffer never carries an earlier number along. */
  lemma IdQueriesDistinct(prefix: string, i: nat, j: nat)
    requires i != j
    ensures prefix + NatToString(i) != prefix + NatToString(j)
  {
    NatToStringInjective(i, j);
    assert (prefix + NatToString(i))[|prefix|..] == NatToString(i);
    assert (prefix + NatToString(j))[|prefix|..] == NatToString(j);
  }

  // ---------------------------------------------------------------------------
  // The whole extraction.

  /** The span filter when asked, otherwise the tables and elements as found. */
  function Kept(found: seq<Table>, els: seq<Node>, autoSpan: bool): (r: Result<(seq<Table>, seq<Node>)>)
    requires |found| == |els|
    ensures r.Ok? ==> |r.value.0| == |r.value.1|
  {
    if autoSpan then SpanStep(found, els) else Ok((found, els))
  }

  /** The steps after the span filter: pad and contexts when asked, then the ids, which
      need the query of the document URL. */
  function Finished(tables: seq<Table>, els: seq<Node>, autoPad: bool, extractContext: bool, docUrl: string,
                    col: Collaborators): Result<seq<Table>>
    requires |tables| == |els|
  {
    var padded := if autoPad then PadAll(tables) else tables;
    match (if extractContext then WithContexts(padded, els, col.context) else Ok(padded))
    case Err(e) => Err(e)
    case Ok(withContext) =>
      match col.urlQuery(docUrl)
      case Err(e) => Err(e)
      case Ok(query) => Ok(Identified(withContext, docUrl, QueryPrefix(query), col.withQuery))
  }

  /** `extract_tables` without the URL rewrite pass: discovery, then the span filter, pad
      and context steps each when asked, then ids from the document URL's query. */
  function Extracted(x: TableExtractor, doc: Node, docUrl: string, autoSpan: bool, autoPad: bool,
                     extractContext: bool, col: Collaborators): Result<seq<Table>>
  {
    match Discovered(x, doc, col)
    case Err(e) => Err(e)
    case Ok(found) =>
      match Kept(found, Candidates(doc), autoSpan)
      case Err(e) => Err(e)
      case Ok(kept) => Finished(kept.0, kept.1, autoPad, extractContext, docUrl, col)
  }

  /** `extract_tables`. */
  method ExtractTables(x: TableExtractor, doc: Node, docUrl: string, autoSpan: bool, autoPad: bool,
                       extractContext: bool, col: Collaborators) returns (r: Result<seq<Table>>)
    ensures r == Extracted(x, doc, docUrl, autoSpan, autoPad, extractContext, col)
  {
    var found, els := Discover(x, doc, col);
    if found.Err? {
      return Err(found.error);
    }
    var tables := found.value;
    if autoSpan {
      var kept := SpanTables(tables, els);
      if kept.Err? {
        return Err(kept.error);
      }
      tables, els := kept.value.0, kept.value.1;
    }
    if autoPad {
      tables := PadAll(tables);
    }
    if extractContext {
      var withContext := AttachContexts(tables, els, col.context);
      if withContext.Err? {
        return Err(withContext.error);
      }
      tables := withContext.value;
    }
    var query := col.urlQuery(docUrl);
    if query.Err? {
      return Err(query.error);
    }
    tables := AssignIds(tables, docUrl, QueryPrefix(query.value), col.withQuery);
    return Ok(tables);
  }
}
