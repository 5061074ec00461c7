/** Properties of the whole extraction, stated about its functional model `Extracted`. */
module ExtractorProperties {
  import opened Errors
  import opened Strings
  import opened Dom
  import opened Tables
  import opened TableProperties
  import opened Extractor

  /** With the pad step, a table is kept as it is exactly when Pad returns None for it, and
      is otherwise replaced by a rectangular table with the same rows' cells as prefixes. */
  lemma PadAllFallback(tables: seq<Table>, i: nat)
    requires i < |tables|
    ensures var t, p := tables[i], PadAll(tables)[i];
      && ((|t.rows| == 0 || Rectangular(t)) ==> p == t)
      && (!(|t.rows| == 0 || Rectangular(t)) ==>
            && p == t.(rows := p.rows) && |p.rows| == |t.rows| && Rectangular(p)
            && forall k :: 0 <= k < |t.rows| ==> p.rows[k].cells[..|t.rows[k].cells|] == t.rows[k].cells)
  {
  }

  /** An attribute that fails to parse in any candidate table fails the whole extraction,
      with the first such error in document order. */
  lemma ExtractedAbortsOnCellError(x: TableExtractor, doc: Node, docUrl: string, autoSpan: bool, autoPad: bool,
                                   extractContext: bool, col: Collaborators)
    requires Discovered(x, doc, col).Err?
    ensures Extracted(x, doc, docUrl, autoSpan, autoPad, extractContext, col) == Discovered(x, doc, col)
    ensures Discovered(x, doc, col).error.InvalidCellSpanError?
    ensures exists k :: && 0 <= k < |Candidates(doc)|
                        && ExtractTable(x, Candidates(doc)[k], col) == Err(Discovered(x, doc, col).error)
                        && forall m :: 0 <= m < k ==> ExtractTable(x, Candidates(doc)[m], col).Ok?
  {
    DiscoveredError(x, doc, col);
  }

  /** Where each output table comes from, as the two loops of `extract_tables` decide it
      (src/extractors/table.rs:117-146): without the span filter the i-th output is read
      from the i-th candidate; with it, from the i-th candidate whose span succeeds. */
  function Origin(found: seq<Table>, autoSpan: bool, i: nat): nat {
    if autoSpan && i < |Survivors(found)| then Survivors(found)[i] else i
  }

  /** The span filter, when asked, keeps exactly the tables whose span succeeds, spanned,
      in order and each with its own element; otherwise it keeps everything. Either way
      captions, attributes and contexts are those of the origin table. */
  lemma KeptShape(found: seq<Table>, els: seq<Node>, autoSpan: bool)
    requires |found| == |els|
    ensures Kept(found, els, autoSpan).Ok?
    ensures var kept := Kept(found, els, autoSpan).value;
      && |kept.0| == (if autoSpan then |Survivors(found)| else |found|)
      && (forall i, j :: 0 <= i < j < |kept.0| ==> Origin(found, autoSpan, i) < Origin(found, autoSpan, j))
      && forall k :: 0 <= k < |kept.0| ==>
           var o := Origin(found, autoSpan, k);
           && o < |found|
           && kept.1[k] == els[o]
           && kept.0[k] == (if autoSpan then Spanned(found[o]).value else found[o])
           && (autoSpan ==> Spanned(found[o]).Ok?)
           && kept.0[k].caption == found[o].caption && kept.0[k].attrs == found[o].attrs
           && kept.0[k].context == found[o].context
  {
    if autoSpan {
      SpanStepSurvivors(found, els);
      var kept := SpanStep(found, els).value;
      forall k | 0 <= k < |kept.0|
        ensures kept.0[k].caption == found[Survivors(found)[k]].caption
        ensures kept.0[k].attrs == found[Survivors(found)[k]].attrs
        ensures kept.0[k].context == found[Survivors(found)[k]].context
      {
        SpanShape(found[Survivors(found)[k]]);
      }
    }
  }

  /** After the span filter: each table keeps its caption and attributes, its rows are
      padded when asked, its context is its element's when asked, and it gets its id. */
  lemma FinishedShape(tables: seq<Table>, els: seq<Node>, autoPad: bool, extractContext: bool, docUrl: string,
                      col: Collaborators)
    requires |tables| == |els|
    requires Finished(tables, els, autoPad, extractContext, docUrl, col).Ok?
    ensures col.urlQuery(docUrl).Ok?
    ensures var r, q := Finished(tables, els, autoPad, extractContext, docUrl, col).value, col.urlQuery(docUrl).value;
      && |r| == |tables|
      && forall i :: 0 <= i < |r| ==>
           && r[i].rows == (if autoPad then PadAll(tables)[i] else tables[i]).rows
           && r[i].caption == tables[i].caption && r[i].attrs == tables[i].attrs
           && (extractContext ==> col.context(els[i]).Ok?)
           && r[i].context == (if extractContext then col.context(els[i]).value else tables[i].context)
           && r[i].id == col.withQuery(docUrl, QueryPrefix(q) + NatToString(i)) && r[i].url == docUrl
  {
    var padded := if autoPad then PadAll(tables) else tables;
    assert forall i :: 0 <= i < |tables| ==>
      padded[i].caption == tables[i].caption && padded[i].attrs == tables[i].attrs
      && padded[i].context == tables[i].context;
  }

  /** A successful extraction is the finishing steps applied to what the span filter kept
      from the discovered tables. */
  lemma ExtractedIsFinished(x: TableExtractor, doc: Node, docUrl: string, autoSpan: bool, autoPad: bool,
                            extractContext: bool, col: Collaborators)
    requires Extracted(x, doc, docUrl, autoSpan, autoPad, extractContext, col).Ok?
    ensures Discovered(x, doc, col).Ok? && |Discovered(x, doc, col).value| == |Candidates(doc)|
    ensures Kept(Discovered(x, doc, col).value, Candidates(doc), autoSpan).Ok?
    ensures var kept := Kept(Discovered(x, doc, col).value, Candidates(doc), autoSpan).value;
      Extracted(x, doc, docUrl, autoSpan, autoPad, extractContext, col)
        == Finished(kept.0, kept.1, autoPad, extractContext, docUrl, col)
  {
  }

  /** Every output table is read from a leaf table element of the document: its caption
      and attributes are those of that element, the outputs follow document order, and
      with the span filter exactly the tables whose span succeeds remain. */
  lemma ExtractedOrigins(x: TableExtractor, doc: Node, docUrl: string, autoSpan: bool, autoPad: bool,
                         extractContext: bool, col: Collaborators)
    requires Extracted(x, doc, docUrl, autoSpan, autoPad, extractContext, col).Ok?
    ensures Discovered(x, doc, col).Ok?
    ensures var r, found := Extracted(x, doc, docUrl, autoSpan, autoPad, extractContext, col).value,
                            Discovered(x, doc, col).value;
      && |found| == |Candidates(doc)|
      && |r| == (if autoSpan then |Survivors(found)| else |found|)
      && (forall i, j :: 0 <= i < j < |r| ==> Origin(found, autoSpan, i) < Origin(found, autoSpan, j))
      && forall i :: 0 <= i < |r| ==>
           && Origin(found, autoSpan, i) < |found|
           && (autoSpan ==> Spanned(found[Origin(found, autoSpan, i)]).Ok?)
           && r[i].caption == found[Origin(found, autoSpan, i)].caption
           && r[i].attrs == found[Origin(found, autoSpan, i)].attrs
  {
    ExtractedIsFinished(x, doc, docUrl, autoSpan, autoPad, extractContext, col);
    var found := Discovered(x, doc, col).value;
    var els := Candidates(doc);
    KeptShape(found, els, autoSpan);
    var kept := Kept(found, els, autoSpan).value;
    FinishedShape(kept.0, kept.1, autoPad, extractContext, docUrl, col);
    var r := Extracted(x, doc, docUrl, autoSpan, autoPad, extractContext, col).value;
    assert r == Finished(kept.0, kept.1, autoPad, extractContext, docUrl, col).value;
    assert |r| == |kept.0|;
    forall i | 0 <= i < |r|
      ensures r[i].caption == found[Origin(found, autoSpan, i)].caption
      ensures r[i].attrs == found[Origin(found, autoSpan, i)].attrs
    {
      assert r[i].caption == kept.0[i].caption && r[i].attrs == kept.0[i].attrs;
    }
  }

  /** With both the span filter and pad, every output table is a rectangular grid of unit
      cells. */
  lemma ExtractedGrid(x: TableExtractor, doc: Node, docUrl: string, extractContext: bool, col: Collaborators)
    requires Extracted(x, doc, docUrl, true, true, extractContext, col).Ok?
    ensures forall t :: t in Extracted(x, doc, docUrl, true, true, extractContext, col).value ==>
      Rectangular(t) && RowsUnit(t.rows)
  {
    ExtractedIsFinished(x, doc, docUrl, true, true, extractContext, col);
    var found := Discovered(x, doc, col).value;
    var els := Candidates(doc);
    KeptShape(found, els, true);
    var kept := Kept(found, els, true).value;
    FinishedShape(kept.0, kept.1, true, extractContext, docUrl, col);
    var r := Extracted(x, doc, docUrl, true, true, extractContext, col).value;
    assert r == Finished(kept.0, kept.1, true, extractContext, docUrl, col).value;
    forall k | 0 <= k < |r|
      ensures Rectangular(r[k]) && RowsUnit(r[k].rows)
    {
      var o := Origin(found, true, k);
      assert kept.0[k] == Spanned(found[o]).value;
      SpanThenPad(found[o]);
      assert r[k].rows == PadAll(kept.0)[k].rows;
    }
  }

  /** The i-th output table's id is the document URL with query `table_no=i`, after the
      document's own query and `&` when it has one, and every url is the document URL. */
  lemma ExtractedIds(x: TableExtractor, doc: Node, docUrl: string, autoSpan: bool, autoPad: bool,
                     extractContext: bool, col: Collaborators)
    requires Extracted(x, doc, docUrl, autoSpan, autoPad, extractContext, col).Ok?
    ensures col.urlQuery(docUrl).Ok?
    ensures var r, q := Extracted(x, doc, docUrl, autoSpan, autoPad, extractContext, col).value,
                        col.urlQuery(docUrl).value;
      forall i :: 0 <= i < |r| ==>
        && r[i].url == docUrl
        && r[i].id == col.withQuery(docUrl, (if q.Some? then q.value + "&table_no=" else "table_no=") + NatToString(i))
  {
    ExtractedIsFinished(x, doc, docUrl, autoSpan, autoPad, extractContext, col);
    var found := Discovered(x, doc, col).value;
    var els := Candidates(doc);
    KeptShape(found, els, autoSpan);
    var kept := Kept(found, els, autoSpan).value;
    FinishedShape(kept.0, kept.1, autoPad, extractContext, docUrl, col);
  }

  /** The table numbers of the id queries are distinct. */
  lemma ExtractedIdQueriesDistinct(query: Option<string>, i: nat, j: nat)
    requires i != j
    ensures QueryPrefix(query) + NatToString(i) != QueryPrefix(query) + NatToString(j)
  {
    IdQueriesDistinct(QueryPrefix(query), i, j);
  }

  /** Tables fresh from discovery have no context yet. */
  lemma DiscoveredContextsEmpty(x: TableExtractor, doc: Node, col: Collaborators)
    requires Discovered(x, doc, col).Ok?
    ensures forall k :: 0 <= k < |Discovered(x, doc, col).value| ==> Discovered(x, doc, col).value[k].context == []
  {
    var found := Discovered(x, doc, col).value;
    var els := Candidates(doc);
    forall k | 0 <= k < |found|
      ensures found[k].context == []
    {
      assert TableStep(x, col)(els[k]) == Ok(found[k]);
    }
  }

  /** Without the context step every output table has an empty context; with it, the
      context of each output table is that of its own element. */
  lemma ExtractedContexts(x: TableExtractor, doc: Node, docUrl: string, autoSpan: bool, autoPad: bool,
                          extractContext: bool, col: Collaborators)
    requires Extracted(x, doc, docUrl, autoSpan, autoPad, extractContext, col).Ok?
    ensures var r, found := Extracted(x, doc, docUrl, autoSpan, autoPad, extractContext, col).value,
                            Discovered(x, doc, col).value;
      forall i :: 0 <= i < |r| ==>
        && Origin(found, autoSpan, i) < |Candidates(doc)|
        && (extractContext ==> col.context(Candidates(doc)[Origin(found, autoSpan, i)]) == Ok(r[i].context))
        && (!extractContext ==> r[i].context == [])
  {
    ExtractedIsFinished(x, doc, docUrl, autoSpan, autoPad, extractContext, col);
    var found := Discovered(x, doc, col).value;
    var els := Candidates(doc);
    DiscoveredContextsEmpty(x, doc, col);
    KeptShape(found, els, autoSpan);
    var kept := Kept(found, els, autoSpan).value;
    FinishedShape(kept.0, kept.1, autoPad, extractContext, docUrl, col);
    var r := Extracted(x, doc, docUrl, autoSpan, autoPad, extractContext, col).value;
    assert r == Finished(kept.0, kept.1, autoPad, extractContext, docUrl, col).value;
    forall i | 0 <= i < |r|
      ensures Origin(found, autoSpan, i) < |els|
      ensures extractContext ==> col.context(els[Origin(found, autoSpan, i)]) == Ok(r[i].context)
      ensures !extractContext ==> r[i].context == []
    {
      var o := Origin(found, autoSpan, i);
      assert kept.1[i] == els[o];
      if !extractContext {
        assert r[i].context == kept.0[i].context == found[o].context;
      }
    }
  }
}
