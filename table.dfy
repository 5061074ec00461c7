/** Tables, rows and cells, and the two grid passes over them: Span, which turns
    colspan/rowspan-compressed rows into an explicit grid, and Pad, which makes ragged
    rows rectangular. Each pass is an imperative method proved equal to a functional
    model of the same steps; the properties of the passes are lemmas about that model
    (module TableProperties). */
module Tables {
  import opened Errors
  import opened Content
  import opened Strings

  datatype Cell = Cell(isHeader: bool, rowspan: u16, colspan: u16, attrs: Attrs, value: RichText, html: string)
  datatype Row = Row(cells: seq<Cell>, attrs: Attrs)
  datatype Table = Table(id: string, url: string, caption: string, attrs: Attrs,
                         context: seq<ContentHierarchy>, rows: seq<Row>)

  predicate IsUnit(c: Cell) {
    c.colspan == 1 && c.rowspan == 1
  }

  predicate AllUnit(cells: seq<Cell>) {
    forall j :: 0 <= j < |cells| ==> IsUnit(cells[j])
  }

  predicate RowsUnit(rows: seq<Row>) {
    forall i :: 0 <= i < |rows| ==> AllUnit(rows[i].cells)
  }

  /** The clone placed in the grid for a source cell: spans reset to 1, all else kept. */
  function Unit(c: Cell): (u: Cell)
    ensures IsUnit(u)
    ensures u.(colspan := c.colspan, rowspan := c.rowspan) == c
  {
    c.(colspan := 1, rowspan := 1)
  }

  /** The largest element of a non-empty sequence. */
  function MaxOf(s: seq<nat>): (m: nat)
    requires |s| > 0
    ensures forall k :: 0 <= k < |s| ==> s[k] <= m
    ensures exists k :: 0 <= k < |s| && s[k] == m
  {
    if |s| == 1 then s[0]
    else
      var m' := MaxOf(s[..|s| - 1]);
      assert forall k :: 0 <= k < |s| - 1 ==> s[..|s| - 1][k] == s[k];
      if s[|s| - 1] >= m' then s[|s| - 1] else m'
  }

  // ---------------------------------------------------------------------------
  // First pass: the number of columns.

  /** The number of cells of `cells` whose rowspan reaches `d` rows further down. */
  function Covering(cells: seq<Cell>, d: int): nat
  {
    if cells == [] then 0
    else Covering(cells[..|cells| - 1], d) + (if cells[|cells| - 1].rowspan > d then 1 else 0)
  }

  /** The rowspan debt owed to row `m` by the rows before row `k` that lie above `m`:
      each such cell counts once, whatever its colspan. */
  function DebtFrom(rows: seq<Row>, m: int, k: nat): nat
    requires k <= |rows|
  {
    if k == 0 then 0
    else DebtFrom(rows, m, k - 1) + (if k - 1 < m then Covering(rows[k - 1].cells, m - (k - 1)) else 0)
  }

  /** The debt owed to row m by the first c cells of row i. */
  function Owed(cells: seq<Cell>, c: nat, i: int, m: int): nat
    requires c <= |cells|
  {
    if i < m then Covering(cells[..c], m - i) else 0
  }

  /** The number of columns that row `m` occupies: its own cells plus the cells of
      earlier rows whose rowspan covers it. */
  function Width(rows: seq<Row>, m: nat): nat
    requires m < |rows|
  {
    |rows[m].cells| + DebtFrom(rows, m, |rows|)
  }

  function Widths(rows: seq<Row>): (w: seq<nat>)
    ensures |w| == |rows|
  {
    seq(|rows|, m requires 0 <= m < |rows| => Width(rows, m))
  }

  /** The column count that Span works to: the widest row. */
  function ColumnCount(rows: seq<Row>): (n: nat)
    requires |rows| > 0
    ensures forall m :: 0 <= m < |rows| ==> Width(rows, m) <= n
    ensures exists m :: 0 <= m < |rows| && Width(rows, m) == n
  {
    var w := Widths(rows);
    var n := MaxOf(w);
    assert forall m :: 0 <= m < |rows| ==> w[m] == Width(rows, m);
    n
  }

  lemma CoveringSnoc(cells: seq<Cell>, c: nat, d: int)
    requires c < |cells|
    ensures Covering(cells[..c + 1], d) == Covering(cells[..c], d) + (if cells[c].rowspan > d then 1 else 0)
  {
    assert cells[..c + 1][..c] == cells[..c];
  }

  /** The first pass: for every row, its own cell count plus the rowspan debt earlier
      rows owe it. Debt is only recorded for rows that exist. */
  method CountColumns(rows: seq<Row>) returns (cols: seq<nat>)
    ensures cols == Widths(rows)
  {
    var n := |rows|;
    cols := seq(n, _ => 0);
    for i := 0 to n
      invariant |cols| == n
      invariant forall m :: 0 <= m < n ==>
        cols[m] == (if m < i then |rows[m].cells| else 0) + DebtFrom(rows, m, i)
    {
      var cells := rows[i].cells;
      cols := cols[i := cols[i] + |cells|];
      for c := 0 to |cells|
        invariant |cols| == n
        invariant forall m :: 0 <= m < n ==>
          cols[m] == (if m <= i then |rows[m].cells| else 0) + DebtFrom(rows, m, i)
                     + Owed(cells, c, i, m)
      {
        var cell := cells[c];
        ghost var before := cols;
        if cell.rowspan > 1 {
          for j := 1 to cell.rowspan
            invariant |cols| == n
            invariant forall m :: 0 <= m < n ==> cols[m] == before[m] + (if i < m < i + j then 1 else 0)
          {
            if i + j < n {
              cols := cols[i + j := cols[i + j] + 1];
            }
          }
        }
        forall m | 0 <= m < n
          ensures Owed(cells, c + 1, i, m) == Owed(cells, c, i, m) + (if i < m < i + cell.rowspan then 1 else 0)
        {
          if i < m {
            CoveringSnoc(cells, c, m - i);
          }
        }
      }
      assert cells[..|cells|] == cells;
    }
  }

  // ---------------------------------------------------------------------------
  // Second pass: placing cells, as a functional model of the loop in Span.

  /** Cells projected downward by rowspans, keyed by (row, column). */
  type Pending = map<(int, int), Cell>

  /** The state of the placement within one row: the pending map, the column cursor
      `pj` and the cells of the row built so far. */
  datatype Cursor = Cursor(pending: Pending, pj: int, cells: seq<Cell>)

  /** Before a cell is placed: emit every pending cell owed at (pi, pj), advancing pj. */
  function DrainOwed(c: Cursor, pi: int): (r: Cursor)
    ensures (pi, r.pj) !in r.pending
    decreases |c.pending|
  {
    if (pi, c.pj) in c.pending then
      var key := (pi, c.pj);
      assert c.pending.Keys == (c.pending - {key}).Keys + {key};
      DrainOwed(Cursor(c.pending - {key}, c.pj + 1, c.cells + [c.pending[key]]), pi)
    else c
  }

  /** Register the clone `unit` as pending in rows pi+o, for o in [o, rowspan), at column pj. */
  function Project(pending: Pending, pi: int, pj: int, unit: Cell, o: int, rowspan: int): Pending
    decreases rowspan - o
  {
    if o >= rowspan then pending
    else Project(pending[(pi + o, pj) := unit], pi, pj, unit, o + 1, rowspan)
  }

  /** Place the `n` remaining colspan slots of a cell: a slot whose position is already
      pending is an overlap; reaching the column count ends the cell, which is an error
      unless it is the row's last cell (then the rest of the colspan is dropped). */
  function PlaceSlots(c: Cursor, pi: int, unit: Cell, rowspan: int, n: nat, last: bool, ncols: int): Result<Cursor>
    decreases n
  {
    if n == 0 then Ok(c)
    else if (pi, c.pj) in c.pending then Err(OverlapSpanError(""))
    else
      var c' := Cursor(Project(c.pending, pi, c.pj, unit, 1, rowspan), c.pj + 1, c.cells + [unit]);
      if c'.pj >= ncols then
        (if last then Ok(c') else Err(InvalidCellSpanError("")))
      else PlaceSlots(c', pi, unit, rowspan, n - 1, last, ncols)
  }

  function PlaceCell(c: Cursor, pi: int, cell: Cell, last: bool, ncols: int): Result<Cursor>
  {
    PlaceSlots(DrainOwed(c, pi), pi, Unit(cell), cell.rowspan, cell.colspan, last, ncols)
  }

  /** Place the cells of row pi from index k on. */
  function PlaceCells(c: Cursor, pi: int, cells: seq<Cell>, k: nat, ncols: int): Result<Cursor>
    requires k <= |cells|
    decreases |cells| - k
  {
    if k == |cells| then Ok(c)
    else
      match PlaceCell(c, pi, cells[k], k == |cells| - 1, ncols)
      case Err(e) => Err(e)
      case Ok(c') => PlaceCells(c', pi, cells, k + 1, ncols)
  }

  /** After the last cell of a row: emit pending cells, looked up at key (pj, pj),
      while the cursor is below the column count. */
  function DrainEnd(c: Cursor, ncols: int): Cursor
    decreases |c.pending|
  {
    if (c.pj, c.pj) in c.pending && c.pj < ncols then
      var key := (c.pj, c.pj);
      assert c.pending.Keys == (c.pending - {key}).Keys + {key};
      DrainEnd(Cursor(c.pending - {key}, c.pj + 1, c.cells + [c.pending[key]]), ncols)
    else c
  }

  /** Span row pi, returning the new pending map and the spanned row. */
  function SpanRow(pending: Pending, pi: int, row: Row, ncols: int): Result<(Pending, Row)>
  {
    match PlaceCells(Cursor(pending, 0, []), pi, row.cells, 0, ncols)
    case Err(e) => Err(e)
    case Ok(c) =>
      var d := DrainEnd(c, ncols);
      Ok((d.pending, Row(d.cells, row.attrs)))
  }

  /** Span rows i.. after `data` holds the spanned rows before i. Pending cells left
      after the last row are dropped. */
  function SpanRows(pending: Pending, rows: seq<Row>, i: nat, ncols: int, data: seq<Row>): Result<seq<Row>>
    requires i <= |rows|
    decreases |rows| - i
  {
    if i == |rows| then Ok(data)
    else
      match SpanRow(pending, i, rows[i], ncols)
      case Err(e) => Err(e)
      case Ok(pr) => SpanRows(pr.0, rows, i + 1, ncols, data + [pr.1])
  }

  /** The outcome of Span on table t. */
  function Spanned(t: Table): Result<Table>
  {
    if |t.rows| == 0 then Ok(t)
    else
      match SpanRows(map[], t.rows, 0, ColumnCount(t.rows), [])
      case Err(e) => Err(e)
      case Ok(rows) => Ok(t.(rows := rows))
  }

  // ---------------------------------------------------------------------------
  // Span, the imperative pass.

  /** Drain the cells owed at (pi, pj) before a cell is placed. */
  method DrainOwedLoop(pending0: Pending, pi: int, pj0: int, row0: seq<Cell>)
    returns (pending: Pending, pj: int, row: seq<Cell>)
    ensures Cursor(pending, pj, row) == DrainOwed(Cursor(pending0, pj0, row0), pi)
  {
    pending, pj, row := pending0, pj0, row0;
    while (pi, pj) in pending
      invariant DrainOwed(Cursor(pending, pj, row), pi) == DrainOwed(Cursor(pending0, pj0, row0), pi)
      decreases |pending|
    {
      var key := (pi, pj);
      assert pending.Keys == (pending - {key}).Keys + {key};
      row := row + [pending[key]];
      pending := pending - {key};
      pj := pj + 1;
    }
  }

  /** Drain the pending cells at the end of a row. */
  method DrainEndLoop(pending0: Pending, pj0: int, row0: seq<Cell>, ncols: int)
    returns (pending: Pending, pj: int, row: seq<Cell>)
    ensures Cursor(pending, pj, row) == DrainEnd(Cursor(pending0, pj0, row0), ncols)
  {
    pending, pj, row := pending0, pj0, row0;
    while (pj, pj) in pending && pj < ncols
      invariant DrainEnd(Cursor(pending, pj, row), ncols) == DrainEnd(Cursor(pending0, pj0, row0), ncols)
      decreases |pending|
    {
      var key := (pj, pj);
      assert pending.Keys == (pending - {key}).Keys + {key};
      row := row + [pending[key]];
      pending := pending - {key};
      pj := pj + 1;
    }
  }

  /** Place one source cell: drain what is owed, then expand its colspan. */
  method PlaceCellLoop(pending0: Pending, pj0: int, row0: seq<Cell>, pi: int, ocell: Cell, last: bool, ncols: int)
    returns (r: Result<Cursor>)
    ensures r == PlaceCell(Cursor(pending0, pj0, row0), pi, ocell, last, ncols)
  {
    var cell := ocell.(colspan := 1, rowspan := 1);
    var pending, pj, row := DrainOwedLoop(pending0, pi, pj0, row0);
    ghost var start := Cursor(pending, pj, row);
    var k := 0;
    while k < ocell.colspan
      invariant 0 <= k <= ocell.colspan
      invariant PlaceSlots(Cursor(pending, pj, row), pi, cell, ocell.rowspan, ocell.colspan - k, last, ncols)
             == PlaceSlots(start, pi, cell, ocell.rowspan, ocell.colspan, last, ncols)
    {
      if (pi, pj) in pending {
        return Err(OverlapSpanError(""));
      }
      row := row + [cell];
      ghost var pendingBefore := pending;
      var ioffset := 1;
      while ioffset < ocell.rowspan
        invariant Project(pending, pi, pj, cell, ioffset, ocell.rowspan) == Project(pendingBefore, pi, pj, cell, 1, ocell.rowspan)
        decreases ocell.rowspan - ioffset
      {
        pending := pending[(pi + ioffset, pj) := cell];
        ioffset := ioffset + 1;
      }
      pj := pj + 1;
      if pj >= ncols {
        if !last {
          return Err(InvalidCellSpanError(""));
        } else {
          break;
        }
      }
      k := k + 1;
    }
    return Ok(Cursor(pending, pj, row));
  }

  /** Span one row: place its cells, then drain the end of the row. */
  method SpanRowLoop(pending0: Pending, pi: int, row: Row, ncols: int) returns (r: Result<(Pending, Row)>)
    ensures r == SpanRow(pending0, pi, row, ncols)
  {
    var pending, pj, newRow := pending0, 0, [];
    var cellIndex := 0;
    while cellIndex < |row.cells|
      invariant 0 <= cellIndex <= |row.cells|
      invariant PlaceCells(Cursor(pending, pj, newRow), pi, row.cells, cellIndex, ncols)
             == PlaceCells(Cursor(pending0, 0, []), pi, row.cells, 0, ncols)
    {
      var placed := PlaceCellLoop(pending, pj, newRow, pi, row.cells[cellIndex], cellIndex == |row.cells| - 1, ncols);
      if placed.Err? {
        return Err(placed.error);
      }
      pending, pj, newRow := placed.value.pending, placed.value.pj, placed.value.cells;
      cellIndex := cellIndex + 1;
    }
    pending, pj, newRow := DrainEndLoop(pending, pj, newRow, ncols);
    return Ok((pending, Row(newRow, row.attrs)));
  }

  /** Span the table: on success every row is rebuilt with unit cells, on an overlap
      between a rowspan and a colspan, or a colspan running past the column count at a
      cell that is not the last of its row, the corresponding error. */
  method Span(t: Table) returns (r: Result<Table>)
    ensures r == Spanned(t)
    ensures |t.rows| == 0 ==> r == Ok(t)
  {
    if |t.rows| == 0 {
      return Ok(t);
    }
    var cols := CountColumns(t.rows);
    var maxNcols := MaxOf(cols);
    assert maxNcols == ColumnCount(t.rows);
    var pending: Pending := map[];
    var data := [];
    var pi := 0;
    while pi < |t.rows|
      invariant 0 <= pi <= |t.rows|
      invariant SpanRows(pending, t.rows, pi, maxNcols, data) == SpanRows(map[], t.rows, 0, maxNcols, [])
    {
      var spanned := SpanRowLoop(pending, pi, t.rows[pi], maxNcols);
      if spanned.Err? {
        return Err(spanned.error);
      }
      pending := spanned.value.0;
      data := data + [spanned.value.1];
      pi := pi + 1;
    }
    return Ok(t.(rows := data));
  }

  // ---------------------------------------------------------------------------
  // Pad.

  /** The synthetic cell appended by Pad. */
  function Filler(isHeader: bool): (c: Cell)
    ensures IsUnit(c) && c.isHeader == isHeader
  {
    Cell(isHeader, 1, 1, map[], EmptyRichText, "")
  }

  /** The header flag a padding cell inherits: that of the row's last cell, false for an empty row. */
  function LastIsHeader(row: Row): bool
  {
    if |row.cells| == 0 then false else row.cells[|row.cells| - 1].isHeader
  }

  predicate Rectangular(t: Table) {
    forall i :: 0 <= i < |t.rows| ==> |t.rows[i].cells| == |t.rows[0].cells|
  }

  function Lengths(rows: seq<Row>): (s: seq<nat>)
    ensures |s| == |rows| && forall i :: 0 <= i < |rows| ==> s[i] == |rows[i].cells|
  {
    seq(|rows|, i requires 0 <= i < |rows| => |rows[i].cells|)
  }

  function PadRow(row: Row, width: nat): Row
    requires |row.cells| <= width
  {
    row.(cells := row.cells + seq(width - |row.cells|, _ => Filler(LastIsHeader(row))))
  }

  /** The outcome of Pad: None for a table without rows or whose rows all have the
      length of row 0; otherwise every row is extended to the longest row's length by
      filler cells that copy the header flag of the row's last original cell. */
  function Padded(t: Table): (r: Option<Table>)
    ensures r.None? <==> |t.rows| == 0 || Rectangular(t)
    ensures r.Some? ==> var p := r.value;
      && p == t.(rows := p.rows)
      && |p.rows| == |t.rows|
      && Rectangular(p)
      && forall i :: 0 <= i < |t.rows| ==>
           && p.rows[i].attrs == t.rows[i].attrs
           && |p.rows[i].cells| == MaxOf(Lengths(t.rows))
           && p.rows[i].cells[..|t.rows[i].cells|] == t.rows[i].cells
           && forall j :: |t.rows[i].cells| <= j < |p.rows[i].cells| ==>
                p.rows[i].cells[j] == Filler(LastIsHeader(t.rows[i]))
  {
    if |t.rows| == 0 || Rectangular(t) then None
    else
      var width := MaxOf(Lengths(t.rows));
      Some(t.(rows := seq(|t.rows|, i requires 0 <= i < |t.rows| => PadRow(t.rows[i], width))))
  }

  /** Push `newcell` onto the row until it has `width` cells. */
  method PadRowLoop(r: Row, newcell: Cell, width: nat) returns (row: Row)
    requires |r.cells| <= width && newcell == Filler(LastIsHeader(r))
    ensures row == PadRow(r, width)
  {
    row := r;
    while |row.cells| < width
      invariant |r.cells| <= |row.cells| <= width
      invariant row == r.(cells := r.cells + seq(|row.cells| - |r.cells|, _ => newcell))
      decreases width - |row.cells|
    {
      row := row.(cells := row.cells + [newcell]);
    }
  }

  /** Pad every row to `width`, in order. */
  method PadRows(rows: seq<Row>, width: nat) returns (out: seq<Row>)
    requires forall k :: 0 <= k < |rows| ==> |rows[k].cells| <= width
    ensures |out| == |rows| && forall k :: 0 <= k < |rows| ==> out[k] == PadRow(rows[k], width)
  {
    var defaultCell := Cell(false, 1, 1, map[], EmptyRichText, "");
    out := [];
    for i := 0 to |rows|
      invariant |out| == i
      invariant forall k :: 0 <= k < i ==> out[k] == PadRow(rows[k], width)
    {
      var row := PadRowLoop(rows[i], defaultCell.(isHeader := LastIsHeader(rows[i])), width);
      out := out + [row];
    }
  }

  /** Pad the table, pushing filler cells onto each short row. */
  method Pad(t: Table) returns (r: Option<Table>)
    ensures r == Padded(t)
  {
    if |t.rows| == 0 {
      return None;
    }
    var ncols := |t.rows[0].cells|;
    var isRegular := forall i | 0 <= i < |t.rows| :: |t.rows[i].cells| == ncols;
    if isRegular {
      assert Rectangular(t);
      return None;
    }
    assert !Rectangular(t);
    var maxNcols := MaxOf(Lengths(t.rows));
    assert forall k :: 0 <= k < |t.rows| ==> |t.rows[k].cells| <= maxNcols by {
      assert forall k :: 0 <= k < |t.rows| ==> Lengths(t.rows)[k] == |t.rows[k].cells|;
    }
    var rows := PadRows(t.rows, maxNcols);
    assert rows == seq(|t.rows|, i requires 0 <= i < |t.rows| => PadRow(t.rows[i], maxNcols));
    return Some(t.(rows := rows));
  }
}
