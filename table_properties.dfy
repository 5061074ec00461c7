/** Properties of the span and pad passes, stated about their functional model. */
module TableProperties {
  import opened Errors
  import opened Content
  import opened Strings
  import opened Tables

  predicate PendingUnit(p: Pending) {
    forall k :: k in p ==> IsUnit(p[k])
  }

  /** The errors Span can raise, both with the empty message. */
  predicate IsSpanFailure(e: Error) {
    e == OverlapSpanError("") || e == InvalidCellSpanError("")
  }

  // ---------------------------------------------------------------------------
  // Every placed cell is a unit cell.

  lemma {:induction false} DrainOwedUnit(c: Cursor, pi: int)
    requires PendingUnit(c.pending) && AllUnit(c.cells)
    ensures PendingUnit(DrainOwed(c, pi).pending) && AllUnit(DrainOwed(c, pi).cells)
    decreases |c.pending|
  {
    if (pi, c.pj) in c.pending {
      var key := (pi, c.pj);
      assert c.pending.Keys == (c.pending - {key}).Keys + {key};
      DrainOwedUnit(Cursor(c.pending - {key}, c.pj + 1, c.cells + [c.pending[key]]), pi);
    }
  }

  lemma {:induction false} DrainEndUnit(c: Cursor, ncols: int)
    requires PendingUnit(c.pending) && AllUnit(c.cells)
    ensures PendingUnit(DrainEnd(c, ncols).pending) && AllUnit(DrainEnd(c, ncols).cells)
    decreases |c.pending|
  {
    if (c.pj, c.pj) in c.pending && c.pj < ncols {
      var key := (c.pj, c.pj);
      assert c.pending.Keys == (c.pending - {key}).Keys + {key};
      DrainEndUnit(Cursor(c.pending - {key}, c.pj + 1, c.cells + [c.pending[key]]), ncols);
    }
  }

  lemma {:induction false} ProjectUnit(p: Pending, pi: int, pj: int, unit: Cell, o: int, rowspan: int)
    requires PendingUnit(p) && IsUnit(unit)
    ensures PendingUnit(Project(p, pi, pj, unit, o, rowspan))
    decreases rowspan - o
  {
    if o < rowspan {
      ProjectUnit(p[(pi + o, pj) := unit], pi, pj, unit, o + 1, rowspan);
    }
  }

  lemma {:induction false} PlaceSlotsUnit(c: Cursor, pi: int, unit: Cell, rowspan: int, n: nat, last: bool, ncols: int)
    requires PendingUnit(c.pending) && AllUnit(c.cells) && IsUnit(unit)
    ensures var r := PlaceSlots(c, pi, unit, rowspan, n, last, ncols);
      (r.Ok? ==> PendingUnit(r.value.pending) && AllUnit(r.value.cells)) && (r.Err? ==> IsSpanFailure(r.error))
    decreases n
  {
    if n > 0 && (pi, c.pj) !in c.pending {
      ProjectUnit(c.pending, pi, c.pj, unit, 1, rowspan);
      var c' := Cursor(Project(c.pending, pi, c.pj, unit, 1, rowspan), c.pj + 1, c.cells + [unit]);
      if c'.pj < ncols {
        PlaceSlotsUnit(c', pi, unit, rowspan, n - 1, last, ncols);
      }
    }
  }

  lemma {:induction false} PlaceCellsUnit(c: Cursor, pi: int, cells: seq<Cell>, k: nat, ncols: int)
    requires k <= |cells| && PendingUnit(c.pending) && AllUnit(c.cells)
    ensures var r := PlaceCells(c, pi, cells, k, ncols);
      (r.Ok? ==> PendingUnit(r.value.pending) && AllUnit(r.value.cells)) && (r.Err? ==> IsSpanFailure(r.error))
    decreases |cells| - k
  {
    if k < |cells| {
      DrainOwedUnit(c, pi);
      PlaceSlotsUnit(DrainOwed(c, pi), pi, Unit(cells[k]), cells[k].rowspan, cells[k].colspan, k == |cells| - 1, ncols);
      var r := PlaceCell(c, pi, cells[k], k == |cells| - 1, ncols);
      if r.Ok? {
        PlaceCellsUnit(r.value, pi, cells, k + 1, ncols);
      }
    }
  }

  lemma {:induction false} SpanRowsShape(p: Pending, rows: seq<Row>, i: nat, ncols: int, data: seq<Row>)
    requires i <= |rows| && |data| == i && PendingUnit(p) && RowsUnit(data)
    requires forall k :: 0 <= k < i ==> data[k].attrs == rows[k].attrs
    ensures var r := SpanRows(p, rows, i, ncols, data);
      && (r.Ok? ==> |r.value| == |rows| && RowsUnit(r.value)
                    && forall k :: 0 <= k < |rows| ==> r.value[k].attrs == rows[k].attrs)
      && (r.Err? ==> IsSpanFailure(r.error))
    decreases |rows| - i
  {
    if i < |rows| {
      var start := Cursor(p, 0, []);
      PlaceCellsUnit(start, i, rows[i].cells, 0, ncols);
      var placed := PlaceCells(start, i, rows[i].cells, 0, ncols);
      if placed.Ok? {
        DrainEndUnit(placed.value, ncols);
        var d := DrainEnd(placed.value, ncols);
        SpanRowsShape(d.pending, rows, i + 1, ncols, data + [Row(d.cells, rows[i].attrs)]);
      }
    }
  }

  /** On success Span keeps the row count, every row's attributes and every table
      field other than the rows, and every cell of the result, rowspan clones included,
      has colspan 1 and rowspan 1; its only failures are the two span errors. */
  lemma SpanShape(t: Table)
    ensures var r := Spanned(t);
      && (r.Ok? ==> && r.value == t.(rows := r.value.rows)
                    && |r.value.rows| == |t.rows|
                    && (forall i :: 0 <= i < |t.rows| ==> r.value.rows[i].attrs == t.rows[i].attrs)
                    && (|t.rows| > 0 ==> RowsUnit(r.value.rows)))
      && (r.Err? ==> IsSpanFailure(r.error))
  {
    if |t.rows| > 0 {
      SpanRowsShape(map[], t.rows, 0, ColumnCount(t.rows), []);
    }
  }

  // ---------------------------------------------------------------------------
  // A table whose cells all have unit spans is returned unchanged.

  lemma {:induction false} PlaceCellsIdentity(pi: int, cells: seq<Cell>, k: nat, ncols: int)
    requires k <= |cells| <= ncols && AllUnit(cells)
    ensures PlaceCells(Cursor(map[], k, cells[..k]), pi, cells, k, ncols) == Ok(Cursor(map[], |cells|, cells))
    decreases |cells| - k
  {
    if k == |cells| {
      assert cells[..k] == cells;
    } else {
      var c := Cursor(map[], k, cells[..k]);
      assert DrainOwed(c, pi) == c;
      assert Unit(cells[k]) == cells[k];
      assert Project(map[], pi, k, cells[k], 1, 1) == map[];
      assert cells[..k] + [cells[k]] == cells[..k + 1];
      var c' := Cursor(map[], k + 1, cells[..k + 1]);
      assert PlaceCell(c, pi, cells[k], k == |cells| - 1, ncols) == Ok(c');
      PlaceCellsIdentity(pi, cells, k + 1, ncols);
    }
  }

  lemma {:induction false} SpanRowsIdentity(rows: seq<Row>, i: nat, ncols: int)
    requires i <= |rows| && RowsUnit(rows)
    requires forall k :: 0 <= k < |rows| ==> |rows[k].cells| <= ncols
    ensures SpanRows(map[], rows, i, ncols, rows[..i]) == Ok(rows)
    decreases |rows| - i
  {
    if i == |rows| {
      assert rows[..i] == rows;
    } else {
      PlaceCellsIdentity(i, rows[i].cells, 0, ncols);
      assert rows[i].cells[..0] == [];
      var end := Cursor(map[], |rows[i].cells|, rows[i].cells);
      assert DrainEnd(end, ncols) == end;
      assert SpanRow(map[], i, rows[i], ncols) == Ok((map[], rows[i]));
      assert rows[..i] + [rows[i]] == rows[..i + 1];
      SpanRowsIdentity(rows, i + 1, ncols);
    }
  }

  /** If every cell already has colspan 1 and rowspan 1, Span returns the table as it is. */
  lemma SpanUnitIdentity(t: Table)
    requires RowsUnit(t.rows)
    ensures Spanned(t) == Ok(t)
  {
    if |t.rows| > 0 {
      var n := ColumnCount(t.rows);
      forall k | 0 <= k < |t.rows| ensures |t.rows[k].cells| <= n {
        assert |t.rows[k].cells| <= Width(t.rows, k);
      }
      SpanRowsIdentity(t.rows, 0, n);
      assert t.rows[..0] == [];
    }
  }

  // ---------------------------------------------------------------------------
  // An overlap needs a colspan: with colspans of at most 1 Span never overlaps.

  predicate NarrowCells(cells: seq<Cell>) {
    forall j :: 0 <= j < |cells| ==> cells[j].colspan <= 1
  }

  lemma {:induction false} PlaceCellsNoOverlap(c: Cursor, pi: int, cells: seq<Cell>, k: nat, ncols: int)
    requires k <= |cells| && NarrowCells(cells)
    ensures PlaceCells(c, pi, cells, k, ncols) != Err(OverlapSpanError(""))
    decreases |cells| - k
  {
    if k < |cells| {
      var d := DrainOwed(c, pi);
      assert (pi, d.pj) !in d.pending;
      var r := PlaceCell(c, pi, cells[k], k == |cells| - 1, ncols);
      assert r != Err(OverlapSpanError(""));
      if r.Ok? {
        PlaceCellsNoOverlap(r.value, pi, cells, k + 1, ncols);
      }
    }
  }

  lemma {:induction false} SpanRowsNoOverlap(p: Pending, rows: seq<Row>, i: nat, ncols: int, data: seq<Row>)
    requires i <= |rows|
    requires forall k :: 0 <= k < |rows| ==> NarrowCells(rows[k].cells)
    ensures SpanRows(p, rows, i, ncols, data) != Err(OverlapSpanError(""))
    decreases |rows| - i
  {
    if i < |rows| {
      PlaceCellsNoOverlap(Cursor(p, 0, []), i, rows[i].cells, 0, ncols);
      var r := SpanRow(p, i, rows[i], ncols);
      if r.Ok? {
        SpanRowsNoOverlap(r.value.0, rows, i + 1, ncols, data + [r.value.1]);
      }
    }
  }

  /** OverlapSpanError is raised only at a colspan placement: a table without any
      colspan above 1 never fails with it. */
  lemma SpanNoOverlapWithoutColspan(t: Table)
    requires forall k :: 0 <= k < |t.rows| ==> NarrowCells(t.rows[k].cells)
    ensures Spanned(t) != Err(OverlapSpanError(""))
  {
    if |t.rows| > 0 {
      SpanRowsNoOverlap(map[], t.rows, 0, ColumnCount(t.rows), []);
    }
  }

  // ---------------------------------------------------------------------------
  // Span then Pad.

  /** After Span and then Pad (keeping the spanned table when Pad returns None), every
      row has the same number of cells and every cell has colspan 1 and rowspan 1. */
  lemma SpanThenPad(t: Table)
    requires Spanned(t).Ok?
    ensures var s := Spanned(t).value;
      var p := Padded(s).GetOr(s);
      Rectangular(p) && RowsUnit(p.rows) && |p.rows| == |t.rows|
  {
    SpanShape(t);
    var s := Spanned(t).value;
    if |t.rows| == 0 {
      assert s == t;
    }
    var r := Padded(s);
    if r.Some? {
      var p := r.value;
      forall i | 0 <= i < |p.rows| ensures AllUnit(p.rows[i].cells) {
        forall j | 0 <= j < |p.rows[i].cells| ensures IsUnit(p.rows[i].cells[j]) {
          if j < |s.rows[i].cells| {
            assert p.rows[i].cells[j] == p.rows[i].cells[..|s.rows[i].cells|][j];
          }
        }
      }
    }
  }

  // ---------------------------------------------------------------------------
  // Placing the colspan slots of one cell.

  /** Projection only registers cells in rows below the current one. */
  lemma {:induction false} ProjectKeepsRow(p: Pending, pi: int, pj: int, unit: Cell, o: int, rowspan: int, j: int)
    requires o >= 1
    ensures (pi, j) in Project(p, pi, pj, unit, o, rowspan) <==> (pi, j) in p
    decreases rowspan - o
  {
    if o < rowspan {
      ProjectKeepsRow(p[(pi + o, pj) := unit], pi, pj, unit, o + 1, rowspan, j);
    }
  }

  /** How many of `n` slots a cell starting at column `pj` gets to place before the
      column count `ncols` stops it: at least one, and none past the count after that. */
  function Attempted(pj: int, n: nat, ncols: int): (m: nat)
    ensures m <= n
    ensures n > 0 ==> m >= 1
  {
    if n == 0 then 0
    else if pj + n >= ncols then (if ncols - pj > 1 then ncols - pj else 1)
    else n
  }

  /** Column j of row pi is taken by a cell projected from a row above. */
  predicate Blocked(pending: Pending, pi: int, j: int) {
    (pi, j) in pending
  }

  /** The outcome of placing the slots of one cell. It is an overlap exactly when one of
      the columns it gets to place is already pending in this row. Otherwise, when the
      colspan reaches the column count, a cell that is not the row's last is an
      InvalidCellSpanError and the last cell is cut there; in every other case all
      slots are placed, each holding the unit clone. */
  lemma {:induction false} PlaceSlotsOutcome(c: Cursor, pi: int, unit: Cell, rowspan: int, n: nat, last: bool,
                                             ncols: int)
    ensures var m, r := Attempted(c.pj, n, ncols), PlaceSlots(c, pi, unit, rowspan, n, last, ncols);
      && (r == Err(OverlapSpanError("")) <==> exists j :: c.pj <= j < c.pj + m && Blocked(c.pending, pi, j))
      && ((forall j :: c.pj <= j < c.pj + m ==> !Blocked(c.pending, pi, j)) ==>
            if !last && n > 0 && c.pj + n >= ncols then r == Err(InvalidCellSpanError(""))
            else r.Ok? && r.value.pj == c.pj + m && r.value.cells == c.cells + seq(m, _ => unit))
    decreases n
  {
    var m, r := Attempted(c.pj, n, ncols), PlaceSlots(c, pi, unit, rowspan, n, last, ncols);
    if n == 0 {
      assert c.cells + seq(0, _ => unit) == c.cells;
    } else if (pi, c.pj) in c.pending {
      assert Blocked(c.pending, pi, c.pj);
    } else {
      var c' := Cursor(Project(c.pending, pi, c.pj, unit, 1, rowspan), c.pj + 1, c.cells + [unit]);
      forall j
        ensures Blocked(c'.pending, pi, j) <==> Blocked(c.pending, pi, j)
      {
        ProjectKeepsRow(c.pending, pi, c.pj, unit, 1, rowspan, j);
      }
      if c'.pj >= ncols {
        assert m == 1;
        assert c.cells + seq(1, _ => unit) == c'.cells;
      } else {
        PlaceSlotsOutcome(c', pi, unit, rowspan, n - 1, last, ncols);
        var m' := Attempted(c'.pj, n - 1, ncols);
        assert m == m' + 1;
        if r.Ok? {
          assert c'.cells + seq(m', _ => unit) == c.cells + seq(m, _ => unit);
        }
      }
    }
  }

  // ---------------------------------------------------------------------------
  // Worked cases.

  /** A plain data cell named by its html, with the given spans. */
  function Named(name: string, rowspan: u16, colspan: u16): Cell {
    Cell(false, rowspan, colspan, map[], EmptyRichText.(text := name), name)
  }

  function WithRows(rows: seq<Row>): Table {
    Table("", "", "", map[], [], rows)
  }

  /** A rowspan-2 cell directly above the second slot of a colspan-2 cell of the next
      row collides with it. */
  lemma OverlapExample()
    ensures Spanned(WithRows([Row([Named("a", 1, 1), Named("b", 2, 1)], map[]),
                              Row([Named("c", 1, 2)], map[])])) == Err(OverlapSpanError(""))
  {
    var rows := [Row([Named("a", 1, 1), Named("b", 2, 1)], map[]), Row([Named("c", 1, 2)], map[])];
    assert rows[0].cells[..1] == [Named("a", 1, 1)] && rows[0].cells[..1][..0] == [];
    assert Covering(rows[0].cells, 1) == 1;
    assert Width(rows, 0) == 2 && Width(rows, 1) == 2;
    assert ColumnCount(rows) == 2;
  }

  /** A colspan that runs past the column count at a cell that is not the last of its
      row is an InvalidCellSpanError ... */
  lemma OverflowExample()
    ensures Spanned(WithRows([Row([Named("a", 1, 3), Named("b", 1, 1)], map[])])) == Err(InvalidCellSpanError(""))
  {
    var rows := [Row([Named("a", 1, 3), Named("b", 1, 1)], map[])];
    assert Width(rows, 0) == 2;
    assert ColumnCount(rows) == 2;
  }

  /** ... while the same colspan on the last cell is cut at the column count. */
  lemma TruncationExample()
    ensures Spanned(WithRows([Row([Named("b", 1, 1), Named("a", 1, 3)], map[])]))
         == Ok(WithRows([Row([Named("b", 1, 1), Named("a", 1, 1)], map[])]))
  {
    var rows := [Row([Named("b", 1, 1), Named("a", 1, 3)], map[])];
    assert Width(rows, 0) == 2;
    assert ColumnCount(rows) == 2;
    var b, a := Named("b", 1, 1), Named("a", 1, 1);
    var c1 := Cursor(map[], 1, [b]);
    assert DrainOwed(Cursor(map[], 0, []), 0) == Cursor(map[], 0, []);
    assert Unit(rows[0].cells[0]) == b && Unit(rows[0].cells[1]) == a;
    assert Project(map[], 0, 0, b, 1, 1) == map[];
    assert PlaceSlots(c1, 0, b, 1, 0, false, 2) == Ok(c1);
    assert [] + [b] == [b];
    assert PlaceSlots(Cursor(map[], 0, []), 0, b, 1, 1, false, 2) == PlaceSlots(c1, 0, b, 1, 0, false, 2);
    assert PlaceCell(Cursor(map[], 0, []), 0, rows[0].cells[0], false, 2) == Ok(c1);
    assert DrainOwed(c1, 0) == c1;
    var c2 := Cursor(map[], 2, [b, a]);
    assert [b] + [a] == [b, a];
    assert Project(map[], 0, 1, a, 1, 1) == map[];
    assert PlaceSlots(c1, 0, a, 1, 3, true, 2) == Ok(c2);
    assert PlaceCell(c1, 0, rows[0].cells[1], true, 2) == Ok(c2);
    assert PlaceCells(Cursor(map[], 0, []), 0, rows[0].cells, 0, 2) == Ok(c2);
    assert DrainEnd(c2, 2) == c2;
    var spanned := Row([b, a], map[]);
    assert SpanRow(map[], 0, rows[0], 2) == Ok((map[], spanned));
    assert [] + [spanned] == [spanned];
    assert SpanRows(map[], rows, 0, 2, []) == SpanRows(map[], rows, 1, 2, [spanned]);
  }

  /** Placing a unit cell where nothing is pending and the cursor stays below the
      column count puts exactly that cell at the cursor and moves on by one. */
  lemma UnitPlacement(c: Cursor, pi: int, cell: Cell, last: bool, ncols: int)
    requires IsUnit(cell) && (pi, c.pj) !in c.pending && c.pj + 1 < ncols
    ensures PlaceCell(c, pi, cell, last, ncols) == Ok(Cursor(c.pending, c.pj + 1, c.cells + [cell]))
  {
    assert DrainOwed(c, pi) == c;
    assert Unit(cell) == cell;
    assert Project(c.pending, pi, c.pj, cell, 1, 1) == c.pending;
  }

  /** The three rows of the end-of-row drain example: cell c of row 0 spans three rows. */
  function DrainRows(): seq<Row> {
    [Row([Named("a", 1, 1), Named("b", 1, 1), Named("c", 3, 1)], map[]),
     Row([Named("d", 1, 1), Named("e", 1, 1)], map[]),
     Row([Named("g", 1, 1), Named("h", 1, 1)], map[])]
  }

  /** Every row of the example occupies three columns, row 2 included (through c). */
  lemma DrainRowsColumns()
    ensures Width(DrainRows(), 0) == 3 && Width(DrainRows(), 1) == 3 && Width(DrainRows(), 2) == 3
    ensures ColumnCount(DrainRows()) == 3
  {
    var a, b, c3 := Named("a", 1, 1), Named("b", 1, 1), Named("c", 3, 1);
    var d, e := Named("d", 1, 1), Named("e", 1, 1);
    var rows := DrainRows();
    assert a.rowspan == 1 && b.rowspan == 1 && c3.rowspan == 3 && d.rowspan == 1 && e.rowspan == 1;
    assert [a, b, c3][..2] == [a, b] && [a, b][..1] == [a] && [a][..0] == [];
    assert [d, e][..1] == [d] && [d][..0] == [];
    assert [a][..1] == [a] && [a, b][..2] == [a, b] && [a, b, c3][..3] == [a, b, c3];
    assert [d][..1] == [d] && [d, e][..2] == [d, e];
    CoveringSnoc([a], 0, 1); CoveringSnoc([a], 0, 2); CoveringSnoc([d], 0, 1);
    CoveringSnoc([a, b], 1, 1); CoveringSnoc([a, b], 1, 2); CoveringSnoc([d, e], 1, 1);
    CoveringSnoc([a, b, c3], 2, 1); CoveringSnoc([a, b, c3], 2, 2);
    assert rows[0].cells == [a, b, c3] && rows[1].cells == [d, e];
    assert DebtFrom(rows, 0, 1) == 0 && DebtFrom(rows, 0, 2) == 0 && DebtFrom(rows, 0, 3) == 0;
    assert DebtFrom(rows, 1, 1) == 1 && DebtFrom(rows, 1, 2) == 1 && DebtFrom(rows, 1, 3) == 1;
    assert DebtFrom(rows, 2, 1) == 1 && DebtFrom(rows, 2, 2) == 1 && DebtFrom(rows, 2, 3) == 1;
    assert Widths(rows) == [3, 3, 3];
  }

  /** Row 0 places a, b and c, and projects c to (1, 2) and (2, 2). */
  lemma DrainRow0()
    ensures SpanRow(map[], 0, DrainRows()[0], 3)
         == Ok((map[(1, 2) := Named("c", 1, 1), (2, 2) := Named("c", 1, 1)],
                Row([Named("a", 1, 1), Named("b", 1, 1), Named("c", 1, 1)], map[])))
  {
    var a, b, c3, c := Named("a", 1, 1), Named("b", 1, 1), Named("c", 3, 1), Named("c", 1, 1);
    var p := map[(1, 2) := c, (2, 2) := c];
    UnitPlacement(Cursor(map[], 0, []), 0, a, false, 3);
    assert [] + [a] == [a];
    assert [a] + [b] == [a, b];
    UnitPlacement(Cursor(map[], 1, [a]), 0, b, false, 3);
    var c0 := Cursor(map[], 2, [a, b]);
    assert DrainOwed(c0, 0) == c0 && Unit(c3) == c;
    assert Project(map[], 0, 2, c, 1, 3) == p;
    assert [a, b] + [c] == [a, b, c];
    assert PlaceSlots(c0, 0, c, 3, 1, true, 3) == Ok(Cursor(p, 3, [a, b, c]));
    assert PlaceCell(c0, 0, c3, true, 3) == Ok(Cursor(p, 3, [a, b, c]));
    var cells := DrainRows()[0].cells;
    assert cells == [a, b, c3];
    assert PlaceCells(c0, 0, cells, 2, 3) == Ok(Cursor(p, 3, [a, b, c]));
    assert PlaceCells(Cursor(map[], 1, [a]), 0, cells, 1, 3) == Ok(Cursor(p, 3, [a, b, c]));
    assert PlaceCells(Cursor(map[], 0, []), 0, cells, 0, 3) == Ok(Cursor(p, 3, [a, b, c]));
    assert DrainEnd(Cursor(p, 3, [a, b, c]), 3) == Cursor(p, 3, [a, b, c]);
  }

  /** In row 1 the end-of-row drain takes the copy of c stored under key (2, 2). */
  lemma DrainRow1()
    ensures var c := Named("c", 1, 1);
      SpanRow(map[(1, 2) := c, (2, 2) := c], 1, DrainRows()[1], 3)
         == Ok((map[(1, 2) := c], Row([Named("d", 1, 1), Named("e", 1, 1), c], map[])))
  {
    var c, d, e := Named("c", 1, 1), Named("d", 1, 1), Named("e", 1, 1);
    var p, p1 := map[(1, 2) := c, (2, 2) := c], map[(1, 2) := c];
    UnitPlacement(Cursor(p, 0, []), 1, d, false, 3);
    assert [] + [d] == [d];
    assert [d] + [e] == [d, e];
    UnitPlacement(Cursor(p, 1, [d]), 1, e, true, 3);
    var cells := DrainRows()[1].cells;
    assert cells == [d, e];
    assert PlaceCells(Cursor(p, 1, [d]), 1, cells, 1, 3) == Ok(Cursor(p, 2, [d, e]));
    assert PlaceCells(Cursor(p, 0, []), 1, cells, 0, 3) == Ok(Cursor(p, 2, [d, e]));
    assert p - {(2, 2)} == p1;
    assert DrainEnd(Cursor(p1, 3, [d, e, c]), 3) == Cursor(p1, 3, [d, e, c]);
    assert DrainEnd(Cursor(p, 2, [d, e]), 3) == Cursor(p1, 3, [d, e, c]);
  }

  /** Row 2 finds nothing left at (2, 2) and keeps its two cells. */
  lemma DrainRow2()
    ensures var p1 := map[(1, 2) := Named("c", 1, 1)];
      SpanRow(p1, 2, DrainRows()[2], 3) == Ok((p1, Row([Named("g", 1, 1), Named("h", 1, 1)], map[])))
  {
    var c, g, h := Named("c", 1, 1), Named("g", 1, 1), Named("h", 1, 1);
    var p1 := map[(1, 2) := c];
    UnitPlacement(Cursor(p1, 0, []), 2, g, false, 3);
    assert [] + [g] == [g];
    assert [g] + [h] == [g, h];
    UnitPlacement(Cursor(p1, 1, [g]), 2, h, true, 3);
    var cells := DrainRows()[2].cells;
    assert cells == [g, h];
    assert PlaceCells(Cursor(p1, 1, [g]), 2, cells, 1, 3) == Ok(Cursor(p1, 2, [g, h]));
    assert PlaceCells(Cursor(p1, 0, []), 2, cells, 0, 3) == Ok(Cursor(p1, 2, [g, h]));
    assert DrainEnd(Cursor(p1, 2, [g, h]), 3) == Cursor(p1, 2, [g, h]);
  }

  /** The end-of-row drain looks up key (pj, pj) rather than (pi, pj). In DrainRows the
      copy of cell c owed to row 2 at column 2 is pulled into row 1 (where pi = 1 and
      pj = 2), so row 2 ends one cell short of the three columns it occupies; the copy
      owed to row 1 stays pending and is dropped. */
  lemma EndDrainKeyExample()
    ensures Width(DrainRows(), 2) == 3
    ensures Spanned(WithRows(DrainRows())) == Ok(WithRows([
           Row([Named("a", 1, 1), Named("b", 1, 1), Named("c", 1, 1)], map[]),
           Row([Named("d", 1, 1), Named("e", 1, 1), Named("c", 1, 1)], map[]),
           Row([Named("g", 1, 1), Named("h", 1, 1)], map[])]))
  {
    var rows := DrainRows();
    var c := Named("c", 1, 1);
    var p, p1 := map[(1, 2) := c, (2, 2) := c], map[(1, 2) := c];
    var row0 := Row([Named("a", 1, 1), Named("b", 1, 1), c], map[]);
    var row1 := Row([Named("d", 1, 1), Named("e", 1, 1), c], map[]);
    var row2 := Row([Named("g", 1, 1), Named("h", 1, 1)], map[]);
    DrainRowsColumns();
    DrainRow0();
    DrainRow1();
    DrainRow2();
    Appends(row0, row1, row2);
    SpanRowsStep(map[], rows, 0, 3, [], p, row0);
    SpanRowsStep(p, rows, 1, 3, [row0], p1, row1);
    SpanRowsStep(p1, rows, 2, 3, [row0, row1], p1, row2);
  }

  /** Building a three-element sequence one element at a time. */
  lemma Appends<T>(x: T, y: T, z: T)
    ensures [] + [x] == [x] && [x] + [y] == [x, y] && [x, y] + [z] == [x, y, z]
  {
  }

  /** One row of the row loop: spanning rows i.. is spanning row i and then the rest. */
  lemma SpanRowsStep(pending: Pending, rows: seq<Row>, i: nat, ncols: int, data: seq<Row>, p: Pending, row: Row)
    requires i < |rows| && SpanRow(pending, i, rows[i], ncols) == Ok((p, row))
    ensures SpanRows(pending, rows, i, ncols, data) == SpanRows(p, rows, i + 1, ncols, data + [row])
  {
  }
}
