/** The rows of a graduate timetable table. Which columns an earlier cell still reaches into is tracked
    by one counter per column; the reference is the full grid of slots, filled left to right into the
    first free column (HTML Living Standard, section 4.9.12.1). */
module GraduateGrid {
  type Span = n: int | 1 <= n <= 30 witness 1

  datatype Cell = Cell(rowspan: Span, colspan: Span)

  datatype Placed = Placed(row: nat, column: nat, rowspan: Span, colspan: Span)
  {
    predicate InColumn(c: nat) { column <= c < column + colspan }

    predicate InSlot(r: nat, c: nat) { row <= r < row + rowspan && InColumn(c) }
  }

  /** How many rows from the next one on a column is marked as occupied. */
  function Count(active: map<nat, nat>, c: nat): nat { if c in active then active[c] else 0 }

  ghost function Marked(active: map<nat, nat>): iset<nat> { iset c: nat | Count(active, c) > 0 }

  // -------------------------------------------------------- placing one row

  /** The column after the last cell of a row. */
  function End(row: seq<Placed>): nat {
    if row == [] then 0 else row[|row| - 1].column + row[|row| - 1].colspan
  }

  ghost predicate FirstFree(taken: iset<nat>, from: nat, column: nat) {
    from <= column && column !in taken && forall c :: from <= c < column ==> c in taken
  }

  /** A cell of row `r` sits at the first free column from `from` on. */
  ghost predicate SitsAt(taken: iset<nat>, r: nat, cell: Cell, from: nat, p: Placed) {
    p.row == r && p.rowspan == cell.rowspan && p.colspan == cell.colspan && FirstFree(taken, from, p.column)
  }

  /** Every cell sits at the first free column after its predecessor. */
  ghost predicate FilledAround(taken: iset<nat>, r: nat, cells: seq<Cell>, row: seq<Placed>) {
    var n := |row| - 1;
    |row| == |cells| && (row != [] ==>
        FilledAround(taken, r, cells[..n], row[..n]) && SitsAt(taken, r, cells[n], End(row[..n]), row[n]))
  }

  lemma FilledGrows(taken: iset<nat>, r: nat, cells: seq<Cell>, row: seq<Placed>, cell: Cell, p: Placed)
    requires FilledAround(taken, r, cells, row) && SitsAt(taken, r, cell, End(row), p)
    ensures FilledAround(taken, r, cells + [cell], row + [p])
  {
    assert (row + [p])[..|row|] == row && (cells + [cell])[..|cells|] == cells;
  }

  /** The first free column is unique, so a row can be filled in one way only. */
  lemma {:induction false} FilledUniquely(
    taken: iset<nat>, r: nat, cells: seq<Cell>, one: seq<Placed>, other: seq<Placed>)
    requires FilledAround(taken, r, cells, one) && FilledAround(taken, r, cells, other)
    ensures one == other
  {
    if cells != [] {
      var n := |cells| - 1;
      FilledUniquely(taken, r, cells[..n], one[..n], other[..n]);
      assert one == one[..n] + [one[n]] && other == other[..n] + [other[n]];
    }
  }

  /** The cells of a row lie in it, left to right. */
  predicate LeftToRight(row: seq<Placed>, r: nat) {
    (forall p :: p in row ==> p.row == r && p.column + p.colspan <= End(row))
    && forall i, j :: 0 <= i < j < |row| ==> row[i].column + row[i].colspan <= row[j].column
  }

  lemma {:induction false} FilledLeftToRight(taken: iset<nat>, r: nat, cells: seq<Cell>, row: seq<Placed>)
    requires FilledAround(taken, r, cells, row)
    ensures LeftToRight(row, r)
  {
    if row != [] {
      var n := |row| - 1;
      FilledLeftToRight(taken, r, cells[..n], row[..n]);
      assert row == row[..n] + [row[n]];
      assert forall i :: 0 <= i < n ==> row[i] in row[..n];
    }
  }

  // ------------------------------------------------------- counting one row

  /** The counters after a row: a tall cell sets those of its columns, every other one runs down. */
  ghost predicate Counted(before: map<nat, nat>, row: seq<Placed>, after: map<nat, nat>) {
    && (forall p, c: nat :: p in row && p.rowspan > 1 && p.InColumn(c) ==> Count(after, c) == p.rowspan - 1)
    && (forall c: nat :: (forall p :: p in row && p.rowspan > 1 ==> !p.InColumn(c)) ==>
          Count(after, c) == if Count(before, c) > 1 then Count(before, c) - 1 else 0)
  }

  ghost predicate RowStep(before: map<nat, nat>, r: nat, cells: seq<Cell>, row: seq<Placed>, after: map<nat, nat>) {
    FilledAround(Marked(before), r, cells, row) && Counted(before, row, after)
  }

  class RowSpans {
    var active: map<nat, nat>

    constructor ()
      ensures active == map[]
    {
      active := map[];
    }

    /** Skips the columns that earlier cells still occupy. */
    method NextFree(from: nat) returns (column: nat)
      ensures FirstFree(Marked(active), from, column)
    {
      column := from;
      ghost var ahead := active.Keys;
      while column in active && active[column] > 0
        invariant from <= column && forall c :: from <= c < column ==> c in Marked(active)
        invariant ahead <= active.Keys && forall c :: c in active && c >= column ==> c in ahead
        decreases |ahead|
      {
        ahead := ahead - {column};
        column := column + 1;
      }
    }

    /** Runs every counter down by one row. */
    method RunDown()
      modifies this
      ensures forall c: nat :: Count(active, c) == if Count(old(active), c) > 1 then Count(old(active), c) - 1 else 0
    {
      var pending := active.Keys;
      while pending != {}
        invariant pending <= active.Keys
        invariant forall c: nat :: Count(active, c) ==
                    if c in pending then Count(old(active), c) else if Count(old(active), c) > 1
                        then Count(old(active), c) - 1 else 0
        decreases |pending|
      {
        var column :| column in pending;
        if active[column] <= 1 {
          active := active - {column};
        } else {
          active := active[column := active[column] - 1];
        }
        pending := pending - {column};
      }
    }

    method PlaceRow(cells: seq<Cell>, r: nat) returns (row: seq<Placed>)
      modifies this
      ensures RowStep(old(active), r, cells, row, active)
    {
      var started;
      row, started := PlaceCells(cells, r);
      RunDown();
      CountsMeet(old(active), row, active, started);
      active := active + started;
    }

    /** Places the cells of a row around the occupied columns and starts the counters of its tall cells. */
    method PlaceCells(cells: seq<Cell>, r: nat) returns (row: seq<Placed>, started: map<nat, nat>)
      ensures FilledAround(Marked(active), r, cells, row) && FreshCounts(row, started)
    {
      ghost var taken := Marked(active);
      row, started := [], map[];
      var column := 0;
      for i := 0 to |cells|
        invariant column == End(row) && FilledAround(taken, r, cells[..i], row) && FreshCounts(row, started)
      {
        column := NextFree(column);
        var placed := Placed(r, column, cells[i].rowspan, cells[i].colspan);
        FilledLeftToRight(taken, r, cells[..i], row);
        started := StartColumns(row, placed, started);
        FilledGrows(taken, r, cells[..i], row, cells[i], placed);
        assert cells[..i + 1] == cells[..i] + [cells[i]];
        row := row + [placed];
        column := column + placed.colspan;
      }
      assert cells[..|cells|] == cells;
    }
  }

  /** A tall cell starts a counter in each of its columns. */
  method StartColumns(ghost row: seq<Placed>, p: Placed, known: map<nat, nat>) returns (started: map<nat, nat>)
    requires FreshCounts(row, known)
    requires forall q :: q in row ==> q.column + q.colspan <= End(row)
    requires End(row) <= p.column
    ensures FreshCounts(row + [p], started)
  {
    started := known;
    if p.rowspan > 1 {
      for offset := 0 to p.colspan
        invariant forall c: nat :: c in started <==> c in known || p.column <= c < p.column + offset
        invariant forall c: nat :: c in started ==>
                  started[c] == if p.column <= c < p.column + offset then p.rowspan - 1 else known[c]
      {
        started := started[p.column + offset := p.rowspan - 1];
      }
    }
    FreshGrow(row, p, known, started);
  }

  /** The counters a row sets: those under its tall cells. */
  ghost predicate FreshCounts(row: seq<Placed>, started: map<nat, nat>) {
    && (forall p, c: nat :: p in row && p.rowspan > 1 && p.InColumn(c) ==> c in started && started[c] == p.rowspan - 1)
    && (forall c: nat :: c in started ==> exists p :: p in row && p.rowspan > 1 && p.InColumn(c))
  }

  lemma FreshGrow(row: seq<Placed>, p: Placed, known: map<nat, nat>, started: map<nat, nat>)
    requires FreshCounts(row, known) && forall q :: q in row ==> q.column + q.colspan <= p.column
    requires forall c: nat :: c in started <==> c in known || (p.rowspan > 1 && p.InColumn(c))
    requires forall c: nat :: c in started ==>
              started[c] == if p.rowspan > 1 && p.InColumn(c) then p.rowspan - 1 else known[c]
    ensures FreshCounts(row + [p], started)
  {
    forall q, c: nat | q in row + [p] && q.rowspan > 1 && q.InColumn(c)
      ensures c in started && started[c] == q.rowspan - 1
    {
      assert q in row || q == p;
    }
    forall c: nat | c in started ensures exists q :: q in row + [p] && q.rowspan > 1 && q.InColumn(c) {
      if c in known {
        var q :| q in row && q.rowspan > 1 && q.InColumn(c);
        assert q in row + [p];
      } else {
        assert p in row + [p];
      }
    }
  }

  lemma CountsMeet(before: map<nat, nat>, row: seq<Placed>, down: map<nat, nat>, started: map<nat, nat>)
    requires FreshCounts(row, started)
    requires forall c: nat :: Count(down, c) == if Count(before, c) > 1 then Count(before, c) - 1 else 0
    ensures Counted(before, row, down + started)
  {
    assert forall c: nat :: Count(down + started, c) == if c in started then started[c] else Count(down, c);
  }

  // -------------------------------------------------------------- the grid

  datatype RowResult = RowResult(before: map<nat, nat>, cells: seq<Cell>, row: seq<Placed>, after: map<nat, nat>)

  /** A table read from its first row on. */
  ghost predicate IsTable(table: seq<RowResult>) {
    table != [] ==>
      var n := |table| - 1;
      IsTable(table[..n]) && table[n].before == Final(table[..n])
      && RowStep(table[n].before, n, table[n].cells, table[n].row, table[n].after)
  }

  lemma TableGrows(table: seq<RowResult>, next: RowResult)
    requires IsTable(table) && next.before == Final(table)
    requires RowStep(next.before, |table|, next.cells, next.row, next.after)
    ensures IsTable(table + [next]) && Final(table + [next]) == next.after
  {
    assert (table + [next])[..|table|] == table;
  }

  function Laid(table: seq<RowResult>): seq<Placed> {
    if table == [] then [] else Laid(table[..|table| - 1]) + table[|table| - 1].row
  }

  function Final(table: seq<RowResult>): map<nat, nat> { if table == [] then map[] else table[|table| - 1].after }

  /** Columns whose slot in row `r` an earlier cell fills. */
  ghost function Filled(placed: seq<Placed>, r: nat): iset<nat> {
    iset c: nat | SlotFilled(placed, r, c)
  }

  ghost predicate SlotFilled(placed: seq<Placed>, r: nat, c: nat) { exists p :: p in placed && p.InSlot(r, c) }

  /** Each counter is the number of rows from `r` on that some cell still covers in its column. */
  ghost predicate Exact(active: map<nat, nat>, placed: seq<Placed>, r: nat) {
    && (forall p, c: nat :: p in placed && p.InColumn(c) ==> p.row + p.rowspan - r <= Count(active, c))
    && (forall c: nat :: Count(active, c) > 0 ==>
        exists p :: p in placed && p.InColumn(c) && p.row + p.rowspan - r == Count(active, c))
  }

  ghost predicate Overlap(p: Placed, q: Placed) { exists r: nat, c: nat :: p.InSlot(r, c) && q.InSlot(r, c) }

  ghost predicate Disjoint(placed: seq<Placed>) {
    forall i, j :: 0 <= i < j < |placed| ==> !Overlap(placed[i], placed[j])
  }

  /** Some colspan of the row reaches a column that is still occupied. */
  ghost predicate Collides(before: map<nat, nat>, row: seq<Placed>) {
    exists p, c: nat :: p in row && p.InColumn(c) && Count(before, c) > 0
  }

  ghost predicate Clean(table: seq<RowResult>) {
    table != [] ==> var n := |table| - 1; Clean(table[..n]) && !Collides(table[n].before, table[n].row)
  }

  /** As long as nothing collided, a row fills the first free slots of the full grid. */
  ghost predicate FollowsGrid(table: seq<RowResult>) {
    table != [] ==>
      var n := |table| - 1;
      FollowsGrid(table[..n])
      && (Clean(table[..n]) ==> FilledAround(Filled(Laid(table[..n]), n), n, table[n].cells, table[n].row))
  }

  lemma ExactMarks(active: map<nat, nat>, placed: seq<Placed>, r: nat)
    requires Exact(active, placed, r) && forall p :: p in placed ==> p.row < r
    ensures Marked(active) == Filled(placed, r)
  {
    forall c: nat ensures c in Marked(active) <==> c in Filled(placed, r) {
      if c in Marked(active) {
        var p :| p in placed && p.InColumn(c) && p.row + p.rowspan - r == Count(active, c);
        assert p.InSlot(r, c);
      }
    }
  }

  lemma ExactAdvances(before: map<nat, nat>, placed: seq<Placed>, r: nat, row: seq<Placed>, after: map<nat, nat>)
    requires Exact(before, placed, r) && Counted(before, row, after) && !Collides(before, row)
    requires forall p :: p in row ==> p.row == r
    ensures Exact(after, placed + row, r + 1)
  {
    forall p, c: nat | p in placed + row && p.InColumn(c) ensures p.row + p.rowspan - (r + 1) <= Count(after, c) {
      assert p in placed ==> p.row + p.rowspan - r <= Count(before, c);
    }
    forall c: nat | Count(after, c) > 0
      ensures exists p :: p in placed + row && p.InColumn(c) && p.row + p.rowspan - (r + 1) == Count(after, c)
    {
      if tall :| tall in row && tall.rowspan > 1 && tall.InColumn(c) {
        assert tall in placed + row;
      } else {
        var p :| p in placed && p.InColumn(c) && p.row + p.rowspan - r == Count(before, c);
        assert p in placed + row;
      }
    }
  }

  lemma DisjointSplit(a: seq<Placed>, b: seq<Placed>)
    ensures Disjoint(a + b) <==> Disjoint(a) && Disjoint(b) && forall p, q :: p in a && q in b ==> !Overlap(p, q)
  {
    var all := a + b;
    assert forall i :: 0 <= i < |a| ==> all[i] == a[i];
    assert forall j :: 0 <= j < |b| ==> all[|a| + j] == b[j];
    assert forall j :: |a| <= j < |all| ==> all[j] == b[j - |a|];
    if Disjoint(all) {
      forall p, q | p in a && q in b ensures !Overlap(p, q) {
        var i :| 0 <= i < |a| && a[i] == p;
        var j :| 0 <= j < |b| && b[j] == q;
        assert !Overlap(all[i], all[|a| + j]);
      }
    }
  }

  lemma RowIsDisjoint(row: seq<Placed>, r: nat)
    requires LeftToRight(row, r)
    ensures Disjoint(row)
  {}

  lemma OverlapsExactly(before: map<nat, nat>, placed: seq<Placed>, r: nat, row: seq<Placed>)
    requires Exact(before, placed, r) && (forall p :: p in placed ==> p.row < r) && forall q :: q in row ==> q.row == r
    ensures Collides(before, row) <==> exists p, q :: p in placed && q in row && Overlap(p, q)
  {
    if Collides(before, row) {
      var q, c: nat :| q in row && q.InColumn(c) && Count(before, c) > 0;
      var p :| p in placed && p.InColumn(c) && p.row + p.rowspan - r == Count(before, c);
      assert p.InSlot(r, c) && q.InSlot(r, c);
    }
    if p, q :| p in placed && q in row && Overlap(p, q) {
      var s: nat, c: nat :| p.InSlot(s, c) && q.InSlot(s, c);
      assert p.row + p.rowspan - r <= Count(before, c);
    }
  }

  lemma RowDisjointExactly(before: map<nat, nat>, placed: seq<Placed>, r: nat, row: seq<Placed>)
    requires Exact(before, placed, r) && (forall p :: p in placed ==> p.row < r) && LeftToRight(row, r)
    requires Disjoint(placed)
    ensures Disjoint(placed + row) <==> !Collides(before, row)
  {
    RowIsDisjoint(row, r);
    OverlapsExactly(before, placed, r, row);
    DisjointSplit(placed, row);
  }

  lemma {:induction false} LaidRows(table: seq<RowResult>)
    requires IsTable(table)
    ensures forall p :: p in Laid(table) ==> p.row < |table|
  {
    if table != [] {
      var n := |table| - 1;
      LaidRows(table[..n]);
      FilledLeftToRight(Marked(table[n].before), n, table[n].cells, table[n].row);
    }
  }

  /** Over every table: no two cells share a slot exactly when no colspan reached an occupied column,
      and then the counters are exact and every row fills the full grid's first free slots. */
  lemma {:induction false} CountersRefineGrid(table: seq<RowResult>)
    requires IsTable(table)
    ensures Disjoint(Laid(table)) <==> Clean(table)
    ensures Clean(table) ==> Exact(Final(table), Laid(table), |table|)
    ensures FollowsGrid(table)
  {
    if table != [] {
      var n := |table| - 1;
      var front, last := table[..n], table[n];
      CountersRefineGrid(front);
      LaidRows(front);
      FilledLeftToRight(Marked(last.before), n, last.cells, last.row);
      DisjointSplit(Laid(front), last.row);
      if Clean(front) {
        ExactMarks(Final(front), Laid(front), n);
        RowDisjointExactly(last.before, Laid(front), n, last.row);
        if Clean(table) { ExactAdvances(last.before, Laid(front), n, last.row, last.after); }
      }
    }
  }

  /** The parser's loop over the rows of one table. */
  method PlaceTable(rows: seq<seq<Cell>>) returns (table: seq<RowResult>)
    ensures IsTable(table) && |table| == |rows| && forall r :: 0 <= r < |rows| ==> table[r].cells == rows[r]
  {
    table := [];
    var spans := new RowSpans();
    for r := 0 to |rows|
      invariant |table| == r && IsTable(table) && spans.active == Final(table) && fresh(spans)
      invariant forall k :: 0 <= k < r ==> table[k].cells == rows[k]
    {
      table := PlaceNext(spans, table, rows[r]);
    }
  }

  /** One turn of that loop. */
  method PlaceNext(spans: RowSpans, table: seq<RowResult>, cells: seq<Cell>) returns (longer: seq<RowResult>)
    requires IsTable(table) && spans.active == Final(table)
    modifies spans
    ensures IsTable(longer) && spans.active == Final(longer)
    ensures |longer| == |table| + 1 && longer[..|table|] == table && longer[|table|].cells == cells
  {
    var before := spans.active;
    var row := spans.PlaceRow(cells, |table|);
    TableGrows(table, RowResult(before, cells, row, spans.active));
    longer := table + [RowResult(before, cells, row, spans.active)];
  }

  // ------------------------------------------------------- a table that collides

  /** Two cells, the second two rows tall; below them one cell two columns wide. */
  const TALL: RowResult := RowResult(map[], [Cell(1, 1), Cell(2, 1)], [Placed(0, 0, 1, 1), Placed(0, 1, 2, 1)],
      map[1 := 1])
  const WIDE: RowResult := RowResult(map[1 := 1], [Cell(1, 2)], [Placed(1, 0, 1, 2)], map[])

  lemma TallStep()
    ensures RowStep(TALL.before, 0, TALL.cells, TALL.row, TALL.after)
  {
    var none := Marked(map[]);
    FilledGrows(none, 0, [], [], Cell(1, 1), Placed(0, 0, 1, 1));
    assert [] + [Cell(1, 1)] == [Cell(1, 1)] && [] + [Placed(0, 0, 1, 1)] == [Placed(0, 0, 1, 1)];
    FilledGrows(none, 0, [Cell(1, 1)], [Placed(0, 0, 1, 1)], Cell(2, 1), Placed(0, 1, 2, 1));
    assert [Cell(1, 1)] + [Cell(2, 1)] == TALL.cells;
    assert [Placed(0, 0, 1, 1)] + [Placed(0, 1, 2, 1)] == TALL.row;
  }

  lemma WideStep()
    ensures RowStep(WIDE.before, 1, WIDE.cells, WIDE.row, WIDE.after)
  {
    FilledGrows(Marked(map[1 := 1]), 1, [], [], Cell(1, 2), Placed(1, 0, 1, 2));
    assert [] + [Cell(1, 2)] == WIDE.cells && [] + [Placed(1, 0, 1, 2)] == WIDE.row;
  }

  /** The wide cell reaches the column the tall one still occupies, and both fill row 1, column 1. */
  lemma ColspanCanCollide()
    ensures IsTable([TALL, WIDE]) && !Clean([TALL, WIDE]) && !Disjoint(Laid([TALL, WIDE]))
  {
    var table := [TALL, WIDE];
    assert table[..1] == [TALL] && [TALL][..0] == [] && Final([]) == TALL.before;
    TallStep();
    WideStep();
    assert IsTable([TALL]);
    assert WIDE.row[0] in WIDE.row && WIDE.row[0].InColumn(1) && Count(WIDE.before, 1) > 0;
    CountersRefineGrid(table);
  }
}
