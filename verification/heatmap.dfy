/**
  GET /api/engagement/heatmap: engagements counted per (day of week, hour of
  day) cell, cells in ascending (day_of_week, hour) order, empty cells absent.
 */
module Heatmap {
  import opened Sql
  import opened Tables

  datatype Cell = Cell(dayOfWeek: DayOfWeek, hour: HourOfDay)

  datatype HeatRow = HeatRow(dayOfWeek: DayOfWeek, hour: HourOfDay, engagementCount: nat)

  /** The GROUP BY key of an engagement. */
  function CellOf(e: Engagement): Cell
  {
    Cell(e.engagedAt.dayOfWeek, e.engagedAt.hour)
  }

  function CellsOf(engagements: seq<Engagement>): (cells: seq<Cell>)
    ensures |cells| == |engagements|
    ensures forall i :: 0 <= i < |engagements| ==> cells[i] == CellOf(engagements[i])
  {
    if engagements == [] then [] else [CellOf(engagements[0])] + CellsOf(engagements[1..])
  }

  function RowCell(r: HeatRow): Cell
  {
    Cell(r.dayOfWeek, r.hour)
  }

  /** ORDER BY day_of_week, hour: `a` strictly precedes `b`. */
  predicate Before(a: HeatRow, b: HeatRow)
  {
    a.dayOfWeek < b.dayOfWeek || (a.dayOfWeek == b.dayOfWeek && a.hour < b.hour)
  }

  /** A cell's place in the ascending (day_of_week, hour) order of all 168 cells. */
  function Position(c: Cell): nat
  {
    24 * c.dayOfWeek + c.hour
  }

  lemma PositionDeterminesCell(c: Cell, c': Cell)
    requires Position(c) == Position(c')
    ensures c == c'
  {
  }

  /** Lexicographic order on rows is the order of their cells' positions. */
  lemma BeforeIsPositionOrder(a: HeatRow, b: HeatRow)
    ensures Before(a, b) <==> Position(RowCell(a)) < Position(RowCell(b))
  {
  }

  const FirstCell: Cell := Cell(0, 0)
  const LastCell: Cell := Cell(6, 23)

  /** The cell after `c` in ascending order. */
  function Next(c: Cell): (n: Cell)
    requires c != LastCell
    ensures Position(n) == Position(c) + 1
  {
    if c.hour < 23 then Cell(c.dayOfWeek, c.hour + 1) else Cell(c.dayOfWeek + 1, 0)
  }

  /** How many of `cells` sit at position `c` or later. */
  function CountFrom(cells: seq<Cell>, c: Cell): nat
  {
    if cells == [] then 0
    else (if Position(c) <= Position(cells[0]) then 1 else 0) + CountFrom(cells[1..], c)
  }

  /** The cells at `c` plus those after it make up everything from `c` on. */
  lemma {:induction false} CountFromSplit(cells: seq<Cell>, c: Cell)
    ensures CountFrom(cells, c) == multiset(cells)[c] + (if c == LastCell then 0 else CountFrom(cells, Next(c)))
  {
    if cells != [] {
      assert cells == [cells[0]] + cells[1..];
      CountFromSplit(cells[1..], c);
      if Position(cells[0]) == Position(c) {
        PositionDeterminesCell(cells[0], c);
      }
    }
  }

  lemma {:induction false} CountFromFirstCell(cells: seq<Cell>, c: Cell)
    requires Position(c) == 0
    ensures CountFrom(cells, c) == |cells|
  {
    if cells != [] {
      CountFromFirstCell(cells[1..], c);
    }
  }

  function TotalCount(rows: seq<HeatRow>): nat
  {
    if rows == [] then 0 else rows[0].engagementCount + TotalCount(rows[1..])
  }

  /** The heatmap rows for cell `c` and the cells after it. */
  function RowsFrom(cells: seq<Cell>, c: Cell): (rows: seq<HeatRow>)
    ensures forall k :: 0 <= k < |rows| ==> Position(c) <= Position(RowCell(rows[k]))
    ensures forall k :: 0 <= k < |rows| ==> 1 <= rows[k].engagementCount == multiset(cells)[RowCell(rows[k])]
    decreases Position(LastCell) - Position(c)
  {
    var n := multiset(cells)[c];
    var rest := if c == LastCell then [] else RowsFrom(cells, Next(c));
    if n > 0 then [HeatRow(c.dayOfWeek, c.hour, n)] + rest else rest
  }

  /** Cells strictly ascending along `rows`. */
  predicate Ascending(rows: seq<HeatRow>)
  {
    forall j, k :: 0 <= j < k < |rows| ==> Position(RowCell(rows[j])) < Position(RowCell(rows[k]))
  }

  lemma AscendingCons(h: HeatRow, rest: seq<HeatRow>)
    requires Ascending(rest)
    requires forall k :: 0 <= k < |rest| ==> Position(RowCell(h)) < Position(RowCell(rest[k]))
    ensures Ascending([h] + rest)
  {
    var rows := [h] + rest;
    forall j, k | 0 <= j < k < |rows|
      ensures Position(RowCell(rows[j])) < Position(RowCell(rows[k]))
    {
      assert rows[k] == rest[k - 1];
      if j > 0 {
        assert rows[j] == rest[j - 1];
      }
    }
  }

  /** Rows come out in strictly ascending position. */
  lemma {:induction false} RowsFromAscending(cells: seq<Cell>, c: Cell)
    ensures Ascending(RowsFrom(cells, c))
    decreases Position(LastCell) - Position(c)
  {
    var n := multiset(cells)[c];
    var h := HeatRow(c.dayOfWeek, c.hour, n);
    if c == LastCell {
      assert RowsFrom(cells, c) == if n > 0 then [h] else [];
    } else {
      var rest := RowsFrom(cells, Next(c));
      RowsFromAscending(cells, Next(c));
      if n > 0 {
        assert RowsFrom(cells, c) == [h] + rest;
        AscendingCons(h, rest);
      } else {
        assert RowsFrom(cells, c) == rest;
      }
    }
  }

  /** The cells of `rows`, in order. */
  function RowCells(rows: seq<HeatRow>): (cells: seq<Cell>)
    ensures |cells| == |rows|
    ensures forall k :: 0 <= k < |rows| ==> cells[k] == RowCell(rows[k])
  {
    if rows == [] then [] else [RowCell(rows[0])] + RowCells(rows[1..])
  }

  /** Every occupied cell at `c` or after it has a row. */
  lemma {:induction false} RowsFromComplete(cells: seq<Cell>, c: Cell, x: Cell)
    requires x in cells && Position(c) <= Position(x)
    ensures x in RowCells(RowsFrom(cells, c))
    decreases Position(LastCell) - Position(c)
  {
    var rows := RowsFrom(cells, c);
    var n := multiset(cells)[c];
    if Position(x) == Position(c) {
      PositionDeterminesCell(x, c);
      assert n > 0;
      assert RowCells(rows)[0] == x;
    } else {
      assert c != LastCell;
      RowsFromComplete(cells, Next(c), x);
      var rest := RowsFrom(cells, Next(c));
      if n > 0 {
        var h := HeatRow(c.dayOfWeek, c.hour, n);
        assert rows == [h] + rest;
        assert RowCells(rows) == [RowCell(h)] + RowCells(rest);
      }
    }
  }

  /** The row counts add up to the number of cells at `c` or after it. */
  lemma {:induction false} RowsFromTotal(cells: seq<Cell>, c: Cell)
    ensures TotalCount(RowsFrom(cells, c)) == CountFrom(cells, c)
    decreases Position(LastCell) - Position(c)
  {
    CountFromSplit(cells, c);
    if c != LastCell {
      RowsFromTotal(cells, Next(c));
    }
    var rows := RowsFrom(cells, c);
    if multiset(cells)[c] > 0 {
      assert rows[1..] == (if c == LastCell then [] else RowsFrom(cells, Next(c)));
    }
  }

  /**
    The heatmap: one row per (day_of_week, hour) cell holding engagements,
    with that cell's count; cells strictly ascending, so each at most once;
    the counts add up to the number of engagements.
   */
  function Heatmap(engagements: seq<Engagement>): (rows: seq<HeatRow>)
    ensures forall k :: 0 <= k < |rows| ==> 1 <= rows[k].engagementCount == multiset(CellsOf(engagements))[RowCell(rows[k])]
    ensures forall j, k :: 0 <= j < k < |rows| ==> Before(rows[j], rows[k])
    ensures forall e :: e in engagements ==> CellOf(e) in RowCells(rows)
    ensures TotalCount(rows) == |engagements|
  {
    var cells := CellsOf(engagements);
    var rows := RowsFrom(cells, FirstCell);
    CountFromFirstCell(cells, FirstCell);
    RowsFromTotal(cells, FirstCell);
    RowsFromAscending(cells, FirstCell);
    forall j, k | 0 <= j < k < |rows|
      ensures Before(rows[j], rows[k])
    {
      BeforeIsPositionOrder(rows[j], rows[k]);
    }
    forall e | e in engagements
      ensures CellOf(e) in RowCells(rows)
    {
      var i :| 0 <= i < |engagements| && engagements[i] == e;
      assert cells[i] == CellOf(e);
      RowsFromComplete(cells, FirstCell, CellOf(e));
    }
    rows
  }

  /** A cell appears in at most one row. */
  lemma HeatmapCellsUnique(engagements: seq<Engagement>, j: nat, k: nat)
    requires j < k < |Heatmap(engagements)|
    ensures RowCell(Heatmap(engagements)[j]) != RowCell(Heatmap(engagements)[k])
  {
    BeforeIsPositionOrder(Heatmap(engagements)[j], Heatmap(engagements)[k]);
  }
}
