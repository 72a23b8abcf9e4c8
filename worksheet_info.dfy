/** `listWorksheetInfo`: a metadata scan that reports, for every worksheet,
    its name, the extent of its data and the letter of its last column,
    without building the spreadsheet. */
module WorksheetInfo {

  import opened Wrappers
  import opened Strings
  import opened Columns
  import opened Tree

  datatype Info = Info(
    worksheetName: string,
    lastColumnLetter: string,
    lastColumnIndex: nat,
    totalRows: nat,
    totalColumns: nat)

  function Max(a: nat, b: nat): nat { if a >= b then a else b }

  predicate RowHasData(cells: seq<CellNode>) {
    exists k :: 0 <= k < |cells| && HasData(cells[k])
  }

  /** Physical 0-based position of the last cell holding `Data` in a row
      (`ss:Index` is not consulted), or 0 when there is none. */
  function RowLastData(cells: seq<CellNode>): (r: nat)
    ensures r == 0 || r < |cells|
  {
    if cells == [] then 0
    else if HasData(cells[|cells| - 1]) then |cells| - 1
    else RowLastData(cells[..|cells| - 1])
  }

  /** Running maximum of `RowLastData` over the rows. */
  function LastDataColumn(rows: seq<RowNode>): nat {
    if rows == [] then 0
    else Max(LastDataColumn(rows[..|rows| - 1]), RowLastData(rows[|rows| - 1].cells))
  }

  /** 1-based physical position of the last row holding a `Data` cell,
      or 0 when no row does. */
  function TotalRows(rows: seq<RowNode>): (r: nat)
    ensures r <= |rows|
  {
    if rows == [] then 0
    else if RowHasData(rows[|rows| - 1].cells) then |rows|
    else TotalRows(rows[..|rows| - 1])
  }

  /** The name reported for a sheet without `ss:Name`. */
  function DefaultName(ordinal: nat): string {
    "Worksheet_" + NatToString(ordinal)
  }

  /** What is reported for `ws`, the `ordinal`-th sheet (from 1). */
  function SheetInfo(ws: Worksheet, ordinal: nat): Info {
    var last := LastDataColumn(ws.rows);
    Info(ws.name.GetOr(DefaultName(ordinal)), ColumnName(last), last, TotalRows(ws.rows), last + 1)
  }

  /** The scan of `listWorksheetInfo`: running maxima over rows and cells. */
  method ScanWorksheets(doc: Document) returns (info: seq<Info>)
    ensures |info| == |doc.worksheets|
    ensures forall i :: 0 <= i < |info| ==> info[i] == SheetInfo(doc.worksheets[i], i + 1)
  {
    info := [];
    var worksheetID: nat := 1;
    while worksheetID <= |doc.worksheets|
      invariant 1 <= worksheetID <= |doc.worksheets| + 1
      invariant |info| == worksheetID - 1
      invariant forall i :: 0 <= i < |info| ==> info[i] == SheetInfo(doc.worksheets[i], i + 1)
    {
      var worksheet := doc.worksheets[worksheetID - 1];
      var worksheetName := if worksheet.name.Some? then worksheet.name.value else "Worksheet_" + NatToString(worksheetID);
      var lastColumnIndex, totalRows := ScanRows(worksheet.rows);
      info := info + [Info(worksheetName, ColumnName(lastColumnIndex), lastColumnIndex, totalRows, lastColumnIndex + 1)];
      worksheetID := worksheetID + 1;
    }
  }

  /** The row loop of one sheet. */
  method ScanRows(rows: seq<RowNode>) returns (lastColumnIndex: nat, totalRows: nat)
    ensures lastColumnIndex == LastDataColumn(rows)
    ensures totalRows == TotalRows(rows)
  {
    lastColumnIndex := 0;
    totalRows := 0;
    var rowIndex := 0;
    while rowIndex < |rows|
      invariant 0 <= rowIndex <= |rows|
      invariant lastColumnIndex == LastDataColumn(rows[..rowIndex])
      invariant totalRows == TotalRows(rows[..rowIndex])
    {
      var rowHasData;
      lastColumnIndex, rowHasData := ScanCells(rows[rowIndex].cells, lastColumnIndex);
      assert rows[..rowIndex + 1][..rowIndex] == rows[..rowIndex];
      rowIndex := rowIndex + 1;
      if rowHasData {
        totalRows := Max(totalRows, rowIndex);
      }
    }
    assert rows[..rowIndex] == rows;
  }

  /** The cell loop of one row, carrying the sheet's running maximum. */
  method ScanCells(cells: seq<CellNode>, last: nat) returns (lastColumnIndex: nat, rowHasData: bool)
    ensures lastColumnIndex == Max(last, RowLastData(cells))
    ensures rowHasData == RowHasData(cells)
  {
    lastColumnIndex := last;
    rowHasData := false;
    var columnIndex := 0;
    while columnIndex < |cells|
      invariant 0 <= columnIndex <= |cells|
      invariant lastColumnIndex == Max(last, RowLastData(cells[..columnIndex]))
      invariant rowHasData == RowHasData(cells[..columnIndex])
    {
      if HasData(cells[columnIndex]) {
        lastColumnIndex := Max(lastColumnIndex, columnIndex);
        rowHasData := true;
      }
      assert cells[..columnIndex + 1][..columnIndex] == cells[..columnIndex];
      columnIndex := columnIndex + 1;
    }
    assert cells[..columnIndex] == cells;
  }

  /** `lastColumnIndex` bounds the position of every data cell. */
  lemma {:induction false} LastDataColumnBounds(rows: seq<RowNode>, r: nat, k: nat)
    requires r < |rows| && k < |rows[r].cells| && HasData(rows[r].cells[k])
    ensures k <= LastDataColumn(rows)
    decreases |rows|
  {
    if r < |rows| - 1 {
      assert rows[..|rows| - 1][r] == rows[r];
      LastDataColumnBounds(rows[..|rows| - 1], r, k);
    } else {
      RowLastDataBounds(rows[r].cells, k);
    }
  }

  lemma {:induction false} RowLastDataBounds(cells: seq<CellNode>, k: nat)
    requires k < |cells| && HasData(cells[k])
    ensures k <= RowLastData(cells)
    decreases |cells|
  {
    if k < |cells| - 1 && !HasData(cells[|cells| - 1]) {
      assert cells[..|cells| - 1][k] == cells[k];
      RowLastDataBounds(cells[..|cells| - 1], k);
    }
  }

  /** A non-zero `lastColumnIndex` is the position of some data cell. */
  lemma {:induction false} LastDataColumnAttained(rows: seq<RowNode>)
    ensures LastDataColumn(rows) == 0 ||
      exists r :: 0 <= r < |rows| && LastDataColumn(rows) < |rows[r].cells| && HasData(rows[r].cells[LastDataColumn(rows)])
    decreases |rows|
  {
    if rows != [] {
      var init := rows[..|rows| - 1];
      var last := rows[|rows| - 1];
      LastDataColumnAttained(init);
      RowLastDataAttained(last.cells);
      if LastDataColumn(init) >= RowLastData(last.cells) {
        if LastDataColumn(init) != 0 {
          var r :| 0 <= r < |init| && LastDataColumn(init) < |init[r].cells| && HasData(init[r].cells[LastDataColumn(init)]);
          assert init[r] == rows[r];
        }
      }
    }
  }

  lemma {:induction false} RowLastDataAttained(cells: seq<CellNode>)
    ensures RowLastData(cells) == 0 || HasData(cells[RowLastData(cells)])
    decreases |cells|
  {
    if cells != [] && !HasData(cells[|cells| - 1]) {
      RowLastDataAttained(cells[..|cells| - 1]);
    }
  }

  /** `totalRows` is the 1-based position of the last row holding data:
      every data row lies at or before it, and the row it names holds data. */
  lemma {:induction false} TotalRowsIsLastDataRow(rows: seq<RowNode>)
    ensures forall r :: 0 <= r < |rows| && RowHasData(rows[r].cells) ==> r < TotalRows(rows)
    ensures TotalRows(rows) > 0 ==> RowHasData(rows[TotalRows(rows) - 1].cells)
    decreases |rows|
  {
    if rows != [] && !RowHasData(rows[|rows| - 1].cells) {
      var init := rows[..|rows| - 1];
      TotalRowsIsLastDataRow(init);
      forall r | 0 <= r < |rows| && RowHasData(rows[r].cells) ensures r < TotalRows(rows) {
        assert r < |init|;
        assert init[r] == rows[r];
      }
      if TotalRows(init) > 0 {
        assert init[TotalRows(init) - 1] == rows[TotalRows(init) - 1];
      }
    }
  }

  /** Rows 1 and 3 hold data and row 2 holds only a styled cell: the scan
      reports three rows (the position of the last data row), not two. */
  lemma ExampleGapRow()
    ensures
      var data := CellNode(None, None, None, None, None, Some(DataNode(Some("String"), "x")), None);
      var styled := CellNode(None, None, None, None, Some("s1"), None, None);
      var rows := [RowNode(None, None, None, [data]), RowNode(None, None, None, [styled]),
                   RowNode(None, None, None, [styled, data])];
      TotalRows(rows) == 3 && LastDataColumn(rows) == 1
  {
    var data := CellNode(None, None, None, None, None, Some(DataNode(Some("String"), "x")), None);
    var styled := CellNode(None, None, None, None, Some("s1"), None, None);
    var rows := [RowNode(None, None, None, [data]), RowNode(None, None, None, [styled]),
                 RowNode(None, None, None, [styled, data])];
    assert RowHasData(rows[2].cells) by { assert HasData(rows[2].cells[1]); }
    assert rows[..2][..1] == rows[..1];
    assert [styled, data][..1] == [styled];
    assert RowLastData([data]) == 0;
    assert RowLastData([styled]) == 0 by { assert [styled][..0] == []; }
    assert RowLastData([styled, data]) == 1;
    assert LastDataColumn(rows[..1]) == 0 by { assert rows[..1][..0] == []; }
    assert LastDataColumn(rows[..2]) == 0;
  }

  /** An unnamed sheet in third place is reported as `Worksheet_3`. */
  lemma ExampleDefaultName(ws: Worksheet)
    requires ws.name.None?
    ensures SheetInfo(ws, 3).worksheetName == "Worksheet_3"
  {
  }
}
