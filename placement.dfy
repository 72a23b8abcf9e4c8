/** The placement walk of `loadIntoExisting`: sheets, then their columns,
    then rows, then cells, with a row cursor, a column cursor held as a
    column name and the `additionalMergedCells` counter. What the walk
    does to the spreadsheet object is recorded as a sequence of events;
    the spreadsheet, worksheet and cell classes are not part of this
    model. */
module Placement {

  import opened Wrappers
  import opened Strings
  import opened Columns
  import opened Tree
  import opened Styles
  import Formula
  import FormulaRefs
  import CustomProperties

  /** The `DataType::TYPE_*` tag a value is set with. */
  datatype CellType = CellString | CellNumeric | CellBool | CellError | CellFormula | CellNull

  /** A cell value. `Raw` is the `Data` text where the reader's conversion
      (`(float)`, `Date::PHPToExcel`) is not modelled, or where it keeps
      the element as it is. */
  datatype CellValue = Text(text: string) | Flag(b: bool) | Raw(raw: string)

  /** What the walk does to the spreadsheet, in order. */
  datatype Event =
      /** `createSheet()` and `setActiveSheetIndex(index)` */
    | CreateSheet(sheetIndex: nat)
    | SetTitle(title: string)
      /** `getColumnDimension(column)->setWidth`, with the `ss:Width` text */
    | ColumnWidth(column: string, width: string)
    | Merge(range: string)
      /** `setValueExplicit(value, type)` */
    | SetValue(cell: string, value: CellValue, cellType: CellType)
    | SetCalculated(cell: string, value: CellValue)
      /** a formula with a reference left of column A: the reader calls
          `stringFromColumnIndex` with a negative index, whose result is not
          part of this model */
    | FormulaUnresolved(cell: string, formula: string)
    | SetComment(cell: string, author: string, text: string)
      /** `getStyle(range)->applyFromArray(style)` */
    | ApplyStyle(range: string, style: Style)
    | RowHeight(row: int, height: string)

  /** What the walk reads besides the document: the style table, the
      character set found by `canRead`, the conversion from UTF-8 to that
      set (`StringHelper::convertEncoding`) and the read filter's
      `readCell(column, row, sheet)`. */
  datatype Context = Context(
    styles: map<string, Style>,
    charSet: string,
    convert: string -> string,
    filter: (string, int, Option<string>) -> bool)

  /** `convertStringEncoding`: the identity for UTF-8. */
  function Encode(ctx: Context, s: string): string {
    if ctx.charSet == "UTF-8" then s else ctx.convert(s)
  }

  /** `$columnID . $rowID` for the 0-based column `col`. */
  function CellAddress(col: nat, row: int): string {
    ColumnName(col) + IntToString(row)
  }

  predicate IsMerged(cell: CellNode) {
    cell.mergeAcross.Some? || cell.mergeDown.Some?
  }

  /** `$cellRange`: the cell, or for a merged cell the rectangle from it
      `MergeAcross` columns right and `MergeDown` rows down. */
  function CellRange(cell: CellNode, col: nat, row: int): string {
    if IsMerged(cell) then
      CellAddress(col, row) + ":" + CellAddress(col + cell.mergeAcross.GetOr(0), row + cell.mergeDown.GetOr(0))
    else CellAddress(col, row)
  }

  // ---------------------------------------------------------------------
  // One cell
  // ---------------------------------------------------------------------

  /** The value and tag set for a `Data` element, by its `ss:Type`. A
      `Boolean` is `$cellValue != 0`, which PHP 7 decides on the element's
      text read as a number (so `1e3` and `0.5` are true, `0` and `abc`
      false). */
  function TypedValue(d: DataNode, ctx: Context): (CellValue, CellType) {
    match d.dataType.GetOr("")
    case "String" => (Text(Encode(ctx, d.text)), CellString)
    case "Number" => (Raw(d.text), CellNumeric)
    case "Boolean" => (Flag(CustomProperties.NumericNonZero(d.text)), CellBool)
    case "DateTime" => (Raw(d.text), CellNumeric)
    case "Error" => (Raw(d.text), CellError)
    case _ => (Raw(d.text), CellNull)
  }

  /** The switch case by case: a known `ss:Type` sets its own type, a
      missing or unknown one leaves the type null; only `String` and
      `Boolean` change the text, and no `Data` element is tagged as a
      formula. */
  lemma TypedValueSwitch(d: DataNode, ctx: Context)
    ensures TypedValue(d, ctx).1 == CellNull <==>
      d.dataType.None? || d.dataType.value !in ["String", "Number", "Boolean", "DateTime", "Error"]
    ensures TypedValue(d, ctx).1 == CellString <==> d.dataType == Some("String")
    ensures TypedValue(d, ctx).1 == CellBool <==> d.dataType == Some("Boolean")
    ensures TypedValue(d, ctx).1 == CellNumeric <==> d.dataType == Some("Number") || d.dataType == Some("DateTime")
    ensures TypedValue(d, ctx).1 == CellError <==> d.dataType == Some("Error")
    ensures TypedValue(d, ctx).1 != CellFormula
    ensures d.dataType == Some("String") ==> TypedValue(d, ctx).0 == Text(Encode(ctx, d.text))
    ensures d.dataType == Some("Boolean") ==> TypedValue(d, ctx).0 == Flag(CustomProperties.NumericNonZero(d.text))
    ensures d.dataType != Some("String") && d.dataType != Some("Boolean") ==> TypedValue(d, ctx).0 == Raw(d.text)
  {
  }

  /** A `Boolean` cell reads its text as a number: `1e3` and `0.5` are
      true, `0` and text without a number are false. */
  lemma BooleanCells(ctx: Context)
    ensures TypedValue(DataNode(Some("Boolean"), "1e3"), ctx) == (Flag(true), CellBool)
    ensures TypedValue(DataNode(Some("Boolean"), "0.5"), ctx) == (Flag(true), CellBool)
    ensures TypedValue(DataNode(Some("Boolean"), "0"), ctx) == (Flag(false), CellBool)
    ensures TypedValue(DataNode(Some("Boolean"), "abc"), ctx) == (Flag(false), CellBool)
  {
    CustomProperties.ExampleNonZero();
    TypedValueSwitch(DataNode(Some("Boolean"), "1e3"), ctx);
    TypedValueSwitch(DataNode(Some("Boolean"), "0.5"), ctx);
    TypedValueSwitch(DataNode(Some("Boolean"), "0"), ctx);
    TypedValueSwitch(DataNode(Some("Boolean"), "abc"), ctx);
  }

  function MergeEvents(cell: CellNode, col: nat, row: int): seq<Event> {
    if IsMerged(cell) then [Merge(CellRange(cell, col, row))] else []
  }

  /** Only a cell with `Data` gets a value; a formula then replaces the
      value, which becomes the calculated value. The formula's columns are
      1-based. */
  function ValueEvents(cell: CellNode, col: nat, row: int, ctx: Context): seq<Event> {
    if cell.data.None? then []
    else
      var a := CellAddress(col, row);
      var (v, t) := TypedValue(cell.data.value, ctx);
      if cell.formula.None? then [SetValue(a, v, t)]
      else
        match Formula.Translate(cell.formula.value, row, col + 1)
        case None => [FormulaUnresolved(a, cell.formula.value)]
        case Some(f) => [SetValue(a, Text(f), CellFormula), SetCalculated(a, v)]
  }

  function CommentEvents(cell: CellNode, col: nat, row: int, ctx: Context): seq<Event> {
    match cell.comment
    case None => []
    case Some(c) => [SetComment(CellAddress(col, row), Encode(ctx, c.author.GetOr("unknown")), Encode(ctx, c.text))]
  }

  /** A style is applied only to a cell that was given a value and whose
      style entry exists and is not empty. */
  predicate StyleApplies(cell: CellNode, ctx: Context) {
    cell.data.Some? && cell.styleId.Some? && cell.styleId.value in ctx.styles &&
    ctx.styles[cell.styleId.value] != EmptyStyle
  }

  function StyleEvents(cell: CellNode, col: nat, row: int, ctx: Context): seq<Event> {
    if StyleApplies(cell, ctx) then [ApplyStyle(CellRange(cell, col, row), ctx.styles[cell.styleId.value])] else []
  }

  function ContentEvents(cell: CellNode, col: nat, row: int, ctx: Context): seq<Event> {
    ValueEvents(cell, col, row, ctx) + CommentEvents(cell, col, row, ctx) + StyleEvents(cell, col, row, ctx)
  }

  /** Where the column cursor stands for a cell: its `ss:Index`, if any. */
  function StartColumn(cell: CellNode, col: nat): nat {
    if cell.index.Some? then cell.index.value - 1 else col
  }

  /** The cursor after the cell, the cell's events and whether it was set. */
  datatype Placed = Placed(next: nat, events: seq<Event>, isSet: bool)

  /** A cell reached with the cursor at `col`. A cell the filter rejects
      leaves the cursor at the cell's own column: the `continue` jumps
      over the advance as well. */
  function PlaceOne(cell: CellNode, col: nat, row: int, sheet: Option<string>, ctx: Context): Placed {
    var c := StartColumn(cell, col);
    if !ctx.filter(ColumnName(c), row, sheet) then Placed(c, [], false)
    else Placed(c + 1 + cell.mergeAcross.GetOr(0), MergeEvents(cell, c, row) + ContentEvents(cell, c, row, ctx), HasData(cell))
  }

  // ---------------------------------------------------------------------
  // Rows, columns, sheets
  // ---------------------------------------------------------------------

  datatype RowState = RowState(col: nat, events: seq<Event>, hasData: bool)

  function CellStep(st: RowState, cell: CellNode, row: int, sheet: Option<string>, ctx: Context): RowState {
    var p := PlaceOne(cell, st.col, row, sheet, ctx);
    RowState(p.next, st.events + p.events, st.hasData || p.isSet)
  }

  /** The cells of a row at row number `row`; the cursor starts at A. */
  function CellsWalk(cells: seq<CellNode>, row: int, sheet: Option<string>, ctx: Context): RowState {
    if cells == [] then RowState(0, [], false)
    else CellStep(CellsWalk(cells[..|cells| - 1], row, sheet, ctx), cells[|cells| - 1], row, sheet, ctx)
  }

  datatype SheetState = SheetState(row: int, events: seq<Event>)

  /** The height is set only for a row that holds a cell given a value. */
  function HeightEvents(r: RowNode, row: int, hasData: bool): seq<Event> {
    if hasData && r.height.Some? then [RowHeight(row, r.height.value)] else []
  }

  /** A row reached with the row cursor at `st.row`; the cursor moves on
      by one after every row, whether it holds data or not. */
  function RowStep(st: SheetState, r: RowNode, sheet: Option<string>, ctx: Context): SheetState {
    var row := r.index.GetOr(st.row);
    var cs := CellsWalk(r.cells, row, sheet, ctx);
    SheetState(row + 1, st.events + cs.events + HeightEvents(r, row, cs.hasData))
  }

  /** The rows of a sheet; the row cursor starts at 1. */
  function RowsWalk(rows: seq<RowNode>, sheet: Option<string>, ctx: Context): SheetState {
    if rows == [] then SheetState(1, [])
    else RowStep(RowsWalk(rows[..|rows| - 1], sheet, ctx), rows[|rows| - 1], sheet, ctx)
  }

  datatype ColumnState = ColumnState(col: nat, events: seq<Event>)

  function ColumnStep(st: ColumnState, c: ColumnNode): ColumnState {
    var col := if c.index.Some? then c.index.value - 1 else st.col;
    ColumnState(col + 1, st.events + (if c.width.Some? then [ColumnWidth(ColumnName(col), c.width.value)] else []))
  }

  /** The `Column` elements of a sheet; the cursor starts at A. */
  function ColumnsWalk(columns: seq<ColumnNode>): ColumnState {
    if columns == [] then ColumnState(0, [])
    else ColumnStep(ColumnsWalk(columns[..|columns| - 1]), columns[|columns| - 1])
  }

  /** `loadSheetsOnly`: a named sheet that is not in the list is skipped;
      an unnamed one never is. */
  predicate Admitted(ws: Worksheet, only: Option<seq<string>>) {
    !(only.Some? && ws.name.Some? && ws.name.value !in only.value)
  }

  /** `loaded` counts the sheets created so far (`$worksheetID`);
      `sheetName` is `$worksheetName`, which an unnamed sheet inherits from
      the sheet before it. */
  datatype BookState = BookState(loaded: nat, sheetName: Option<string>, events: seq<Event>)

  function SheetEvents(ws: Worksheet, index: nat, sheet: Option<string>, ctx: Context): seq<Event> {
    [CreateSheet(index)]
    + (if ws.name.Some? then [SetTitle(Encode(ctx, ws.name.value))] else [])
    + ColumnsWalk(ws.columns).events
    + RowsWalk(ws.rows, sheet, ctx).events
  }

  function SheetStep(st: BookState, ws: Worksheet, only: Option<seq<string>>, ctx: Context): BookState {
    if !Admitted(ws, only) then st
    else
      var name := if ws.name.Some? then Some(Encode(ctx, ws.name.value)) else st.sheetName;
      BookState(st.loaded + 1, name, st.events + SheetEvents(ws, st.loaded, name, ctx))
  }

  function SheetsWalk(sheets: seq<Worksheet>, only: Option<seq<string>>, ctx: Context): BookState {
    if sheets == [] then BookState(0, None, [])
    else SheetStep(SheetsWalk(sheets[..|sheets| - 1], only, ctx), sheets[|sheets| - 1], only, ctx)
  }

  // ---------------------------------------------------------------------
  // The walk as the reader does it
  // ---------------------------------------------------------------------

  /** `++$columnID`, then once more per merged column while counting
      `additionalMergedCells` down to 0. */
  method Advance(columnID: string, additionalMergedCells: nat) returns (next: string, remaining: nat)
    requires IsColumnName(columnID)
    ensures remaining == 0
    ensures next == SuccN(columnID, 1 + additionalMergedCells)
  {
    next := Succ(columnID);
    remaining := additionalMergedCells;
    while remaining > 0
      invariant IsColumnName(next)
      invariant SuccN(next, remaining) == SuccN(columnID, 1 + additionalMergedCells)
    {
      next := Succ(next);
      remaining := remaining - 1;
    }
  }

  /** Formula, `Data`, comment and style of a cell the filter accepted. */
  method CellContent(cell: CellNode, columnID: string, rowID: int, cellRange: string, ctx: Context, ghost col: nat)
    returns (events: seq<Event>, cellIsSet: bool)
    requires columnID == ColumnName(col)
    requires cellRange == CellRange(cell, col, rowID)
    ensures events == ContentEvents(cell, col, rowID, ctx)
    ensures cellIsSet == HasData(cell)
  {
    events, cellIsSet := CellValueBlock(cell, columnID, rowID, ctx, col);
    if cell.comment.Some? {
      var author := "unknown";
      if cell.comment.value.author.Some? {
        author := cell.comment.value.author.value;
      }
      events := events + [SetComment(columnID + IntToString(rowID), Encode(ctx, author), Encode(ctx, cell.comment.value.text))];
    }
    assert events == ValueEvents(cell, col, rowID, ctx) + CommentEvents(cell, col, rowID, ctx);
    if cellIsSet && cell.styleId.Some? {
      var style := cell.styleId.value;
      if style in ctx.styles && ctx.styles[style] != EmptyStyle {
        events := events + [ApplyStyle(cellRange, ctx.styles[style])];
      }
    }
  }

  /** The `Data` block: the typed value, replaced by the translated
      formula when the cell has one. */
  method CellValueBlock(cell: CellNode, columnID: string, rowID: int, ctx: Context, ghost col: nat)
    returns (events: seq<Event>, cellIsSet: bool)
    requires columnID == ColumnName(col)
    ensures events == ValueEvents(cell, col, rowID, ctx)
    ensures cellIsSet == HasData(cell)
  {
    events := [];
    cellIsSet := false;
    var hasCalculatedValue := false;
    var cellDataFormula := "";
    if cell.formula.Some? {
      cellDataFormula := cell.formula.value;
      hasCalculatedValue := true;
    }
    if cell.data.Some? {
      var cellValue, cellType := DataValue(cell.data.value, ctx);
      var address := columnID + IntToString(rowID);
      if hasCalculatedValue {
        cellType := CellFormula;
        IndexOfName(col);
        var columnNumber := ColumnIndex(columnID);
        var translated := Formula.TranslateFormula(cellDataFormula, rowID, columnNumber);
        if translated.None? {
          events := [FormulaUnresolved(address, cellDataFormula)];
        } else {
          events := [SetValue(address, Text(translated.value), cellType), SetCalculated(address, cellValue)];
        }
      } else {
        events := [SetValue(address, cellValue, cellType)];
      }
      cellIsSet := true;
    }
  }

  /** The `ss:Type` switch: the value and the type it is set with. */
  method DataValue(cellData: DataNode, ctx: Context) returns (cellValue: CellValue, cellType: CellType)
    ensures (cellValue, cellType) == TypedValue(cellData, ctx)
  {
    cellValue := Raw(cellData.text);
    cellType := CellNull;
    match cellData.dataType.GetOr("") {
      case "String" =>
        cellValue := Text(Encode(ctx, cellData.text));
        cellType := CellString;
      case "Number" =>
        cellType := CellNumeric;
      case "Boolean" =>
        cellType := CellBool;
        cellValue := Flag(CustomProperties.NumericNonZero(cellData.text));
      case "DateTime" =>
        cellType := CellNumeric;
      case "Error" =>
        cellType := CellError;
      case _ =>
    }
  }

  /** The merge block of a cell: the range is widened to the merged
      rectangle and registered, and the merged columns are counted. */
  method MergeCell(cell: CellNode, columnID: string, rowID: int, cellRange: string, additionalMergedCells: nat, ghost col: nat)
    returns (events: seq<Event>, range: string, additional: nat)
    requires columnID == ColumnName(col)
    requires cellRange == CellAddress(col, rowID)
    ensures events == MergeEvents(cell, col, rowID)
    ensures range == CellRange(cell, col, rowID)
    ensures additional == additionalMergedCells + cell.mergeAcross.GetOr(0)
  {
    events := [];
    range := cellRange;
    additional := additionalMergedCells;
    if cell.mergeAcross.Some? || cell.mergeDown.Some? {
      var columnTo := columnID;
      if cell.mergeAcross.Some? {
        additional := additional + cell.mergeAcross.value;
        MergeColumnTo(col, cell.mergeAcross.value);
        columnTo := ColumnName(ColumnIndex(columnID) + cell.mergeAcross.value - 1);
      }
      var rowTo := rowID;
      if cell.mergeDown.Some? {
        rowTo := rowTo + cell.mergeDown.value;
      }
      MergedRange(cell, col, rowID, columnTo, rowTo);
      range := range + ":" + columnTo + IntToString(rowTo);
      events := [Merge(range)];
    }
  }

  /** `stringFromColumnIndex(columnIndexFromString($columnID) + n)`, both
      1-based, names the column `n` to the right. */
  lemma MergeColumnTo(col: nat, n: nat)
    ensures ColumnIndex(ColumnName(col)) + n - 1 >= 0
    ensures ColumnName(ColumnIndex(ColumnName(col)) + n - 1) == ColumnName(col + n)
  {
    IndexOfName(col);
  }

  lemma MergedRange(cell: CellNode, col: nat, row: int, columnTo: string, rowTo: int)
    requires IsMerged(cell)
    requires columnTo == ColumnName(col + cell.mergeAcross.GetOr(0))
    requires rowTo == row + cell.mergeDown.GetOr(0)
    ensures CellAddress(col, row) + ":" + columnTo + IntToString(rowTo) == CellRange(cell, col, row)
  {
    assert CellAddress(col + cell.mergeAcross.GetOr(0), rowTo) == columnTo + IntToString(rowTo);
  }

  /** One cell of the row loop: `additionalMergedCells` is 0 when the cell
      is reached and 0 again when it is done. */
  method PlaceCell(cell: CellNode, columnID: string, rowID: int, worksheetName: Option<string>, ctx: Context,
                   additionalMergedCells: nat, ghost col: nat)
    returns (events: seq<Event>, next: string, remaining: nat, cellIsSet: bool)
    requires additionalMergedCells == 0
    requires columnID == ColumnName(col)
    ensures remaining == 0
    ensures var p := PlaceOne(cell, col, rowID, worksheetName, ctx);
      next == ColumnName(p.next) && events == p.events && cellIsSet == p.isSet
  {
    var column := columnID;
    ghost var c := col;
    if cell.index.Some? {
      column := ColumnName(cell.index.value - 1);
      c := cell.index.value - 1;
    }
    if !ctx.filter(column, rowID, worksheetName) {
      return [], column, additionalMergedCells, false;
    }
    events, next, remaining, cellIsSet := PlaceAccepted(cell, column, rowID, ctx, additionalMergedCells, c);
    AcceptedPlacement(cell, col, rowID, worksheetName, ctx);
  }

  /** A cell the filter accepted: its merge, content and the advance. */
  method PlaceAccepted(cell: CellNode, column: string, rowID: int, ctx: Context, additionalMergedCells: nat, ghost c: nat)
    returns (events: seq<Event>, next: string, remaining: nat, cellIsSet: bool)
    requires additionalMergedCells == 0
    requires column == ColumnName(c)
    ensures remaining == 0
    ensures next == ColumnName(c + 1 + cell.mergeAcross.GetOr(0))
    ensures events == MergeEvents(cell, c, rowID) + ContentEvents(cell, c, rowID, ctx)
    ensures cellIsSet == HasData(cell)
  {
    var cellRange := column + IntToString(rowID);
    var additional;
    events, cellRange, additional := MergeCell(cell, column, rowID, cellRange, additionalMergedCells, c);
    var content;
    content, cellIsSet := CellContent(cell, column, rowID, cellRange, ctx, c);
    events := events + content;
    next, remaining := Advance(column, additional);
    SuccNName(c, 1 + additional);
  }

  /** `PlaceOne` for a cell the filter accepts. */
  lemma AcceptedPlacement(cell: CellNode, col: nat, row: int, sheet: Option<string>, ctx: Context)
    ensures var c := StartColumn(cell, col);
      ctx.filter(ColumnName(c), row, sheet) ==>
        PlaceOne(cell, col, row, sheet, ctx) ==
        Placed(c + 1 + cell.mergeAcross.GetOr(0), MergeEvents(cell, c, row) + ContentEvents(cell, c, row, ctx), HasData(cell))
  {
  }

  /** The cell loop of a row. */
  method LoadRow(cells: seq<CellNode>, rowID: int, worksheetName: Option<string>, ctx: Context, additionalMergedCells: nat)
    returns (events: seq<Event>, rowHasData: bool, remaining: nat)
    requires additionalMergedCells == 0
    ensures remaining == 0
    ensures events == CellsWalk(cells, rowID, worksheetName, ctx).events
    ensures rowHasData == CellsWalk(cells, rowID, worksheetName, ctx).hasData
  {
    var columnID := "A";
    events := [];
    rowHasData := false;
    remaining := additionalMergedCells;
    var k := 0;
    assert cells[..0] == [];
    while k < |cells|
      invariant 0 <= k <= |cells|
      invariant remaining == 0
      invariant columnID == ColumnName(CellsWalk(cells[..k], rowID, worksheetName, ctx).col)
      invariant events == CellsWalk(cells[..k], rowID, worksheetName, ctx).events
      invariant rowHasData == CellsWalk(cells[..k], rowID, worksheetName, ctx).hasData
    {
      ghost var st := CellsWalk(cells[..k], rowID, worksheetName, ctx);
      var cellEvents, cellIsSet;
      cellEvents, columnID, remaining, cellIsSet := PlaceCell(cells[k], columnID, rowID, worksheetName, ctx, remaining, st.col);
      events := events + cellEvents;
      rowHasData := rowHasData || cellIsSet;
      assert cells[..k + 1][..k] == cells[..k];
      k := k + 1;
    }
    assert cells[..k] == cells;
  }

  /** One `Row` element: its cells, then its height when a cell of it was
      given a value; the row cursor moves past it. */
  method LoadRowEntry(rowData: RowNode, rowID: int, worksheetName: Option<string>, ctx: Context, additionalMergedCells: nat)
    returns (rowEvents: seq<Event>, nextRowID: int, remaining: nat)
    requires additionalMergedCells == 0
    ensures remaining == 0
    ensures var row := rowData.index.GetOr(rowID);
      var cs := CellsWalk(rowData.cells, row, worksheetName, ctx);
      nextRowID == row + 1 && rowEvents == cs.events + HeightEvents(rowData, row, cs.hasData)
  {
    var row := rowID;
    if rowData.index.Some? {
      row := rowData.index.value;
    }
    var rowHasData;
    rowEvents, rowHasData, remaining := LoadRow(rowData.cells, row, worksheetName, ctx, additionalMergedCells);
    if rowHasData {
      if rowData.height.Some? {
        rowEvents := rowEvents + [RowHeight(row, rowData.height.value)];
      }
    }
    nextRowID := row + 1;
  }

  /** The row loop of a sheet. */
  method LoadRows(rows: seq<RowNode>, worksheetName: Option<string>, ctx: Context) returns (events: seq<Event>)
    ensures events == RowsWalk(rows, worksheetName, ctx).events
  {
    var rowID := 1;
    events := [];
    var additionalMergedCells := 0;
    var k := 0;
    assert rows[..0] == [];
    while k < |rows|
      invariant 0 <= k <= |rows|
      invariant additionalMergedCells == 0
      invariant RowsWalk(rows[..k], worksheetName, ctx) == SheetState(rowID, events)
    {
      ghost var st := SheetState(rowID, events);
      var rowEvents;
      rowEvents, rowID, additionalMergedCells := LoadRowEntry(rows[k], rowID, worksheetName, ctx, additionalMergedCells);
      RowStepShape(st, rows[k], worksheetName, ctx, rowEvents, rowID);
      events := events + rowEvents;
      RowsWalkNext(rows, k, worksheetName, ctx);
      k := k + 1;
    }
    assert rows[..k] == rows;
  }

  lemma RowStepShape(st: SheetState, r: RowNode, sheet: Option<string>, ctx: Context, rowEvents: seq<Event>, next: int)
    requires var row := r.index.GetOr(st.row);
      var cs := CellsWalk(r.cells, row, sheet, ctx);
      next == row + 1 && rowEvents == cs.events + HeightEvents(r, row, cs.hasData)
    ensures RowStep(st, r, sheet, ctx) == SheetState(next, st.events + rowEvents)
  {
  }

  lemma RowsWalkNext(rows: seq<RowNode>, k: nat, sheet: Option<string>, ctx: Context)
    requires k < |rows|
    ensures RowsWalk(rows[..k + 1], sheet, ctx) == RowStep(RowsWalk(rows[..k], sheet, ctx), rows[k], sheet, ctx)
  {
    assert rows[..k + 1][..k] == rows[..k];
  }

  /** One `Column` element: its width, at the column it names or at the
      cursor; the cursor moves past it. */
  method LoadColumnEntry(columnData: ColumnNode, columnID: string, ghost col: nat)
    returns (columnEvents: seq<Event>, next: string, ghost nextCol: nat)
    requires columnID == ColumnName(col)
    ensures var at := if columnData.index.Some? then columnData.index.value - 1 else col;
      nextCol == at + 1 && next == ColumnName(nextCol)
      && columnEvents == (if columnData.width.Some? then [ColumnWidth(ColumnName(at), columnData.width.value)] else [])
  {
    var column := columnID;
    nextCol := col;
    if columnData.index.Some? {
      column := ColumnName(columnData.index.value - 1);
      nextCol := columnData.index.value - 1;
    }
    columnEvents := [];
    if columnData.width.Some? {
      columnEvents := [ColumnWidth(column, columnData.width.value)];
    }
    SuccName(nextCol);
    next := Succ(column);
    nextCol := nextCol + 1;
  }

  /** The `Column` loop of a sheet. */
  method LoadColumns(columns: seq<ColumnNode>) returns (events: seq<Event>)
    ensures events == ColumnsWalk(columns).events
  {
    var columnID := "A";
    ghost var col := 0;
    events := [];
    var k := 0;
    assert columns[..0] == [];
    while k < |columns|
      invariant 0 <= k <= |columns|
      invariant columnID == ColumnName(col)
      invariant ColumnsWalk(columns[..k]) == ColumnState(col, events)
    {
      var columnEvents;
      columnEvents, columnID, col := LoadColumnEntry(columns[k], columnID, col);
      events := events + columnEvents;
      ColumnsWalkNext(columns, k);
      k := k + 1;
    }
    assert columns[..k] == columns;
  }

  lemma ColumnsWalkNext(columns: seq<ColumnNode>, k: nat)
    requires k < |columns|
    ensures ColumnsWalk(columns[..k + 1]) == ColumnStep(ColumnsWalk(columns[..k]), columns[k])
  {
    assert columns[..k + 1][..k] == columns[..k];
  }

  /** The worksheet loop. */
  method LoadWorksheets(sheets: seq<Worksheet>, loadSheetsOnly: Option<seq<string>>, ctx: Context)
    returns (events: seq<Event>)
    ensures events == SheetsWalk(sheets, loadSheetsOnly, ctx).events
  {
    var worksheetID := 0;
    var worksheetName: Option<string> := None;
    events := [];
    var k := 0;
    assert sheets[..0] == [];
    while k < |sheets|
      invariant 0 <= k <= |sheets|
      invariant SheetsWalk(sheets[..k], loadSheetsOnly, ctx) == BookState(worksheetID, worksheetName, events)
    {
      var worksheet := sheets[k];
      ghost var st := BookState(worksheetID, worksheetName, events);
      SheetsWalkNext(sheets, k, loadSheetsOnly, ctx);
      if loadSheetsOnly.Some? && worksheet.name.Some? && worksheet.name.value !in loadSheetsOnly.value {
        k := k + 1;
        continue;
      }
      var sheetEvents;
      sheetEvents, worksheetName := LoadWorksheet(worksheet, worksheetID, worksheetName, ctx);
      events := events + sheetEvents;
      worksheetID := worksheetID + 1;
      assert SheetStep(st, worksheet, loadSheetsOnly, ctx) == BookState(worksheetID, worksheetName, events);
      k := k + 1;
    }
    assert sheets[..k] == sheets;
  }

  lemma SheetsWalkNext(sheets: seq<Worksheet>, k: nat, only: Option<seq<string>>, ctx: Context)
    requires k < |sheets|
    ensures SheetsWalk(sheets[..k + 1], only, ctx) == SheetStep(SheetsWalk(sheets[..k], only, ctx), sheets[k], only, ctx)
  {
    assert sheets[..k + 1][..k] == sheets[..k];
  }

  /** The body of the worksheet loop for a sheet that is loaded. */
  method LoadWorksheet(worksheet: Worksheet, worksheetID: nat, lastName: Option<string>, ctx: Context)
    returns (events: seq<Event>, worksheetName: Option<string>)
    ensures worksheetName == if worksheet.name.Some? then Some(Encode(ctx, worksheet.name.value)) else lastName
    ensures events == SheetEvents(worksheet, worksheetID, worksheetName, ctx)
  {
    worksheetName := lastName;
    var title := [];
    if worksheet.name.Some? {
      worksheetName := Some(Encode(ctx, worksheet.name.value));
      title := [SetTitle(worksheetName.value)];
    }
    var columnEvents := LoadColumns(worksheet.columns);
    var rowEvents := LoadRows(worksheet.rows, worksheetName, ctx);
    events := [CreateSheet(worksheetID)] + title + columnEvents + rowEvents;
  }

  // ---------------------------------------------------------------------
  // Properties of the walk
  // ---------------------------------------------------------------------

  /** The columns taken by merges to the right of their cells. */
  function MergedColumns(cells: seq<CellNode>): nat {
    if cells == [] then 0 else MergedColumns(cells[..|cells| - 1]) + cells[|cells| - 1].mergeAcross.GetOr(0)
  }

  /** The part of a row's state that ignores the events: the column
      cursor and whether a cell was set. */
  datatype Cursor = Cursor(col: nat, hasData: bool)

  function CursorStep(cur: Cursor, cell: CellNode, row: int, sheet: Option<string>, ctx: Context): Cursor {
    var c := StartColumn(cell, cur.col);
    if ctx.filter(ColumnName(c), row, sheet) then Cursor(c + 1 + cell.mergeAcross.GetOr(0), cur.hasData || HasData(cell))
    else Cursor(c, cur.hasData)
  }

  function CursorWalk(cells: seq<CellNode>, row: int, sheet: Option<string>, ctx: Context): Cursor {
    if cells == [] then Cursor(0, false)
    else CursorStep(CursorWalk(cells[..|cells| - 1], row, sheet, ctx), cells[|cells| - 1], row, sheet, ctx)
  }

  lemma {:induction false} WalkCursor(cells: seq<CellNode>, row: int, sheet: Option<string>, ctx: Context)
    ensures CellsWalk(cells, row, sheet, ctx).col == CursorWalk(cells, row, sheet, ctx).col
    ensures CellsWalk(cells, row, sheet, ctx).hasData == CursorWalk(cells, row, sheet, ctx).hasData
  {
    if cells != [] {
      WalkCursor(cells[..|cells| - 1], row, sheet, ctx);
    }
  }

  /** The 0-based column at which each cell of a row is offered to the
      filter and, if accepted, placed. */
  function Offered(cells: seq<CellNode>, row: int, sheet: Option<string>, ctx: Context): (r: seq<nat>)
    ensures |r| == |cells|
  {
    if cells == [] then []
    else
      var init := cells[..|cells| - 1];
      Offered(init, row, sheet, ctx) + [StartColumn(cells[|cells| - 1], CursorWalk(init, row, sheet, ctx).col)]
  }

  function ColumnOf(cells: seq<CellNode>, k: nat, row: int, sheet: Option<string>, ctx: Context): nat
    requires k < |cells|
  {
    Offered(cells, row, sheet, ctx)[k]
  }

  /** The columns offered to a row's first cells do not depend on the cells
      after them. */
  lemma {:induction false} OfferedPrefix(cells: seq<CellNode>, k: nat, row: int, sheet: Option<string>, ctx: Context)
    requires k <= |cells|
    ensures Offered(cells[..k], row, sheet, ctx) == Offered(cells, row, sheet, ctx)[..k]
    decreases |cells|
  {
    if k < |cells| {
      var n := |cells| - 1;
      OfferedPrefix(cells[..n], k, row, sheet, ctx);
      assert cells[..n][..k] == cells[..k];
      assert Offered(cells, row, sheet, ctx)[..n] == Offered(cells[..n], row, sheet, ctx);
    } else {
      assert cells[..k] == cells;
    }
  }

  /** Cell `k` is offered where the cursor stands after the cells before
      it, unless it names its own column. */
  lemma {:induction false} ColumnOfWalk(cells: seq<CellNode>, k: nat, row: int, sheet: Option<string>, ctx: Context)
    requires k < |cells|
    ensures ColumnOf(cells, k, row, sheet, ctx) == StartColumn(cells[k], CursorWalk(cells[..k], row, sheet, ctx).col)
  {
    OfferedPrefix(cells, k + 1, row, sheet, ctx);
    var pre := cells[..k + 1];
    assert pre[..k] == cells[..k];
    assert Offered(pre, row, sheet, ctx)[k] == StartColumn(cells[k], CursorWalk(cells[..k], row, sheet, ctx).col);
  }

  predicate Unindexed(cells: seq<CellNode>) {
    forall k :: 0 <= k < |cells| ==> cells[k].index.None?
  }

  /** The filter lets every cell of this row of this sheet through. */
  ghost predicate AcceptsRow(ctx: Context, row: int, sheet: Option<string>) {
    forall c :: ctx.filter(c, row, sheet)
  }

  lemma {:induction false} UnindexedPrefix(cells: seq<CellNode>, k: nat)
    requires Unindexed(cells) && k <= |cells|
    ensures Unindexed(cells[..k])
  {
    assert forall j :: 0 <= j < k ==> cells[..k][j] == cells[j];
  }

  lemma {:induction false} CursorPlain(cells: seq<CellNode>, row: int, sheet: Option<string>, ctx: Context)
    requires Unindexed(cells) && AcceptsRow(ctx, row, sheet)
    ensures CursorWalk(cells, row, sheet, ctx).col == |cells| + MergedColumns(cells)
  {
    if cells != [] {
      UnindexedPrefix(cells, |cells| - 1);
      CursorPlain(cells[..|cells| - 1], row, sheet, ctx);
    }
  }

  /** Without `ss:Index` and with every cell accepted, cell `k` lands in
      column `k` plus the columns merged by the cells before it. */
  lemma {:induction false} PlainColumns(cells: seq<CellNode>, k: nat, row: int, sheet: Option<string>, ctx: Context)
    requires Unindexed(cells) && AcceptsRow(ctx, row, sheet) && k < |cells|
    ensures ColumnOf(cells, k, row, sheet, ctx) == k + MergedColumns(cells[..k])
  {
    UnindexedPrefix(cells, k);
    CursorPlain(cells[..k], row, sheet, ctx);
    ColumnOfWalk(cells, k, row, sheet, ctx);
  }

  /** A rejected cell does not advance the cursor, so when the filter
      rejects column A of a row, every cell of that row without `ss:Index`
      is offered at A again and the whole row is dropped. */
  lemma {:induction false} RejectedColumnA(cells: seq<CellNode>, row: int, sheet: Option<string>, ctx: Context)
    requires Unindexed(cells) && !ctx.filter("A", row, sheet)
    ensures CellsWalk(cells, row, sheet, ctx) == RowState(0, [], false)
  {
    if cells != [] {
      UnindexedPrefix(cells, |cells| - 1);
      RejectedColumnA(cells[..|cells| - 1], row, sheet, ctx);
      assert ColumnName(0) == "A";
    }
  }

  /** Cell `k` reached the filter and was accepted. */
  ghost predicate Accepted(cells: seq<CellNode>, k: nat, row: int, sheet: Option<string>, ctx: Context)
    requires k < |cells|
  {
    ctx.filter(ColumnName(ColumnOf(cells, k, row, sheet, ctx)), row, sheet)
  }

  /** A row counts as holding data exactly when some cell with `Data`
      got past the filter. */
  lemma {:induction false} RowHasDataIff(cells: seq<CellNode>, row: int, sheet: Option<string>, ctx: Context)
    ensures CellsWalk(cells, row, sheet, ctx).hasData <==> SomeAcceptedData(cells, row, sheet, ctx)
  {
    WalkCursor(cells, row, sheet, ctx);
    CursorHasData(cells, row, sheet, ctx);
  }

  /** Some accepted cell holds `Data`. */
  ghost predicate SomeAcceptedData(cells: seq<CellNode>, row: int, sheet: Option<string>, ctx: Context) {
    exists k :: 0 <= k < |cells| && Accepted(cells, k, row, sheet, ctx) && HasData(cells[k])
  }

  lemma {:induction false} CursorHasData(cells: seq<CellNode>, row: int, sheet: Option<string>, ctx: Context)
    ensures CursorWalk(cells, row, sheet, ctx).hasData <==> SomeAcceptedData(cells, row, sheet, ctx)
    decreases |cells|
  {
    if cells != [] {
      CursorHasData(cells[..|cells| - 1], row, sheet, ctx);
      CursorDataStep(cells, row, sheet, ctx);
      SomeAcceptedStep(cells, row, sheet, ctx);
    }
  }

  /** Some cell of a row is accepted with `Data` exactly when one of the
      cells before the last is, or the last one is. */
  lemma {:induction false} SomeAcceptedStep(cells: seq<CellNode>, row: int, sheet: Option<string>, ctx: Context)
    requires cells != []
    ensures var n := |cells| - 1;
      SomeAcceptedData(cells, row, sheet, ctx) ==
        (SomeAcceptedData(cells[..n], row, sheet, ctx) || (Accepted(cells, n, row, sheet, ctx) && HasData(cells[n])))
  {
    var n := |cells| - 1;
    var init := cells[..n];
    if SomeAcceptedData(init, row, sheet, ctx) {
      var k :| 0 <= k < n && Accepted(init, k, row, sheet, ctx) && HasData(init[k]);
      AcceptedPrefix(cells, n, k, row, sheet, ctx);
      assert Accepted(cells, k, row, sheet, ctx) && HasData(cells[k]);
      assert SomeAcceptedData(cells, row, sheet, ctx);
    }
    var last := Accepted(cells, n, row, sheet, ctx) && HasData(cells[n]);
    if last {
      assert SomeAcceptedData(cells, row, sheet, ctx);
    }
    if SomeAcceptedData(cells, row, sheet, ctx) {
      var k :| 0 <= k < |cells| && Accepted(cells, k, row, sheet, ctx) && HasData(cells[k]);
      if k < n {
        AcceptedPrefix(cells, n, k, row, sheet, ctx);
        assert Accepted(init, k, row, sheet, ctx) && HasData(init[k]);
        assert SomeAcceptedData(init, row, sheet, ctx);
      } else {
        assert last;
      }
    }
    assert SomeAcceptedData(cells, row, sheet, ctx) == (SomeAcceptedData(init, row, sheet, ctx) || last);
  }

  /** The last cell adds `Data` to the row exactly when it is accepted. */
  lemma CursorDataStep(cells: seq<CellNode>, row: int, sheet: Option<string>, ctx: Context)
    requires cells != []
    ensures var n := |cells| - 1;
      CursorWalk(cells, row, sheet, ctx).hasData ==
        (CursorWalk(cells[..n], row, sheet, ctx).hasData || (Accepted(cells, n, row, sheet, ctx) && HasData(cells[n])))
  {
  }

  /** Whether cell `k` is accepted depends only on the cells up to it. */
  lemma {:induction false} AcceptedPrefix(cells: seq<CellNode>, n: nat, k: nat, row: int, sheet: Option<string>, ctx: Context)
    requires k < n <= |cells|
    ensures cells[..n][k] == cells[k]
    ensures Accepted(cells[..n], k, row, sheet, ctx) == Accepted(cells, k, row, sheet, ctx)
  {
    OfferedPrefix(cells, n, row, sheet, ctx);
  }

  /** A row gets its height exactly when it has `ss:Height` and some
      accepted cell of it holds `Data`. */
  lemma RowHeightIff(st: SheetState, r: RowNode, sheet: Option<string>, ctx: Context)
    ensures var row := r.index.GetOr(st.row);
      RowStep(st, r, sheet, ctx).events == st.events + CellsWalk(r.cells, row, sheet, ctx).events +
        (if r.height.Some? && SomeAcceptedData(r.cells, row, sheet, ctx)
         then [RowHeight(row, r.height.value)] else [])
  {
    RowHasDataIff(r.cells, r.index.GetOr(st.row), sheet, ctx);
  }

  /** The row cursor after `rows`. */
  function RowCursor(rows: seq<RowNode>): int {
    if rows == [] then 1 else rows[|rows| - 1].index.GetOr(RowCursor(rows[..|rows| - 1])) + 1
  }

  /** The row number at which row `k` is placed. */
  function RowOf(rows: seq<RowNode>, k: nat): int
    requires k < |rows|
  {
    rows[k].index.GetOr(RowCursor(rows[..k]))
  }

  lemma {:induction false} RowsWalkCursor(rows: seq<RowNode>, sheet: Option<string>, ctx: Context)
    ensures RowsWalk(rows, sheet, ctx).row == RowCursor(rows)
  {
    if rows != [] {
      RowsWalkCursor(rows[..|rows| - 1], sheet, ctx);
    }
  }

  lemma {:induction false} RowCursorPlain(rows: seq<RowNode>)
    requires forall k :: 0 <= k < |rows| ==> rows[k].index.None?
    ensures RowCursor(rows) == |rows| + 1
  {
    if rows != [] {
      var init := rows[..|rows| - 1];
      assert forall k :: 0 <= k < |init| ==> init[k] == rows[k];
      RowCursorPlain(init);
    }
  }

  /** Without `ss:Index`, row `k` is row `k + 1`, whether the rows before
      it hold data or not; with it, the row is the one named. */
  lemma {:induction false} RowNumbers(rows: seq<RowNode>, k: nat)
    requires k < |rows|
    ensures (forall j :: 0 <= j < |rows| ==> rows[j].index.None?) ==> RowOf(rows, k) == k + 1
    ensures rows[k].index.Some? ==> RowOf(rows, k) == rows[k].index.value
    ensures k + 1 < |rows| && rows[k + 1].index.None? ==> RowOf(rows, k + 1) == RowOf(rows, k) + 1
  {
    if forall j :: 0 <= j < |rows| ==> rows[j].index.None? {
      assert forall j :: 0 <= j < k ==> rows[..k][j] == rows[j];
      RowCursorPlain(rows[..k]);
    }
    if k + 1 < |rows| {
      assert rows[..k + 1][..k] == rows[..k];
    }
  }

  /** A merged cell registers its rectangle before anything else is done
      to it, and the cursor moves on to the column just right of the
      rectangle. */
  lemma {:induction false} MergedCell(cell: CellNode, col: nat, row: int, sheet: Option<string>, ctx: Context)
    requires IsMerged(cell)
    requires ctx.filter(ColumnName(StartColumn(cell, col)), row, sheet)
    ensures var c := StartColumn(cell, col);
      var p := PlaceOne(cell, col, row, sheet, ctx);
      && |p.events| >= 1
      && p.events[0] == Merge(CellAddress(c, row) + ":" + CellAddress(c + cell.mergeAcross.GetOr(0), row + cell.mergeDown.GetOr(0)))
      && ColumnName(p.next) == Succ(ColumnName(c + cell.mergeAcross.GetOr(0)))
  {
    var c := StartColumn(cell, col);
    var m := MergeEvents(cell, c, row);
    assert m == [Merge(CellRange(cell, c, row))];
    HeadOfConcat(m, ContentEvents(cell, c, row, ctx));
    SuccName(c + cell.mergeAcross.GetOr(0));
  }

  lemma HeadOfConcat<T>(a: seq<T>, b: seq<T>)
    requires |a| >= 1
    ensures |a + b| >= 1 && (a + b)[0] == a[0]
  {
  }

  /** A style is applied exactly when the cell got a value and its entry
      exists and is not empty, and then to the cell's whole range. */
  lemma StyleAppliedIff(cell: CellNode, col: nat, row: int, ctx: Context)
    ensures (exists e :: e in ContentEvents(cell, col, row, ctx) && e.ApplyStyle?) <==> StyleApplies(cell, ctx)
    ensures forall e :: e in ContentEvents(cell, col, row, ctx) && e.ApplyStyle? ==> e.range == CellRange(cell, col, row)
  {
    var v := ValueEvents(cell, col, row, ctx);
    var m := CommentEvents(cell, col, row, ctx);
    assert forall e :: e in v ==> !e.ApplyStyle?;
    assert forall e :: e in m ==> !e.ApplyStyle?;
    if StyleApplies(cell, ctx) {
      assert StyleEvents(cell, col, row, ctx)[0] in ContentEvents(cell, col, row, ctx);
    }
  }

  /** A cell with a comment and no `Data` gets the comment, with the author
      `unknown` when none is given, but no value and no style, and it does
      not make its row count as holding data. */
  lemma CommentOnly(cell: CellNode, col: nat, row: int, sheet: Option<string>, ctx: Context)
    requires cell.data.None? && cell.comment.Some? && cell.comment.value.author.None?
    requires ctx.filter(ColumnName(StartColumn(cell, col)), row, sheet)
    requires !IsMerged(cell)
    ensures PlaceOne(cell, col, row, sheet, ctx).events ==
      [SetComment(CellAddress(StartColumn(cell, col), row), Encode(ctx, "unknown"), Encode(ctx, cell.comment.value.text))]
    ensures !PlaceOne(cell, col, row, sheet, ctx).isSet
  {
  }

  /** The sheets that `loadSheetsOnly` lets through. */
  function AdmittedSheets(sheets: seq<Worksheet>, only: Option<seq<string>>): seq<Worksheet> {
    if sheets == [] then []
    else
      var last := sheets[|sheets| - 1];
      AdmittedSheets(sheets[..|sheets| - 1], only) + (if Admitted(last, only) then [last] else [])
  }

  /** A sheet skipped by `loadSheetsOnly` leaves no trace: neither a sheet
      nor a sheet index nor a name handed to the filter. */
  lemma {:induction false} SkippedSheetsAbsent(sheets: seq<Worksheet>, only: Option<seq<string>>, ctx: Context)
    ensures SheetsWalk(sheets, only, ctx) == SheetsWalk(AdmittedSheets(sheets, only), None, ctx)
  {
    if sheets != [] {
      var init := sheets[..|sheets| - 1];
      var last := sheets[|sheets| - 1];
      SkippedSheetsAbsent(init, only, ctx);
      if Admitted(last, only) {
        var a := AdmittedSheets(init, only) + [last];
        assert a[..|a| - 1] == AdmittedSheets(init, only);
      } else {
        assert AdmittedSheets(sheets, only) == AdmittedSheets(init, only);
      }
    }
  }

  /** Without `loadSheetsOnly` every sheet is created, numbered from 0. */
  lemma {:induction false} AllSheetsLoaded(sheets: seq<Worksheet>, ctx: Context)
    ensures SheetsWalk(sheets, None, ctx).loaded == |sheets|
  {
    if sheets != [] {
      AllSheetsLoaded(sheets[..|sheets| - 1], ctx);
    }
  }

  /** A relative formula in column C of row 5: the translator sees the
      1-based column 3, and the value becomes the calculated value. */
  lemma FormulaCellExample(ctx: Context)
    ensures var cell := CellNode(None, None, None, Some("=R[-1]C[1]"), None, Some(DataNode(Some("Number"), "7")), None);
      ValueEvents(cell, 2, 5, ctx) == [SetValue("C5", Text("=D4"), CellFormula), SetCalculated("C5", Raw("7"))]
  {
    FormulaRefs.RelativeExample();
    assert CellAddress(2, 5) == "C5" by {
      assert ColumnName(2) == "C" && IntToString(5) == "5";
    }
  }
}
