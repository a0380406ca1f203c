/** The sheet materializer: `worksheet_to_dataframe`,
    `advanced_worksheet_to_dataframe` and the per-sheet counts of the
    detailed viewer.

    A worksheet is the sequence of its rows as `iter_rows` yields them, each
    a sequence of cells; a table is what the scripts hand to `pd.DataFrame`:
    column labels taken from the first row when there are at least two rows,
    and the records in source order.
 */
module Sheets {
  import opened Text

  /** A cell value as openpyxl reports it (`None` is an empty cell). */
  datatype Value = Empty | Str(text: string) | Int(number: int) | Bool(flag: bool)

  /** A cell: its value, whether `data_type == 'f'`, and its comment text if it has one. */
  datatype Cell = Cell(value: Value, isFormula: bool, comment: Option<string>)

  type Sheet = seq<seq<Cell>>

  /** The entries of the "View Options" multiselect. */
  datatype ViewOption = ShowFormulas | ShowCellComments | ShowMergedCells | ColorCodeByDataType

  /** A materialized table: the column labels when a header row was consumed, then the records. */
  datatype Table = Table(columns: Option<seq<Value>>, records: seq<seq<Value>>)

  /** Python truthiness of a cell value. */
  predicate Truthy(v: Value) {
    match v
    case Empty => false
    case Str(s) => s != []
    case Int(n) => n != 0
    case Bool(b) => b
  }

  /** The text an f-string gives a value: `str(value)`. */
  function Display(v: Value): string {
    match v
    case Empty => "None"
    case Str(s) => s
    case Int(n) => IntText(n)
    case Bool(b) => if b then "True" else "False"
  }

  predicate EndsWith(s: string, suffix: string) {
    |suffix| <= |s| && s[|s| - |suffix|..] == suffix
  }

  /** The text appended to a commented cell. */
  function CommentNote(text: string): string {
    " [Comment: " + text + "]"
  }

  /** The value `advanced_worksheet_to_dataframe` shows for a cell: first the
      formula marker `=` (only for a formula cell whose value is truthy, with
      "Show Formulas" selected), then the comment note (for a commented cell,
      with "Show Cell Comments" selected), appended after the shown value's
      text so that neither rewrite replaces the value. */
  function RenderCell(c: Cell, options: seq<ViewOption>): (v: Value)
    ensures (!(ShowFormulas in options && c.isFormula && Truthy(c.value))
             && !(ShowCellComments in options && c.comment.Some?)) ==> v == c.value
    ensures (ShowFormulas in options && c.isFormula && Truthy(c.value)
             && !(ShowCellComments in options && c.comment.Some?)) ==> v == Str("=" + Display(c.value))
    ensures (!(ShowFormulas in options && c.isFormula && Truthy(c.value))
             && ShowCellComments in options && c.comment.Some?) ==> v == Str(Display(c.value) + CommentNote(c.comment.value))
    ensures (ShowFormulas in options && c.isFormula && Truthy(c.value)
             && ShowCellComments in options && c.comment.Some?) ==> v == Str("=" + Display(c.value) + CommentNote(c.comment.value))
    ensures ShowFormulas in options && c.isFormula && Truthy(c.value) ==> v.Str? && v.text != [] && v.text[0] == '='
    ensures ShowCellComments in options && c.comment.Some? ==> v.Str? && EndsWith(v.text, CommentNote(c.comment.value))
  {
    var shown :=
      if ShowFormulas in options && c.isFormula then
        (if Truthy(c.value) then Str("=" + Display(c.value)) else c.value)
      else c.value;
    if ShowCellComments in options && c.comment.Some? then
      Str(Display(shown) + CommentNote(c.comment.value))
    else shown
  }

  /** The values of a row, as `iter_rows(values_only=True)` yields them. */
  function RowValues(row: seq<Cell>): seq<Value> {
    seq(|row|, j requires 0 <= j < |row| => row[j].value)
  }

  /** Every row's values. */
  function SheetValues(sheet: Sheet): seq<seq<Value>> {
    seq(|sheet|, i requires 0 <= i < |sheet| => RowValues(sheet[i]))
  }

  /** Every row's rendered cells. */
  function RenderedSheet(sheet: Sheet, options: seq<ViewOption>): seq<seq<Value>> {
    seq(|sheet|, i requires 0 <= i < |sheet| =>
      seq(|sheet[i]|, j requires 0 <= j < |sheet[i]| => RenderCell(sheet[i][j], options)))
  }

  /** The rows a table holds, header first: what writing it out with its
      header row gives back. */
  function TableRows(t: Table): seq<seq<Value>> {
    (if t.columns.Some? then [t.columns.value] else []) + t.records
  }

  /** The frame built from collected rows: no rows give the empty frame; one
      row gives a headerless one-record frame; otherwise row 0 labels the
      columns and the other rows are the records, in order. No row is lost. */
  function ToTable(data: seq<seq<Value>>): (t: Table)
    ensures TableRows(t) == data
    ensures t.columns.Some? <==> |data| > 1
    ensures t.columns.Some? ==> t.columns.value == data[0] && t.records == data[1..]
    ensures t.columns.None? ==> t.records == data
  {
    if data == [] then Table(None, [])
    else if |data| > 1 then Table(Some(data[0]), data[1..])
    else Table(None, data)
  }

  /** `worksheet_to_dataframe`: collect every row's values, then split off the header. */
  method WorksheetToTable(sheet: Sheet) returns (t: Table)
    ensures t == ToTable(SheetValues(sheet))
    ensures TableRows(t) == SheetValues(sheet)
    ensures |sheet| > 1 ==> t.columns == Some(RowValues(sheet[0])) && |t.records| == |sheet| - 1
    ensures |sheet| == 1 ==> t == Table(None, [RowValues(sheet[0])])
    ensures sheet == [] ==> t == Table(None, [])
  {
    var data: seq<seq<Value>> := [];
    for i := 0 to |sheet|
      invariant data == SheetValues(sheet[..i])
    {
      data := data + [RowValues(sheet[i])];
    }
    assert sheet[..|sheet|] == sheet;
    t := ToTable(data);
  }

  /** `advanced_worksheet_to_dataframe`: render every cell of every row, then
      split off the header. Row count and row lengths are kept. */
  method AdvancedWorksheetToTable(sheet: Sheet, options: seq<ViewOption>) returns (t: Table)
    ensures t == ToTable(RenderedSheet(sheet, options))
    ensures |TableRows(t)| == |sheet|
    ensures forall i :: 0 <= i < |sheet| ==> |TableRows(t)[i]| == |sheet[i]|
    ensures forall i, j :: 0 <= i < |sheet| && 0 <= j < |sheet[i]| ==> TableRows(t)[i][j] == RenderCell(sheet[i][j], options)
  {
    var data: seq<seq<Value>> := [];
    for i := 0 to |sheet|
      invariant data == RenderedSheet(sheet[..i], options)
    {
      var row := sheet[i];
      var rowData: seq<Value> := [];
      for j := 0 to |row|
        invariant rowData == seq(j, k requires 0 <= k < j => RenderCell(row[k], options))
      {
        rowData := rowData + [RenderCell(row[j], options)];
      }
      assert sheet[..i + 1][i] == row;
      data := data + [rowData];
    }
    assert sheet[..|sheet|] == sheet;
    t := ToTable(data);
  }

  /** With neither "Show Formulas" nor "Show Cell Comments" selected, the
      detailed view shows the same table as the basic one on the same sheet. */
  lemma PlainOptionsShowValues(sheet: Sheet, options: seq<ViewOption>)
    requires ShowFormulas !in options && ShowCellComments !in options
    ensures ToTable(RenderedSheet(sheet, options)) == ToTable(SheetValues(sheet))
  {
    forall i | 0 <= i < |sheet|
      ensures RenderedSheet(sheet, options)[i] == SheetValues(sheet)[i]
    {
      assert forall j :: 0 <= j < |sheet[i]| ==> RenderedSheet(sheet, options)[i][j] == sheet[i][j].value;
    }
    assert RenderedSheet(sheet, options) == SheetValues(sheet);
  }

  /** A sheet is rectangular when every row is as wide as the first, as `iter_rows` produces. */
  predicate Rectangular(sheet: Sheet) {
    forall i :: 0 <= i < |sheet| ==> |sheet[i]| == |sheet[0]|
  }

  /** From a rectangular sheet every record lines up with the column labels. */
  lemma RecordsAlignWithColumns(sheet: Sheet, options: seq<ViewOption>)
    requires Rectangular(sheet)
    ensures var t := ToTable(RenderedSheet(sheet, options));
            t.columns.Some? ==> forall r :: r in t.records ==> |r| == |t.columns.value|
  {
  }

  /** `any(cell.value for cell in row)`. */
  predicate HasData(row: seq<Cell>) {
    exists j :: 0 <= j < |row| && Truthy(row[j].value)
  }

  /** The "Data Rows" metric: how many rows hold at least one truthy value. */
  function DataRowCount(sheet: Sheet): (n: nat)
    ensures n <= |sheet|
    ensures n == 0 <==> forall i :: 0 <= i < |sheet| ==> !HasData(sheet[i])
    ensures n == |sheet| <==> forall i :: 0 <= i < |sheet| ==> HasData(sheet[i])
  {
    if sheet == [] then 0
    else
      var init := sheet[..|sheet| - 1];
      assert forall i :: 0 <= i < |init| ==> init[i] == sheet[i];
      DataRowCount(init) + (if HasData(sheet[|sheet| - 1]) then 1 else 0)
  }

  /** How many cells a row holds with `data_type == 'f'`. */
  function RowFormulaCount(row: seq<Cell>): (n: nat)
    ensures n <= |row|
    ensures n == 0 <==> forall j :: 0 <= j < |row| ==> !row[j].isFormula
  {
    if row == [] then 0
    else
      var init := row[..|row| - 1];
      assert forall j :: 0 <= j < |init| ==> init[j] == row[j];
      RowFormulaCount(init) + (if row[|row| - 1].isFormula then 1 else 0)
  }

  /** How many cells the sheet holds. */
  function CellCount(sheet: Sheet): nat {
    if sheet == [] then 0 else CellCount(sheet[..|sheet| - 1]) + |sheet[|sheet| - 1]|
  }

  /** The "Has Formulas" metric: how many cells have `data_type == 'f'`. */
  function FormulaCount(sheet: Sheet): (n: nat)
    ensures n <= CellCount(sheet)
    ensures n == 0 <==> forall i, j :: 0 <= i < |sheet| && 0 <= j < |sheet[i]| ==> !sheet[i][j].isFormula
  {
    if sheet == [] then 0
    else
      var init := sheet[..|sheet| - 1];
      assert forall i :: 0 <= i < |init| ==> init[i] == sheet[i];
      FormulaCount(init) + RowFormulaCount(sheet[|sheet| - 1])
  }
}
