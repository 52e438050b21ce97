/**
 * The parts of the Google Sheets grid data the program writes and reads back: cells with a
 * user-entered value and a formatting style, rows of cells, and merge rectangles.
 */
module Sheet {
  import opened Wrappers

  /** A cell's `userEnteredValue`: at most one of its fields is set by the program. */
  datatype ExtendedValue = ExtendedValue(stringValue: Option<string>, numberValue: Option<int>, formulaValue: Option<string>)

  /**
   * The formatting and validation the program attaches to a cell (colours, borders, fonts and the
   * drop-down of the action column), reduced to which of its cell templates produced it.
   */
  datatype Style =
    | Unstyled
    | HiddenColumn
    | AuthorColumn
    | ClippedText
    | DateColumn
    | TimeColumn
    | ActionChoice
    | BehindColumn
    | AheadColumn
    | CommitColumn
    | Styled(name: string)

  datatype Cell = Cell(userEnteredValue: Option<ExtendedValue>, style: Style)

  /** A row of grid data; `values` is absent in rows the sheet returns without any cell. */
  datatype Row = Row(values: Option<seq<Cell>>)

  function StringValue(s: string): ExtendedValue {
    ExtendedValue(Some(s), None, None)
  }

  function NumberValue(n: int): ExtendedValue {
    ExtendedValue(None, Some(n), None)
  }

  function FormulaValue(f: string): ExtendedValue {
    ExtendedValue(None, None, Some(f))
  }

  /** `generateStringValue(s)` with a style spread over it. */
  function StringCell(s: string, style: Style): Cell {
    Cell(Some(StringValue(s)), style)
  }

  /** `generateNumberValue(n)` with a style spread over it. */
  function NumberCell(n: int, style: Style): Cell {
    Cell(Some(NumberValue(n)), style)
  }

  /** `cell.userEnteredValue.stringValue`, absent when either level is absent. */
  function CellString(c: Cell): Option<string> {
    if c.userEnteredValue.Some? then c.userEnteredValue.value.stringValue else None
  }

  /** A merge request's range: half-open row and column intervals. */
  datatype GridRange = GridRange(sheetId: int, startRowIndex: int, endRowIndex: int, startColumnIndex: int, endColumnIndex: int)
}
