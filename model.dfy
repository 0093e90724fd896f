/** The records of the roster parser (internal/excel/model.go) and the grid they are read from. */
module Model {

  datatype Option<+T> = None | Some(value: T)

  datatype Result<+T, +E> = Ok(value: T) | Err(error: E)

  /** The errors the roster parser can return for one sheet or one cell. */
  datatype Error =
    | SheetUnreadable     // the workbook library could not read the sheet's rows or columns
    | InvalidCoordinate   // a (row, column) pair that names no cell of a sheet
    | WrongCellType       // the cell has no declared type
    | EmptyEntry          // the cell's raw value is empty or white space only

  /** A calendar instant produced by the spreadsheet date conversion. The conversion itself is a
      parameter of the model (see module Serials), so the instant is kept abstract as a key. */
  type DateKey = int

  /** A sheet's raw cell values, row by row; rows may have different lengths. */
  type Grid = seq<seq<string>>

  /** The raw value at 0-based (row, col); a cell outside the stored rows reads as empty. */
  function CellAt(rows: Grid, row: nat, col: nat): string
  {
    if row < |rows| && col < |rows[row]| then rows[row][col] else ""
  }

  /** A sheet: its raw values and the coordinates (row, col) of the cells that carry a declared type. */
  datatype Sheet = Sheet(rows: Grid, typed: set<(int, int)>)

  /** An employee name found in the roster and the 0-based grid row it was taken from. */
  datatype Employee = Employee(Name: string, Row: nat)

  /** The employees found in the roster and the 0-based column that holds their names. */
  datatype Employees = Employees(List: seq<Employee>, Column: nat)

  /** A date of the roster's date row and the 0-based grid column it sits in. */
  datatype Date = Date(Value: DateKey, Column: nat)

  /** The 0-based row that holds the dates and how many dates that row holds. */
  datatype DateRow = DateRow(Row: nat, NumDates: nat)

  /** One shift: its date and the label read from the roster ("M", "N", "OFF", ...). */
  datatype Shift = Shift(Date: DateKey, Label: string)
}
