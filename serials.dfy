/** How a raw cell value becomes a date. The roster parser first parses the raw value as a 64-bit
    float, then hands the serial to the workbook library's date conversion (1900 epoch). Both are
    library code, so the model takes them as the two fields of a `Calendar`. */
module Serials {
  import opened Model

  datatype Calendar = Calendar(
    parseFloat: string -> Option<real>,         // strconv.ParseFloat(cell, 64); None on error
    excelDateToTime: real -> Option<DateKey>)   // excelize.ExcelDateToTime(serial, false); None on error

  /** Serials up to this one are not taken for dates when looking for the date row. */
  const MinDateSerial: real := 59.0

  /** The raw value parses as a number strictly above the minimum date serial. */
  predicate Above59(cal: Calendar, cell: string)
  {
    match cal.parseFloat(cell)
    case Some(serial) => serial > MinDateSerial
    case None => false
  }

  /** The date the raw value stands for: it parses as a number and that number converts. */
  function DecodeDate(cal: Calendar, cell: string): Option<DateKey>
  {
    match cal.parseFloat(cell)
    case Some(serial) => cal.excelDateToTime(serial)
    case None => None
  }

  /** A cell counted by the date-row scan: above the minimum date serial, and it converts. */
  predicate IsDateCell(cal: Calendar, cell: string)
  {
    Above59(cal, cell) && DecodeDate(cal, cell).Some?
  }
}
