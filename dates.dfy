/** The date side of the roster parser (internal/excel/private.go): finding the row that holds the
    dates (getDateRow), listing the dates of that row (getDateList) and indexing them by date
    (getDateToColumnNumberMap). Each scan is a method with the loops of the source, proved equal to
    a specification function; the lemmas below state what those functions promise. */
module DateScan {
  import opened Model
  import opened Serials

  // ------------------------------------------------------------------
  // Specification
  // ------------------------------------------------------------------

  /** How many cells of `row` the date-row scan counts. */
  function DateCount(cal: Calendar, row: seq<string>): (n: nat)
    ensures n <= |row|
  {
    if row == [] then 0
    else DateCount(cal, row[..|row| - 1]) + (if IsDateCell(cal, row[|row| - 1]) then 1 else 0)
  }

  /** `d` names the row with the most date cells, the first such row when several tie, and is
      (0, 0) when no row holds a date cell. */
  predicate IsDateHeader(cal: Calendar, rows: Grid, d: DateRow)
  {
    && (forall r | 0 <= r < |rows| :: DateCount(cal, rows[r]) <= d.NumDates)
    && (d.NumDates == 0 ==> d.Row == 0)
    && (d.NumDates > 0 ==>
          && d.Row < |rows|
          && DateCount(cal, rows[d.Row]) == d.NumDates
          && forall r | 0 <= r < d.Row :: DateCount(cal, rows[r]) < d.NumDates)
  }

  /** The dates of `row`, in column order, as getDateList collects them. */
  function DateList(cal: Calendar, row: seq<string>): seq<Date>
  {
    if row == [] then []
    else
      var n := |row| - 1;
      DateList(cal, row[..n]) +
        (if IsDateCell(cal, row[n]) then [Date(DecodeDate(cal, row[n]).value, n)] else [])
  }

  /** The date -> column index of `row`, as getDateToColumnNumberMap builds it. */
  function DateIndex(cal: Calendar, row: seq<string>): map<DateKey, nat>
  {
    if row == [] then map[]
    else
      var n := |row| - 1;
      var m := DateIndex(cal, row[..n]);
      match DecodeDate(cal, row[n])
      case Some(d) => m[d := n]
      case None => m
  }

  // ------------------------------------------------------------------
  // The scans
  // ------------------------------------------------------------------

  /** getDateRow. `read` is the sheet's rows as the workbook library returns them, or None when the
      library cannot read them; the scan then reports (0, 0). */
  method GetDateRow(cal: Calendar, read: Option<Grid>) returns (dateRow: DateRow)
    ensures read.None? ==> dateRow == DateRow(0, 0)
    ensures read.Some? ==> IsDateHeader(cal, read.value, dateRow)
  {
    dateRow := DateRow(0, 0);
    if read.Some? {
      var rows := read.value;
      var rIdx := 0;
      while rIdx < |rows|
        invariant 0 <= rIdx <= |rows|
        invariant forall r | 0 <= r < rIdx :: DateCount(cal, rows[r]) <= dateRow.NumDates
        invariant dateRow.NumDates == 0 ==> dateRow.Row == 0
        invariant dateRow.NumDates > 0 ==>
          && dateRow.Row < rIdx
          && DateCount(cal, rows[dateRow.Row]) == dateRow.NumDates
          && forall r | 0 <= r < dateRow.Row :: DateCount(cal, rows[r]) < dateRow.NumDates
      {
        var row := rows[rIdx];
        var datesInRow := 0;
        var j := 0;
        while j < |row|
          invariant 0 <= j <= |row|
          invariant datesInRow == DateCount(cal, row[..j])
        {
          var serial := cal.parseFloat(row[j]);
          if serial.Some? && serial.value > MinDateSerial {
            if cal.excelDateToTime(serial.value).Some? {
              datesInRow := datesInRow + 1;
            }
          }
          assert row[..j + 1][..j] == row[..j];
          j := j + 1;
        }
        assert row[..j] == row;
        if datesInRow > dateRow.NumDates {
          dateRow := DateRow(rIdx, datesInRow);
        }
        rIdx := rIdx + 1;
      }
    }
  }

  /** getDateList: the (date, column) pairs of the date row. Reading a row the sheet does not have
      aborts the program in the source, so the row must exist. */
  method GetDateList(cal: Calendar, rows: Grid, dateRow: DateRow) returns (dateList: seq<Date>)
    requires dateRow.Row < |rows|
    ensures dateList == DateList(cal, rows[dateRow.Row])
  {
    dateList := [];
    var row := rows[dateRow.Row];
    for cIdx := 0 to |row|
      invariant dateList == DateList(cal, row[..cIdx])
    {
      var serial := cal.parseFloat(row[cIdx]);
      if serial.Some? && serial.value > MinDateSerial {
        var date := cal.excelDateToTime(serial.value);
        if date.Some? {
          dateList := dateList + [Date(date.value, cIdx)];
        }
      }
      assert row[..cIdx + 1][..cIdx] == row[..cIdx];
    }
    assert row[..|row|] == row;
  }

  /** getDateToColumnNumberMap: every date of the row, mapped to its column; a later column with
      the same date overwrites an earlier one. */
  method GetDateToColumnNumberMap(cal: Calendar, rows: Grid, dateRow: nat)
    returns (dateToCol: map<DateKey, nat>)
    requires dateRow < |rows|
    ensures dateToCol == DateIndex(cal, rows[dateRow])
  {
    dateToCol := map[];
    var targetRow := rows[dateRow];
    for colIdx := 0 to |targetRow|
      invariant dateToCol == DateIndex(cal, targetRow[..colIdx])
    {
      var serial := cal.parseFloat(targetRow[colIdx]);
      if serial.Some? {
        var date := cal.excelDateToTime(serial.value);
        if date.Some? {
          dateToCol := dateToCol[date.value := colIdx];
        }
      }
      assert targetRow[..colIdx + 1][..colIdx] == targetRow[..colIdx];
    }
    assert targetRow[..|targetRow|] == targetRow;
  }

  // ------------------------------------------------------------------
  // The date row
  // ------------------------------------------------------------------

  /** A row without date cells counts none. */
  lemma {:induction false} NoDateCellsCountZero(cal: Calendar, row: seq<string>)
    requires forall c | 0 <= c < |row| :: !IsDateCell(cal, row[c])
    ensures DateCount(cal, row) == 0
  {
    if row != [] {
      NoDateCellsCountZero(cal, row[..|row| - 1]);
    }
  }

  /** A sheet without a cell above serial 59 that converts to a date has no date row: (0, 0). */
  lemma NoDatesNoHeader(cal: Calendar, rows: Grid, d: DateRow)
    requires forall r, c | 0 <= r < |rows| && 0 <= c < |rows[r]| :: !IsDateCell(cal, rows[r][c])
    requires IsDateHeader(cal, rows, d)
    ensures d == DateRow(0, 0)
  {
    if d.NumDates > 0 {
      NoDateCellsCountZero(cal, rows[d.Row]);
    }
  }

  /** The date row is determined by the sheet: two scans of the same rows agree. */
  lemma DateHeaderUnique(cal: Calendar, rows: Grid, d1: DateRow, d2: DateRow)
    requires IsDateHeader(cal, rows, d1) && IsDateHeader(cal, rows, d2)
    ensures d1 == d2
  {
    if d1.NumDates > 0 && d2.NumDates > 0 {
      assert DateCount(cal, rows[d1.Row]) <= d2.NumDates;
      assert DateCount(cal, rows[d2.Row]) <= d1.NumDates;
    }
  }

  // ------------------------------------------------------------------
  // The date list
  // ------------------------------------------------------------------

  /** `date` sits in a valid column of `row`, in a cell above serial 59 that converts to its value. */
  predicate IsListed(cal: Calendar, row: seq<string>, date: Date)
  {
    && date.Column < |row|
    && IsDateCell(cal, row[date.Column])
    && DecodeDate(cal, row[date.Column]) == Some(date.Value)
  }

  /** Every listed date sits where `IsListed` says, and the columns strictly increase. */
  lemma {:induction false} DateListSound(cal: Calendar, row: seq<string>)
    ensures forall k | 0 <= k < |DateList(cal, row)| :: IsListed(cal, row, DateList(cal, row)[k])
    ensures forall k, l | 0 <= k < l < |DateList(cal, row)| ::
      DateList(cal, row)[k].Column < DateList(cal, row)[l].Column
  {
    if row != [] {
      var n := |row| - 1;
      DateListSound(cal, row[..n]);
      var prefix := DateList(cal, row[..n]);
      var dates := DateList(cal, row);
      forall k | 0 <= k < |prefix|
        ensures dates[k] == prefix[k] && dates[k].Column < n && IsListed(cal, row, dates[k])
      {
        assert IsListed(cal, row[..n], prefix[k]);
        assert row[..n][prefix[k].Column] == row[prefix[k].Column];
      }
    }
  }

  /** Some entry of `dates` sits in column c. */
  predicate HasColumn(dates: seq<Date>, c: nat)
  {
    exists k | 0 <= k < |dates| :: dates[k].Column == c
  }

  /** Every cell above serial 59 that converts to a date is listed. */
  lemma {:induction false} DateListComplete(cal: Calendar, row: seq<string>)
    ensures forall c | 0 <= c < |row| && IsDateCell(cal, row[c]) :: HasColumn(DateList(cal, row), c)
  {
    if row != [] {
      var n := |row| - 1;
      DateListComplete(cal, row[..n]);
      var prefix := DateList(cal, row[..n]);
      var dates := DateList(cal, row);
      forall c | 0 <= c < |row| && IsDateCell(cal, row[c])
        ensures HasColumn(dates, c)
      {
        if c < n {
          assert row[..n][c] == row[c];
          assert HasColumn(prefix, c);
          var k :| 0 <= k < |prefix| && prefix[k].Column == c;
          assert dates[k] == prefix[k];
        } else {
          assert dates[|prefix|].Column == c;
        }
      }
    }
  }

  /** The list holds exactly as many dates as the date-row scan counts in that row. */
  lemma {:induction false} DateListLength(cal: Calendar, row: seq<string>)
    ensures |DateList(cal, row)| == DateCount(cal, row)
  {
    if row != [] {
      DateListLength(cal, row[..|row| - 1]);
    }
  }

  /** Given the date row the scan chose, the list has NumDates entries. */
  lemma HeaderDateListLength(cal: Calendar, rows: Grid, d: DateRow)
    requires IsDateHeader(cal, rows, d) && d.Row < |rows|
    ensures |DateList(cal, rows[d.Row])| == d.NumDates
  {
    DateListLength(cal, rows[d.Row]);
  }

  // ------------------------------------------------------------------
  // The date index
  // ------------------------------------------------------------------

  /** Every cell that converts to a date gives a key, and every key comes from such a cell;
      there is no floor at serial 59 here. */
  lemma {:induction false} DateIndexKeys(cal: Calendar, row: seq<string>)
    ensures forall d :: d in DateIndex(cal, row) <==>
      exists c | 0 <= c < |row| :: DecodeDate(cal, row[c]) == Some(d)
  {
    if row != [] {
      var n := |row| - 1;
      DateIndexKeys(cal, row[..n]);
      forall d ensures d in DateIndex(cal, row) <==>
        exists c | 0 <= c < |row| :: DecodeDate(cal, row[c]) == Some(d)
      {
        if d in DateIndex(cal, row) && DecodeDate(cal, row[n]) != Some(d) {
          var c :| 0 <= c < n && DecodeDate(cal, row[..n][c]) == Some(d);
          assert row[..n][c] == row[c];
        }
        if exists c | 0 <= c < |row| :: DecodeDate(cal, row[c]) == Some(d) {
          var c :| 0 <= c < |row| && DecodeDate(cal, row[c]) == Some(d);
          if c < n {
            assert row[..n][c] == row[c];
          }
        }
      }
    }
  }

  /** Each date maps to the last column whose cell converts to it. */
  lemma {:induction false} DateIndexLastWins(cal: Calendar, row: seq<string>)
    ensures forall d | d in DateIndex(cal, row) ::
      && DateIndex(cal, row)[d] < |row|
      && DecodeDate(cal, row[DateIndex(cal, row)[d]]) == Some(d)
      && forall c | DateIndex(cal, row)[d] < c < |row| :: DecodeDate(cal, row[c]) != Some(d)
  {
    if row != [] {
      var n := |row| - 1;
      DateIndexLastWins(cal, row[..n]);
      assert forall c | 0 <= c < n :: row[..n][c] == row[c];
    }
  }

  /** Every listed date is a key of the index, at its own column or a later one. */
  lemma DateListInIndex(cal: Calendar, row: seq<string>)
    ensures forall k | 0 <= k < |DateList(cal, row)| ::
      && DateList(cal, row)[k].Value in DateIndex(cal, row)
      && DateList(cal, row)[k].Column <= DateIndex(cal, row)[DateList(cal, row)[k].Value]
  {
    DateListSound(cal, row);
    DateIndexKeys(cal, row);
    DateIndexLastWins(cal, row);
  }

  /** A cell that converts but is not above serial 59 is indexed, yet not listed. */
  lemma IndexHasNoFloor(cal: Calendar, row: seq<string>, c: nat)
    requires c < |row| && DecodeDate(cal, row[c]).Some? && !Above59(cal, row[c])
    ensures DecodeDate(cal, row[c]).value in DateIndex(cal, row)
    ensures forall k | 0 <= k < |DateList(cal, row)| :: DateList(cal, row)[k].Column != c
  {
    DateIndexKeys(cal, row);
    DateListSound(cal, row);
  }
}
