/** The name side of the roster parser (internal/excel/private.go): matching the name pattern
    against every cell of every column (getMapOfNameMatches) and choosing the column with the most
    matches as the employee column (getEmployees). */
module NameScan {
  import opened Model
  import opened NamePattern

  // ------------------------------------------------------------------
  // Specification
  // ------------------------------------------------------------------

  /** How many columns the sheet's column read yields: the length of the longest row. */
  function Width(rows: Grid): (w: nat)
    ensures forall r | 0 <= r < |rows| :: |rows[r]| <= w
  {
    if rows == [] then 0
    else
      var w := Width(rows[1..]);
      assert forall r | 1 <= r < |rows| :: rows[r] == rows[1..][r - 1];
      if |rows[0]| > w then |rows[0]| else w
  }

  /** The employees the scan records for column c from the rows above n, in row order. */
  function MatchesAbove(rows: Grid, c: nat, n: nat): seq<Employee>
    requires n <= |rows|
  {
    if n == 0 then []
    else
      var cell := CellAt(rows, n - 1, c);
      MatchesAbove(rows, c, n - 1) +
        (if MatchString(cell) then [Employee(FindString(cell), n - 1)] else [])
  }

  /** The employees the scan records for column c. */
  function ColumnMatches(rows: Grid, c: nat): seq<Employee>
  {
    MatchesAbove(rows, c, |rows|)
  }

  /** `m` is what getMapOfNameMatches returns for `rows`: an entry for exactly the columns with a
      match, holding that column's matches. */
  ghost predicate IsNameMatches(rows: Grid, m: map<nat, seq<Employee>>)
  {
    forall c: nat ::
      && (c in m <==> ColumnMatches(rows, c) != [])
      && (c in m ==> m[c] == ColumnMatches(rows, c))
  }

  /** The columns below `upTo` have the entry `IsNameMatches` asks for. */
  ghost predicate ColumnsRecorded(rows: Grid, m: map<nat, seq<Employee>>, upTo: nat)
  {
    forall c: nat | c < upTo ::
      && (c in m <==> ColumnMatches(rows, c) != [])
      && (c in m ==> m[c] == ColumnMatches(rows, c))
  }

  /** Writing column upTo leaves the columns below it as they were. */
  lemma RecordKeepsColumns(rows: Grid, m: map<nat, seq<Employee>>, upTo: nat, v: seq<Employee>)
    requires ColumnsRecorded(rows, m, upTo)
    ensures ColumnsRecorded(rows, m[upTo := v], upTo)
  {
  }

  /** Once column upTo holds its whole record, the columns up to and including it are recorded. */
  lemma RecordNextColumn(rows: Grid, m: map<nat, seq<Employee>>, upTo: nat)
    requires ColumnsRecorded(rows, m, upTo)
    requires upTo in m <==> ColumnMatches(rows, upTo) != []
    requires upTo in m ==> m[upTo] == ColumnMatches(rows, upTo)
    ensures ColumnsRecorded(rows, m, upTo + 1)
  {
  }

  /** `e` is the column with the most matches, the lowest such column when several tie, or an empty
      list in column 0 when no cell matches. */
  ghost predicate IsEmployeeColumn(rows: Grid, e: Employees)
  {
    && e.List == ColumnMatches(rows, e.Column)
    && (forall c: nat :: |ColumnMatches(rows, c)| <= |e.List|)
    && (forall c: nat | c < e.Column :: |ColumnMatches(rows, c)| < |e.List|)
    && (e.List == [] ==> e.Column == 0)
  }

  // ------------------------------------------------------------------
  // The scans
  // ------------------------------------------------------------------

  /** getMapOfNameMatches. `read` is the sheet's grid, or None when the workbook library cannot
      read its columns; column c, row r of the column read is the cell at (r, c). */
  method GetMapOfNameMatches(read: Option<Grid>) returns (r: Result<map<nat, seq<Employee>>, Error>)
    ensures read.None? ==> r == Err(SheetUnreadable)
    ensures read.Some? ==> r.Ok? && IsNameMatches(read.value, r.value)
  {
    if read.None? {
      return Err(SheetUnreadable);
    }
    var rows := read.value;
    var matches: map<nat, seq<Employee>> := map[];
    var width := Width(rows);
    for cIdx := 0 to width
      invariant ColumnsRecorded(rows, matches, cIdx)
      invariant forall c: nat | c in matches :: c < cIdx
    {
      for rIdx := 0 to |rows|
        invariant ColumnsRecorded(rows, matches, cIdx)
        invariant forall c: nat | c in matches :: c <= cIdx
        invariant cIdx in matches <==> MatchesAbove(rows, cIdx, rIdx) != []
        invariant cIdx in matches ==> matches[cIdx] == MatchesAbove(rows, cIdx, rIdx)
      {
        var cell := CellAt(rows, rIdx, cIdx);
        if MatchString(cell) {
          var list := if cIdx in matches then matches[cIdx] else [];
          RecordKeepsColumns(rows, matches, cIdx, list + [Employee(FindString(cell), rIdx)]);
          matches := matches[cIdx := list + [Employee(FindString(cell), rIdx)]];
        }
      }
      RecordNextColumn(rows, matches, cIdx);
    }
    forall c: nat | width <= c ensures ColumnMatches(rows, c) == [] {
      NoMatchBeyondWidth(rows, c, |rows|);
    }
    return Ok(matches);
  }

  /** getEmployees. Go leaves the order in which a map is visited unspecified; the model visits
      the columns in increasing order, so that the lowest column wins a tie. */
  method GetEmployees(read: Option<Grid>) returns (r: Result<Employees, Error>)
    ensures read.None? ==> r == Err(SheetUnreadable)
    ensures read.Some? ==> r.Ok? && IsEmployeeColumn(read.value, r.value)
  {
    var found := GetMapOfNameMatches(read);
    if found.Err? {
      return Err(found.error);
    }
    var possibleEmployeeColsToNames := found.value;
    var rows := read.value;
    var maxLen := 0;
    var empCol := 0;
    var empList: seq<Employee> := [];
    var width := Width(rows);
    for col := 0 to width
      invariant |empList| == maxLen
      invariant maxLen == 0 ==> empCol == 0 && empList == []
      invariant maxLen > 0 ==> empCol < col && empList == ColumnMatches(rows, empCol)
      invariant LongestBelow(rows, col, maxLen)
      invariant ShorterBelow(rows, empCol, maxLen)
    {
      assert |ColumnMatches(rows, col)| ==
        if col in possibleEmployeeColsToNames then |possibleEmployeeColsToNames[col]| else 0;
      if col in possibleEmployeeColsToNames {
        var list := possibleEmployeeColsToNames[col];
        if |list| > maxLen {
          LongerColumn(rows, col, maxLen);
          empCol := col;
          empList := list;
          maxLen := |list|;
        } else {
          LongestBelowNext(rows, col, maxLen);
        }
      } else {
        LongestBelowNext(rows, col, maxLen);
      }
    }
    forall c: nat | width <= c ensures ColumnMatches(rows, c) == [] {
      NoMatchBeyondWidth(rows, c, |rows|);
    }
    return Ok(Employees(empList, empCol));
  }

  /** No column below upTo has more than n matches. */
  ghost predicate LongestBelow(rows: Grid, upTo: nat, n: nat)
  {
    forall c: nat | c < upTo :: |ColumnMatches(rows, c)| <= n
  }

  /** Every column below upTo has fewer than n matches. */
  ghost predicate ShorterBelow(rows: Grid, upTo: nat, n: nat)
  {
    forall c: nat | c < upTo :: |ColumnMatches(rows, c)| < n
  }

  /** A column no longer than the longest so far keeps the bound. */
  lemma LongestBelowNext(rows: Grid, col: nat, n: nat)
    requires LongestBelow(rows, col, n) && |ColumnMatches(rows, col)| <= n
    ensures LongestBelow(rows, col + 1, n)
  {
  }

  /** A column longer than every column before it becomes the longest, strictly ahead of them. */
  lemma LongerColumn(rows: Grid, col: nat, n: nat)
    requires LongestBelow(rows, col, n) && n < |ColumnMatches(rows, col)|
    ensures LongestBelow(rows, col + 1, |ColumnMatches(rows, col)|)
    ensures ShorterBelow(rows, col, |ColumnMatches(rows, col)|)
  {
  }

  // ------------------------------------------------------------------
  // Properties
  // ------------------------------------------------------------------

  /** Columns past the longest row hold only empty cells, which never match. */
  lemma NoMatchBeyondWidth(rows: Grid, c: nat, n: nat)
    requires Width(rows) <= c && n <= |rows|
    ensures MatchesAbove(rows, c, n) == []
  {
    forall r: nat | r < n ensures !MatchString(CellAt(rows, r, c)) {
      NoSpaceNoMatch(CellAt(rows, r, c));
    }
    UnmatchedColumn(rows, c, n);
  }

  /** A column in which no cell above n matches records nothing. */
  lemma {:induction false} UnmatchedColumn(rows: Grid, c: nat, n: nat)
    requires n <= |rows|
    requires forall r: nat | r < n :: !MatchString(CellAt(rows, r, c))
    ensures MatchesAbove(rows, c, n) == []
  {
    if n > 0 {
      UnmatchedColumn(rows, c, n - 1);
    }
  }

  /** `e` is a match of the cell at (e.Row, c): the cell matches the name pattern, and e.Name is
      the name-shaped substring the pattern finds in it. */
  predicate IsMatchOf(rows: Grid, c: nat, e: Employee)
  {
    && e.Row < |rows|
    && MatchString(CellAt(rows, e.Row, c))
    && e.Name == FindString(CellAt(rows, e.Row, c))
  }

  /** Each recorded employee is a match of its own row, rows strictly increase, and every name is
      itself name-shaped and occurs in its cell. */
  lemma {:induction false} MatchesAboveSound(rows: Grid, c: nat, n: nat)
    requires n <= |rows|
    ensures forall k | 0 <= k < |MatchesAbove(rows, c, n)| ::
      MatchesAbove(rows, c, n)[k].Row < n && IsMatchOf(rows, c, MatchesAbove(rows, c, n)[k])
    ensures forall k, l | 0 <= k < l < |MatchesAbove(rows, c, n)| ::
      MatchesAbove(rows, c, n)[k].Row < MatchesAbove(rows, c, n)[l].Row
  {
    if n > 0 {
      MatchesAboveSound(rows, c, n - 1);
      var prefix := MatchesAbove(rows, c, n - 1);
      var es := MatchesAbove(rows, c, n);
      forall k | 0 <= k < |prefix| ensures es[k] == prefix[k] {
      }
    }
  }

  /** Some recorded employee comes from row r. */
  predicate HasRow(es: seq<Employee>, r: nat)
  {
    exists k | 0 <= k < |es| :: es[k].Row == r
  }

  /** Every matching cell of the column above n is recorded. */
  lemma {:induction false} MatchesAboveComplete(rows: Grid, c: nat, n: nat)
    requires n <= |rows|
    ensures forall r | 0 <= r < n && MatchString(CellAt(rows, r, c)) :: HasRow(MatchesAbove(rows, c, n), r)
  {
    if n > 0 {
      MatchesAboveComplete(rows, c, n - 1);
      var prefix := MatchesAbove(rows, c, n - 1);
      var es := MatchesAbove(rows, c, n);
      forall r | 0 <= r < n && MatchString(CellAt(rows, r, c)) ensures HasRow(es, r) {
        if r < n - 1 {
          assert HasRow(prefix, r);
          var k :| 0 <= k < |prefix| && prefix[k].Row == r;
          assert es[k] == prefix[k];
        } else {
          assert es[|prefix|].Row == r;
        }
      }
    }
  }

  /** A column's record: one employee per matching cell, in increasing row order, each named by a
      name-shaped substring of its cell; and nothing else. */
  lemma ColumnMatchesSpec(rows: Grid, c: nat)
    ensures forall k | 0 <= k < |ColumnMatches(rows, c)| ::
      var e := ColumnMatches(rows, c)[k];
      && IsMatchOf(rows, c, e)
      && IsName(e.Name) && IsSubstring(e.Name, CellAt(rows, e.Row, c))
    ensures forall k, l | 0 <= k < l < |ColumnMatches(rows, c)| ::
      ColumnMatches(rows, c)[k].Row < ColumnMatches(rows, c)[l].Row
    ensures forall r | 0 <= r < |rows| && MatchString(CellAt(rows, r, c)) ::
      HasRow(ColumnMatches(rows, c), r)
  {
    MatchesAboveSound(rows, c, |rows|);
    MatchesAboveComplete(rows, c, |rows|);
    forall k | 0 <= k < |ColumnMatches(rows, c)|
      ensures var e := ColumnMatches(rows, c)[k];
        IsName(e.Name) && IsSubstring(e.Name, CellAt(rows, e.Row, c))
    {
      FindStringIsName(CellAt(rows, ColumnMatches(rows, c)[k].Row, c));
    }
  }

  /** The employee column is determined by the sheet: two scans of the same grid agree. */
  lemma EmployeeColumnUnique(rows: Grid, e1: Employees, e2: Employees)
    requires IsEmployeeColumn(rows, e1) && IsEmployeeColumn(rows, e2)
    ensures e1 == e2
  {
    assert |ColumnMatches(rows, e1.Column)| <= |e2.List|;
    assert |ColumnMatches(rows, e2.Column)| <= |e1.List|;
  }

  /** A grid in which no cell matches gives an empty list in column 0. */
  lemma NoNamesNoEmployees(rows: Grid, e: Employees)
    requires forall r: nat, c: nat | r < |rows| :: !MatchString(CellAt(rows, r, c))
    requires IsEmployeeColumn(rows, e)
    ensures e == Employees([], 0)
  {
    UnmatchedColumn(rows, e.Column, |rows|);
  }
}
