# Roster structure inference, modelled in Dafny

shift-weaver reads a work-shift roster out of a spreadsheet sheet that has no fixed layout. The
package `internal/excel` infers the layout from what the cells hold:

- **the date row** (`getDateRow`): the row with the most cells whose raw value parses as a number
  above 59 and converts to a date under the 1900 spreadsheet epoch;
- **the date list** (`getDateList`): the (date, column) pairs of that row, under the same filter;
- **the date index** (`getDateToColumnNumberMap`): date to column for that row, without the 59
  floor, a later column overwriting an earlier one that gives the same date;
- **the name column** (`getMapOfNameMatches`, `getEmployees`): every cell of every column is
  matched against a fixed pattern for capitalised names of two or more words, and the column with
  the most matches holds the employees;
- **one shift** (`newShift`): the cell at an employee's row and a date's column, rejected when the
  coordinate is out of range, the cell has no declared type, or its value is empty or white space,
  and otherwise returned with its raw label untouched.

The project has six files, one module each:

| file | module | what it holds |
|---|---|---|
| `model.dfy` | `Model` | the records of `internal/excel/model.go` (`Employee`, `Employees`, `Date`, `DateRow`, `Shift`) as datatypes, the grid (`seq<seq<string>>`, rows may be ragged, a missing cell reads as `""`), `Option`, `Result` and the error kinds |
| `serials.dfy` | `Serials` | the float parse and the epoch conversion, taken as the two function fields of a `Calendar`; the 59 threshold |
| `names.dfy` | `NamePattern` | the name pattern of `private.go` line 89 as a predicate on strings (`IsName`), a leftmost-longest matcher for it (`MatchString`, `FindString`) and the proofs that the matcher finds exactly the substrings the predicate describes |
| `dates.dfy` | `DateScan` | `getDateRow`, `getDateList`, `getDateToColumnNumberMap` as methods with loops, each proved against a specification function |
| `employees.dfy` | `NameScan` | `getMapOfNameMatches`, `getEmployees` as methods with loops, proved against the column-by-column specification |
| `shifts.dfy` | `ShiftLookup` | `newShift` as a function, with `strings.TrimSpace` and the sheet's coordinate limits |

Reading the sheet is an input: the scans that read it (`getDateRow`, `getMapOfNameMatches`,
`getEmployees`) take an `Option<Grid>`, where `None` stands for a sheet the workbook library could
not read. `getDateList` and `getDateToColumnNumberMap` panic when the read fails or the row index
is out of range; the model takes the grid itself and requires the row index to be in range.

The record fields keep their meaning from `internal/excel/model.go`: `Employee.Row` is the 0-based
grid row the name was taken from (`NameScan.MatchesAboveSound`), `Employees.Column` the 0-based
column holding the names (`NameScan.GetEmployees`), `Date.Column` the column of the date row where
the date sits (`DateScan.DateListSound`), `DateRow.NumDates` the number of dates in row
`DateRow.Row` (`DateScan.GetDateRow`), and `Shift` the date with the raw label
(`ShiftLookup.NewShift`).

Design notes on what the code fixes:

- a name needs at least two tokens, because the pattern's trailing group `(?:\s+TOKEN)+` must
  occur at least once; the tokens are separated by runs of tab, newline, form feed, carriage return
  or space (the regular expression class `\s`, which leaves out the vertical tab);
- each rejection of a shift cell is an error value, as `newShift` returns, and the model keeps the
  error kinds apart;
- the scans work on raw cell strings (the sheet is read with raw cell values), and so does the
  model; a number or date is only what the float parse and the date conversion make of the string.

## Model

| member | source | states |
|---|---|---|
| NamePattern.TokenEnd | internal/excel/private.go:89 | the greedy token tail (letters, or an apostrophe or hyphen followed by a capital) from p ends at q, within the string, where nothing can extend it |
| NamePattern.BlankEnd | internal/excel/private.go:89 | the greedy `\s+` run from p: every character in [p, q) is a pattern space and the one at q is not |
| NamePattern.GroupsEnd | internal/excel/private.go:89 | the repeated `\s+token` groups after position e end within the string, at or after e |
| NamePattern.MatchEnd | internal/excel/private.go:89 | a match starting at i ends strictly after i and within the string |
| NamePattern.FindFrom | internal/excel/private.go:89 | a match found from i lies within the string, starts at or after i and is non-empty |
| NamePattern.TokenEndSound | internal/excel/private.go:89 | what the greedy token tail takes from p is a token tail |
| NamePattern.TokenAt | internal/excel/private.go:89 | a capital followed by its greedy tail is a token |
| NamePattern.AppendGroup | internal/excel/private.go:89 | a token or name, then white space, then a token, is a name |
| NamePattern.GroupsEndSound | internal/excel/private.go:89 | extending a name by the greedy groups keeps it a name |
| NamePattern.NameThenGroup | internal/excel/private.go:89 | a name or token, the maximal space run after it, and the token at the next capital form a name |
| NamePattern.MatchEndSound | internal/excel/private.go:89 | what the matcher takes from i is a name |
| NamePattern.TokenReach | internal/excel/private.go:89 | the greedy tail reaches every token-tail end, and stops exactly at a tail end nothing can extend |
| NamePattern.BlankEndExact | internal/excel/private.go:89 | a maximal space run from p is the one the matcher takes |
| NamePattern.StartsUpper | internal/excel/private.go:89 | tokens and names start with a capital A-Z |
| NamePattern.NameSplit | internal/excel/private.go:89 | every name splits at positions of the text into a token, white space, and a token or a name |
| NamePattern.FirstGroup | internal/excel/private.go:89 | every name splits into its first token, the maximal space run after it, and a token or name starting with a capital |
| NamePattern.GroupsReach | internal/excel/private.go:89 | the greedy groups reach the end of every name that starts where they start |
| NamePattern.MatchEndComplete | internal/excel/private.go:89 | if some name starts at i, the matcher succeeds at i and its match is at least as long (greedy, longest) |
| NamePattern.NameHasSpace | internal/excel/private.go:89 | every name contains white space (it has at least two words) |
| NamePattern.NoMatchAt | internal/excel/private.go:89 | when the matcher fails at i, no substring starting at i is a name |
| NamePattern.NameLength | internal/excel/private.go:89 | a name has at least three characters |
| NamePattern.NoNameAtEnd | internal/excel/private.go:89-100 | no name starts at the end of the text |
| NamePattern.NoNameStartsBefore | internal/excel/private.go:89-100 | a position where the matcher fails extends a stretch without name starts |
| NamePattern.FindFromHit | internal/excel/private.go:89-101 | the search from i stops at a position where the matcher succeeds and reports that match |
| NamePattern.FindFromMiss | internal/excel/private.go:89-101 | where the matcher fails at i, the search goes on from i + 1 and skips no name start |
| NamePattern.FindFromLeftmost | internal/excel/private.go:89-100 | the search from i fails only when no name starts at or after i; when it succeeds, no name starts between i and the match |
| NamePattern.MatchStringIff | internal/excel/private.go:89-100 | a cell matches exactly when some substring of it is a name: two or more capitalised, white-space-separated tokens |
| NamePattern.FindStringLeftmostLongest | internal/excel/private.go:89-101 | the found string is the leftmost name of the cell and, among the names starting there, the longest |
| NamePattern.FindStringIsName | internal/excel/private.go:101 | the found string is itself a name and occurs in the cell |
| NamePattern.NoSpaceNoMatch | internal/excel/private.go:89-100 | a cell without white space (the empty cell included) never matches |
| NamePattern.MondayIsNoName | internal/excel/private.go:89-100 | a single capitalised word such as "Monday" does not match |
| NamePattern.WholeCellName | internal/excel/private.go:89-101 | a cell that is a name matches and is found whole |
| NamePattern.JaneDoeIsAName | internal/excel/private.go:89-101 | "Jane Doe" matches and is found whole |
| NamePattern.OBrienAnneIsAName | internal/excel/private.go:89-101 | "O'Brien Anne" matches and is found whole: an apostrophe followed by a capital continues a token |
| DateScan.DateCount | internal/excel/private.go:43-52 | a row never has more dates than cells |
| DateScan.GetDateRow | internal/excel/private.go:38-60 | an unreadable sheet gives row 0 with 0 dates; otherwise no row has more qualifying cells than NumDates, row Row has exactly NumDates, every earlier row has fewer (the lowest of the tied rows wins), and with no qualifying cell the result is row 0 |
| DateScan.GetDateList | internal/excel/private.go:15-32 | the list is the date-list specification of the date row |
| DateScan.GetDateToColumnNumberMap | internal/excel/private.go:111-126 | the map is the date-index specification of the date row |
| DateScan.NoDateCellsCountZero | internal/excel/private.go:44-52 | a row without a qualifying cell counts 0 |
| DateScan.NoDatesNoHeader | internal/excel/private.go:39-57 | a grid without a qualifying cell gives row 0 with 0 dates |
| DateScan.DateHeaderUnique | internal/excel/private.go:42-57 | the date row the scan chooses is determined by the grid |
| DateScan.DateListSound | internal/excel/private.go:21-28 | each listed date sits at a column of the row whose cell is above 59 and converts to that date, and columns strictly increase |
| DateScan.DateListComplete | internal/excel/private.go:21-28 | every cell of the row that is above 59 and converts is listed |
| DateScan.DateListLength | internal/excel/private.go:21-28 | the list has as many entries as the row has qualifying cells |
| DateScan.HeaderDateListLength | internal/excel/private.go:16-28 | for the chosen date row, the list has NumDates entries |
| DateScan.DateIndexKeys | internal/excel/private.go:118-124 | a date is a key exactly when some cell of the row converts to it, with no 59 floor |
| DateScan.DateIndexLastWins | internal/excel/private.go:118-124 | each key maps to a column that converts to it, and no later column converts to it (last write wins) |
| DateScan.DateListInIndex | internal/excel/private.go:118-124 | every date the list takes (lines 21-28) is a key of the index, mapped to its own column or a later one |
| DateScan.IndexHasNoFloor | internal/excel/private.go:119-121 | a cell that converts but is not above 59 is indexed, though the list drops it (the floor at line 23) |
| NameScan.Width | internal/excel/private.go:93 | no row is longer than the number of columns the column read yields |
| NameScan.GetMapOfNameMatches | internal/excel/private.go:88-106 | an unreadable sheet is an error; otherwise a column has an entry exactly when one of its cells matches, and the entry is that column's record of matches |
| NameScan.GetEmployees | internal/excel/private.go:66-82 | an unreadable sheet is an error; otherwise List is the record of column Column, no column has more matches, every lower column has fewer, and with no match the result is an empty list in column 0 |
| NameScan.LongerColumn | internal/excel/private.go:74-79 | a column with more matches than every column before it becomes the one chosen, strictly ahead of all of them |
| NameScan.LongestBelowNext | internal/excel/private.go:74-79 | a column no longer than the chosen one leaves the choice the longest so far |
| NameScan.NoMatchBeyondWidth | internal/excel/private.go:98-104 | columns past the longest row record nothing |
| NameScan.UnmatchedColumn | internal/excel/private.go:99-103 | a column with no matching cell records nothing |
| NameScan.MatchesAboveSound | internal/excel/private.go:99-102 | each recorded employee comes from a matching cell of its own row, named by what the pattern finds there, and rows strictly increase |
| NameScan.MatchesAboveComplete | internal/excel/private.go:99-102 | every matching cell of the column is recorded |
| NameScan.ColumnMatchesSpec | internal/excel/private.go:97-104 | a column's record has one employee per matching cell, in increasing row order, each named by a name-shaped substring of its cell |
| NameScan.EmployeeColumnUnique | internal/excel/private.go:71-81 | the employee column and list are determined by the grid |
| NameScan.NoNamesNoEmployees | internal/excel/private.go:71-81 | a grid in which no cell matches gives an empty list in column 0 |
| ShiftLookup.SpaceRunEnd | internal/excel/private.go:156 | the white-space run from p: every character in [p, q) is white space and the one at q is not |
| ShiftLookup.SpaceRunStart | internal/excel/private.go:156 | the white-space run ending at p, bounded below by lo: every character in [q, p) is white space and the one before q is not, unless q is lo |
| ShiftLookup.TrimSpaceSpec | internal/excel/private.go:156 | the trimmed value is a piece of s with only white space removed around it, starting and ending with a non-space |
| ShiftLookup.TrimSpaceEmpty | internal/excel/private.go:156 | trimming gives "" exactly when every character is white space |
| ShiftLookup.TrimSpaceIdempotent | internal/excel/private.go:156 | trimming a trimmed value changes nothing |
| ShiftLookup.NewShift | internal/excel/private.go:140-160 | an out-of-range coordinate, an unreadable sheet, a cell without declared type and a white-space-only value are each rejected exactly when their condition holds, in that order; otherwise the shift carries the given date and the cell's raw, untrimmed value |
| ShiftLookup.LabelledCellIsShift | internal/excel/private.go:156-159 | a typed, in-range cell whose value starts with a non-space gives a shift with that exact value |

## Left out

- NameScan.GetEmployees: Go visits the map's columns in an unspecified order, so the source may
  return any of the tied columns; the model visits them in increasing order, so the lowest tied
  column wins. This is a refinement of the source's behaviour, not an equivalent.
- DateScan.GetDateList and DateScan.GetDateToColumnNumberMap: the source panics when the rows cannot
  be read or the row index is out of range; the model takes the rows and requires the index to be
  in range.
- ShiftLookup.NewShift: an error from reading the cell value after its type was read is not
  modelled; the sheet is either readable (both reads succeed) or not.
- ShiftLookup.NewShift: which cells carry a declared type is a set given with the sheet; how the
  workbook library decides a cell's type is not part of this model.
- Parsing a raw value as a 64-bit float and converting a serial to a date are parameters (the
  `Calendar`); rounding, NaN and infinities are not modelled. Dates are abstract keys.
- The workbook library (opening the file, reading rows and columns, cell names) is not part of this
  model; the grid stands for what the row and column reads return, and the coordinate limits
  (1048576 rows, 16384 columns) are stated directly.
- The column read returns the grid transposed; the model reads column c of row r from the grid,
  which gives the same cells, and the extra empty cells it may add never match.
- The failure to compile the name pattern is not modelled: the pattern is a constant.
- The capacity hint given to the date list's allocation has no observable effect and is left out.
- `clearScreen` and the terminal interface (`internal/tui/app.go`) are console I/O; the workbook
  opening wrapper (`internal/excel/parser.go`) is file I/O.
- The roster builder that composes the scans and the shift lookups is not part of this model, so
  the scans are not composed beyond what the lemmas above state.
