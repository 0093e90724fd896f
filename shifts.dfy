/** Reading one shift out of the roster (newShift in internal/excel/private.go): the cell at a 0-based
    (row, column) must name a cell of a sheet, carry a declared type and hold something other than
    white space. */
module ShiftLookup {
  import opened Model

  /** The largest sheet the workbook library accepts: rows 1..TotalRows, columns 1..MaxColumns. */
  const TotalRows: int := 1048576
  const MaxColumns: int := 16384

  /** The 0-based pair becomes a cell name ("A1", "XFD1048576", ...): both 1-based coordinates are
      within the sheet limits. */
  predicate IsValidCoordinate(row: int, col: int)
  {
    0 <= row < TotalRows && 0 <= col < MaxColumns
  }

  /** Go's unicode.IsSpace: the Latin-1 spaces and the Unicode White_Space characters. */
  predicate IsUnicodeSpace(c: char)
  {
    || c == '\t' || c == '\n' || c == '\U{B}' || c == '\U{C}' || c == '\r' || c == ' '
    || c == '\U{85}' || c == '\U{A0}' || c == '\U{1680}'
    || ('\U{2000}' <= c <= '\U{200A}')
    || c == '\U{2028}' || c == '\U{2029}' || c == '\U{202F}' || c == '\U{205F}' || c == '\U{3000}'
  }

  /** Every character of s is white space. */
  predicate AllSpace(s: string)
  {
    forall k | 0 <= k < |s| :: IsUnicodeSpace(s[k])
  }

  /** Where the run of white space that starts at p ends. */
  function SpaceRunEnd(s: string, p: nat): (q: nat)
    requires p <= |s|
    ensures p <= q <= |s|
    ensures forall k | p <= k < q :: IsUnicodeSpace(s[k])
    ensures q == |s| || !IsUnicodeSpace(s[q])
    decreases |s| - p
  {
    if p < |s| && IsUnicodeSpace(s[p]) then SpaceRunEnd(s, p + 1) else p
  }

  /** Where the run of white space that ends at p starts, looking no further back than lo. */
  function SpaceRunStart(s: string, lo: nat, p: nat): (q: nat)
    requires lo <= p <= |s|
    ensures lo <= q <= p
    ensures forall k | q <= k < p :: IsUnicodeSpace(s[k])
    ensures q == lo || !IsUnicodeSpace(s[q - 1])
    decreases p - lo
  {
    if lo < p && IsUnicodeSpace(s[p - 1]) then SpaceRunStart(s, lo, p - 1) else p
  }

  /** strings.TrimSpace: s with its leading white space removed, then the trailing white space of
      what is left. */
  function TrimSpace(s: string): string
  {
    var i := SpaceRunEnd(s, 0);
    s[i..SpaceRunStart(s, i, |s|)]
  }

  /** The cell holds a label: some character of it is not white space. */
  predicate HasLabel(v: string)
  {
    exists k | 0 <= k < |v| :: !IsUnicodeSpace(v[k])
  }

  /** The trimmed value is a piece of s that starts and ends with a non-space, and only white space
      was removed around it. */
  lemma TrimSpaceSpec(s: string)
    ensures exists i | 0 <= i <= |s| - |TrimSpace(s)| ::
      && TrimSpace(s) == s[i..i + |TrimSpace(s)|]
      && AllSpace(s[..i]) && AllSpace(s[i + |TrimSpace(s)|..])
    ensures TrimSpace(s) != [] ==>
      !IsUnicodeSpace(TrimSpace(s)[0]) && !IsUnicodeSpace(TrimSpace(s)[|TrimSpace(s)| - 1])
  {
    var i := SpaceRunEnd(s, 0);
    var j := SpaceRunStart(s, i, |s|);
    assert TrimSpace(s) == s[i..j];
    assert AllSpace(s[..i]) by {
      assert forall k | 0 <= k < i :: s[..i][k] == s[k];
    }
    assert AllSpace(s[j..]) by {
      assert forall k | 0 <= k < |s| - j :: s[j..][k] == s[j + k];
    }
  }

  /** strings.TrimSpace gives "" exactly when the value is white space only. */
  lemma TrimSpaceEmpty(s: string)
    ensures TrimSpace(s) == [] <==> !HasLabel(s)
  {
    var i := SpaceRunEnd(s, 0);
    var j := SpaceRunStart(s, i, |s|);
    if i < |s| {
      assert !IsUnicodeSpace(s[i]);
      assert i < j;
    }
  }

  /** Trimming twice is trimming once. */
  lemma TrimSpaceIdempotent(s: string)
    ensures TrimSpace(TrimSpace(s)) == TrimSpace(s)
  {
    var t := TrimSpace(s);
    if t != [] {
      TrimSpaceSpec(s);
      assert SpaceRunEnd(t, 0) == 0;
      assert SpaceRunStart(t, 0, |t|) == |t|;
      assert t[0..|t|] == t;
    }
  }

  /** newShift. `read` is the sheet the workbook library reads the cell from, or None when it cannot
      read it. The shift carries the cell's raw value as it is, white space included. */
  function NewShift(read: Option<Sheet>, date: DateKey, row: int, col: int): (r: Result<Shift, Error>)
    ensures r == Err(InvalidCoordinate) <==> !IsValidCoordinate(row, col)
    ensures r == Err(SheetUnreadable) <==> IsValidCoordinate(row, col) && read.None?
    ensures r == Err(WrongCellType) <==>
      IsValidCoordinate(row, col) && read.Some? && (row, col) !in read.value.typed
    ensures r == Err(EmptyEntry) <==>
      && IsValidCoordinate(row, col) && read.Some? && (row, col) in read.value.typed
      && !HasLabel(CellAt(read.value.rows, row, col))
    ensures r.Ok? <==>
      && IsValidCoordinate(row, col) && read.Some? && (row, col) in read.value.typed
      && HasLabel(CellAt(read.value.rows, row, col))
    ensures r.Ok? ==> r.value == Shift(date, CellAt(read.value.rows, row, col))
  {
    if !IsValidCoordinate(row, col) then Err(InvalidCoordinate)
    else if read.None? then Err(SheetUnreadable)
    else if (row, col) !in read.value.typed then Err(WrongCellType)
    else
      var cellValue := CellAt(read.value.rows, row, col);
      TrimSpaceEmpty(cellValue);
      if cellValue == "" || TrimSpace(cellValue) == "" then Err(EmptyEntry)
      else Ok(Shift(date, cellValue))
  }

  /** A well-placed, typed cell whose value starts with a non-space is always a shift. */
  lemma LabelledCellIsShift(sheet: Sheet, date: DateKey, row: nat, col: nat)
    requires row < TotalRows && col < MaxColumns && (row, col) in sheet.typed
    requires CellAt(sheet.rows, row, col) != [] && !IsUnicodeSpace(CellAt(sheet.rows, row, col)[0])
    ensures NewShift(Some(sheet), date, row, col) == Ok(Shift(date, CellAt(sheet.rows, row, col)))
  {
    assert HasLabel(CellAt(sheet.rows, row, col));
  }
}
