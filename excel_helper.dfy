/**
  The integer and string rules of the spreadsheet writer: parsing a label back into
  column letters and row, the sheet size, the merge range of a label group, the fixed
  column width and the row height. Workbook files, fonts and alignment are not modelled.
*/
module ExcelHelper {
  import opened Results
  import opened Decimal
  import opened TableDetector

  predicate AllUpper(s: string) {
    forall i :: 0 <= i < |s| ==> IsUpper(s[i])
  }

  /** Length of the longest prefix of `s` made of 'A'..'Z'. */
  function UpperRun(s: string): (n: nat)
    ensures n <= |s| && AllUpper(s[..n])
    ensures n < |s| ==> !IsUpper(s[n])
  {
    if s == [] || !IsUpper(s[0]) then 0
    else
      var k := UpperRun(s[1..]);
      assert s[..k + 1] == [s[0]] + s[1..][..k];
      k + 1
  }

  /** Length of the longest prefix of `s` made of '0'..'9'. */
  function DigitRun(s: string): (n: nat)
    ensures n <= |s| && AllDigits(s[..n])
    ensures n < |s| ==> !IsDigit(s[n])
  {
    if s == [] || !IsDigit(s[0]) then 0
    else
      var k := DigitRun(s[1..]);
      assert s[..k + 1] == [s[0]] + s[1..][..k];
      k + 1
  }

  /**
    `split_cell_name`: `re.match(r"([A-Z]+)(\d+)", cell)`. The match is anchored at the
    start only, so it takes the maximal run of capitals, then the maximal run of digits
    right after it, and ignores whatever follows; without both runs it raises ValueError.
  */
  function SplitCellName(cell: string): (r: Result<(string, int)>)
    ensures r.Ok? ==> 1 <= |r.value.0| && AllUpper(r.value.0) && r.value.0 <= cell && r.value.1 >= 0
    ensures r.Ok? ==> r.value.0 == cell[..UpperRun(cell)]
    ensures (cell == [] || !IsUpper(cell[0])) ==> r.Err?
    ensures r.Err? <==> UpperRun(cell) == 0 || UpperRun(cell) == |cell| || !IsDigit(cell[UpperRun(cell)])
  {
    var n := UpperRun(cell);
    var m := DigitRun(cell[n..]);
    if n == 0 || m == 0 then Err(ValueError)
    else Ok((cell[..n], ParseDigits(cell[n..][..m])))
  }

  lemma {:induction false} UpperRunOf(letters: string, rest: string)
    requires AllUpper(letters)
    requires rest == [] || !IsUpper(rest[0])
    ensures UpperRun(letters + rest) == |letters|
    decreases |letters|
  {
    if letters != [] {
      UpperRunOf(letters[1..], rest);
      assert (letters + rest)[1..] == letters[1..] + rest;
    }
  }

  lemma {:induction false} DigitRunOf(digits: string, rest: string)
    requires AllDigits(digits)
    requires rest == [] || !IsDigit(rest[0])
    ensures DigitRun(digits + rest) == |digits|
    decreases |digits|
  {
    if digits != [] {
      DigitRunOf(digits[1..], rest);
      assert (digits + rest)[1..] == digits[1..] + rest;
    }
  }

  /** Capitals, then digits, then anything that does not start with a digit: the parse is exact. */
  lemma SplitCellNameParses(letters: string, digits: string, rest: string)
    requires |letters| >= 1 && AllUpper(letters)
    requires |digits| >= 1 && AllDigits(digits)
    requires rest == [] || !IsDigit(rest[0])
    ensures SplitCellName(letters + digits + rest) == Ok((letters, ParseDigits(digits)))
  {
    var s := letters + digits + rest;
    assert s == letters + (digits + rest);
    assert !IsUpper((digits + rest)[0]);
    UpperRunOf(letters, digits + rest);
    assert s[|letters|..] == digits + rest;
    DigitRunOf(digits, rest);
    assert s[..|letters|] == letters;
    assert (digits + rest)[..|digits|] == digits;
  }

  /** `column_index_from_string`: bijective base-26 value of the letters. */
  function ColumnIndex(letters: string): (index: int)
    requires AllUpper(letters)
    ensures index >= 0
    ensures letters != [] ==> index >= 1
  {
    if letters == [] then 0
    else ColumnIndex(letters[..|letters| - 1]) * 26 + (letters[|letters| - 1] as int - 'A' as int + 1)
  }

  /** The column number survives the trip through its letters. */
  lemma {:induction false} ColumnIndexOfLetters(col: nat)
    ensures AllUpper(ColumnLetters(col))
    ensures ColumnIndex(ColumnLetters(col)) == col
    decreases col
  {
    ColumnLettersShape(col);
    if col > 0 {
      var s := ColumnLetters(col);
      ColumnIndexOfLetters((col - 1) / 26);
      assert s[..|s| - 1] == ColumnLetters((col - 1) / 26);
    }
  }

  /** Every non-empty string of capitals is the letters of exactly one column: they are onto. */
  lemma {:induction false} LettersOfColumnIndex(letters: string)
    requires AllUpper(letters)
    ensures ColumnLetters(ColumnIndex(letters)) == letters
    decreases |letters|
  {
    if letters != [] {
      var init := letters[..|letters| - 1];
      var d := letters[|letters| - 1] as int - 'A' as int + 1;
      LettersOfColumnIndex(init);
      var v := ColumnIndex(init);
      assert v >= 0 by { ColumnIndexNonNegative(init); }
      assert (v * 26 + d - 1) / 26 == v;
      assert (v * 26 + d - 1) % 26 == d - 1;
      assert letters == init + [letters[|letters| - 1]];
    }
  }

  lemma {:induction false} ColumnIndexNonNegative(letters: string)
    requires AllUpper(letters)
    ensures ColumnIndex(letters) >= 0
    ensures letters != [] ==> ColumnIndex(letters) >= 1
    decreases |letters|
  {
    if letters != [] {
      ColumnIndexNonNegative(letters[..|letters| - 1]);
    }
  }

  /** Parsing a generated label gives back its column letters and its row. */
  lemma CellNameRoundTrip(row: int, col: int)
    requires row >= 0 && col >= 1
    ensures SplitCellName(CellName(row, col)) == Ok((ColumnLetters(col), row))
  {
    ColumnLettersShape(col);
    ParseNatToString(row);
    SplitCellNameParses(ColumnLetters(col), IntToString(row), "");
    assert CellName(row, col) == ColumnLetters(col) + IntToString(row) + "";
  }

  /** Labels of a negative row, or of a column below 1, are refused by the parser. */
  lemma CellNameRefused(row: int, col: int)
    requires row < 0 || col <= 0
    ensures SplitCellName(CellName(row, col)).Err?
  {
    ColumnLettersShape(col);
    var s := CellName(row, col);
    if col <= 0 {
      assert s == IntToString(row);
    } else {
      UpperRunOf(ColumnLetters(col), IntToString(row));
      assert s[|ColumnLetters(col)|..] == IntToString(row);
    }
  }

  /** Distinct (row, column) positions get distinct labels. */
  lemma CellNameInjective(r1: int, c1: int, r2: int, c2: int)
    requires r1 >= 0 && c1 >= 1 && r2 >= 0 && c2 >= 1
    requires CellName(r1, c1) == CellName(r2, c2)
    ensures r1 == r2 && c1 == c2
  {
    CellNameRoundTrip(r1, c1);
    CellNameRoundTrip(r2, c2);
    ColumnIndexOfLetters(c1);
    ColumnIndexOfLetters(c2);
  }

  // ---------------------------------------------------------------------------
  // create_empty_excel_file: the sheet size and the bordered cells

  /** A label's (row, column index), or the ValueError `split_cell_name` raises. */
  function LabelPosition(name: string): (r: Result<(int, int)>)
    ensures r.Err? <==> SplitCellName(name).Err?
    ensures r.Ok? ==> r.value.0 >= 0 && r.value.1 >= 1
  {
    var (letters, row) :- SplitCellName(name);
    ColumnIndexNonNegative(letters);
    Ok((row, ColumnIndex(letters)))
  }

  /** A generated label reads back as the row and column it was made from. */
  lemma LabelPositionOfCellName(row: int, col: int)
    requires row >= 0 && col >= 1
    ensures LabelPosition(CellName(row, col)) == Ok((row, col))
  {
    CellNameRoundTrip(row, col);
    ColumnIndexOfLetters(col);
  }

  /** The positions of all labels, or the error of the first malformed one. */
  function Positions(names: seq<string>): (r: Result<seq<(int, int)>>)
    ensures r.Ok? ==> |r.value| == |names|
    ensures r.Ok? ==> forall i :: 0 <= i < |names| ==> LabelPosition(names[i]) == Ok(r.value[i])
    ensures r.Err? <==> exists i :: 0 <= i < |names| && LabelPosition(names[i]).Err?
  {
    if names == [] then Ok([])
    else
      var first :- LabelPosition(names[0]);
      var rest :- Positions(names[1..]);
      assert forall i :: 1 <= i < |names| ==> names[i] == names[1..][i - 1];
      Ok([first] + rest)
  }

  function MaxOf(xs: seq<int>): (m: int)
    requires |xs| > 0
    ensures forall i :: 0 <= i < |xs| ==> xs[i] <= m
    ensures exists i :: 0 <= i < |xs| && xs[i] == m
  {
    if |xs| == 1 then xs[0]
    else
      var rest := MaxOf(xs[1..]);
      assert forall i :: 1 <= i < |xs| ==> xs[i] == xs[1..][i - 1];
      if xs[0] >= rest then xs[0] else rest
  }

  /**
    `max_row` and `max_col` of `create_empty_excel_file`: the largest row and the largest
    column index over all labels. A malformed label raises ValueError in `split_cell_name`,
    and so does an empty label set, through `max` of an empty list.
  */
  function SheetSize(names: seq<string>): (r: Result<(int, int)>)
    ensures r.Ok? ==> names != [] && r.value.0 >= 0 && r.value.1 >= 1
  {
    if names == [] then Err(ValueError)
    else
      var ps :- Positions(names);
      Ok((MaxOf(RowsOf(ps)), MaxOf(ColsOf(ps))))
  }

  function RowsOf(ps: seq<(int, int)>): (rows: seq<int>)
    ensures |rows| == |ps| && forall i :: 0 <= i < |ps| ==> rows[i] == ps[i].0
  {
    seq(|ps|, i requires 0 <= i < |ps| => ps[i].0)
  }

  function ColsOf(ps: seq<(int, int)>): (cols: seq<int>)
    ensures |cols| == |ps| && forall i :: 0 <= i < |ps| ==> cols[i] == ps[i].1
  {
    seq(|ps|, i requires 0 <= i < |ps| => ps[i].1)
  }

  /** The size is refused exactly for no labels or for a label `split_cell_name` refuses. */
  lemma SheetSizeFails(names: seq<string>)
    ensures SheetSize(names).Err? <==> names == [] || exists i :: 0 <= i < |names| && SplitCellName(names[i]).Err?
  {
  }

  /**
    Every label lies within the size, rows from 0 and columns from 1, and the size is
    attained: some label is on the last row and some label in the last column.
  */
  lemma SheetSizeBounds(names: seq<string>)
    requires SheetSize(names).Ok?
    ensures var (maxRow, maxCol) := SheetSize(names).value;
      && (forall i :: 0 <= i < |names| ==>
            && LabelPosition(names[i]).Ok?
            && 0 <= LabelPosition(names[i]).value.0 <= maxRow
            && 1 <= LabelPosition(names[i]).value.1 <= maxCol)
      && (exists i :: 0 <= i < |names| && LabelPosition(names[i]).value.0 == maxRow)
      && (exists i :: 0 <= i < |names| && LabelPosition(names[i]).value.1 == maxCol)
  {
    var ps := Positions(names).value;
    var rows, cols := RowsOf(ps), ColsOf(ps);
    assert SheetSize(names).value == (MaxOf(rows), MaxOf(cols));
    forall i | 0 <= i < |names|
      ensures LabelPosition(names[i]) == Ok(ps[i]) && ps[i].0 <= MaxOf(rows) && ps[i].1 <= MaxOf(cols)
    {
      assert rows[i] == ps[i].0 && cols[i] == ps[i].1;
    }
    var i :| 0 <= i < |rows| && rows[i] == MaxOf(rows);
    var j :| 0 <= j < |cols| && cols[j] == MaxOf(cols);
    assert LabelPosition(names[i]).value.0 == MaxOf(rows);
    assert LabelPosition(names[j]).value.1 == MaxOf(cols);
  }

  /**
    Labels that all name cells of rows 1..rows and columns 1..cols, reaching the last row
    and the last column, size the sheet at exactly rows by cols.
  */
  lemma SheetSizeOfRectangle(names: seq<string>, rows: int, cols: int, lastRow: int, lastCol: int)
    requires forall i :: 0 <= i < |names| ==> LabelPosition(names[i]).Ok?
    requires forall i :: 0 <= i < |names| ==> 1 <= LabelPosition(names[i]).value.0 <= rows
    requires forall i :: 0 <= i < |names| ==> 1 <= LabelPosition(names[i]).value.1 <= cols
    requires 0 <= lastRow < |names| && LabelPosition(names[lastRow]).Ok? && LabelPosition(names[lastRow]).value.0 == rows
    requires 0 <= lastCol < |names| && LabelPosition(names[lastCol]).Ok? && LabelPosition(names[lastCol]).value.1 == cols
    ensures SheetSize(names) == Ok((rows, cols))
  {
    assert !exists i :: 0 <= i < |names| && LabelPosition(names[i]).Err?;
    var ps := Positions(names).value;
    assert forall i :: 0 <= i < |names| ==> ps[i] == LabelPosition(names[i]).value;
    MaxOfIs(RowsOf(ps), rows, lastRow);
    MaxOfIs(ColsOf(ps), cols, lastCol);
  }

  lemma MaxOfIs(xs: seq<int>, bound: int, at: int)
    requires forall i :: 0 <= i < |xs| ==> xs[i] <= bound
    requires 0 <= at < |xs| && xs[at] == bound
    ensures MaxOf(xs) == bound
  {
  }

  /** The cells `create_empty_excel_file` gives a border: rows 1..maxRow by columns 1..maxCol. */
  function Lattice(maxRow: int, maxCol: int): set<(int, int)> {
    set r, c | 1 <= r <= maxRow && 1 <= c <= maxCol :: (r, c)
  }

  /** The nested loop of `create_empty_excel_file` that borders every cell of the sheet. */
  method BorderCells(maxRow: int, maxCol: int) returns (bordered: set<(int, int)>)
    ensures bordered == Lattice(maxRow, maxCol)
  {
    bordered := {};
    var row := 1;
    while row <= maxRow
      invariant 1 <= row <= (if maxRow < 1 then 1 else maxRow + 1)
      invariant bordered == set r, c | 1 <= r < row && 1 <= c <= maxCol :: (r, c)
    {
      var col := 1;
      while col <= maxCol
        invariant 1 <= col <= (if maxCol < 1 then 1 else maxCol + 1)
        invariant bordered == (set r, c | 1 <= r < row && 1 <= c <= maxCol :: (r, c)) + (set c | 1 <= c < col :: (row, c))
      {
        bordered := bordered + {(row, col)};
        col := col + 1;
      }
      row := row + 1;
    }
  }

  /** `create_empty_excel_file` on the labels of `cells_dict`: the size, then the bordered cells. */
  method CreateEmptyExcelFile(names: seq<string>) returns (r: Result<set<(int, int)>>)
    ensures r.Err? <==> SheetSize(names).Err?
    ensures r.Ok? ==> r.value == Lattice(SheetSize(names).value.0, SheetSize(names).value.1)
  {
    var size := SheetSize(names);
    if size.Err? {
      return Err(size.error);
    }
    var bordered := BorderCells(size.value.0, size.value.1);
    return Ok(bordered);
  }

  /** Every label on a row from 1 up has its cell bordered; a label on row 0 lies above the bordered rows. */
  lemma LabelsBordered(names: seq<string>, i: int)
    requires SheetSize(names).Ok? && 0 <= i < |names|
    ensures LabelPosition(names[i]).Ok?
    ensures LabelPosition(names[i]).value in Lattice(SheetSize(names).value.0, SheetSize(names).value.1)
      <==> LabelPosition(names[i]).value.0 >= 1
  {
    SheetSizeBounds(names);
  }

  // ---------------------------------------------------------------------------
  // create_excel: merging each group, writing its text, sizing columns and rows

  /** A merged block, from its top-left (start) to its bottom-right (end) cell. */
  datatype CellRange = CellRange(startRow: int, startCol: int, endRow: int, endCol: int)

  /**
    The block a label group is merged into: from its first label's cell to its last
    label's cell. An empty group raises IndexError at `cells[0]`; a malformed label raises
    ValueError in `split_cell_name`.
  */
  function MergeRange(cells: seq<string>): (r: Result<CellRange>)
    ensures cells == [] ==> r == Err(IndexError)
  {
    if cells == [] then Err(IndexError)
    else
      var (rowStart, colStart) :- LabelPosition(cells[0]);
      var (rowEnd, colEnd) :- LabelPosition(cells[|cells| - 1]);
      Ok(CellRange(rowStart, colStart, rowEnd, colEnd))
  }

  /** A group of generated labels merges the block from its first label's position to its last one's. */
  lemma MergeRangeOfLabels(cells: seq<string>, r1: int, c1: int, r2: int, c2: int)
    requires r1 >= 0 && c1 >= 1 && r2 >= 0 && c2 >= 1
    requires |cells| >= 1 && cells[0] == CellName(r1, c1) && cells[|cells| - 1] == CellName(r2, c2)
    ensures MergeRange(cells) == Ok(CellRange(r1, c1, r2, c2))
  {
    LabelPositionOfCellName(r1, c1);
    LabelPositionOfCellName(r2, c2);
  }

  predicate Covers(range: CellRange, row: int, col: int) {
    range.startRow <= row <= range.endRow && range.startCol <= col <= range.endCol
  }

  /** A cell of the block other than its top-left one: openpyxl turns it into a `MergedCell`. */
  predicate Hides(range: CellRange, row: int, col: int) {
    Covers(range, row, col) && (row, col) != (range.startRow, range.startCol)
  }

  /** `isinstance(cell, MergedCell)` once the blocks `merged` have been merged. */
  predicate Hidden(merged: seq<CellRange>, row: int, col: int) {
    exists i :: 0 <= i < |merged| && Hides(merged[i], row, col)
  }

  /** Merging a block drops the values of the cells it hides. */
  function Cleared(values: map<(int, int), string>, range: CellRange): (r: map<(int, int), string>)
    ensures forall p :: p in r <==> p in values && !Hides(range, p.0, p.1)
    ensures forall p :: p in r ==> r[p] == values[p]
  {
    map p | p in values && !Hides(range, p.0, p.1) :: values[p]
  }

  /** The merged blocks and the cell values of a sheet. */
  datatype Sheet = Sheet(merged: seq<CellRange>, values: map<(int, int), string>)

  /**
    One iteration of the group loop: merge the block, then write the text at its top-left
    cell unless an earlier block has made that cell a `MergedCell`.
  */
  function WriteGroup(sheet: Sheet, text: string, cells: seq<string>): (r: Result<Sheet>)
    ensures r.Err? <==> MergeRange(cells).Err?
    ensures r.Ok? ==> r.value.merged == sheet.merged + [MergeRange(cells).value]
    ensures r.Ok? ==> forall p :: p in r.value.values ==>
      p in sheet.values || p == (MergeRange(cells).value.startRow, MergeRange(cells).value.startCol)
  {
    var range :- MergeRange(cells);
    var merged := sheet.merged + [range];
    var cleared := Cleared(sheet.values, range);
    Ok(Sheet(merged, if Hidden(merged, range.startRow, range.startCol) then cleared else cleared[(range.startRow, range.startCol) := text]))
  }

  /** The group loop over `text_to_cells`, in its order; the first error stops it. */
  function WriteGroups(sheet: Sheet, groups: seq<(string, seq<string>)>): (r: Result<Sheet>)
    ensures r.Ok? ==> sheet.merged <= r.value.merged && |r.value.merged| == |sheet.merged| + |groups|
    decreases |groups|
  {
    if groups == [] then Ok(sheet)
    else
      var next :- WriteGroup(sheet, groups[0].0, groups[0].1);
      WriteGroups(next, groups[1..])
  }

  lemma HiddenAppend(merged: seq<CellRange>, range: CellRange, row: int, col: int)
    ensures Hidden(merged + [range], row, col) <==> Hidden(merged, row, col) || Hides(range, row, col)
  {
    var all := merged + [range];
    if Hidden(all, row, col) {
      var i :| 0 <= i < |all| && Hides(all[i], row, col);
      if i < |merged| {
        assert all[i] == merged[i];
      }
    }
    if Hidden(merged, row, col) {
      var i :| 0 <= i < |merged| && Hides(merged[i], row, col);
      assert all[i] == merged[i];
    }
    if Hides(range, row, col) {
      assert all[|merged|] == range;
    }
  }

  predicate IsBlockStart(merged: seq<CellRange>, row: int, col: int) {
    exists i :: 0 <= i < |merged| && (row, col) == (merged[i].startRow, merged[i].startCol)
  }

  /** Every value sits at the top-left cell of a merged block, and no `MergedCell` holds one. */
  predicate Consistent(sheet: Sheet) {
    forall p :: p in sheet.values ==> IsBlockStart(sheet.merged, p.0, p.1) && !Hidden(sheet.merged, p.0, p.1)
  }

  /**
    A group's text lands at its block's top-left cell exactly when no earlier block hides
    that cell; when one does, the text is lost and the cell stays empty.
  */
  lemma WriteGroupText(sheet: Sheet, text: string, cells: seq<string>)
    requires Consistent(sheet)
    requires WriteGroup(sheet, text, cells).Ok?
    ensures var range, next := MergeRange(cells).value, WriteGroup(sheet, text, cells).value;
      && next.merged == sheet.merged + [range]
      && (!Hidden(sheet.merged, range.startRow, range.startCol) ==> next.values[(range.startRow, range.startCol)] == text)
      && (Hidden(sheet.merged, range.startRow, range.startCol) ==> (range.startRow, range.startCol) !in next.values)
  {
    var range := MergeRange(cells).value;
    HiddenAppend(sheet.merged, range, range.startRow, range.startCol);
  }

  /** One group keeps the sheet consistent. */
  lemma WriteGroupConsistent(sheet: Sheet, text: string, cells: seq<string>)
    requires Consistent(sheet)
    requires WriteGroup(sheet, text, cells).Ok?
    ensures Consistent(WriteGroup(sheet, text, cells).value)
  {
    var range := MergeRange(cells).value;
    var next := WriteGroup(sheet, text, cells).value;
    forall p | p in next.values
      ensures IsBlockStart(next.merged, p.0, p.1) && !Hidden(next.merged, p.0, p.1)
    {
      HiddenAppend(sheet.merged, range, p.0, p.1);
      if p == (range.startRow, range.startCol) {
        assert next.merged[|sheet.merged|] == range;
      } else {
        assert p in sheet.values && !Hides(range, p.0, p.1);
        var i :| 0 <= i < |sheet.merged| && p == (sheet.merged[i].startRow, sheet.merged[i].startCol);
        assert next.merged[i] == sheet.merged[i];
      }
    }
  }

  /** The whole group loop keeps the sheet consistent. */
  lemma {:induction false} WriteGroupsConsistent(sheet: Sheet, groups: seq<(string, seq<string>)>)
    requires Consistent(sheet)
    requires WriteGroups(sheet, groups).Ok?
    ensures Consistent(WriteGroups(sheet, groups).value)
    decreases |groups|
  {
    if groups != [] {
      WriteGroupConsistent(sheet, groups[0].0, groups[0].1);
      WriteGroupsConsistent(WriteGroup(sheet, groups[0].0, groups[0].1).value, groups[1..]);
    }
  }

  /** The group loop fails exactly when some group is empty or has a malformed first or last label. */
  lemma {:induction false} WriteGroupsFails(sheet: Sheet, groups: seq<(string, seq<string>)>)
    ensures WriteGroups(sheet, groups).Err? <==> exists i :: 0 <= i < |groups| && MergeRange(groups[i].1).Err?
    decreases |groups|
  {
    if groups != [] {
      if MergeRange(groups[0].1).Ok? {
        WriteGroupsFails(WriteGroup(sheet, groups[0].0, groups[0].1).value, groups[1..]);
        if exists i :: 0 <= i < |groups| && MergeRange(groups[i].1).Err? {
          var i :| 0 <= i < |groups| && MergeRange(groups[i].1).Err?;
          assert groups[1..][i - 1] == groups[i];
        }
        if exists i :: 0 <= i < |groups[1..]| && MergeRange(groups[1..][i].1).Err? {
          var i :| 0 <= i < |groups[1..]| && MergeRange(groups[1..][i].1).Err?;
          assert groups[i + 1] == groups[1..][i];
        }
      }
    }
  }

  /** `max(min_column_width, 10)` with `min_column_width = 1`. */
  const MinColumnWidth := 1
  const ColumnWidth := if MinColumnWidth > 10 then MinColumnWidth else 10

  /** `widths` after the column loop has set columns 1..n. */
  function Widened(widths: map<int, int>, n: int): map<int, int>
    decreases n
  {
    if n < 1 then widths else Widened(widths, n - 1)[n := ColumnWidth]
  }

  /** Columns 1..n get width 10; every other column keeps the width it had. */
  lemma {:induction false} WidenedWidths(widths: map<int, int>, n: int, c: int)
    ensures 1 <= c <= n ==> c in Widened(widths, n) && Widened(widths, n)[c] == 10
    ensures !(1 <= c <= n) ==> (c in Widened(widths, n) <==> c in widths)
    ensures !(1 <= c <= n) && c in widths ==> Widened(widths, n)[c] == widths[c]
    decreases n
  {
    if n >= 1 {
      WidenedWidths(widths, n - 1, c);
    }
  }

  /** Number of lines of a text: `len(text.split('\n'))`. */
  function LineCount(text: string): (n: nat)
    ensures n >= 1
  {
    if text == [] then 1
    else LineCount(text[..|text| - 1]) + (if text[|text| - 1] == '\n' then 1 else 0)
  }

  /** `str(ws.cell(row, col).value or "")`: the empty string for a cell without a value. */
  function CellText(values: map<(int, int), string>, row: int, col: int): string {
    if (row, col) in values then values[(row, col)] else ""
  }

  /** `max_text_height` after the inner loop has seen columns 1..n of the row. */
  function TextHeight(values: map<(int, int), string>, row: int, n: int): (h: nat)
    ensures h >= 1
    decreases n
  {
    if n < 1 then 1
    else
      var h := TextHeight(values, row, n - 1);
      var text := CellText(values, row, n);
      if text != [] && LineCount(text) > h then LineCount(text) else h
  }

  /** `min(max_text_height * 12, 1000)`. */
  function RowHeight(textHeight: int): (height: int)
    ensures height <= 1000
    ensures textHeight >= 1 ==> height >= 12
    ensures height == 1000 || height == 12 * textHeight
  {
    if textHeight * 12 < 1000 then textHeight * 12 else 1000
  }

  /**
    The row height is the line count of the tallest non-empty text in the row's columns 1..n
    (at least 1), times 12 px, capped at 1000 px; it is always between 12 and 1000.
  */
  lemma {:induction false} TextHeightIsTallest(values: map<(int, int), string>, row: int, n: int)
    ensures forall c :: 1 <= c <= n && CellText(values, row, c) != [] ==> LineCount(CellText(values, row, c)) <= TextHeight(values, row, n)
    ensures TextHeight(values, row, n) == 1
      || exists c :: 1 <= c <= n && CellText(values, row, c) != [] && LineCount(CellText(values, row, c)) == TextHeight(values, row, n)
    ensures 12 <= RowHeight(TextHeight(values, row, n)) <= 1000
    decreases n
  {
    if n >= 1 {
      TextHeightIsTallest(values, row, n - 1);
    }
  }

  /** `heights` after the row loop has set rows 1..n, for a sheet whose used columns are 1..cols. */
  function Heightened(heights: map<int, int>, values: map<(int, int), string>, n: int, cols: int): map<int, int>
    decreases n
  {
    if n < 1 then heights else Heightened(heights, values, n - 1, cols)[n := RowHeight(TextHeight(values, n, cols))]
  }

  /** Rows 1..n get the height of their tallest text, between 12 and 1000; every other row keeps its height. */
  lemma {:induction false} HeightenedHeights(heights: map<int, int>, values: map<(int, int), string>, n: int, cols: int, r: int)
    ensures 1 <= r <= n ==> r in Heightened(heights, values, n, cols)
    ensures 1 <= r <= n ==> Heightened(heights, values, n, cols)[r] == RowHeight(TextHeight(values, r, cols))
    ensures 1 <= r <= n ==> 12 <= Heightened(heights, values, n, cols)[r] <= 1000
    ensures !(1 <= r <= n) ==> (r in Heightened(heights, values, n, cols) <==> r in heights)
    ensures !(1 <= r <= n) && r in heights ==> Heightened(heights, values, n, cols)[r] == heights[r]
    decreases n
  {
    if n >= 1 {
      HeightenedHeights(heights, values, n - 1, cols, r);
      if r == n {
        TextHeightIsTallest(values, r, cols);
      }
    }
  }

  /** A row without multi-line text gets the single-line height of 12 px. */
  lemma SingleLineRow(values: map<(int, int), string>, row: int, n: int)
    requires forall c :: 1 <= c <= n ==> LineCount(CellText(values, row, c)) == 1
    ensures RowHeight(TextHeight(values, row, n)) == 12
  {
    TextHeightIsTallest(values, row, n);
  }

  /**
    The workbook `create_excel` fills: its merged blocks and cell values, the column widths
    and row heights it sets, and its used size (`max_row`, `max_column`).
  */
  class Worksheet {
    var merged: seq<CellRange>
    var values: map<(int, int), string>
    var columnWidths: map<int, int>
    var rowHeights: map<int, int>
    const maxRow: int
    const maxColumn: int

    /** The sheet `create_empty_excel_file` saved, loaded again: no merge, no value, no size set yet. */
    constructor(maxRow: int, maxColumn: int)
      ensures this.maxRow == maxRow && this.maxColumn == maxColumn
      ensures merged == [] && values == map[] && columnWidths == map[] && rowHeights == map[]
    {
      this.maxRow := maxRow;
      this.maxColumn := maxColumn;
      merged := [];
      values := map[];
      columnWidths := map[];
      rowHeights := map[];
    }

    function State(): Sheet
      reads this
    {
      Sheet(merged, values)
    }

    /** `ws.merge_cells(...)`: one more merged block, whose hidden cells lose their values. */
    method MergeCells(range: CellRange)
      modifies this
      ensures merged == old(merged) + [range] && values == Cleared(old(values), range)
      ensures columnWidths == old(columnWidths) && rowHeights == old(rowHeights)
    {
      merged := merged + [range];
      values := Cleared(values, range);
    }

    /** `isinstance(ws.cell(row, col), MergedCell)`. */
    function IsMergedCell(row: int, col: int): bool
      reads this
    {
      Hidden(merged, row, col)
    }

    /** The group loop of `create_excel`; on an error the workbook is abandoned unsaved. */
    method WriteAllGroups(textToCells: seq<(string, seq<string>)>) returns (status: Result<()>)
      modifies this
      ensures status.Ok? <==> WriteGroups(old(State()), textToCells).Ok?
      ensures status.Ok? ==> State() == WriteGroups(old(State()), textToCells).value
      ensures columnWidths == old(columnWidths) && rowHeights == old(rowHeights)
    {
      var i := 0;
      while i < |textToCells|
        invariant 0 <= i <= |textToCells|
        invariant WriteGroups(old(State()), textToCells) == WriteGroups(State(), textToCells[i..])
        invariant columnWidths == old(columnWidths) && rowHeights == old(rowHeights)
      {
        var (text, cells) := textToCells[i];
        var range := MergeRange(cells);
        if range.Err? {
          return Err(range.error);
        }
        MergeCells(range.value);
        var (rowStart, colStart) := (range.value.startRow, range.value.startCol);
        if !IsMergedCell(rowStart, colStart) {
          values := values[(rowStart, colStart) := text];
        }
        assert textToCells[i..][1..] == textToCells[i + 1..];
        i := i + 1;
      }
      return Ok(());
    }

    /** The column loop: every column of the used range gets width 10. */
    method SetColumnWidths()
      modifies this
      ensures columnWidths == Widened(old(columnWidths), maxColumn)
      ensures merged == old(merged) && values == old(values) && rowHeights == old(rowHeights)
    {
      var col := 1;
      while col <= maxColumn
        invariant 1 <= col <= (if maxColumn < 1 then 1 else maxColumn + 1)
        invariant columnWidths == Widened(old(columnWidths), col - 1)
        invariant merged == old(merged) && values == old(values) && rowHeights == old(rowHeights)
      {
        columnWidths := columnWidths[col := ColumnWidth];
        col := col + 1;
      }
    }

    /** The inner loop over a row's columns: the running maximum `max_text_height`. */
    method MaxTextHeight(row: int) returns (maxTextHeight: int)
      ensures maxTextHeight == TextHeight(values, row, maxColumn)
    {
      maxTextHeight := 1;
      var col := 1;
      while col <= maxColumn
        invariant 1 <= col <= (if maxColumn < 1 then 1 else maxColumn + 1)
        invariant maxTextHeight == TextHeight(values, row, col - 1)
      {
        var cellValue := CellText(values, row, col);
        if cellValue != [] {
          var lines := LineCount(cellValue);
          maxTextHeight := if maxTextHeight >= lines then maxTextHeight else lines;
        }
        col := col + 1;
      }
    }

    /** The row loop: each row of the used range gets the height of its tallest text. */
    method SetRowHeights()
      modifies this
      ensures rowHeights == Heightened(old(rowHeights), values, maxRow, maxColumn)
      ensures merged == old(merged) && values == old(values) && columnWidths == old(columnWidths)
    {
      var row := 1;
      while row <= maxRow
        invariant 1 <= row <= (if maxRow < 1 then 1 else maxRow + 1)
        invariant rowHeights == Heightened(old(rowHeights), values, row - 1, maxColumn)
        invariant merged == old(merged) && values == old(values) && columnWidths == old(columnWidths)
      {
        var maxTextHeight := MaxTextHeight(row);
        rowHeights := rowHeights[row := if maxTextHeight * 12 < 1000 then maxTextHeight * 12 else 1000];
        row := row + 1;
      }
    }

    /** `create_excel` after loading the empty sheet: the groups, then the columns, then the rows. */
    method CreateExcel(textToCells: seq<(string, seq<string>)>) returns (status: Result<()>)
      modifies this
      ensures status.Ok? <==> WriteGroups(old(State()), textToCells).Ok?
      ensures status.Ok? ==> State() == WriteGroups(old(State()), textToCells).value
      ensures status.Ok? ==> columnWidths == Widened(old(columnWidths), maxColumn)
      ensures status.Ok? ==> rowHeights == Heightened(old(rowHeights), values, maxRow, maxColumn)
    {
      status := WriteAllGroups(textToCells);
      if status.Ok? {
        SetColumnWidths();
        SetRowHeights();
      }
    }
  }
}
