/**
  The global grid of `detect_grid`: rulings stretched over the whole image cut it into
  row bands and column bands; every band pair at least 10 px each way becomes a cell;
  cells are grouped into rows by the band midpoint and labelled "A1", "B1", ... in
  row-major order.
*/
module GridBuilder {
  import opened Geometry
  import opened Sorting
  import opened OrderedMaps
  import opened TableDetector
  import opened Results
  import ExcelHelper

  const MinCellWidth := 10
  const MinCellHeight := 10

  /** `(row_start_y + row_end_y) // 2`; for the positive divisor 2, `/` floors as `//` does. */
  function Mid(b: Band): int {
    (b.0 + b.1) / 2
  }

  function RowKey(e: (int, seq<Rect>)): int {
    e.0
  }

  // ---------------------------------------------------------------------------
  // Bands

  /** The row bands among the first n consecutive pairs of horizontals that are at least 10 px tall. */
  function TallBandsUpTo(hs: seq<Rect>, n: nat): seq<Band>
    requires n == 0 || n < |hs|
  {
    if n == 0 then []
    else TallBandsUpTo(hs, n - 1)
         + (if hs[n].y1 - hs[n - 1].y1 >= MinCellHeight then [(hs[n - 1].y1, hs[n].y1)] else [])
  }

  /** The column bands among the first n consecutive pairs of verticals that are at least 10 px wide. */
  function WideBandsUpTo(vs: seq<Rect>, n: nat): seq<Band>
    requires n == 0 || n < |vs|
  {
    if n == 0 then []
    else WideBandsUpTo(vs, n - 1)
         + (if vs[n].x1 - vs[n - 1].x1 >= MinCellWidth then [(vs[n - 1].x1, vs[n].x1)] else [])
  }

  function TallBands(hs: seq<Rect>): seq<Band> {
    if |hs| == 0 then [] else TallBandsUpTo(hs, |hs| - 1)
  }

  function WideBands(vs: seq<Rect>): seq<Band> {
    if |vs| == 0 then [] else WideBandsUpTo(vs, |vs| - 1)
  }

  /** The cells of one row band, one per column band, left to right. */
  function RowCells(row: Band, cols: seq<Band>): seq<Rect> {
    seq(|cols|, c requires 0 <= c < |cols| => Rect(cols[c].0, row.0, cols[c].1, row.1))
  }

  /** `rows_dict` once every band pair is visited: a key only for rows that received a cell. */
  function RowEntries(rows: seq<Band>, cols: seq<Band>): Dict<int, seq<Rect>> {
    if |cols| == 0 then []
    else seq(|rows|, r requires 0 <= r < |rows| => (Mid(rows[r]), RowCells(rows[r], cols)))
  }

  /**
    Every row band is a consecutive pair of horizontals at least 10 px tall; the bands
    come in order and do not overlap (each one ends at or above where the next begins).
  */
  lemma {:induction false} TallBandsUpToShape(hs: seq<Rect>, n: nat)
    requires n == 0 || n < |hs|
    requires SortedBy(hs, Top)
    ensures forall k :: 0 <= k < |TallBandsUpTo(hs, n)| ==>
      var b := TallBandsUpTo(hs, n)[k];
      && b.1 - b.0 >= MinCellHeight
      && (exists i :: 0 <= i < n && b == (hs[i].y1, hs[i + 1].y1))
      && (n > 0 ==> b.1 <= hs[n].y1)
    ensures forall k, l :: 0 <= k < l < |TallBandsUpTo(hs, n)| ==>
      TallBandsUpTo(hs, n)[k].1 <= TallBandsUpTo(hs, n)[l].0
  {
    if n > 0 {
      TallBandsUpToShape(hs, n - 1);
      var prev := TallBandsUpTo(hs, n - 1);
      forall k | 0 <= k < |prev| ensures prev[k].1 <= hs[n - 1].y1 <= hs[n].y1 {
      }
    }
  }

  lemma {:induction false} WideBandsUpToShape(vs: seq<Rect>, n: nat)
    requires n == 0 || n < |vs|
    ensures forall k :: 0 <= k < |WideBandsUpTo(vs, n)| ==>
      var b := WideBandsUpTo(vs, n)[k];
      && b.1 - b.0 >= MinCellWidth
      && (exists j :: 0 <= j < n && b == (vs[j].x1, vs[j + 1].x1))
  {
    if n > 0 {
      WideBandsUpToShape(vs, n - 1);
    }
  }

  /** With sorted horizontals, band midpoints strictly increase, so no two rows share a key. */
  lemma MidsIncrease(hs: seq<Rect>, m: nat)
    requires m + 1 < |hs|
    requires SortedBy(hs, Top)
    requires hs[m + 1].y1 - hs[m].y1 >= MinCellHeight
    ensures forall k :: 0 <= k < |TallBandsUpTo(hs, m)| ==>
      Mid(TallBandsUpTo(hs, m)[k]) < Mid((hs[m].y1, hs[m + 1].y1))
  {
    TallBandsUpToShape(hs, m);
  }

  /** The keys of `rows_dict` strictly increase in insertion order. */
  lemma {:induction false} RowEntriesStrictlySorted(hs: seq<Rect>, n: nat, cols: seq<Band>)
    requires n == 0 || n < |hs|
    requires SortedBy(hs, Top)
    ensures StrictlySortedBy(RowEntries(TallBandsUpTo(hs, n), cols), RowKey)
  {
    if n > 0 {
      RowEntriesStrictlySorted(hs, n - 1, cols);
      var prev := TallBandsUpTo(hs, n - 1);
      var b := (hs[n - 1].y1, hs[n].y1);
      if hs[n].y1 - hs[n - 1].y1 >= MinCellHeight && |cols| > 0 {
        MidsIncrease(hs, n - 1);
        var e, e' := RowEntries(prev, cols), RowEntries(prev + [b], cols);
        assert e' == e + [(Mid(b), RowCells(b, cols))];
        forall i, j | 0 <= i < j < |e'| ensures RowKey(e'[i]) < RowKey(e'[j]) {
          if j == |e| {
            assert e'[i].0 == Mid(prev[i]);
          } else {
            assert RowKey(e[i]) < RowKey(e[j]);
          }
        }
      } else if hs[n].y1 - hs[n - 1].y1 < MinCellHeight {
        assert TallBandsUpTo(hs, n) == prev;
      }
    }
  }

  // ---------------------------------------------------------------------------
  // Grouping cells into rows

  /** The key of a new tall band is not yet in `rows_dict`. */
  lemma RowKeyIsNew(hs: seq<Rect>, i: nat, cols: seq<Band>)
    requires i + 1 < |hs|
    requires SortedBy(hs, Top)
    requires hs[i + 1].y1 - hs[i].y1 >= MinCellHeight
    ensures Mid((hs[i].y1, hs[i + 1].y1)) !in Keys(RowEntries(TallBandsUpTo(hs, i), cols))
  {
    MidsIncrease(hs, i);
    var e := RowEntries(TallBandsUpTo(hs, i), cols);
    forall k | 0 <= k < |e| ensures Keys(e)[k] != Mid((hs[i].y1, hs[i + 1].y1)) {
      assert e[k].0 == Mid(TallBandsUpTo(hs, i)[k]);
    }
  }

  /**
    The first half of one step of the inner loop: after `if key not in d: d[key] = []`,
    the row being filled is the last entry, whether or not it had cells before.
  */
  lemma EnsureRowEntry(before: Dict<int, seq<Rect>>, d: Dict<int, seq<Rect>>, key: int, soFar: seq<Rect>)
    requires key !in Keys(before)
    requires d == before + (if soFar == [] then [] else [(key, soFar)])
    ensures (if key in Keys(d) then d else Put(d, key, [])) == before + [(key, soFar)]
  {
    if soFar != [] {
      assert Keys(d)[|before|] == key;
    } else {
      assert d == before;
      assert Put(d, key, []) == before + [(key, [])];
    }
  }

  /** One more pair of horizontals: `rows_dict` gains the band's row exactly when it is tall and has cells. */
  lemma RowEntriesStep(hs: seq<Rect>, i: nat, cols: seq<Band>)
    requires i + 1 < |hs|
    ensures var band := (hs[i].y1, hs[i + 1].y1);
      RowEntries(TallBandsUpTo(hs, i + 1), cols)
      == RowEntries(TallBandsUpTo(hs, i), cols)
         + (if band.1 - band.0 >= MinCellHeight && RowCells(band, cols) != [] then [(Mid(band), RowCells(band, cols))] else [])
  {
    var band := (hs[i].y1, hs[i + 1].y1);
    if band.1 - band.0 < MinCellHeight {
      assert TallBandsUpTo(hs, i + 1) == TallBandsUpTo(hs, i);
    } else if cols != [] {
      var prev := TallBandsUpTo(hs, i);
      assert TallBandsUpTo(hs, i + 1) == prev + [band];
      assert RowEntries(prev + [band], cols) == RowEntries(prev, cols) + [(Mid(band), RowCells(band, cols))];
    }
  }

  /** One more pair of verticals: the column bands gain it exactly when it is wide enough. */
  lemma WideBandsStep(vs: seq<Rect>, j: nat)
    requires j + 1 < |vs|
    ensures WideBandsUpTo(vs, j + 1)
      == WideBandsUpTo(vs, j) + (if vs[j + 1].x1 - vs[j].x1 >= MinCellWidth then [(vs[j].x1, vs[j + 1].x1)] else [])
  {
  }

  lemma RowCellsSnoc(row: Band, cols: seq<Band>, col: Band)
    ensures RowCells(row, cols + [col]) == RowCells(row, cols) + [Rect(col.0, row.0, col.1, row.1)]
    ensures |RowCells(row, cols)| == |cols|
  {
  }

  /**
    The inner loop of `detect_grid` for one pair of horizontals (rowStart, rowEnd): every
    column band at least 10 px wide yields the cell (left, rowStart, right, rowEnd),
    appended to `rows_dict[(rowStart + rowEnd) // 2]`, which is created on the first cell.
    A row that is too short, or a table without wide columns, leaves the dict unchanged.
  */
  method AddRowCells(rowsDict: Dict<int, seq<Rect>>, rowStart: int, rowEnd: int, vs: seq<Rect>)
    returns (rowsDict': Dict<int, seq<Rect>>)
    requires rowEnd - rowStart >= MinCellHeight ==> Mid((rowStart, rowEnd)) !in Keys(rowsDict)
    ensures var band := (rowStart, rowEnd);
      rowsDict' == rowsDict + (if rowEnd - rowStart >= MinCellHeight && RowCells(band, WideBands(vs)) != []
                               then [(Mid(band), RowCells(band, WideBands(vs)))] else [])
  {
    ghost var band := (rowStart, rowEnd);
    ghost var tall := rowEnd - rowStart >= MinCellHeight;
    rowsDict' := rowsDict;
    var j := 0;
    ghost var cur: seq<Band> := [];
    while j + 1 < |vs|
      invariant j == 0 || j < |vs|
      invariant cur == WideBandsUpTo(vs, j)
      invariant rowsDict' == rowsDict + (if tall && RowCells(band, cur) != [] then [(Mid(band), RowCells(band, cur))] else [])
    {
      var cellStart, cellEnd := vs[j].x1, vs[j + 1].x1;
      RowCellsSnoc(band, cur, (cellStart, cellEnd));
      WideBandsStep(vs, j);
      if cellEnd - cellStart >= MinCellWidth && rowEnd - rowStart >= MinCellHeight {
        var cell := Rect(cellStart, rowStart, cellEnd, rowEnd);
        var rowIndex := (rowStart + rowEnd) / 2;
        ghost var soFar := RowCells(band, cur);
        EnsureRowEntry(rowsDict, rowsDict', rowIndex, soFar);
        if rowIndex !in Keys(rowsDict') {
          rowsDict' := Put(rowsDict', rowIndex, []);
        }
        GetLast(rowsDict, rowIndex, soFar);
        PutLast(rowsDict, rowIndex, soFar, soFar + [cell]);
        rowsDict' := Put(rowsDict', rowIndex, Get(rowsDict', rowIndex) + [cell]);
      }
      if cellEnd - cellStart >= MinCellWidth {
        cur := cur + [(cellStart, cellEnd)];
      }
      j := j + 1;
    }
  }

  /**
    The double loop of `detect_grid` that fills `rows_dict`. The horizontals arrive
    sorted by y (they are sorted just before the loop), which is what makes every
    row key new when its first cell arrives.
  */
  method GroupCellsByRow(hs: seq<Rect>, vs: seq<Rect>) returns (rowsDict: Dict<int, seq<Rect>>)
    requires SortedBy(hs, Top)
    ensures rowsDict == RowEntries(TallBands(hs), WideBands(vs))
  {
    rowsDict := [];
    var i := 0;
    while i + 1 < |hs|
      invariant i == 0 || i < |hs|
      invariant rowsDict == RowEntries(TallBandsUpTo(hs, i), WideBands(vs))
    {
      if hs[i + 1].y1 - hs[i].y1 >= MinCellHeight {
        RowKeyIsNew(hs, i, WideBands(vs));
      }
      RowEntriesStep(hs, i, WideBands(vs));
      rowsDict := AddRowCells(rowsDict, hs[i].y1, hs[i + 1].y1, vs);
      i := i + 1;
    }
  }

  // ---------------------------------------------------------------------------
  // Labelling

  /** The labelled cells of one row: column c (0-based) is labelled `CellName(row, c + 1)`. */
  function LabelRow(row: int, cells: seq<Rect>): Dict<string, Rect> {
    seq(|cells|, c requires 0 <= c < |cells| => (CellName(row, c + 1), cells[c]))
  }

  /** Row r (0-based) of `rows` labelled with row number r + 1, rows one after another. */
  function Labelled(rows: seq<seq<Rect>>): Dict<string, Rect> {
    if rows == [] then []
    else Labelled(rows[..|rows| - 1]) + LabelRow(|rows|, rows[|rows| - 1])
  }

  /** The row a label names, as the spreadsheet writer reads it back (-1 for a malformed label). */
  ghost function LabelRowOf(name: string): int {
    match ExcelHelper.SplitCellName(name)
    case Ok(v) => v.1
    case Err(_) => -1
  }

  /** The column a label names, as the spreadsheet writer reads it back (-1 for a malformed label). */
  ghost function LabelColOf(name: string): int {
    match ExcelHelper.SplitCellName(name)
    case Ok(v) => ExcelHelper.ColumnIndex(v.0)
    case Err(_) => -1
  }

  lemma LabelPosition(row: int, col: int)
    requires row >= 0 && col >= 1
    ensures LabelRowOf(CellName(row, col)) == row && LabelColOf(CellName(row, col)) == col
  {
    ExcelHelper.CellNameRoundTrip(row, col);
    ExcelHelper.ColumnIndexOfLetters(col);
  }

  /** Every label of `Labelled(rows)` reads back as a row in 1..|rows| and a column >= 1. */
  lemma {:induction false} LabelledPositions(rows: seq<seq<Rect>>)
    ensures forall k :: 0 <= k < |Labelled(rows)| ==>
      1 <= LabelRowOf(Labelled(rows)[k].0) <= |rows| && LabelColOf(Labelled(rows)[k].0) >= 1
  {
    if rows != [] {
      LabelledPositions(rows[..|rows| - 1]);
      LabelRowPositions(|rows|, rows[|rows| - 1]);
    }
  }

  /** The labels of one row read back as that row and columns 1, 2, ... in order. */
  lemma LabelRowPositions(row: int, cells: seq<Rect>)
    requires row >= 0
    ensures forall c :: 0 <= c < |cells| ==>
      LabelRowOf(LabelRow(row, cells)[c].0) == row && LabelColOf(LabelRow(row, cells)[c].0) == c + 1
  {
    forall c | 0 <= c < |cells|
      ensures LabelRowOf(LabelRow(row, cells)[c].0) == row && LabelColOf(LabelRow(row, cells)[c].0) == c + 1
    {
      EntryLabel(LabelRow(row, cells)[c], row, c + 1, cells[c]);
    }
  }

  /** The label of an entry labelled CellName(row, col) reads back as (row, col). */
  lemma EntryLabel(entry: (string, Rect), row: int, col: int, cell: Rect)
    requires row >= 0 && col >= 1 && entry == (CellName(row, col), cell)
    ensures LabelRowOf(entry.0) == row && LabelColOf(entry.0) == col
  {
    LabelPosition(row, col);
  }

  /**
    The inner labelling loop for one row: `cells_dict[excel_cell_name(row, c + 1)] = cell`
    for each cell, left to right. Labels already present name earlier rows, so each new
    label goes at the end.
  */
  method LabelRowInto(cellsDict: Dict<string, Rect>, row: nat, cells: seq<Rect>)
    returns (cellsDict': Dict<string, Rect>)
    requires forall k :: 0 <= k < |cellsDict| ==> LabelRowOf(cellsDict[k].0) < row
    ensures cellsDict' == cellsDict + LabelRow(row, cells)
  {
    cellsDict' := cellsDict;
    for c := 0 to |cells|
      invariant cellsDict' == cellsDict + LabelRow(row, cells[..c])
      invariant forall k :: 0 <= k < |cellsDict'| ==>
        LabelRowOf(cellsDict'[k].0) < row || (LabelRowOf(cellsDict'[k].0) == row && LabelColOf(cellsDict'[k].0) <= c)
    {
      var name := ExcelCellName(row, c + 1);
      EntryLabel((name, cells[c]), row, c + 1, cells[c]);
      assert name !in Keys(cellsDict') by {
        forall k | 0 <= k < |cellsDict'| ensures Keys(cellsDict')[k] != name {
        }
      }
      LabelRowSnoc(row, cells, c);
      cellsDict' := Put(cellsDict', name, cells[c]);
    }
    assert cells[..|cells|] == cells;
  }

  /** Labelling one more cell of a row appends its entry. */
  lemma LabelRowSnoc(row: int, cells: seq<Rect>, c: nat)
    requires c < |cells|
    ensures LabelRow(row, cells[..c + 1]) == LabelRow(row, cells[..c]) + [(CellName(row, c + 1), cells[c])]
  {
  }

  /**
    The labelling loop of `detect_grid`: `cells_dict[excel_cell_name(r + 1, c + 1)] = cell`
    for every cell of every row, in order.
  */
  method LabelCells(rows: seq<seq<Rect>>) returns (cellsDict: Dict<string, Rect>)
    ensures cellsDict == Labelled(rows)
  {
    cellsDict := [];
    for r := 0 to |rows|
      invariant cellsDict == Labelled(rows[..r])
    {
      LabelledPositions(rows[..r]);
      cellsDict := LabelRowInto(cellsDict, r + 1, rows[r]);
      assert rows[..r + 1][..r] == rows[..r];
    }
    assert rows[..|rows|] == rows;
  }

  // ---------------------------------------------------------------------------
  // The whole grid

  /** The cell lists of `sorted_cells_per_row`, one per row, in key order. */
  function RowLists(d: Dict<int, seq<Rect>>): seq<seq<Rect>> {
    seq(|d|, i requires 0 <= i < |d| => d[i].1)
  }

  /** The labelled grid built from sorted, stretched horizontals and verticals. */
  function GridCells(hs: seq<Rect>, vs: seq<Rect>): Dict<string, Rect> {
    Labelled(RowLists(RowEntries(TallBands(hs), WideBands(vs))))
  }

  /** The rulings `detect_grid` stretches and sorts before forming cells. */
  function StretchedLines(hBoxes: seq<Box>, vBoxes: seq<Box>, width: int, height: int): (seq<Rect>, seq<Rect>) {
    var horizontal := DetectHorizontalLines(hBoxes);
    var vertical := DetectVerticalLines(vBoxes);
    (SortBy(StretchHorizontal(CrossingLines(horizontal, vertical), width), Top),
     SortBy(StretchVertical(vertical, height), Left))
  }

  /** What `detect_grid` returns for the detected boxes and the image size. */
  function Grid(hBoxes: seq<Box>, vBoxes: seq<Box>, width: int, height: int): (cells: Dict<string, Rect>)
    ensures UniqueKeys(cells)
    ensures var lines := StretchedLines(hBoxes, vBoxes, width, height);
      |cells| == |TallBands(lines.0)| * |WideBands(lines.1)|
  {
    var lines := StretchedLines(hBoxes, vBoxes, width, height);
    GridLabelsUnique(lines.0, lines.1);
    GridSize(lines.0, lines.1);
    GridCells(lines.0, lines.1)
  }

  /**
    The first half of `detect_grid`: keep the horizontals that touch a vertical, stretch
    both families over the image and sort them.
  */
  method StretchLines(hBoxes: seq<Box>, vBoxes: seq<Box>, width: int, height: int)
    returns (stretchedHorizontal: seq<Rect>, stretchedVertical: seq<Rect>)
    ensures (stretchedHorizontal, stretchedVertical) == StretchedLines(hBoxes, vBoxes, width, height)
    ensures SortedBy(stretchedHorizontal, Top) && SortedBy(stretchedVertical, Left)
  {
    var horizontalLines := DetectHorizontalLines(hBoxes);
    var verticalLines := DetectVerticalLines(vBoxes);
    var filteredHorizontal := FilterCrossing(horizontalLines, verticalLines);
    stretchedHorizontal := StretchHorizontal(filteredHorizontal, width);
    stretchedVertical := StretchVertical(verticalLines, height);
    stretchedHorizontal := SortBy(stretchedHorizontal, Top);
    stretchedVertical := SortBy(stretchedVertical, Left);
  }

  /**
    The second half of `detect_grid`: cut cells between sorted rulings, group them into
    rows by band midpoint, sort the rows and label them.
  */
  method CutAndLabel(hs: seq<Rect>, vs: seq<Rect>) returns (cellsDict: Dict<string, Rect>)
    requires SortedBy(hs, Top)
    ensures cellsDict == GridCells(hs, vs)
  {
    var rowsDict := GroupCellsByRow(hs, vs);
    if |hs| > 0 {
      RowEntriesStrictlySorted(hs, |hs| - 1, WideBands(vs));
    }
    SortOfSortedIsIdentity(rowsDict, RowKey);
    var sortedRows := SortBy(rowsDict, RowKey);
    var sortedCellsPerRow := RowLists(sortedRows);
    cellsDict := LabelCells(sortedCellsPerRow);
  }

  /** `detect_grid` after the contour step. */
  method DetectGrid(hBoxes: seq<Box>, vBoxes: seq<Box>, width: int, height: int)
    returns (cellsDict: Dict<string, Rect>)
    ensures cellsDict == Grid(hBoxes, vBoxes, width, height)
  {
    var stretchedHorizontal, stretchedVertical := StretchLines(hBoxes, vBoxes, width, height);
    cellsDict := CutAndLabel(stretchedHorizontal, stretchedVertical);
  }

  /** Sorting again after stretching changes nothing: the filtered lines were already in order. */
  lemma StretchedAlreadySorted(hBoxes: seq<Box>, vBoxes: seq<Box>, width: int, height: int)
    ensures var horizontal, vertical := DetectHorizontalLines(hBoxes), DetectVerticalLines(vBoxes);
      && StretchedLines(hBoxes, vBoxes, width, height).0 == StretchHorizontal(CrossingLines(horizontal, vertical), width)
      && StretchedLines(hBoxes, vBoxes, width, height).1 == StretchVertical(vertical, height)
  {
    var horizontal, vertical := DetectHorizontalLines(hBoxes), DetectVerticalLines(vBoxes);
    CrossingLinesKeepSorted(horizontal, vertical, Top);
    SortOfSortedIsIdentity(StretchHorizontal(CrossingLines(horizontal, vertical), width), Top);
    SortOfSortedIsIdentity(StretchVertical(vertical, height), Left);
  }

  /** `Labelled(rows[..m])` is the start of `Labelled(rows)`. */
  lemma {:induction false} LabelledPrefix(rows: seq<seq<Rect>>, m: nat)
    requires m <= |rows|
    ensures Labelled(rows[..m]) <= Labelled(rows)
    decreases |rows| - m
  {
    if m < |rows| {
      LabelledPrefix(rows, m + 1);
      assert rows[..m + 1][..m] == rows[..m];
    } else {
      assert rows[..m] == rows;
    }
  }

  /** Cell c of row r sits right after the cells of the earlier rows, labelled (r + 1, c + 1). */
  lemma LabelledAt(rows: seq<seq<Rect>>, r: nat, c: nat, row: int, col: int) returns (k: nat)
    requires r < |rows| && c < |rows[r]| && row == r + 1 && col == c + 1
    ensures k < |Labelled(rows)| && Labelled(rows)[k] == (CellName(row, col), rows[r][c])
    ensures LabelRowOf(Labelled(rows)[k].0) == row && LabelColOf(Labelled(rows)[k].0) == col
  {
    LabelledPrefix(rows, r + 1);
    LabelledSnoc(rows, r);
    PrefixAppendAt(Labelled(rows), Labelled(rows[..r]), LabelRow(row, rows[r]), c);
    LabelRowAt(row, rows[r], c);
    k := |Labelled(rows[..r])| + c;
    EntryLabel(Labelled(rows)[k], row, col, rows[r][c]);
  }

  /** Element c of `back` sits at |front| + c in any sequence that starts with front + back. */
  lemma PrefixAppendAt<T>(whole: seq<T>, front: seq<T>, back: seq<T>, c: nat)
    requires front + back <= whole && c < |back|
    ensures |front| + c < |whole| && whole[|front| + c] == back[c]
  {
    assert (front + back)[|front| + c] == back[c];
  }

  /** Labelling one more row appends that row's entries. */
  lemma LabelledSnoc(rows: seq<seq<Rect>>, r: nat)
    requires r < |rows|
    ensures Labelled(rows[..r + 1]) == Labelled(rows[..r]) + LabelRow(r + 1, rows[r])
  {
    assert rows[..r + 1][..r] == rows[..r];
  }

  /** Entry c of a labelled row is cell c, labelled with column c + 1. */
  lemma LabelRowAt(row: int, cells: seq<Rect>, c: nat)
    requires c < |cells|
    ensures |LabelRow(row, cells)| == |cells| && LabelRow(row, cells)[c] == (CellName(row, c + 1), cells[c])
  {
  }

  /** Every entry of `Labelled(rows)` is some cell c of some row r, labelled (r + 1, c + 1). */
  lemma {:induction false} LabelledEntry(rows: seq<seq<Rect>>, k: int) returns (r: nat, c: nat)
    requires 0 <= k < |Labelled(rows)|
    ensures r < |rows| && c < |rows[r]|
    ensures k == |Labelled(rows[..r])| + c
    ensures Labelled(rows)[k] == (CellName(r + 1, c + 1), rows[r][c])
  {
    var n := |rows|;
    var init := rows[..n - 1];
    LabelledSnoc(rows, n - 1);
    assert rows[..n] == rows;
    if k < |Labelled(init)| {
      r, c := LabelledEntry(init, k);
      assert init[..r] == rows[..r];
      assert rows[r][c] == init[r][c];
    } else {
      r, c := n - 1, k - |Labelled(init)|;
      LabelledSnoc(rows, r);
      LabelRowAt(r + 1, rows[r], c);
    }
  }

  /** The rows `detect_grid` labels: one per tall band, each holding one cell per wide column band. */
  lemma GridRows(hs: seq<Rect>, vs: seq<Rect>)
    ensures var rows, cols, lists := TallBands(hs), WideBands(vs), RowLists(RowEntries(TallBands(hs), WideBands(vs)));
      && |lists| == (if |cols| == 0 then 0 else |rows|)
      && forall r :: 0 <= r < |lists| ==> lists[r] == RowCells(rows[r], cols)
  {
  }

  /**
    Entry k of the grid is the cell of some row band r and column band c, labelled with
    row r + 1 and column c + 1, placed after the r full rows before it.
  */
  lemma GridEntryAt(hs: seq<Rect>, vs: seq<Rect>, k: int) returns (r: nat, c: nat)
    requires 0 <= k < |GridCells(hs, vs)|
    ensures r < |TallBands(hs)| && c < |WideBands(vs)|
    ensures k == |Labelled(RowLists(RowEntries(TallBands(hs), WideBands(vs)))[..r])| + c
    ensures GridCells(hs, vs)[k] == (CellName(r + 1, c + 1), GridRect(TallBands(hs)[r], WideBands(vs)[c]))
  {
    var lists := RowLists(RowEntries(TallBands(hs), WideBands(vs)));
    GridRows(hs, vs);
    r, c := LabelledEntry(lists, k);
  }

  /** Entry k of the grid is the cell of row band r and column band c, labelled (r + 1, c + 1). */
  lemma GridEntry(hs: seq<Rect>, vs: seq<Rect>, k: int) returns (r: nat, c: nat)
    requires 0 <= k < |GridCells(hs, vs)|
    ensures r < |TallBands(hs)| && c < |WideBands(vs)|
    ensures GridCells(hs, vs)[k] == (CellName(r + 1, c + 1), GridRect(TallBands(hs)[r], WideBands(vs)[c]))
  {
    r, c := GridEntryAt(hs, vs, k);
  }

  /** The cell spanned by a row band and a column band. */
  function GridRect(row: Band, col: Band): Rect {
    Rect(col.0, row.0, col.1, row.1)
  }

  /** Conversely, every (row band, column band) pair has its cell in the grid. */
  lemma GridHasCell(hs: seq<Rect>, vs: seq<Rect>, r: nat, c: nat)
    requires r < |TallBands(hs)| && c < |WideBands(vs)|
    ensures (CellName(r + 1, c + 1), GridRect(TallBands(hs)[r], WideBands(vs)[c])) in GridCells(hs, vs)
  {
    GridRows(hs, vs);
    var k := LabelledAt(RowLists(RowEntries(TallBands(hs), WideBands(vs))), r, c, r + 1, c + 1);
  }

  /** |Labelled(rows[..r])| grows by the width of each row: r * C for rows of C cells. */
  lemma {:induction false} LabelledUniformLength(rows: seq<seq<Rect>>, width: nat, r: nat)
    requires r <= |rows|
    requires forall i :: 0 <= i < |rows| ==> |rows[i]| == width
    ensures |Labelled(rows[..r])| == r * width
  {
    if r > 0 {
      LabelledUniformLength(rows, width, r - 1);
      assert rows[..r][..r - 1] == rows[..r - 1];
      assert (r - 1) * width + width == r * width;
    }
  }

  lemma MulAtLeast(a: int, width: nat)
    requires a >= 1
    ensures a * width >= width
  {
  }

  lemma DivModOf(k: int, r: nat, c: nat, width: nat)
    requires 0 <= c < width && k == r * width + c
    ensures k / width == r && k % width == c
  {
    var q, m := k / width, k % width;
    assert (q - r) * width == c - m;
    if q > r {
      MulAtLeast(q - r, width);
    } else if q < r {
      MulAtLeast(r - q, width);
    }
  }

  /** Row-major order in index form: entry k holds row k / C + 1 and column k % C + 1. */
  lemma GridCellAt(hs: seq<Rect>, vs: seq<Rect>, k: int)
    requires 0 <= k < |GridCells(hs, vs)|
    ensures var rows, cols := TallBands(hs), WideBands(vs);
      && |cols| > 0 && k / |cols| < |rows|
      && GridCells(hs, vs)[k] == (CellName(k / |cols| + 1, k % |cols| + 1), GridRect(rows[k / |cols|], cols[k % |cols|]))
  {
    var r, c := GridEntryAt(hs, vs, k);
    GridRows(hs, vs);
    LabelledUniformLength(RowLists(RowEntries(TallBands(hs), WideBands(vs))), |WideBands(vs)|, r);
    DivModOf(k, r, c, |WideBands(vs)|);
  }

  /** The grid has exactly one cell per (row band, column band) pair. */
  lemma GridSize(hs: seq<Rect>, vs: seq<Rect>)
    ensures |GridCells(hs, vs)| == |TallBands(hs)| * |WideBands(vs)|
  {
    var rows, cols := TallBands(hs), WideBands(vs);
    var lists := RowLists(RowEntries(rows, cols));
    GridRows(hs, vs);
    assert lists[..|lists|] == lists;
    LabelledUniformLength(lists, |cols|, |lists|);
  }

  /** The facts about one row band that the grid lemmas use. */
  lemma TallBandAt(hs: seq<Rect>, r: nat)
    requires SortedBy(hs, Top)
    requires r < |TallBands(hs)|
    ensures TallBands(hs)[r].1 - TallBands(hs)[r].0 >= MinCellHeight
    ensures exists i :: 0 <= i < |hs| - 1 && TallBands(hs)[r] == (hs[i].y1, hs[i + 1].y1)
  {
    TallBandsUpToShape(hs, |hs| - 1);
  }

  /** The facts about one column band that the grid lemmas use. */
  lemma WideBandAt(vs: seq<Rect>, c: nat)
    requires c < |WideBands(vs)|
    ensures WideBands(vs)[c].1 - WideBands(vs)[c].0 >= MinCellWidth
    ensures exists j :: 0 <= j < |vs| - 1 && WideBands(vs)[c] == (vs[j].x1, vs[j + 1].x1)
  {
    WideBandsUpToShape(vs, |vs| - 1);
  }

  /** Every grid cell is at least 10 px wide and 10 px tall, hence non-degenerate. */
  lemma GridCellsLargeEnough(hs: seq<Rect>, vs: seq<Rect>, k: int)
    requires SortedBy(hs, Top)
    requires 0 <= k < |GridCells(hs, vs)|
    ensures var cell := GridCells(hs, vs)[k].1;
      cell.x2 - cell.x1 >= MinCellWidth && cell.y2 - cell.y1 >= MinCellHeight && NonDegenerate(cell)
  {
    var r, c := GridEntry(hs, vs, k);
    TallBandAt(hs, r);
    WideBandAt(vs, c);
  }

  /** Every grid cell's corners are consecutive stretched coordinates. */
  lemma GridCellsFromConsecutiveLines(hs: seq<Rect>, vs: seq<Rect>, k: int)
    requires SortedBy(hs, Top)
    requires 0 <= k < |GridCells(hs, vs)|
    ensures var cell := GridCells(hs, vs)[k].1;
      && (exists i :: 0 <= i < |hs| - 1 && cell.y1 == hs[i].y1 && cell.y2 == hs[i + 1].y1)
      && (exists j :: 0 <= j < |vs| - 1 && cell.x1 == vs[j].x1 && cell.x2 == vs[j + 1].x1)
  {
    var r, c := GridEntry(hs, vs, k);
    TallBandAt(hs, r);
    WideBandAt(vs, c);
  }

  /** Row bands are ordered: an earlier band ends at or above where a later one starts. */
  lemma TallBandsOrdered(hs: seq<Rect>, r1: nat, r2: nat)
    requires SortedBy(hs, Top)
    requires r1 < r2 < |TallBands(hs)|
    ensures TallBands(hs)[r1].1 <= TallBands(hs)[r2].0
  {
    TallBandsUpToShape(hs, |hs| - 1);
  }

  /** The row and column an entry's label names are the bands its cell spans. */
  lemma GridEntryPosition(hs: seq<Rect>, vs: seq<Rect>, k: int) returns (r: nat, c: nat)
    requires 0 <= k < |GridCells(hs, vs)|
    ensures r < |TallBands(hs)| && c < |WideBands(vs)|
    ensures LabelRowOf(GridCells(hs, vs)[k].0) == r + 1 && LabelColOf(GridCells(hs, vs)[k].0) == c + 1
    ensures GridCells(hs, vs)[k].1 == GridRect(TallBands(hs)[r], WideBands(vs)[c])
    ensures k == |Labelled(RowLists(RowEntries(TallBands(hs), WideBands(vs)))[..r])| + c
  {
    r, c := GridEntryAt(hs, vs, k);
    LabelPosition(r + 1, c + 1);
  }

  /** Cells labelled with the same row share their top and bottom. */
  lemma GridSameRow(hs: seq<Rect>, vs: seq<Rect>, k: int, l: int)
    requires 0 <= k < |GridCells(hs, vs)| && 0 <= l < |GridCells(hs, vs)|
    requires LabelRowOf(GridCells(hs, vs)[k].0) == LabelRowOf(GridCells(hs, vs)[l].0)
    ensures GridCells(hs, vs)[k].1.y1 == GridCells(hs, vs)[l].1.y1
    ensures GridCells(hs, vs)[k].1.y2 == GridCells(hs, vs)[l].1.y2
  {
    var r1, c1 := GridEntryPosition(hs, vs, k);
    var r2, c2 := GridEntryPosition(hs, vs, l);
  }

  /** Cells labelled with the same column share their left and right edges. */
  lemma GridSameColumn(hs: seq<Rect>, vs: seq<Rect>, k: int, l: int)
    requires 0 <= k < |GridCells(hs, vs)| && 0 <= l < |GridCells(hs, vs)|
    requires LabelColOf(GridCells(hs, vs)[k].0) == LabelColOf(GridCells(hs, vs)[l].0)
    ensures GridCells(hs, vs)[k].1.x1 == GridCells(hs, vs)[l].1.x1
    ensures GridCells(hs, vs)[k].1.x2 == GridCells(hs, vs)[l].1.x2
  {
    var r1, c1 := GridEntryPosition(hs, vs, k);
    var r2, c2 := GridEntryPosition(hs, vs, l);
  }

  /** A cell of an earlier labelled row ends at or above where a cell of a later row begins. */
  lemma GridRowsDoNotOverlap(hs: seq<Rect>, vs: seq<Rect>, k: int, l: int)
    requires SortedBy(hs, Top)
    requires 0 <= k < |GridCells(hs, vs)| && 0 <= l < |GridCells(hs, vs)|
    requires LabelRowOf(GridCells(hs, vs)[k].0) < LabelRowOf(GridCells(hs, vs)[l].0)
    ensures GridCells(hs, vs)[k].1.y2 <= GridCells(hs, vs)[l].1.y1
  {
    var r1, c1 := GridEntryPosition(hs, vs, k);
    var r2, c2 := GridEntryPosition(hs, vs, l);
    TallBandsOrdered(hs, r1, r2);
  }

  /** Two different grid entries carry different labels. */
  lemma GridLabelsDiffer(hs: seq<Rect>, vs: seq<Rect>, k: int, l: int)
    requires 0 <= k < l < |GridCells(hs, vs)|
    ensures GridCells(hs, vs)[k].0 != GridCells(hs, vs)[l].0
  {
    var r1, c1 := GridEntryPosition(hs, vs, k);
    var r2, c2 := GridEntryPosition(hs, vs, l);
  }

  /** No two grid cells share a label. */
  lemma GridLabelsUnique(hs: seq<Rect>, vs: seq<Rect>)
    ensures UniqueKeys(GridCells(hs, vs))
  {
    forall k, l | 0 <= k < l < |GridCells(hs, vs)| ensures GridCells(hs, vs)[k].0 != GridCells(hs, vs)[l].0 {
      GridLabelsDiffer(hs, vs, k, l);
    }
  }

  /** The cell of row band r and column band c (0-based) is in the grid, labelled (row, col) = (r + 1, c + 1). */
  lemma GridLabelledCell(hs: seq<Rect>, vs: seq<Rect>, r: nat, c: nat, row: int, col: int) returns (k: nat)
    requires r < |TallBands(hs)| && c < |WideBands(vs)| && row == r + 1 && col == c + 1
    ensures k < |GridCells(hs, vs)|
    ensures GridCells(hs, vs)[k] == (CellName(row, col), GridRect(TallBands(hs)[r], WideBands(vs)[c]))
    ensures LabelRowOf(GridCells(hs, vs)[k].0) == row && LabelColOf(GridCells(hs, vs)[k].0) == col
  {
    var lists := RowLists(RowEntries(TallBands(hs), WideBands(vs)));
    GridListCell(hs, vs, r, c);
    k := LabelledAt(lists, r, c, row, col);
  }

  /** Row list r holds, at c, the cell of row band r and column band c. */
  lemma GridListCell(hs: seq<Rect>, vs: seq<Rect>, r: nat, c: nat)
    requires r < |TallBands(hs)| && c < |WideBands(vs)|
    ensures var lists := RowLists(RowEntries(TallBands(hs), WideBands(vs)));
      r < |lists| && c < |lists[r]| && lists[r][c] == GridRect(TallBands(hs)[r], WideBands(vs)[c])
  {
    GridRows(hs, vs);
  }

  /** The labels are exactly the names of the R x C rectangle, R row bands by C column bands. */
  lemma GridLabelSet(hs: seq<Rect>, vs: seq<Rect>)
    ensures var g, rows, cols := GridCells(hs, vs), |TallBands(hs)|, |WideBands(vs)|;
      (set k | 0 <= k < |g| :: g[k].0) == (set r, c | 1 <= r <= rows && 1 <= c <= cols :: CellName(r, c))
  {
    var g, rows, cols := GridCells(hs, vs), |TallBands(hs)|, |WideBands(vs)|;
    var labels := set k | 0 <= k < |g| :: g[k].0;
    var names := set r, c | 1 <= r <= rows && 1 <= c <= cols :: CellName(r, c);
    forall name | name in labels ensures name in names {
      var k :| 0 <= k < |g| && g[k].0 == name;
      var r, c := GridEntry(hs, vs, k);
      assert 1 <= r + 1 <= rows && 1 <= c + 1 <= cols && name == CellName(r + 1, c + 1);
    }
    forall name | name in names ensures name in labels {
      var r, c :| 1 <= r <= rows && 1 <= c <= cols && name == CellName(r, c);
      var k := GridLabelledCell(hs, vs, r - 1, c - 1, r, c);
    }
  }

  /**
    The sheet `create_empty_excel_file` lays out for a non-empty grid has exactly one row
    per row band and one column per column band.
  */
  lemma GridSheetSize(hs: seq<Rect>, vs: seq<Rect>)
    requires |GridCells(hs, vs)| > 0
    ensures ExcelHelper.SheetSize(Keys(GridCells(hs, vs))) == Ok((|TallBands(hs)|, |WideBands(vs)|))
  {
    var rows, cols := |TallBands(hs)|, |WideBands(vs)|;
    var names := Keys(GridCells(hs, vs));
    forall i | 0 <= i < |names|
      ensures ExcelHelper.LabelPosition(names[i]).Ok?
        && 1 <= ExcelHelper.LabelPosition(names[i]).value.0 <= rows && 1 <= ExcelHelper.LabelPosition(names[i]).value.1 <= cols
    {
      GridKeyPosition(hs, vs, i);
    }
    var r0, c0 := GridEntry(hs, vs, 0);
    var kRow := GridKeyAt(hs, vs, rows, 1);
    var kCol := GridKeyAt(hs, vs, 1, cols);
    ExcelHelper.SheetSizeOfRectangle(names, rows, cols, kRow, kCol);
  }

  /** The label of entry k, read back by the spreadsheet writer, is a position of the R x C rectangle. */
  lemma GridKeyPosition(hs: seq<Rect>, vs: seq<Rect>, k: int)
    requires 0 <= k < |GridCells(hs, vs)|
    ensures var p := ExcelHelper.LabelPosition(Keys(GridCells(hs, vs))[k]);
      p.Ok? && 1 <= p.value.0 <= |TallBands(hs)| && 1 <= p.value.1 <= |WideBands(vs)|
  {
    var r, c := GridEntryPosition(hs, vs, k);
    LabelRead(Keys(GridCells(hs, vs))[k]);
  }

  /** A well-formed label reads back, as a whole, as its row and its column. */
  lemma LabelRead(name: string)
    requires LabelRowOf(name) >= 0
    ensures ExcelHelper.LabelPosition(name) == Ok((LabelRowOf(name), LabelColOf(name)))
  {
  }

  /** Every position of the R x C rectangle is read back from some entry's label. */
  lemma GridKeyAt(hs: seq<Rect>, vs: seq<Rect>, r: int, c: int) returns (k: nat)
    requires 1 <= r <= |TallBands(hs)| && 1 <= c <= |WideBands(vs)|
    ensures k < |GridCells(hs, vs)| && ExcelHelper.LabelPosition(Keys(GridCells(hs, vs))[k]) == Ok((r, c))
  {
    k := GridLabelledCell(hs, vs, r - 1, c - 1, r, c);
    LabelRead(Keys(GridCells(hs, vs))[k]);
  }
}
