/**
  The second detector: bands between consecutive crossing horizontal rulings, then, inside
  each band, cells between consecutive vertical contours found in that horizontal strip.
  The morphology and contour search are not modelled: the horizontal and vertical contour
  boxes, and the x positions found in each strip, are inputs.
*/
module StructureDetector {
  import opened Geometry
  import opened Sorting
  import opened TableDetector

  // ---------------------------------------------------------------------------
  // Row bands

  /** The crossing horizontals of the structure detector, sorted by top y. */
  function StructureLines(hBoxes: seq<Box>, vBoxes: seq<Box>): (lines: seq<Rect>)
    ensures SortedBy(lines, Top)
    ensures forall x :: x in lines ==> x in HorizontalCandidates(hBoxes) && CrossesAny(x, VerticalCandidates(vBoxes))
  {
    var hs, vs := HorizontalCandidates(hBoxes), VerticalCandidates(vBoxes);
    var kept := CrossingLines(hs, vs);
    assert forall x :: x in SortBy(kept, Top) ==> x in hs && CrossesAny(x, vs) by {
      forall x | x in SortBy(kept, Top) ensures x in hs && CrossesAny(x, vs) {
        SortByMembers(kept, Top, x);
        CrossingLinesMultiplicity(hs, vs, x);
      }
    }
    SortBy(kept, Top)
  }

  /** Consecutive pairs of top ys: `(lines[i].y1, lines[i + 1].y1)` for i < len - 1. */
  function RowBands(lines: seq<Rect>): (rows: seq<Band>)
    ensures |rows| == if |lines| == 0 then 0 else |lines| - 1
    ensures forall i :: 0 <= i < |rows| - 1 ==> rows[i].1 == rows[i + 1].0
  {
    if |lines| == 0 then []
    else seq(|lines| - 1, i requires 0 <= i < |lines| - 1 => (lines[i].y1, lines[i + 1].y1))
  }

  /**
    The candidates are filtered with the same nested loop as the grid detector, but, unlike
    there, before any sorting; the kept lines are then sorted by top y.
  */
  method DetectHorizontalLinesStructure(hBoxes: seq<Box>, vBoxes: seq<Box>) returns (rows: seq<Band>)
    ensures rows == RowBands(StructureLines(hBoxes, vBoxes))
  {
    var horizontal := HorizontalCandidates(hBoxes);
    var vertical := VerticalCandidates(vBoxes);
    var filtered := FilterCrossing(horizontal, vertical);
    filtered := SortBy(filtered, Top);
    rows := RowBands(filtered);
  }

  /**
    n sorted lines give n - 1 bands (none for no line), each from top to bottom, the first
    starting at the topmost line, the last ending at the lowest, and each band starting
    where the one before it ends.
  */
  lemma RowBandsShape(lines: seq<Rect>)
    requires SortedBy(lines, Top)
    ensures var rows := RowBands(lines);
      && |rows| == (if |lines| == 0 then 0 else |lines| - 1)
      && (forall i :: 0 <= i < |rows| ==> rows[i].0 <= rows[i].1)
      && (forall i :: 0 <= i < |rows| - 1 ==> rows[i].1 == rows[i + 1].0)
      && (|rows| > 0 ==> rows[0].0 == lines[0].y1 && rows[|rows| - 1].1 == lines[|lines| - 1].y1)
  {
  }

  /**
    Every band edge is the top of a contour box wider than 10 px that touches (the boxes
    overlap or meet) some contour box taller than 10 px.
  */
  lemma RowBandEdges(hBoxes: seq<Box>, vBoxes: seq<Box>, i: int)
    requires 0 <= i < |RowBands(StructureLines(hBoxes, vBoxes))|
    ensures var band := RowBands(StructureLines(hBoxes, vBoxes))[i];
      && LineTopOfCrossing(hBoxes, vBoxes, band.0)
      && LineTopOfCrossing(hBoxes, vBoxes, band.1)
  {
    var lines := StructureLines(hBoxes, vBoxes);
    RowBandAt(lines, i);
    LineOfCrossing(hBoxes, vBoxes, lines[i]);
    LineOfCrossing(hBoxes, vBoxes, lines[i + 1]);
  }

  /** Band i runs from the top of line i to the top of line i + 1. */
  lemma RowBandAt(lines: seq<Rect>, i: int)
    requires 0 <= i < |RowBands(lines)|
    ensures i + 1 < |lines| && RowBands(lines)[i] == (lines[i].y1, lines[i + 1].y1)
  {
  }

  /** y is the top of a horizontal contour box wider than 10 px touching a vertical one taller than 10 px. */
  ghost predicate LineTopOfCrossing(hBoxes: seq<Box>, vBoxes: seq<Box>, y: int) {
    exists i, j :: 0 <= i < |hBoxes| && 0 <= j < |vBoxes|
      && hBoxes[i].w > MinLineLength && vBoxes[j].h > MinLineLength
      && Touches(BoxToRect(hBoxes[i]), BoxToRect(vBoxes[j])) && hBoxes[i].y == y
  }

  lemma LineOfCrossing(hBoxes: seq<Box>, vBoxes: seq<Box>, x: Rect)
    requires x in StructureLines(hBoxes, vBoxes)
    ensures LineTopOfCrossing(hBoxes, vBoxes, x.y1)
  {
    var horizontal, vertical := HorizontalCandidates(hBoxes), VerticalCandidates(vBoxes);
    var crossing := CrossingLines(horizontal, vertical);
    SortByMembers(crossing, Top, x);
    CrossingLinesSubsequence(horizontal, vertical);
    var k :| 0 <= k < |crossing| && crossing[k] == x;
    var p := KeptPositions(horizontal, vertical)[k];
    assert horizontal[p] == x;
    assert x in horizontal;
    var i :| 0 <= i < |hBoxes| && hBoxes[i].w > MinLineLength && BoxToRect(hBoxes[i]) == x;
    var j :| 0 <= j < |vertical| && Touches(x, vertical[j]);
    assert vertical[j] in vertical;
    var j' :| 0 <= j' < |vBoxes| && vBoxes[j'].h > MinLineLength && BoxToRect(vBoxes[j']) == vertical[j];
    assert Touches(BoxToRect(hBoxes[i]), BoxToRect(vBoxes[j'])) && hBoxes[i].y == x.y1;
  }

  // ---------------------------------------------------------------------------
  // Cells inside one band

  /**
    Number of rows Python's `thresh[start:end]` keeps from `height` rows: negative bounds
    count from the end, and both bounds are clamped to [0, height].
  */
  function SliceLength(start: int, end: int, height: nat): (n: nat)
    ensures n <= height
  {
    var s := Clamp(if start < 0 then start + height else start, height);
    var e := Clamp(if end < 0 then end + height else end, height);
    if e > s then e - s else 0
  }

  function Clamp(i: int, height: nat): (c: nat)
    ensures c <= height
  {
    if i < 0 then 0 else if i > height then height else i
  }

  /** `row_image.size == 0` for the strip of a `height` x `width` image. */
  predicate StripIsEmpty(height: nat, width: nat, rowStart: int, rowEnd: int) {
    SliceLength(rowStart, rowEnd, height) == 0 || width == 0
  }

  function Ident(x: int): int {
    x
  }

  /** Cells between consecutive x positions, each spanning the whole band. */
  function CellsBetween(xs: seq<int>, rowStart: int, rowEnd: int): seq<Rect> {
    if |xs| == 0 then []
    else seq(|xs| - 1, i requires 0 <= i < |xs| - 1 => Rect(xs[i], rowStart, xs[i + 1], rowEnd))
  }

  /**
    `_detect_vertical_lines_in_row`: no cell for an empty strip; otherwise the x positions
    of the strip's vertical contours, sorted, delimit the cells.
  */
  function CellsInRow(height: nat, width: nat, rowStart: int, rowEnd: int, xs: seq<int>): (cells: seq<Rect>)
    ensures StripIsEmpty(height, width, rowStart, rowEnd) ==> cells == []
    ensures |cells| <= |xs|
    ensures forall c :: c in cells ==> c.y1 == rowStart && c.y2 == rowEnd
  {
    if StripIsEmpty(height, width, rowStart, rowEnd) then []
    else CellsBetween(SortBy(xs, Ident), rowStart, rowEnd)
  }

  /**
    For bounds inside the image (0 <= start, end <= height) the strip is empty exactly when
    the band has no height or the image has no width.
  */
  lemma StripIsEmptyInside(height: nat, width: nat, rowStart: int, rowEnd: int)
    requires 0 <= rowStart && 0 <= rowEnd <= height
    ensures StripIsEmpty(height, width, rowStart, rowEnd) <==> rowEnd <= rowStart || width == 0
  {
  }

  /** A band whose two edges coincide never yields a cell, whatever the bounds. */
  lemma FlatBandHasNoCells(height: nat, width: nat, y: int, xs: seq<int>)
    ensures CellsInRow(height, width, y, y, xs) == []
  {
  }

  ghost predicate Ascending(xs: seq<int>) {
    forall i, j :: 0 <= i < j < |xs| ==> xs[i] <= xs[j]
  }

  /** `sorted(lines)` on plain integers: ascending, and the same positions. */
  lemma SortedPositions(xs: seq<int>)
    ensures Ascending(SortBy(xs, Ident))
    ensures multiset(SortBy(xs, Ident)) == multiset(xs)
  {
    var sorted := SortBy(xs, Ident);
    forall i, j | 0 <= i < j < |sorted| ensures sorted[i] <= sorted[j] {
      assert Ident(sorted[i]) <= Ident(sorted[j]);
    }
  }

  /**
    k ascending positions give k - 1 cells (none for none), each spanning the band,
    adjacent cells sharing their vertical edge, from the first position to the last.
  */
  lemma CellsBetweenShape(xs: seq<int>, rowStart: int, rowEnd: int)
    requires Ascending(xs)
    ensures var cells := CellsBetween(xs, rowStart, rowEnd);
      && |cells| == (if |xs| == 0 then 0 else |xs| - 1)
      && (forall i :: 0 <= i < |cells| ==> cells[i].y1 == rowStart && cells[i].y2 == rowEnd)
      && (forall i :: 0 <= i < |cells| ==> cells[i].x1 <= cells[i].x2)
      && (forall i :: 0 <= i < |cells| - 1 ==> cells[i].x2 == cells[i + 1].x1)
      && (|cells| > 0 ==> cells[0].x1 == xs[0] && cells[|cells| - 1].x2 == xs[|xs| - 1])
  {
  }

  /**
    A non-empty strip with k contour positions gives k - 1 cells (none for none), ordered
    left to right, each spanning the band, adjacent cells sharing their vertical edge, the
    first starting at the leftmost position and the last ending at the rightmost.
  */
  lemma CellsInRowShape(height: nat, width: nat, rowStart: int, rowEnd: int, xs: seq<int>)
    requires !StripIsEmpty(height, width, rowStart, rowEnd)
    ensures var cells, sorted := CellsInRow(height, width, rowStart, rowEnd, xs), SortBy(xs, Ident);
      && |cells| == (if |xs| == 0 then 0 else |xs| - 1)
      && (forall i :: 0 <= i < |cells| ==> cells[i].y1 == rowStart && cells[i].y2 == rowEnd)
      && (forall i :: 0 <= i < |cells| ==> cells[i].x1 <= cells[i].x2)
      && (forall i :: 0 <= i < |cells| - 1 ==> cells[i].x2 == cells[i + 1].x1)
      && (|cells| > 0 ==> cells[0].x1 == sorted[0] && cells[|cells| - 1].x2 == sorted[|sorted| - 1])
  {
    SortedPositions(xs);
    CellsBetweenShape(SortBy(xs, Ident), rowStart, rowEnd);
  }

  /** The leftmost and rightmost sorted positions are the minimum and maximum of the contour xs. */
  lemma SortedEnds(xs: seq<int>)
    requires |xs| > 0
    ensures var sorted := SortBy(xs, Ident);
      && sorted[0] in xs && sorted[|sorted| - 1] in xs
      && forall x :: x in xs ==> sorted[0] <= x <= sorted[|sorted| - 1]
  {
    var sorted := SortBy(xs, Ident);
    SortedPositions(xs);
    SortByMembers(xs, Ident, sorted[0]);
    SortByMembers(xs, Ident, sorted[|sorted| - 1]);
    forall x | x in xs ensures sorted[0] <= x <= sorted[|sorted| - 1] {
      SortByMembers(xs, Ident, x);
      var k :| 0 <= k < |sorted| && sorted[k] == x;
      AscendingBounds(sorted, k);
    }
  }

  lemma AscendingBounds(xs: seq<int>, k: int)
    requires Ascending(xs) && 0 <= k < |xs|
    ensures xs[0] <= xs[k] <= xs[|xs| - 1]
  {
  }

  // ---------------------------------------------------------------------------
  // The whole table

  /** The lists one after another: `all_cells.extend(cells)` over the bands. */
  function Flatten(parts: seq<seq<Rect>>): seq<Rect> {
    if parts == [] then [] else Flatten(parts[..|parts| - 1]) + parts[|parts| - 1]
  }

  /** A cell is in the concatenation exactly when it is in one of the lists. */
  lemma {:induction false} FlattenMembers(parts: seq<seq<Rect>>, c: Rect)
    ensures c in Flatten(parts) <==> exists i :: 0 <= i < |parts| && c in parts[i]
  {
    if parts != [] {
      var n := |parts|;
      var init := parts[..n - 1];
      FlattenMembers(init, c);
      if c in Flatten(init) {
        var i :| 0 <= i < |init| && c in init[i];
        assert parts[i] == init[i];
      } else if c !in parts[n - 1] {
        forall i | 0 <= i < n - 1
          ensures c !in parts[i]
        {
          assert parts[i] == init[i];
        }
      }
    }
  }

  /** The cells of band i of the table. */
  function BandCells(height: nat, width: nat, rows: seq<Band>, contourXs: (int, int) -> seq<int>, i: int): seq<Rect>
    requires 0 <= i < |rows|
  {
    CellsInRow(height, width, rows[i].0, rows[i].1, contourXs(rows[i].0, rows[i].1))
  }

  /** The cells of each band, band by band. */
  function BandCellLists(height: nat, width: nat, rows: seq<Band>, contourXs: (int, int) -> seq<int>): (parts: seq<seq<Rect>>)
    ensures |parts| == |rows|
  {
    seq(|rows|, i requires 0 <= i < |rows| => BandCells(height, width, rows, contourXs, i))
  }

  /** Cells of every band, band after band, each band's cells left to right. */
  function StructureCells(height: nat, width: nat, rows: seq<Band>, contourXs: (int, int) -> seq<int>): seq<Rect> {
    Flatten(BandCellLists(height, width, rows, contourXs))
  }

  /**
    `detect_table_structure`: `contourXs(top, bottom)` stands for the x positions of the
    vertical contours found in that strip.
  */
  method DetectTableStructure(height: nat, width: nat, hBoxes: seq<Box>, vBoxes: seq<Box>, contourXs: (int, int) -> seq<int>)
    returns (allCells: seq<Rect>)
    ensures allCells == StructureCells(height, width, RowBands(StructureLines(hBoxes, vBoxes)), contourXs)
  {
    var rows := DetectHorizontalLinesStructure(hBoxes, vBoxes);
    ghost var parts := BandCellLists(height, width, rows, contourXs);
    allCells := [];
    var i := 0;
    while i < |rows|
      invariant 0 <= i <= |rows|
      invariant allCells == Flatten(parts[..i])
    {
      var cells := CellsInRow(height, width, rows[i].0, rows[i].1, contourXs(rows[i].0, rows[i].1));
      assert cells == parts[i];
      assert parts[..i + 1][..i] == parts[..i];
      allCells := allCells + cells;
      i := i + 1;
    }
    assert parts[..i] == parts;
  }

  /** A cell belongs to the table exactly when it is a cell of one of the bands. */
  lemma StructureCellsMembers(height: nat, width: nat, rows: seq<Band>, contourXs: (int, int) -> seq<int>, c: Rect)
    ensures c in StructureCells(height, width, rows, contourXs)
      <==> exists i :: 0 <= i < |rows| && c in BandCells(height, width, rows, contourXs, i)
  {
    var parts := BandCellLists(height, width, rows, contourXs);
    FlattenMembers(parts, c);
    if exists i :: 0 <= i < |rows| && c in BandCells(height, width, rows, contourXs, i) {
      var i :| 0 <= i < |rows| && c in BandCells(height, width, rows, contourXs, i);
      assert c in parts[i];
    }
  }

  /**
    Every cell of the table lies within one band of consecutive crossing rulings: its top
    and bottom are that band's edges, top above bottom, and its left edge is at or before
    its right edge.
  */
  lemma StructureCellInBand(height: nat, width: nat, hBoxes: seq<Box>, vBoxes: seq<Box>, contourXs: (int, int) -> seq<int>, c: Rect)
    requires c in StructureCells(height, width, RowBands(StructureLines(hBoxes, vBoxes)), contourXs)
    ensures c.x1 <= c.x2 && c.y1 <= c.y2
    ensures exists i ::
      && 0 <= i < |RowBands(StructureLines(hBoxes, vBoxes))|
      && (c.y1, c.y2) == RowBands(StructureLines(hBoxes, vBoxes))[i]
  {
    var rows := RowBands(StructureLines(hBoxes, vBoxes));
    RowBandsShape(StructureLines(hBoxes, vBoxes));
    StructureCellsMembers(height, width, rows, contourXs, c);
    var i :| 0 <= i < |rows| && c in BandCells(height, width, rows, contourXs, i);
    CellsInRowShape(height, width, rows[i].0, rows[i].1, contourXs(rows[i].0, rows[i].1));
  }
}
