/**
  The shared pieces of the table detector: spreadsheet cell names, the post-processing of
  the line detectors (length filter and sort), the filter that keeps horizontal rulings
  touching a vertical one, and the stretching of rulings to the full image.
  The morphological line extraction itself (threshold, opening, contours) is not modelled:
  its output, the contour bounding boxes, is the input here.
*/
module TableDetector {
  import opened Geometry
  import opened Sorting
  import opened Decimal

  /** Minimum length, exclusive, of a detected ruling (`w > 10`, `h > 10`). */
  const MinLineLength := 10

  // ---------------------------------------------------------------------------
  // Cell names

  /** Bijective base-26 column letters: 1 -> "A", 26 -> "Z", 27 -> "AA"; none for col <= 0. */
  function ColumnLetters(col: int): (letters: string)
    ensures |letters| == 0 <==> col <= 0
    decreases col
  {
    if col <= 0 then ""
    else ColumnLetters((col - 1) / 26) + [('A' as int + (col - 1) % 26) as char]
  }

  /** The label `excel_cell_name(row, col)` builds: column letters, then the row in decimal. */
  function CellName(row: int, col: int): string {
    ColumnLetters(col) + IntToString(row)
  }

  predicate IsUpper(c: char) {
    'A' <= c <= 'Z'
  }

  /** `excel_cell_name`: peels off base-26 digits, least significant first, prepending each. */
  method ExcelCellName(row: int, col: int) returns (name: string)
    ensures name == CellName(row, col)
  {
    var c := col;
    var colName := "";
    while c > 0
      invariant ColumnLetters(c) + colName == ColumnLetters(col)
      decreases c
    {
      var q, remainder := (c - 1) / 26, (c - 1) % 26;
      colName := [(65 + remainder) as char] + colName;
      c := q;
    }
    name := colName + IntToString(row);
  }

  /** Every column letter is in 'A'..'Z'; there is at least one exactly when col >= 1. */
  lemma {:induction false} ColumnLettersShape(col: int)
    ensures forall i :: 0 <= i < |ColumnLetters(col)| ==> IsUpper(ColumnLetters(col)[i])
    ensures |ColumnLetters(col)| == 0 <==> col <= 0
    decreases col
  {
    if col > 0 {
      ColumnLettersShape((col - 1) / 26);
    }
  }

  lemma ColumnLettersExamples()
    ensures ColumnLetters(1) == "A" && ColumnLetters(26) == "Z" && ColumnLetters(27) == "AA"
    ensures ColumnLetters(52) == "AZ" && ColumnLetters(53) == "BA"
  {
  }

  // ---------------------------------------------------------------------------
  // Line detectors, after the contour step

  /** `[(x, y, x+w, y+h) for (x, y, w, h) in boxes if w > 10]`. */
  function HorizontalCandidates(boxes: seq<Box>): (r: seq<Rect>)
    ensures |r| <= |boxes|
    ensures forall x :: x in r <==> exists i :: 0 <= i < |boxes| && boxes[i].w > MinLineLength && BoxToRect(boxes[i]) == x
  {
    if boxes == [] then []
    else
      var init := boxes[..|boxes| - 1];
      var last := boxes[|boxes| - 1];
      assert forall i :: 0 <= i < |init| ==> init[i] == boxes[i];
      HorizontalCandidates(init) + (if last.w > MinLineLength then [BoxToRect(last)] else [])
  }

  /** `[(x, y, x+w, y+h) for (x, y, w, h) in boxes if h > 10]`. */
  function VerticalCandidates(boxes: seq<Box>): (r: seq<Rect>)
    ensures |r| <= |boxes|
    ensures forall x :: x in r <==> exists i :: 0 <= i < |boxes| && boxes[i].h > MinLineLength && BoxToRect(boxes[i]) == x
  {
    if boxes == [] then []
    else
      var init := boxes[..|boxes| - 1];
      var last := boxes[|boxes| - 1];
      assert forall i :: 0 <= i < |init| ==> init[i] == boxes[i];
      VerticalCandidates(init) + (if last.h > MinLineLength then [BoxToRect(last)] else [])
  }

  /** `detect_horizontal_lines` after the contours: the long-enough boxes, sorted by top y. */
  function DetectHorizontalLines(boxes: seq<Box>): (r: seq<Rect>)
    ensures SortedBy(r, Top)
    ensures multiset(r) == multiset(HorizontalCandidates(boxes))
    ensures forall x :: x in r <==> exists i :: 0 <= i < |boxes| && boxes[i].w > MinLineLength && BoxToRect(boxes[i]) == x
  {
    var cands := HorizontalCandidates(boxes);
    var r := SortBy(cands, Top);
    assert forall x :: x in r <==> x in cands by {
      forall x { SortByMembers(cands, Top, x); }
    }
    r
  }

  /** `detect_vertical_lines` after the contours: the tall-enough boxes, sorted by left x. */
  function DetectVerticalLines(boxes: seq<Box>): (r: seq<Rect>)
    ensures SortedBy(r, Left)
    ensures multiset(r) == multiset(VerticalCandidates(boxes))
    ensures forall x :: x in r <==> exists i :: 0 <= i < |boxes| && boxes[i].h > MinLineLength && BoxToRect(boxes[i]) == x
  {
    var cands := VerticalCandidates(boxes);
    var r := SortBy(cands, Left);
    assert forall x :: x in r <==> x in cands by {
      forall x { SortByMembers(cands, Left, x); }
    }
    r
  }

  // ---------------------------------------------------------------------------
  // Keeping the horizontal rulings that touch a vertical one

  /**
    The test of the filter loop: the two boxes are not apart on either axis, i.e.
    h.x1 <= v.x2 && v.x1 <= h.x2 && h.y1 <= v.y2 && v.y1 <= h.y2 (touching counts).
  */
  predicate Touches(h: Rect, v: Rect)
    ensures h.x1 <= v.x1 <= h.x2 && v.x1 <= v.x2 && v.y1 <= h.y1 <= h.y2 <= v.y2 ==> Touches(h, v)
    ensures Touches(h, v) ==> h.x1 <= v.x2 && v.x1 <= h.x2
  {
    !(h.x2 < v.x1 || h.x1 > v.x2) && !(h.y1 > v.y2 || h.y2 < v.y1)
  }

  predicate CrossesAny(h: Rect, vs: seq<Rect>) {
    exists j :: 0 <= j < |vs| && Touches(h, vs[j])
  }

  /** The horizontals, in input order, that touch at least one vertical. */
  function CrossingLines(hs: seq<Rect>, vs: seq<Rect>): (kept: seq<Rect>)
    ensures |kept| <= |hs|
  {
    if hs == [] then []
    else
      var last := hs[|hs| - 1];
      CrossingLines(hs[..|hs| - 1], vs) + (if CrossesAny(last, vs) then [last] else [])
  }

  /** Positions in `hs` of the lines `CrossingLines` keeps, in increasing order. */
  ghost function KeptPositions(hs: seq<Rect>, vs: seq<Rect>): seq<nat> {
    if hs == [] then []
    else KeptPositions(hs[..|hs| - 1], vs) + (if CrossesAny(hs[|hs| - 1], vs) then [|hs| - 1] else [])
  }

  /**
    The nested loop with `break`: each horizontal is appended at most once, as soon as
    the first vertical it touches is found.
  */
  method FilterCrossing(hs: seq<Rect>, vs: seq<Rect>) returns (filtered: seq<Rect>)
    ensures filtered == CrossingLines(hs, vs)
  {
    filtered := [];
    for i := 0 to |hs|
      invariant filtered == CrossingLines(hs[..i], vs)
    {
      var h := hs[i];
      assert hs[..i + 1][..i] == hs[..i];
      var j := 0;
      var found := false;
      while j < |vs|
        invariant 0 <= j <= |vs|
        invariant !found ==> forall k :: 0 <= k < j ==> !Touches(h, vs[k])
        invariant found ==> CrossesAny(h, vs)
        invariant filtered == CrossingLines(hs[..i], vs) + (if found then [h] else [])
        decreases |vs| - j, !found
      {
        if Touches(h, vs[j]) {
          filtered := filtered + [h];
          found := true;
          break;
        }
        j := j + 1;
      }
    }
    assert hs[..|hs|] == hs;
  }

  /**
    The filter keeps exactly the crossing horizontals, as an order-preserving
    subsequence: the k-th kept line is the line at the k-th crossing position.
  */
  lemma {:induction false} CrossingLinesSubsequence(hs: seq<Rect>, vs: seq<Rect>)
    ensures var kept, pos := CrossingLines(hs, vs), KeptPositions(hs, vs);
      && |pos| == |kept|
      && (forall k :: 0 <= k < |pos| ==> pos[k] < |hs| && kept[k] == hs[pos[k]])
      && (forall k, l :: 0 <= k < l < |pos| ==> pos[k] < pos[l])
      && (forall i :: 0 <= i < |hs| ==> (i in pos <==> CrossesAny(hs[i], vs)))
  {
    if hs != [] {
      var init := hs[..|hs| - 1];
      CrossingLinesSubsequence(init, vs);
      assert forall i :: 0 <= i < |init| ==> init[i] == hs[i];
    }
  }

  /** A kept line crosses some vertical, and the filter keeps each input occurrence at most once. */
  lemma {:induction false} CrossingLinesMultiplicity(hs: seq<Rect>, vs: seq<Rect>, x: Rect)
    ensures multiset(CrossingLines(hs, vs))[x] == if CrossesAny(x, vs) then multiset(hs)[x] else 0
  {
    if hs != [] {
      var init := hs[..|hs| - 1];
      CrossingLinesMultiplicity(init, vs, x);
      assert hs == init + [hs[|hs| - 1]];
    }
  }

  /** Filtering keeps the input's order, whatever the key it was sorted by. */
  lemma CrossingLinesKeepSorted(hs: seq<Rect>, vs: seq<Rect>, key: Rect -> int)
    requires SortedBy(hs, key)
    ensures SortedBy(CrossingLines(hs, vs), key)
  {
    CrossingLinesSubsequence(hs, vs);
  }

  // ---------------------------------------------------------------------------
  // Stretching to the whole image

  /** Each kept horizontal becomes the full-width line `(0, y1, width, y1)` at its top y. */
  function StretchHorizontal(hs: seq<Rect>, width: int): (r: seq<Rect>)
    ensures |r| == |hs|
    ensures SortedBy(hs, Top) ==> SortedBy(r, Top)
  {
    seq(|hs|, i requires 0 <= i < |hs| => Rect(0, hs[i].y1, width, hs[i].y1))
  }

  /** Each vertical becomes the full-height line `(x1, 0, x1, height)` at its left x. */
  function StretchVertical(vs: seq<Rect>, height: int): (r: seq<Rect>)
    ensures |r| == |vs|
    ensures SortedBy(vs, Left) ==> SortedBy(r, Left)
  {
    seq(|vs|, i requires 0 <= i < |vs| => Rect(vs[i].x1, 0, vs[i].x1, height))
  }
}
