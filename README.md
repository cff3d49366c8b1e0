# Table transformer, modelled in Dafny

The table transformer takes a photographed or scanned table and rebuilds it as an
Excel workbook. It works in four stages.

1. **Detecting the grid** (`TableDetector`). The program finds the horizontal and
   vertical rulings of the table. It keeps lines longer than 10 px and drops
   horizontals that touch no vertical. It stretches what is left across the whole
   image. Consecutive rulings then give bands, and a band pair at least 10 px each
   way becomes a cell. Cells are grouped into rows by the midpoint of their band and
   labelled `A1`, `B1`, … row by row.
2. **Associating cells** (`TableAssociator`). Each table cell is matched with every
   grid cell that lies inside it, within a 5 px tolerance.
3. **Reading text** (`ImageTextExtractor`). The program reads the text of each
   associated table cell, strips it, and maps it to the cells' labels.
4. **Building the workbook** (`ExcelHelper`). The program borders the lattice of
   cells, merges each group of labels, writes the text into the group's top-left
   cell, and sets column widths and row heights.

`Cropper` pads a box and clips it to the image.

The model has one module per source file. Pure computations are functions, with
lemmas about them. The step-by-step loops of the source are methods with loop
invariants, each proved equal to the function that specifies it. Examples are
`DetectGrid`, `FilterCrossing`, `GroupCellsByRow`, `LabelCells`,
`CreateAssociatedCells`, `CreateTextToCells`, `BorderCells` and `ExcelCellName`.
The openpyxl worksheet is a class, `ExcelHelper.Worksheet`. Its fields are the
merged ranges, the cell values, the column widths and the row heights, and its
methods update them in place.

The modules that support this are as follows:
- `Geometry` holds boxes `(x, y, w, h)` and rectangles `(x1, y1, x2, y2)`.
- `Sorting` is Python's `sorted` with a key, as an insertion sort.
- `OrderedMaps` is a Python `dict`: an insertion-ordered list of pairs, where
  assigning to an existing key keeps its position.
- `Decimal` renders and parses decimal numbers.
- `Results` is an error-or-value type for the source's exceptions.

## Model

| member | source | states |
|---|---|---|
| TableDetector.ColumnLetters | TableDetector.py:19-22 | the column letters are empty exactly when the column is not positive |
| TableDetector.ExcelCellName | TableDetector.py:18-23 | the base-26 letter loop yields exactly the bijective column letters followed by the decimal row |
| TableDetector.ColumnLettersShape | TableDetector.py:20-22 | the column part is upper-case letters only, and it is empty exactly when the column is not positive |
| TableDetector.ColumnLettersExamples | TableDetector.py:20-22 | columns 1, 26, 27, 52 and 53 are named A, Z, AA, AZ and BA |
| TableDetector.HorizontalCandidates | TableDetector.py:33-34 | a rectangle is kept exactly when it comes from a box wider than 10 px |
| TableDetector.VerticalCandidates | TableDetector.py:45-46 | a rectangle is kept exactly when it comes from a box taller than 10 px |
| TableDetector.DetectHorizontalLines | TableDetector.py:25-35 | the result is ordered by top edge, is a permutation of the kept lines, and holds exactly the boxes wider than 10 px |
| TableDetector.DetectVerticalLines | TableDetector.py:37-47 | the result is ordered by left edge, is a permutation of the kept lines, and holds exactly the boxes taller than 10 px |
| TableDetector.FilterCrossing | TableDetector.py:54-61 | the nested loop with early break keeps the same lines as the crossing filter |
| TableDetector.Touches | TableDetector.py:59 | a vertical whose x lies within the horizontal's span, and whose y range covers the horizontal, touches it; lines that touch overlap in x |
| TableDetector.CrossingLinesSubsequence | TableDetector.py:54-61 | the kept lines are the horizontals at increasing positions, and a position is kept exactly when that line touches some vertical |
| TableDetector.CrossingLinesMultiplicity | TableDetector.py:54-61 | a line that touches a vertical keeps all its copies; one that touches none keeps none |
| TableDetector.CrossingLinesKeepSorted | TableDetector.py:54-61 | filtering keeps any order the input had |
| TableDetector.StretchHorizontal | TableDetector.py:63-64 | stretching keeps one line per input and keeps order by top edge |
| TableDetector.StretchVertical | TableDetector.py:65-66 | stretching keeps one line per input and keeps order by left edge |
| Sorting.SortBy | TableDetector.py:35 | the result is ordered by the key and is a permutation of the input |
| Sorting.SortOfSortedIsIdentity | TableDetector.py:91 | sorting leaves an already ordered list unchanged, as Python's stable sort does |
| Sorting.SortByMembers | TableDetector.py:178 | sorting keeps exactly the same members |
| Decimal.NatToString | TableDetector.py:23 | a row number is written as one or more digits with no leading zero |
| Decimal.ParseNatToString | ExcelHelper.py:41-42 | reading back the digits of a written row gives the row |
| GridBuilder.DetectGrid | TableDetector.py:49-115 | the whole `detect_grid` pipeline after the contours computes the labelled grid of the stretched rulings |
| GridBuilder.StretchLines | TableDetector.py:50-69 | the first half of `detect_grid` gives the stretched, crossing-filtered rulings, sorted by top and by left edge |
| GridBuilder.CutAndLabel | TableDetector.py:74-111 | the second half of `detect_grid` gives the labelled grid of any rulings sorted by top edge |
| GridBuilder.Grid | TableDetector.py:49-115 | the returned dictionary never repeats a label, and it holds exactly rows times columns cells |
| GridBuilder.StretchedAlreadySorted | TableDetector.py:68-69 | sorting the stretched lines again changes nothing |
| GridBuilder.AddRowCells | TableDetector.py:79-89 | one horizontal band adds its row of cells under the band's midpoint key, or nothing when the band is under 10 px or no column is wide enough |
| GridBuilder.GroupCellsByRow | TableDetector.py:74-89 | the double loop builds the row dictionary for the tall bands and the wide bands |
| GridBuilder.TallBandsUpToShape | TableDetector.py:78-84 | every kept row band spans two consecutive horizontals, is at least 10 px tall, and lies above the later bands |
| GridBuilder.WideBandsUpToShape | TableDetector.py:81-84 | every kept column band spans two consecutive verticals and is at least 10 px wide |
| GridBuilder.MidsIncrease | TableDetector.py:86 | each new row band has a larger midpoint than all the bands before it |
| GridBuilder.RowKeyIsNew | TableDetector.py:86-88 | a new band's midpoint is never already a row key, so no row is merged into another |
| GridBuilder.RowEntriesStrictlySorted | TableDetector.py:91 | the row keys come out strictly increasing, so sorting the rows changes nothing |
| GridBuilder.LabelCells | TableDetector.py:103-111 | the labelling loop gives every cell of row r and column c the label of (r+1, c+1), in row-major order |
| GridBuilder.LabelRowInto | TableDetector.py:105-111 | labelling one row appends that row's labelled cells, each label new to the dictionary |
| GridBuilder.LabelPosition | TableDetector.py:108 | the row and column can be read back from a label |
| GridBuilder.LabelledPositions | TableDetector.py:104-108 | every label names a row between 1 and the row count and a column of at least 1 |
| GridBuilder.LabelledAt | TableDetector.py:104-111 | the cell in row r and column c is in the dictionary under the label of (r+1, c+1) |
| GridBuilder.LabelledEntry | TableDetector.py:104-111 | every entry of the dictionary is some cell under the label of its own row and column |
| GridBuilder.GridEntry | TableDetector.py:84-111 | every grid entry is the rectangle of a row band and a column band, labelled with their positions |
| GridBuilder.GridHasCell | TableDetector.py:84-111 | every pair of a tall band and a wide band gives a cell of the grid |
| GridBuilder.GridSize | TableDetector.py:84-111 | the grid holds exactly rows times columns cells |
| GridBuilder.GridCellAt | TableDetector.py:103-111 | entry k is row k div C and column k mod C, where C is the number of columns |
| GridBuilder.TallBandAt | TableDetector.py:78-84 | each row band is at least 10 px tall and spans two consecutive horizontals |
| GridBuilder.WideBandAt | TableDetector.py:81-84 | each column band is at least 10 px wide and spans two consecutive verticals |
| GridBuilder.GridCellsLargeEnough | TableDetector.py:84 | every grid cell is at least 10 px wide and 10 px tall |
| GridBuilder.GridCellsFromConsecutiveLines | TableDetector.py:78-85 | every cell's edges are two consecutive horizontals and two consecutive verticals |
| GridBuilder.TallBandsOrdered | TableDetector.py:78-80 | earlier row bands end above later ones start |
| GridBuilder.GridEntryPosition | TableDetector.py:103-111 | an entry's label names the row and column of its rectangle's bands |
| GridBuilder.GridSameRow | TableDetector.py:84-89 | cells labelled in the same row share their top and bottom edges |
| GridBuilder.GridSameColumn | TableDetector.py:81-85 | cells labelled in the same column share their left and right edges |
| GridBuilder.GridRowsDoNotOverlap | TableDetector.py:78-92 | a cell in an earlier row ends above any cell in a later row |
| GridBuilder.GridLabelsDiffer | TableDetector.py:108-111 | two entries never carry the same label |
| GridBuilder.GridLabelsUnique | TableDetector.py:108-111 | no label is written twice, so no cell overwrites another |
| GridBuilder.GridLabelledCell | TableDetector.py:104-111 | the cell of bands r and c sits in the grid under the label of (r+1, c+1) |
| GridBuilder.GridLabelSet | TableDetector.py:103-111 | the labels are exactly those of the rows-by-columns rectangle starting at A1 |
| GridBuilder.GridSheetSize | ExcelHelper.py:17-18 | the sheet size read from the grid's labels is its band counts |
| GridBuilder.GridKeyPosition | ExcelHelper.py:37-44 | every grid label splits into a row and a column inside the grid |
| GridBuilder.GridKeyAt | ExcelHelper.py:37-44 | every position of the grid is named by some label |
| StructureDetector.StructureLines | TableDetector.py:150-164 | the kept lines are ordered by top edge, and each is a horizontal candidate that touches some vertical candidate |
| StructureDetector.RowBands | TableDetector.py:165-168 | one band fewer than lines, and each band starts where the previous one ends |
| StructureDetector.DetectHorizontalLinesStructure | TableDetector.py:145-169 | the rows are the bands between consecutive crossing horizontals in top-edge order |
| StructureDetector.RowBandsShape | TableDetector.py:164-168 | there is one band fewer than lines; the bands are contiguous, non-inverted, and run from the first line to the last |
| StructureDetector.RowBandAt | TableDetector.py:165-168 | band i runs from line i's top to line i+1's top |
| StructureDetector.RowBandEdges | TableDetector.py:156-168 | both edges of every band are the top of a detected horizontal that touches a vertical |
| StructureDetector.LineOfCrossing | TableDetector.py:156-163 | every line kept for the structure touches some vertical |
| StructureDetector.SliceLength | TableDetector.py:172 | a row slice of the image is never taller than the image |
| StructureDetector.Clamp | TableDetector.py:172 | a slice bound, clamped as numpy clamps it, never exceeds the image height |
| StructureDetector.StripIsEmptyInside | TableDetector.py:172-174 | for bounds inside the image, the strip is empty exactly when the band is flat or inverted or the image has no width |
| StructureDetector.FlatBandHasNoCells | TableDetector.py:172-174 | a band of zero height yields no cells |
| StructureDetector.SortedPositions | TableDetector.py:178 | the contour positions are put in ascending order, keeping every position |
| StructureDetector.CellsBetweenShape | TableDetector.py:179 | ascending positions give one cell fewer than positions, spanning the band and tiling from the first position to the last |
| StructureDetector.CellsInRow | TableDetector.py:171-180 | an empty strip gives no cell; otherwise there are never more cells than contour positions, and every cell spans exactly the band's rows |
| StructureDetector.CellsInRowShape | TableDetector.py:171-180 | a non-empty strip gives contiguous cells spanning the band, from the smallest contour position to the largest |
| StructureDetector.SortedEnds | TableDetector.py:178 | the first and last sorted positions are the least and greatest contour positions |
| StructureDetector.FlattenMembers | TableDetector.py:125 | extending the list keeps exactly the cells of every row |
| StructureDetector.BandCellLists | TableDetector.py:123-125 | one list of cells per row band |
| StructureDetector.DetectTableStructure | TableDetector.py:117-143 | the loop over row bands collects the cells of each band in order |
| StructureDetector.StructureCellsMembers | TableDetector.py:123-125 | a cell is in the structure exactly when it is among the cells of some band |
| StructureDetector.StructureCellInBand | TableDetector.py:117-180 | every structure cell is non-inverted and spans exactly one row band |
| TableAssociator.IsWithin | TableAssociator.py:8-14 | a non-degenerate cell that lies inside the table cell matches it at any tolerance of zero or more |
| TableAssociator.Matches | TableAssociator.py:19-20 | the matched labels are labels of the dictionary, never more than it has |
| TableAssociator.IsWithinMonotone | TableAssociator.py:8-14 | widening the tolerance never loses a match |
| TableAssociator.IsWithinExact | TableAssociator.py:8-14 | with zero tolerance, a non-degenerate cell matches exactly when it lies inside the table cell |
| TableAssociator.IsWithinReflexive | TableAssociator.py:8-14 | a non-degenerate cell matches itself at any tolerance of zero or more |
| TableAssociator.IsWithinWidened | TableAssociator.py:8-14 | a match lies inside the table cell grown by the tolerance on every side |
| TableAssociator.AddMatches | TableAssociator.py:19-23 | the inner loop appends this table cell's matching labels, in dictionary order, creating the entry only on the first match |
| TableAssociator.CreateAssociatedCells | TableAssociator.py:16-26 | the double loop computes the association of every table cell with its matching labels |
| TableAssociator.AssociateGridAndCells | TableAssociator.py:28-36 | the association part gives the same dictionary as `create_associated_cells` |
| TableAssociator.MatchesMembers | TableAssociator.py:19-20 | a label is matched exactly when its cell is within the table cell |
| TableAssociator.MatchesAppend | TableAssociator.py:19-23 | matching over two parts of the dictionary concatenates their matches |
| TableAssociator.MatchesFirst | TableAssociator.py:19-23 | the first matched label is that of the first cell in dictionary order that lies within |
| TableAssociator.ExtendShape | TableAssociator.py:21-23 | adding matches keeps keys unique, adds the key only when there is a match, and appends to its list |
| TableAssociator.AssociateShape | TableAssociator.py:16-23 | keys are unique and are exactly the table cells with a match; a table cell listed n times gets its matches n times over |
| TableAssociator.AssociateNoEmptyList | TableAssociator.py:21-23 | no table cell is associated with an empty list |
| TableAssociator.RepeatNonEmpty | TableAssociator.py:18-23 | repeated matches keep the same first label and the same members |
| TableAssociator.AssociateLabels | TableAssociator.py:16-23 | a table cell's labels are exactly the labels within it, never empty, and the first is the first in dictionary order |
| TableAssociator.AssociateSingle | TableAssociator.py:16-23 | a table cell listed once is associated with exactly its matching labels |
| TableAssociator.Matching | TableAssociator.py:18-22 | a table cell is listed exactly when it matches some grid cell, and the list is never longer than the table cells |
| TableAssociator.AssociateKeyOrder | TableAssociator.py:18-22 | the keys are the matching table cells in the order of their first occurrence, later repeats dropped |
| ImageTextExtractor.LeadingSpaces | ImageTextExtractor.py:16 | counts exactly the whitespace run at the start |
| ImageTextExtractor.TrailingSpaces | ImageTextExtractor.py:16 | counts exactly the whitespace run at the end |
| ImageTextExtractor.Strip | ImageTextExtractor.py:16 | the stripped text is empty or starts and ends with a non-space |
| ImageTextExtractor.StripIsSlice | ImageTextExtractor.py:16 | stripping removes only whitespace, and only from the two ends |
| ImageTextExtractor.StripTrimmed | ImageTextExtractor.py:16 | stripping already trimmed text changes nothing |
| ImageTextExtractor.ExtractText | ImageTextExtractor.py:11-16 | the recognised text of a cell never starts or ends with whitespace |
| ImageTextExtractor.TextPairs | ImageTextExtractor.py:20-21 | one text per associated table cell |
| ImageTextExtractor.CreateTextToCells | ImageTextExtractor.py:18-26 | the loop builds the dictionary that the text pairs give under assignment |
| ImageTextExtractor.TextToCellsShape | ImageTextExtractor.py:18-22 | keys are unique and are the distinct texts in first-seen order; a repeated text holds the labels of its last cell |
| ImageTextExtractor.TextToCellsValues | ImageTextExtractor.py:18-22 | every text maps to the labels of some table cell, and there are never more texts than table cells |
| ImageTextExtractor.TextToCellsKeysTrimmed | ImageTextExtractor.py:16-22 | every key of the result is stripped text |
| ImageTextExtractor.Select | ImageTextExtractor.py:30 | the characters kept all pass the test, and there are never more than in the input |
| ImageTextExtractor.SelectAllOrNone | ImageTextExtractor.py:30 | text whose characters all pass is kept whole, and text whose characters all fail becomes empty |
| ImageTextExtractor.SelectPositions | ImageTextExtractor.py:30 | the kept characters are those at exactly the positions whose character passes the test, in increasing position order |
| ImageTextExtractor.ExtractRowNumber | ImageTextExtractor.py:28-30 | fails exactly when the label has no digit, and otherwise gives a non-negative number |
| ImageTextExtractor.ExtractColumnLetter | ImageTextExtractor.py:32-34 | the result holds only ASCII letters |
| ImageTextExtractor.NoDigitInLetters | ImageTextExtractor.py:30 | column letters contain no digit |
| ImageTextExtractor.RowNumberOfCellName | ImageTextExtractor.py:28-30 | the row number of a generated label is its row |
| ImageTextExtractor.ColumnLetterOfCellName | ImageTextExtractor.py:32-34 | the letters of a generated label are its column letters |
| ImageTextExtractor.ColumnLetterPositions | ImageTextExtractor.py:32-34 | the column letters are the label's characters at exactly its ASCII-letter positions, in order |
| ImageTextExtractor.RowNumberDigits | ImageTextExtractor.py:28-30 | the row number is the decimal value of the label's characters at exactly its digit positions, in order; with no digit it is refused |
| OrderedMaps.PutKeys | ImageTextExtractor.py:22 | assigning keeps the key order and appends only a new key |
| OrderedMaps.PutGet | TableDetector.py:111 | after assigning, the key holds the new value, every other key keeps its value, and keys stay unique |
| OrderedMaps.PutThenGet | TableAssociator.py:22 | a key just assigned reads back the value assigned |
| OrderedMaps.PutPut | ImageTextExtractor.py:22 | assigning the same key twice is the second assignment alone |
| OrderedMaps.FromPairsKeys | ImageTextExtractor.py:20-22 | building a dictionary by assignment gives unique keys: the distinct keys in first-seen order |
| OrderedMaps.FromPairsLastWins | ImageTextExtractor.py:20-22 | a repeated key holds the value of its last assignment |
| ExcelHelper.UpperRun | ExcelHelper.py:39 | the longest prefix of capital letters |
| ExcelHelper.DigitRun | ExcelHelper.py:39 | the longest prefix of digits |
| ExcelHelper.SplitCellName | ExcelHelper.py:37-44 | refused exactly when the label does not start with a capital or its longest capital prefix is not followed by a digit; on success the letters are that longest prefix and the row is non-negative |
| ExcelHelper.SplitCellNameParses | ExcelHelper.py:37-44 | letters, then digits, then anything not a digit, split into those letters and the digits' value |
| ExcelHelper.ColumnIndex | ExcelHelper.py:17 | a column index is never negative, and it is at least 1 for non-empty letters |
| ExcelHelper.ColumnIndexOfLetters | ExcelHelper.py:17 | the column index of a column's letters is that column |
| ExcelHelper.LettersOfColumnIndex | ExcelHelper.py:17 | the letters of the column index of any capital letters are those letters |
| ExcelHelper.ColumnIndexNonNegative | ExcelHelper.py:17 | column indices are non-negative, and positive for non-empty letters |
| ExcelHelper.CellNameRoundTrip | ExcelHelper.py:37-44 | splitting a generated label gives back its column letters and row |
| ExcelHelper.CellNameRefused | ExcelHelper.py:37-44 | a label generated for a negative row or a non-positive column is refused |
| ExcelHelper.CellNameInjective | TableDetector.py:18-23 | distinct positions get distinct labels |
| ExcelHelper.LabelPosition | ExcelHelper.py:57-60 | a label's position fails exactly when the split fails; otherwise the row is non-negative and the column positive |
| ExcelHelper.LabelPositionOfCellName | ExcelHelper.py:57-60 | the position of a generated label is the position it was generated for |
| ExcelHelper.Positions | ExcelHelper.py:17-18 | all labels' positions, failing exactly when some label fails |
| ExcelHelper.MaxOf | ExcelHelper.py:17-18 | the maximum bounds every element and is one of them |
| ExcelHelper.SheetSize | ExcelHelper.py:16-18 | a size exists only for a non-empty set of labels; its row is non-negative and its column at least 1 |
| ExcelHelper.SheetSizeFails | ExcelHelper.py:16-18 | the size fails exactly when there is no label (empty `max`) or some label does not split |
| ExcelHelper.SheetSizeBounds | ExcelHelper.py:17-18 | every label lies within the size, and both maxima are reached |
| ExcelHelper.SheetSizeOfRectangle | ExcelHelper.py:17-18 | labels filling a rectangle whose far row and column are reached give exactly that size |
| ExcelHelper.BorderCells | ExcelHelper.py:29-32 | the loops border exactly the lattice of rows 1..max and columns 1..max |
| ExcelHelper.CreateEmptyExcelFile | ExcelHelper.py:16-35 | fails exactly when the size fails, and otherwise borders the lattice of the size |
| ExcelHelper.LabelsBordered | ExcelHelper.py:16-32 | a label's cell is bordered exactly when its row is at least 1, which holds for every grid label |
| ExcelHelper.MergeRange | ExcelHelper.py:57-60 | an empty label list raises an index error |
| ExcelHelper.MergeRangeOfLabels | ExcelHelper.py:57-60 | the range runs from the first label's position to the last label's |
| ExcelHelper.Cleared | ExcelHelper.py:62-63 | merging drops exactly the values of the cells the block covers other than its top-left one, and keeps every other value unchanged |
| ExcelHelper.WriteGroup | ExcelHelper.py:57-66 | fails exactly when the group gives no range; otherwise the range is added to the merges, and only its top-left cell can gain a value |
| ExcelHelper.WriteGroups | ExcelHelper.py:55-66 | on success, every group adds exactly one merge, and the earlier merges are kept |
| ExcelHelper.WriteGroupText | ExcelHelper.py:57-66 | the group's range is merged, and the text is written at its top-left unless an earlier merge hides that cell |
| ExcelHelper.WriteGroupConsistent | ExcelHelper.py:55-66 | writing a group keeps every value at the top-left cell of a merged block and out of every hidden cell |
| ExcelHelper.WriteGroupsConsistent | ExcelHelper.py:55-66 | writing all the groups keeps every value at the top-left cell of a merged block and out of every hidden cell |
| ExcelHelper.WriteGroupsFails | ExcelHelper.py:55-60 | writing fails exactly when some group's labels do not give a range |
| ExcelHelper.WidenedWidths | ExcelHelper.py:70-76 | columns 1..max get width 10, and all other widths are unchanged |
| ExcelHelper.LineCount | ExcelHelper.py:83-84 | a text has at least one line |
| ExcelHelper.RowHeight | ExcelHelper.py:85 | a row height is at most 1000, at least 12 for any text height of 1 or more, and either the cap or 12 per line |
| ExcelHelper.TextHeight | ExcelHelper.py:79-84 | a row's text height is at least 1 |
| ExcelHelper.TextHeightIsTallest | ExcelHelper.py:79-85 | the text height bounds the line count of every non-empty cell in the row and is 1 or one of them; the row height lies between 12 and 1000 |
| ExcelHelper.HeightenedHeights | ExcelHelper.py:78-85 | rows 1..max get `min(12 * lines, 1000)`, and all other heights are unchanged |
| ExcelHelper.SingleLineRow | ExcelHelper.py:78-85 | a row of single-line cells gets height 12 |
| ExcelHelper.Worksheet.constructor | ExcelHelper.py:49-50 | a loaded sheet of the given extent has no merges, values, widths or heights yet |
| ExcelHelper.Worksheet.MergeCells | ExcelHelper.py:62-63 | records the range and clears the cells it hides; widths and heights are unchanged |
| ExcelHelper.Worksheet.WriteAllGroups | ExcelHelper.py:55-68 | the loop over the text groups reaches the state the group writes specify, and fails exactly when they fail |
| ExcelHelper.Worksheet.SetColumnWidths | ExcelHelper.py:70-76 | sets every column to width 10 and changes nothing else |
| ExcelHelper.Worksheet.MaxTextHeight | ExcelHelper.py:79-84 | the inner loop computes the row's text height |
| ExcelHelper.Worksheet.SetRowHeights | ExcelHelper.py:78-85 | sets every row's height from its text and changes nothing else |
| ExcelHelper.Worksheet.CreateExcel | ExcelHelper.py:46-88 | writes the groups, then widths, then heights; fails exactly when writing the groups fails, and otherwise ends in the state the group writes, widths and heights specify |
| Cropper.ApplyPadding | Cropper.py:79-85 | the padded box starts inside the image, ends inside it, and grows by at most twice the padding |
| Cropper.PaddingContainsBox | Cropper.py:79-85 | for a box inside the image and non-negative padding, the padded box contains the box and stays inside the image |
| Cropper.PaddingWithRoom | Cropper.py:79-85 | with room on every side, the box grows by exactly the padding on each side |
| Cropper.ZeroPaddingIsIdentity | Cropper.py:79-85 | zero padding leaves a box inside the image unchanged |
| Cropper.PaddingTwice | Cropper.py:79-85 | padding by p and then by q equals padding by p + q |

## Left out

- OpenCV is not modelled: thresholding, morphology, contour finding and `boundingRect`. The detectors take the contour bounding boxes `(x, y, w, h)` as input, and `detect_grid` takes the image width and height. `_detect_vertical_lines_in_row` takes its contour x positions from a function parameter `contourXs(rowStart, rowEnd)`.
- Plotting (matplotlib), `print` and the drawing of rectangles are left out. They do not affect the returned values.
- Tesseract is not modelled. Recognition is a function parameter `ocr` from a cell's rectangle to its raw text; only the `strip` applied to it is modelled.
- Workbook file I/O and styling are not modelled: loading, saving, fonts, alignment and border styles. The borders are the set of bordered positions.
- ExcelHelper.Worksheet.constructor: the sheet's `max_row` and `max_column` are given as parameters. The model does not recompute them from the saved empty workbook.
- ExcelHelper.Worksheet.MergeCells: openpyxl's validation of ranges (an end before its start, row 0) is not modelled. A merge records the range as given.
- ExcelHelper.Worksheet.MergeCells: a cell is hidden when an earlier merge covers it and it is not that merge's top-left cell. This is openpyxl's `MergedCell` rule, written as positions, not cell objects.
- ExcelHelper.Worksheet.SetColumnWidths: the dead `max_length` computation in the column-width loop is left out. Its value is never used, and the width is always `max(1, 10)`.
- ExcelHelper.SplitCellName: only `0`-`9` are digits. Python's `\d` also matches other Unicode decimal digits.
- ExcelHelper.ColumnIndexOfLetters: openpyxl's three-letter limit on column names (column `ZZZ`, index 18278) is not modelled. Columns are unbounded.
- GridBuilder.GroupCellsByRow: requires the horizontals sorted by top edge. `detect_grid` sorts them just before the loop, so every call from the source meets this.
- ImageTextExtractor.ExtractRowNumber: `int()` of the digits is modelled for labels with at least one digit. A label with none raises a `ValueError`, which is the error case. A minus sign is removed with the other non-digits, so no negative row can come out.
- The orchestration in `TableProcessor.py` and `main.py` is not part of this model: file names, image loading, and the order in which the stages are called.
- `StructureFinder.py` is not part of this model.
- `ExcelHelper.create_df` (a pandas frame with one empty column) is not modelled.
- Cropper: only `_apply_padding` is modelled. The image reading, cropping and file writing around it are left out.
- ExcelHelper.WriteGroup: openpyxl's refusals when `cell.value = text` is set are not modelled. Text with control characters raises IllegalCharacterError, and text longer than 32767 characters is not handled as Excel does. The model writes any text.
- ExcelHelper.Worksheet.MergeCells: a merge that reaches past the sheet grows openpyxl's `max_row` and `max_column`, but the model's extents are constants. Every label a table cell is associated with is a grid label (`AssociateLabels`), and every grid label with a row of 1 or more lies in the bordered lattice (`LabelsBordered`, `GridKeyPosition`). No lemma joins these facts for the merges of `create_excel`.
- Sorting.SortBy: only part of Python's stability is proved: an already ordered list is left unchanged (`SortOfSortedIsIdentity`). That equal keys keep their input order in general is not stated.
- Numbers are unbounded integers. The pixel coordinates of the source fit in Python's own unbounded integers, so no wrap-around is lost.
