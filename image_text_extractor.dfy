/**
  Text recognition per structure cell and the label helpers of the text extractor. The
  recogniser itself (cropping the image and running OCR on the crop) is a function
  parameter `ocr` from cell coordinates to raw text; everything after it is modelled.
*/
module ImageTextExtractor {
  import opened Results
  import opened Geometry
  import opened Decimal
  import opened OrderedMaps
  import opened TableDetector

  // ---------------------------------------------------------------------------
  // str.strip()

  /** The characters for which Python's `str.isspace` holds, which `strip()` removes. */
  predicate IsSpace(c: char) {
    var n := c as int;
    || n == 0x20 || (0x09 <= n <= 0x0d) || (0x1c <= n <= 0x1f) || n == 0x85 || n == 0xa0
    || n == 0x1680 || (0x2000 <= n <= 0x200a) || n == 0x2028 || n == 0x2029 || n == 0x202f
    || n == 0x205f || n == 0x3000
  }

  /** Number of whitespace characters at the start of `s`. */
  function LeadingSpaces(s: string): (n: nat)
    ensures n <= |s|
    ensures forall k :: 0 <= k < n ==> IsSpace(s[k])
    ensures n < |s| ==> !IsSpace(s[n])
  {
    if s == [] || !IsSpace(s[0]) then 0
    else
      var n := LeadingSpaces(s[1..]);
      assert forall k :: 1 <= k < n + 1 ==> s[k] == s[1..][k - 1];
      n + 1
  }

  /** Number of whitespace characters at the end of `s`. */
  function TrailingSpaces(s: string): (n: nat)
    ensures n <= |s|
    ensures forall k :: |s| - n <= k < |s| ==> IsSpace(s[k])
    ensures n < |s| ==> !IsSpace(s[|s| - n - 1])
  {
    if s == [] || !IsSpace(s[|s| - 1]) then 0
    else
      var init := s[..|s| - 1];
      var n := TrailingSpaces(init);
      assert forall k :: |init| - n <= k < |init| ==> s[k] == init[k];
      n + 1
  }

  /** `s.strip()`: what is left after removing whitespace at both ends. */
  function Strip(s: string): (r: string)
    ensures r == [] || (!IsSpace(r[0]) && !IsSpace(r[|r| - 1]))
  {
    var i := LeadingSpaces(s);
    var rest := s[i..];
    var j := TrailingSpaces(rest);
    assert j < |rest| ==> rest[0] == s[i];
    rest[..|rest| - j]
  }

  /** The stripped text is a slice of the input, and everything cut off on either side is whitespace. */
  lemma StripIsSlice(s: string) returns (i: nat, j: nat)
    ensures i <= j <= |s| && Strip(s) == s[i..j]
    ensures forall k :: 0 <= k < i ==> IsSpace(s[k])
    ensures forall k :: j <= k < |s| ==> IsSpace(s[k])
  {
    i := LeadingSpaces(s);
    var rest := s[i..];
    j := i + |rest| - TrailingSpaces(rest);
    assert forall k :: j <= k < |s| ==> s[k] == rest[k - i];
  }

  /** Text without whitespace at either end is left as it is; in particular stripping twice changes nothing. */
  lemma StripTrimmed(s: string)
    requires s == [] || (!IsSpace(s[0]) && !IsSpace(s[|s| - 1]))
    ensures Strip(s) == s
  {
    assert s[0..] == s;
  }

  /** `extract_text_from_image`: the recognised text of the cell, stripped. */
  function ExtractText(ocr: Rect -> string, coordinates: Rect): (text: string)
    ensures text == [] || (!IsSpace(text[0]) && !IsSpace(text[|text| - 1]))
  {
    Strip(ocr(coordinates))
  }

  // ---------------------------------------------------------------------------
  // create_text_to_cells

  /** Each structure cell's stripped text paired with its label list, in the association's order. */
  function TextPairs(ocr: Rect -> string, associated: Dict<Rect, seq<string>>): (pairs: Dict<string, seq<string>>)
    ensures |pairs| == |associated|
  {
    seq(|associated|, i requires 0 <= i < |associated| => (ExtractText(ocr, associated[i].0), associated[i].1))
  }

  /** `create_text_to_cells`: each structure cell's text becomes a key for its label list. */
  method CreateTextToCells(ocr: Rect -> string, associated: Dict<Rect, seq<string>>)
    returns (textToCells: Dict<string, seq<string>>)
    ensures textToCells == FromPairs(TextPairs(ocr, associated))
  {
    textToCells := [];
    var i := 0;
    while i < |associated|
      invariant 0 <= i <= |associated|
      invariant textToCells == FromPairs(TextPairs(ocr, associated)[..i])
    {
      var (coordinates, excelLabels) := associated[i];
      var extractedText := ExtractText(ocr, coordinates);
      textToCells := Put(textToCells, extractedText, excelLabels);
      i := i + 1;
      assert TextPairs(ocr, associated)[..i][..i - 1] == TextPairs(ocr, associated)[..i - 1];
    }
    assert TextPairs(ocr, associated)[..i] == TextPairs(ocr, associated);
  }

  /**
    One key per distinct text, in order of first appearance (a later entry with the same
    text does not move the key), and the value of a text is the label list of the last
    structure cell that produced it.
  */
  lemma TextToCellsShape(ocr: Rect -> string, associated: Dict<Rect, seq<string>>, text: string)
    ensures var d, texts := FromPairs(TextPairs(ocr, associated)), Keys(TextPairs(ocr, associated));
      && UniqueKeys(d)
      && Keys(d) == Distinct(texts)
      && (text in Keys(d) ==> exists j :: LastWith(texts, text, j) && Get(d, text) == associated[j].1)
  {
    FromPairsKeys(TextPairs(ocr, associated));
    if text in Keys(FromPairs(TextPairs(ocr, associated))) {
      var j := FromPairsLastWins(TextPairs(ocr, associated), text);
    }
  }

  /** Every value of the text map is the label list of one of the input entries, and there are no more keys than entries. */
  lemma TextToCellsValues(ocr: Rect -> string, associated: Dict<Rect, seq<string>>, text: string)
    requires text in Keys(FromPairs(TextPairs(ocr, associated)))
    ensures exists j :: 0 <= j < |associated| && Get(FromPairs(TextPairs(ocr, associated)), text) == associated[j].1
    ensures |FromPairs(TextPairs(ocr, associated))| <= |associated|
  {
    var d := FromPairs(TextPairs(ocr, associated));
    FromPairsKeys(TextPairs(ocr, associated));
    var j := FromPairsLastWins(TextPairs(ocr, associated), text);
    assert |Keys(d)| == |d|;
    assert |Keys(TextPairs(ocr, associated))| == |associated|;
  }

  /** No key of the text map starts or ends with whitespace. */
  lemma TextToCellsKeysTrimmed(ocr: Rect -> string, associated: Dict<Rect, seq<string>>, text: string)
    requires text in Keys(FromPairs(TextPairs(ocr, associated)))
    ensures text == [] || (!IsSpace(text[0]) && !IsSpace(text[|text| - 1]))
  {
    var pairs := TextPairs(ocr, associated);
    FromPairsKeys(pairs);
    assert text in Keys(pairs);
    var i :| 0 <= i < |pairs| && Keys(pairs)[i] == text;
    assert text == ExtractText(ocr, associated[i].0);
  }

  // ---------------------------------------------------------------------------
  // Row number and column letters of a label

  /** The characters of `s` that satisfy `keep`, in order. */
  function Select(s: string, keep: char -> bool): (r: string)
    ensures |r| <= |s|
    ensures forall i :: 0 <= i < |r| ==> keep(r[i])
  {
    if s == [] then []
    else Select(s[..|s| - 1], keep) + (if keep(s[|s| - 1]) then [s[|s| - 1]] else [])
  }

  lemma {:induction false} SelectAppend(a: string, b: string, keep: char -> bool)
    ensures Select(a + b, keep) == Select(a, keep) + Select(b, keep)
    decreases |b|
  {
    if b != [] {
      var b', x := b[..|b| - 1], b[|b| - 1];
      SelectAppend(a, b', keep);
      assert (a + b)[..|a + b| - 1] == a + b';
      assert (a + b)[|a + b| - 1] == x;
      var tail := if keep(x) then [x] else [];
      assert Select(a + b, keep) == Select(a, keep) + Select(b', keep) + tail;
      assert Select(b, keep) == Select(b', keep) + tail;
    } else {
      assert a + b == a;
    }
  }

  /** Selecting from a string all of whose characters are kept returns it; from one where none is kept, nothing. */
  lemma {:induction false} SelectAllOrNone(s: string, keep: char -> bool)
    ensures (forall i :: 0 <= i < |s| ==> keep(s[i])) ==> Select(s, keep) == s
    ensures (forall i :: 0 <= i < |s| ==> !keep(s[i])) ==> Select(s, keep) == []
  {
    if s != [] {
      SelectAllOrNone(s[..|s| - 1], keep);
      assert s == s[..|s| - 1] + [s[|s| - 1]];
    }
  }

  /**
    `Select` is the subsequence of `s` at exactly the positions whose character is kept:
    `pos` lists those positions in increasing order.
  */
  lemma {:induction false} SelectPositions(s: string, keep: char -> bool) returns (pos: seq<nat>)
    ensures |pos| == |Select(s, keep)|
    ensures forall k :: 0 <= k < |pos| ==> pos[k] < |s| && Select(s, keep)[k] == s[pos[k]]
    ensures forall k, l :: 0 <= k < l < |pos| ==> pos[k] < pos[l]
    ensures forall i :: 0 <= i < |s| ==> (i in pos <==> keep(s[i]))
  {
    if s == [] {
      pos := [];
    } else {
      var init, x := s[..|s| - 1], s[|s| - 1];
      var front := SelectPositions(init, keep);
      pos := front + (if keep(x) then [|s| - 1] else []);
      assert forall i :: 0 <= i < |init| ==> init[i] == s[i];
      assert Select(s, keep) == Select(init, keep) + (if keep(x) then [x] else []);
    }
  }

  predicate IsAsciiLetter(c: char) {
    ('A' <= c <= 'Z') || ('a' <= c <= 'z')
  }

  /**
    `extract_row_number`: `int(re.sub("[^0-9]", "", cell))`, the digits of the label read
    as one number; a label without any digit raises ValueError.
  */
  function ExtractRowNumber(cell: string): (r: Result<int>)
    ensures r.Err? <==> forall i :: 0 <= i < |cell| ==> !IsDigit(cell[i])
    ensures r.Ok? ==> r.value >= 0
  {
    var digits := Select(cell, IsDigit);
    if digits == [] then
      assert forall i :: 0 <= i < |cell| ==> !IsDigit(cell[i]) by {
        SelectMissing(cell, IsDigit);
      }
      Err(ValueError)
    else
      assert !forall i :: 0 <= i < |cell| ==> !IsDigit(cell[i]) by {
        SelectAllOrNone(cell, IsDigit);
      }
      Ok(ParseDigits(digits))
  }

  /** Nothing selected means no character of the string is kept. */
  lemma {:induction false} SelectMissing(s: string, keep: char -> bool)
    requires Select(s, keep) == []
    ensures forall i :: 0 <= i < |s| ==> !keep(s[i])
  {
    if s != [] {
      SelectMissing(s[..|s| - 1], keep);
      assert forall i :: 0 <= i < |s| - 1 ==> s[..|s| - 1][i] == s[i];
    }
  }

  /** `extract_column_letter`: every ASCII letter of the label, in order. */
  function ExtractColumnLetter(cell: string): (letters: string)
    ensures forall i :: 0 <= i < |letters| ==> IsAsciiLetter(letters[i])
  {
    Select(cell, IsAsciiLetter)
  }

  /** The column letters are the label's characters at exactly its ASCII-letter positions, in order. */
  lemma ColumnLetterPositions(cell: string) returns (pos: seq<nat>)
    ensures |pos| == |ExtractColumnLetter(cell)|
    ensures forall k :: 0 <= k < |pos| ==> pos[k] < |cell| && ExtractColumnLetter(cell)[k] == cell[pos[k]]
    ensures forall k, l :: 0 <= k < l < |pos| ==> pos[k] < pos[l]
    ensures forall i :: 0 <= i < |cell| ==> (i in pos <==> IsAsciiLetter(cell[i]))
  {
    pos := SelectPositions(cell, IsAsciiLetter);
  }

  /**
    The row number is the value of the label's characters at exactly its digit positions,
    read in order as one decimal number; with no such position it is refused.
  */
  lemma RowNumberDigits(cell: string) returns (digits: string, pos: seq<nat>)
    ensures |pos| == |digits| && AllDigits(digits)
    ensures forall k :: 0 <= k < |pos| ==> pos[k] < |cell| && digits[k] == cell[pos[k]]
    ensures forall k, l :: 0 <= k < l < |pos| ==> pos[k] < pos[l]
    ensures forall i :: 0 <= i < |cell| ==> (i in pos <==> IsDigit(cell[i]))
    ensures ExtractRowNumber(cell) == if digits == [] then Err(ValueError) else Ok(ParseDigits(digits))
  {
    digits := Select(cell, IsDigit);
    pos := SelectPositions(cell, IsDigit);
  }

  /** Column letters hold no digit. */
  lemma NoDigitInLetters(col: int)
    ensures Select(ColumnLetters(col), IsDigit) == []
  {
    ColumnLettersShape(col);
    SelectAllOrNone(ColumnLetters(col), IsDigit);
  }

  /** On a label `excel_cell_name(r, c)` with r >= 0, the row number read back is r. */
  lemma RowNumberOfCellName(row: int, col: int)
    requires row >= 0
    ensures ExtractRowNumber(CellName(row, col)) == Ok(row)
  {
    var letters, digits := ColumnLetters(col), NatToString(row);
    assert CellName(row, col) == letters + digits;
    NoDigitInLetters(col);
    SelectAppend(letters, digits, IsDigit);
    SelectAllOrNone(digits, IsDigit);
    assert Select(CellName(row, col), IsDigit) == digits;
    ParseNatToString(row);
  }

  /** On a label `excel_cell_name(r, c)`, the letters read back are the column letters of c. */
  lemma ColumnLetterOfCellName(row: int, col: int)
    ensures ExtractColumnLetter(CellName(row, col)) == ColumnLetters(col)
  {
    ColumnLettersShape(col);
    var digits := IntToString(row);
    assert forall i :: 0 <= i < |digits| ==> !IsAsciiLetter(digits[i]);
    SelectAppend(ColumnLetters(col), digits, IsAsciiLetter);
    SelectAllOrNone(ColumnLetters(col), IsAsciiLetter);
    SelectAllOrNone(digits, IsAsciiLetter);
  }
}
