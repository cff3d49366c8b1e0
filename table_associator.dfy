/**
  Joining the structure cells (found by the structure detector) with the labelled grid
  cells: each structure cell is mapped to the labels of the grid cells lying within it.
*/
module TableAssociator {
  import opened Geometry
  import opened OrderedMaps

  /** The tolerance, in pixels, that both association loops use. */
  const DefaultTolerance := 5

  /**
    `is_within(cell, table_cell, tolerance)`: each edge of the candidate cell lies within
    the container widened by the tolerance, the left and top edges strictly before the
    widened right and bottom, the right and bottom strictly after the widened left and top.
  */
  predicate IsWithin(cell: Rect, tableCell: Rect, tolerance: int)
    ensures tolerance >= 0 && NonDegenerate(cell) && Inside(cell, tableCell) ==> IsWithin(cell, tableCell, tolerance)
  {
    && tableCell.x1 - tolerance <= cell.x1 < tableCell.x2 + tolerance
    && tableCell.x1 - tolerance < cell.x2 <= tableCell.x2 + tolerance
    && tableCell.y1 - tolerance <= cell.y1 < tableCell.y2 + tolerance
    && tableCell.y1 - tolerance < cell.y2 <= tableCell.y2 + tolerance
  }

  /** Closed-interval containment on both axes. */
  predicate Inside(cell: Rect, tableCell: Rect) {
    tableCell.x1 <= cell.x1 && cell.x2 <= tableCell.x2 && tableCell.y1 <= cell.y1 && cell.y2 <= tableCell.y2
  }

  /** A wider tolerance accepts every cell a narrower one accepts. */
  lemma IsWithinMonotone(cell: Rect, tableCell: Rect, t: int, t': int)
    requires t <= t' && IsWithin(cell, tableCell, t)
    ensures IsWithin(cell, tableCell, t')
  {
  }

  /** With no tolerance, a non-degenerate cell is accepted exactly when it is inside the container. */
  lemma IsWithinExact(cell: Rect, tableCell: Rect)
    requires NonDegenerate(cell)
    ensures IsWithin(cell, tableCell, 0) <==> Inside(cell, tableCell)
  {
  }

  /** A non-degenerate cell is within itself for any tolerance that is not negative. */
  lemma IsWithinReflexive(cell: Rect, tolerance: int)
    requires NonDegenerate(cell) && tolerance >= 0
    ensures IsWithin(cell, cell, tolerance)
  {
  }

  /** Whatever the tolerance, an accepted cell is inside the container widened by it. */
  lemma IsWithinWidened(cell: Rect, tableCell: Rect, tolerance: int)
    requires IsWithin(cell, tableCell, tolerance)
    ensures Inside(cell, Rect(tableCell.x1 - tolerance, tableCell.y1 - tolerance, tableCell.x2 + tolerance, tableCell.y2 + tolerance))
  {
  }

  // ---------------------------------------------------------------------------
  // The specification of the join

  /** The labels, in `cells_dict` order, of the grid cells within `tableCell`. */
  function Matches(tableCell: Rect, cellsDict: Dict<string, Rect>, tolerance: int): (names: seq<string>)
    ensures |names| <= |cellsDict|
    ensures forall name :: name in names ==> name in Keys(cellsDict)
  {
    if cellsDict == [] then []
    else
      var last := cellsDict[|cellsDict| - 1];
      KeysOfPrefix(cellsDict, |cellsDict| - 1);
      assert Keys(cellsDict)[|cellsDict| - 1] == last.0;
      Matches(tableCell, cellsDict[..|cellsDict| - 1], tolerance)
        + (if IsWithin(last.1, tableCell, tolerance) then [last.0] else [])
  }

  /** `d.setdefault(k, [])` followed by one `append` per label of `ms`; nothing at all when `ms` is empty. */
  function Extend(d: Dict<Rect, seq<string>>, k: Rect, ms: seq<string>): Dict<Rect, seq<string>> {
    if ms == [] then d
    else Put(d, k, (if k in Keys(d) then Get(d, k) else []) + ms)
  }

  /** The association after the outer loop has handled every structure cell of `tableCells`. */
  function Associate(tableCells: seq<Rect>, cellsDict: Dict<string, Rect>, tolerance: int): Dict<Rect, seq<string>> {
    if tableCells == [] then []
    else
      var last := tableCells[|tableCells| - 1];
      Extend(Associate(tableCells[..|tableCells| - 1], cellsDict, tolerance), last, Matches(last, cellsDict, tolerance))
  }

  /** `s` written `n` times one after the other. */
  function Repeat(s: seq<string>, n: nat): seq<string> {
    if n == 0 then [] else Repeat(s, n - 1) + s
  }

  // ---------------------------------------------------------------------------
  // The loops

  /** One step of the inner loop: create the key if it is missing, then append the label. */
  lemma ExtendStep(d: Dict<Rect, seq<string>>, k: Rect, ms: seq<string>, name: string)
    ensures var e := Extend(d, k, ms);
      var e' := if k in Keys(e) then e else Put(e, k, []);
      k in Keys(e') && Put(e', k, Get(e', k) + [name]) == Extend(d, k, ms + [name])
  {
    var e := Extend(d, k, ms);
    if ms == [] {
      assert ms + [name] == [name];
      if k in Keys(d) {
      } else {
        PutThenGet(d, k, []);
        PutPut(d, k, [], [name]);
      }
    } else {
      var before := if k in Keys(d) then Get(d, k) else [];
      PutThenGet(d, k, before + ms);
      PutPut(d, k, before + ms, before + ms + [name]);
      assert before + ms + [name] == before + (ms + [name]);
    }
  }

  /** The inner loop for one structure cell, over the grid cells in `cells_dict` order. */
  method AddMatches(associated: Dict<Rect, seq<string>>, tableCell: Rect, cellsDict: Dict<string, Rect>)
    returns (associated': Dict<Rect, seq<string>>)
    ensures associated' == Extend(associated, tableCell, Matches(tableCell, cellsDict, DefaultTolerance))
  {
    associated' := associated;
    var j := 0;
    while j < |cellsDict|
      invariant 0 <= j <= |cellsDict|
      invariant associated' == Extend(associated, tableCell, Matches(tableCell, cellsDict[..j], DefaultTolerance))
    {
      var (name, excelCell) := cellsDict[j];
      ghost var ms := Matches(tableCell, cellsDict[..j], DefaultTolerance);
      assert cellsDict[..j + 1][..j] == cellsDict[..j];
      assert Matches(tableCell, cellsDict[..j + 1], DefaultTolerance)
        == ms + (if IsWithin(excelCell, tableCell, DefaultTolerance) then [name] else []);
      if IsWithin(excelCell, tableCell, DefaultTolerance) {
        ExtendStep(associated, tableCell, ms, name);
        if tableCell !in Keys(associated') {
          associated' := Put(associated', tableCell, []);
        }
        associated' := Put(associated', tableCell, Get(associated', tableCell) + [name]);
      } else {
        assert ms + [] == ms;
      }
      j := j + 1;
    }
    assert cellsDict[..j] == cellsDict;
  }

  /** `create_associated_cells`: the nested loop, structure cells outside, grid cells inside. */
  method CreateAssociatedCells(tableCells: seq<Rect>, cellsDict: Dict<string, Rect>)
    returns (associated: Dict<Rect, seq<string>>)
    ensures associated == Associate(tableCells, cellsDict, DefaultTolerance)
  {
    associated := [];
    var i := 0;
    while i < |tableCells|
      invariant 0 <= i <= |tableCells|
      invariant associated == Associate(tableCells[..i], cellsDict, DefaultTolerance)
    {
      associated := AddMatches(associated, tableCells[i], cellsDict);
      i := i + 1;
      assert tableCells[..i][..i - 1] == tableCells[..i - 1];
    }
    assert tableCells[..i] == tableCells;
  }

  /**
    The association part of `associate_grid_and_cells`: the same loop as
    `create_associated_cells`; the drawing that follows does not touch its result.
  */
  method AssociateGridAndCells(tableCells: seq<Rect>, cellsDict: Dict<string, Rect>)
    returns (associated: Dict<Rect, seq<string>>)
    ensures associated == Associate(tableCells, cellsDict, DefaultTolerance)
  {
    associated := CreateAssociatedCells(tableCells, cellsDict);
  }

  // ---------------------------------------------------------------------------
  // Properties

  /** A label is a match exactly when its grid cell is within the structure cell. */
  lemma {:induction false} MatchesMembers(tableCell: Rect, cellsDict: Dict<string, Rect>, tolerance: int, name: string)
    ensures name in Matches(tableCell, cellsDict, tolerance)
      <==> exists j :: 0 <= j < |cellsDict| && cellsDict[j].0 == name && IsWithin(cellsDict[j].1, tableCell, tolerance)
  {
    if cellsDict != [] {
      var init := cellsDict[..|cellsDict| - 1];
      MatchesMembers(tableCell, init, tolerance, name);
      assert forall j :: 0 <= j < |init| ==> init[j] == cellsDict[j];
    }
  }

  /** Matches keep `cells_dict` order: those of an earlier part come before those of a later part. */
  lemma {:induction false} MatchesAppend(tableCell: Rect, front: Dict<string, Rect>, back: Dict<string, Rect>, tolerance: int)
    ensures Matches(tableCell, front + back, tolerance) == Matches(tableCell, front, tolerance) + Matches(tableCell, back, tolerance)
  {
    if back == [] {
      assert front + back == front;
    } else {
      var n := |back|;
      MatchesAppend(tableCell, front, back[..n - 1], tolerance);
      assert (front + back)[..|front + back| - 1] == front + back[..n - 1];
    }
  }

  /** The first match is the earliest grid cell in `cells_dict` order that lies within the structure cell. */
  lemma {:induction false} MatchesFirst(tableCell: Rect, cellsDict: Dict<string, Rect>, tolerance: int)
    requires Matches(tableCell, cellsDict, tolerance) != []
    ensures exists j ::
      && 0 <= j < |cellsDict| && IsWithin(cellsDict[j].1, tableCell, tolerance)
      && Matches(tableCell, cellsDict, tolerance)[0] == cellsDict[j].0
      && forall j' :: 0 <= j' < j ==> !IsWithin(cellsDict[j'].1, tableCell, tolerance)
  {
    var n := |cellsDict|;
    var init := cellsDict[..n - 1];
    if Matches(tableCell, init, tolerance) != [] {
      MatchesFirst(tableCell, init, tolerance);
      var j :| 0 <= j < |init| && IsWithin(init[j].1, tableCell, tolerance)
        && Matches(tableCell, init, tolerance)[0] == init[j].0
        && forall j' :: 0 <= j' < j ==> !IsWithin(init[j'].1, tableCell, tolerance);
      assert forall j' :: 0 <= j' <= j ==> init[j'] == cellsDict[j'];
    } else {
      forall j' | 0 <= j' < n - 1 ensures !IsWithin(cellsDict[j'].1, tableCell, tolerance) {
        MatchesMembers(tableCell, init, tolerance, init[j'].0);
        assert init[j'] == cellsDict[j'];
      }
    }
  }

  lemma ExtendShape(d: Dict<Rect, seq<string>>, k: Rect, ms: seq<string>)
    requires UniqueKeys(d)
    ensures var e := Extend(d, k, ms);
      && UniqueKeys(e)
      && (forall k' :: k' in Keys(e) <==> k' in Keys(d) || (k' == k && ms != []))
      && (forall k' :: k' in Keys(e) ==> Get(e, k') == if k' == k then (if k in Keys(d) then Get(d, k) else []) + ms else Get(d, k'))
  {
    if ms != [] {
      var v := (if k in Keys(d) then Get(d, k) else []) + ms;
      PutGet(d, k, v);
      PutKeys(d, k, v);
    }
  }

  /**
    The shape of the association: keys are unique, a structure cell is a key exactly when
    it occurs among the structure cells and has a match, and its list is its matches once
    per occurrence of the structure cell (equal structure cells share one key).
  */
  lemma {:induction false} AssociateShape(tableCells: seq<Rect>, cellsDict: Dict<string, Rect>, tolerance: int)
    ensures var a := Associate(tableCells, cellsDict, tolerance);
      && UniqueKeys(a)
      && (forall t :: t in Keys(a) <==> t in tableCells && Matches(t, cellsDict, tolerance) != [])
      && (forall t :: t in Keys(a) ==> Get(a, t) == Repeat(Matches(t, cellsDict, tolerance), multiset(tableCells)[t]))
  {
    if tableCells != [] {
      var n := |tableCells|;
      var init, last := tableCells[..n - 1], tableCells[n - 1];
      AssociateShape(init, cellsDict, tolerance);
      assert tableCells == init + [last];
      AssociateStep(Associate(init, cellsDict, tolerance), init, last, cellsDict, tolerance);
    }
  }

  /** The association of `tableCells` as `AssociateShape` describes it. */
  ghost predicate Shaped(a: Dict<Rect, seq<string>>, tableCells: seq<Rect>, cellsDict: Dict<string, Rect>, tolerance: int) {
    && UniqueKeys(a)
    && (forall t :: t in Keys(a) <==> t in tableCells && Matches(t, cellsDict, tolerance) != [])
    && (forall t :: t in Keys(a) ==> Get(a, t) == Repeat(Matches(t, cellsDict, tolerance), multiset(tableCells)[t]))
  }

  /** One outer iteration keeps the shape of `AssociateShape`. */
  lemma AssociateStep(prev: Dict<Rect, seq<string>>, init: seq<Rect>, last: Rect, cellsDict: Dict<string, Rect>, tolerance: int)
    requires Shaped(prev, init, cellsDict, tolerance)
    ensures Shaped(Extend(prev, last, Matches(last, cellsDict, tolerance)), init + [last], cellsDict, tolerance)
  {
    AssociateStepKeys(prev, init, last, cellsDict, tolerance);
    AssociateStepValues(prev, init, last, cellsDict, tolerance);
  }

  /** One outer iteration: the keys stay unique and are the structure cells seen so far that match. */
  lemma AssociateStepKeys(prev: Dict<Rect, seq<string>>, init: seq<Rect>, last: Rect, cellsDict: Dict<string, Rect>, tolerance: int)
    requires UniqueKeys(prev)
    requires forall t :: t in Keys(prev) <==> t in init && Matches(t, cellsDict, tolerance) != []
    ensures var a := Extend(prev, last, Matches(last, cellsDict, tolerance));
      && UniqueKeys(a)
      && forall t :: t in Keys(a) <==> t in init + [last] && Matches(t, cellsDict, tolerance) != []
  {
    var ms := Matches(last, cellsDict, tolerance);
    ExtendShape(prev, last, ms);
    forall t ensures t in init + [last] <==> t in init || t == last {
    }
  }

  /** One outer iteration: each key's list holds its matches once per occurrence so far. */
  lemma AssociateStepValues(prev: Dict<Rect, seq<string>>, init: seq<Rect>, last: Rect, cellsDict: Dict<string, Rect>, tolerance: int)
    requires UniqueKeys(prev)
    requires forall t :: t in Keys(prev) <==> t in init && Matches(t, cellsDict, tolerance) != []
    requires forall t :: t in Keys(prev) ==> Get(prev, t) == Repeat(Matches(t, cellsDict, tolerance), multiset(init)[t])
    ensures var a := Extend(prev, last, Matches(last, cellsDict, tolerance));
      forall t :: t in Keys(a) ==> Get(a, t) == Repeat(Matches(t, cellsDict, tolerance), multiset(init + [last])[t])
  {
    var a := Extend(prev, last, Matches(last, cellsDict, tolerance));
    forall t | t in Keys(a)
      ensures Get(a, t) == Repeat(Matches(t, cellsDict, tolerance), multiset(init + [last])[t])
    {
      AssociateStepValueAt(prev, init, last, cellsDict, tolerance, t);
    }
  }

  /** The same, for one key. */
  lemma AssociateStepValueAt(prev: Dict<Rect, seq<string>>, init: seq<Rect>, last: Rect, cellsDict: Dict<string, Rect>, tolerance: int, t: Rect)
    requires UniqueKeys(prev)
    requires t in Keys(prev) <==> t in init && Matches(t, cellsDict, tolerance) != []
    requires t in Keys(prev) ==> Get(prev, t) == Repeat(Matches(t, cellsDict, tolerance), multiset(init)[t])
    requires t in Keys(Extend(prev, last, Matches(last, cellsDict, tolerance)))
    ensures Get(Extend(prev, last, Matches(last, cellsDict, tolerance)), t)
      == Repeat(Matches(t, cellsDict, tolerance), multiset(init + [last])[t])
  {
    assert multiset(init + [last])[t] == multiset(init)[t] + (if t == last then 1 else 0);
    AssociateStepValue(prev, last, Matches(last, cellsDict, tolerance), Matches(t, cellsDict, tolerance), multiset(init)[t], t);
  }

  /** The list of one key after one outer iteration, given its list before. */
  lemma AssociateStepValue(prev: Dict<Rect, seq<string>>, last: Rect, ms: seq<string>, mt: seq<string>, count: nat, t: Rect)
    requires UniqueKeys(prev)
    requires t == last ==> mt == ms
    requires t in Keys(prev) ==> Get(prev, t) == Repeat(mt, count)
    requires t !in Keys(prev) ==> count == 0 || mt == []
    requires t in Keys(Extend(prev, last, ms))
    ensures Get(Extend(prev, last, ms), t) == Repeat(mt, count + (if t == last then 1 else 0))
  {
    ExtendShape(prev, last, ms);
    if t == last && ms != [] && t !in Keys(prev) {
      assert Repeat(ms, 1) == [] + ms;
    }
  }

  /** No structure cell is kept with an empty list. */
  lemma AssociateNoEmptyList(tableCells: seq<Rect>, cellsDict: Dict<string, Rect>, tolerance: int, t: Rect)
    requires t in Keys(Associate(tableCells, cellsDict, tolerance))
    ensures Get(Associate(tableCells, cellsDict, tolerance), t) != []
  {
    AssociateShape(tableCells, cellsDict, tolerance);
    RepeatNonEmpty(Matches(t, cellsDict, tolerance), multiset(tableCells)[t]);
  }

  lemma {:induction false} RepeatNonEmpty(s: seq<string>, n: nat)
    requires s != [] && n > 0
    ensures Repeat(s, n) != [] && Repeat(s, n)[0] == s[0]
    ensures forall x :: x in Repeat(s, n) <==> x in s
  {
    if n > 1 {
      RepeatNonEmpty(s, n - 1);
    } else {
      assert Repeat(s, n) == s;
    }
  }

  /**
    A label is in a structure cell's list exactly when its grid cell is within that
    structure cell, and the list starts with the earliest such label in `cells_dict` order.
  */
  lemma AssociateLabels(tableCells: seq<Rect>, cellsDict: Dict<string, Rect>, tolerance: int, t: Rect, name: string)
    requires t in Keys(Associate(tableCells, cellsDict, tolerance))
    ensures var labels := Get(Associate(tableCells, cellsDict, tolerance), t);
      && (name in labels <==> exists j :: 0 <= j < |cellsDict| && cellsDict[j].0 == name && IsWithin(cellsDict[j].1, t, tolerance))
      && labels != []
      && (exists j :: 0 <= j < |cellsDict| && IsWithin(cellsDict[j].1, t, tolerance) && labels[0] == cellsDict[j].0
            && forall j' :: 0 <= j' < j ==> !IsWithin(cellsDict[j'].1, t, tolerance))
  {
    AssociateShape(tableCells, cellsDict, tolerance);
    RepeatNonEmpty(Matches(t, cellsDict, tolerance), multiset(tableCells)[t]);
    MatchesMembers(t, cellsDict, tolerance, name);
    MatchesFirst(t, cellsDict, tolerance);
  }

  /** A structure cell that occurs once maps to exactly its matches, in `cells_dict` order. */
  lemma AssociateSingle(tableCells: seq<Rect>, cellsDict: Dict<string, Rect>, tolerance: int, t: Rect)
    requires multiset(tableCells)[t] == 1 && Matches(t, cellsDict, tolerance) != []
    ensures t in Keys(Associate(tableCells, cellsDict, tolerance))
    ensures Get(Associate(tableCells, cellsDict, tolerance), t) == Matches(t, cellsDict, tolerance)
  {
    AssociateShape(tableCells, cellsDict, tolerance);
    assert t in multiset(tableCells);
    assert Repeat(Matches(t, cellsDict, tolerance), 1) == Matches(t, cellsDict, tolerance);
  }

  /** The table cells that lie around at least one grid cell, in the order of `tableCells`. */
  function Matching(tableCells: seq<Rect>, cellsDict: Dict<string, Rect>, tolerance: int): (ms: seq<Rect>)
    ensures |ms| <= |tableCells|
    ensures forall t :: t in ms <==> t in tableCells && Matches(t, cellsDict, tolerance) != []
  {
    if tableCells == [] then []
    else
      var last := tableCells[|tableCells| - 1];
      var init := tableCells[..|tableCells| - 1];
      assert tableCells == init + [last];
      Matching(init, cellsDict, tolerance) + (if Matches(last, cellsDict, tolerance) != [] then [last] else [])
  }

  /**
    The keys of the association come in the order of each table cell's first match:
    the matching table cells with later repeats dropped.
  */
  lemma {:induction false} AssociateKeyOrder(tableCells: seq<Rect>, cellsDict: Dict<string, Rect>, tolerance: int)
    ensures Keys(Associate(tableCells, cellsDict, tolerance)) == Distinct(Matching(tableCells, cellsDict, tolerance))
  {
    if tableCells != [] {
      var init, last := tableCells[..|tableCells| - 1], tableCells[|tableCells| - 1];
      AssociateKeyOrder(init, cellsDict, tolerance);
      var prev, ms := Associate(init, cellsDict, tolerance), Matches(last, cellsDict, tolerance);
      var before := Matching(init, cellsDict, tolerance);
      assert Associate(tableCells, cellsDict, tolerance) == Extend(prev, last, ms);
      if ms == [] {
        assert Matching(tableCells, cellsDict, tolerance) == before;
      } else {
        var m := before + [last];
        assert Matching(tableCells, cellsDict, tolerance) == m;
        PutKeys(prev, last, (if last in Keys(prev) then Get(prev, last) else []) + ms);
        assert m[..|m| - 1] == before;
        assert Distinct(m) == Distinct(before) + (if last in Distinct(before) then [] else [last]);
      }
    }
  }
}
