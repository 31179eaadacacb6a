/**
  Colouring the new piece (boardgen.py): finding its placeholder cells, the
  colours none of its neighbours already has, and painting it.
*/
module Coloring {
  import opened Optional
  import opened Extrema
  import opened Boards
  import opened Contiguity
  import opened Changes
  import opened MakeChanges

  /** The placeholder cells of column x in rows 0..n-1, bottom up. */
  function PlaceholdersIn(b: Board, x: int, n: int): (r: seq<Cell>)
    ensures forall c :: c in r <==> c.0 == x && 0 <= c.1 < n && IsPlaceholder(b, x, c.1)
    decreases n
  {
    if n <= 0 then []
    else PlaceholdersIn(b, x, n - 1) + (if IsPlaceholder(b, x, n - 1) then [(x, n - 1)] else [])
  }

  /** The placeholder cells of columns 0..m-1, column by column. */
  function PlaceholdersUpTo(b: Board, m: int): (r: seq<Cell>)
    ensures forall c :: c in r <==> 0 <= c.0 < m && IsPlaceholder(b, c.0, c.1)
    decreases m
  {
    if m <= 0 then []
    else PlaceholdersUpTo(b, m - 1) + PlaceholdersIn(b, m - 1, ColumnHeight(b, m - 1))
  }

  /** _get_new_piece_coords: every placeholder cell of columns 0..width-1. */
  function NewPieceCoords(b: Board): (r: seq<Cell>)
    ensures forall c :: c in r <==> 0 <= c.0 < Width(b) && IsPlaceholder(b, c.0, c.1)
  {
    PlaceholdersUpTo(b, Width(b))
  }

  /** set.discard(v): removes the value, if any, from the colour set. */
  function Discard(colors: set<int>, v: Option<int>): (r: set<int>)
    ensures forall k :: k in r <==> k in colors && v != Some(k)
  {
    if v.Some? then colors - {v.value} else colors
  }

  /** The colours 1..n. */
  function ColorRange(n: int): (r: set<int>)
    ensures forall k :: k in r <==> 1 <= k <= n
    decreases n
  {
    if n < 1 then {} else ColorRange(n - 1) + {n}
  }

  /** One step of _get_new_piece_colors: discards the values left of, right of, below and above a cell. */
  function DiscardNbrs(colors: set<int>, b: Board, c: Cell): (r: set<int>)
    ensures forall k :: k in r <==> k in colors && forall n :: n in Nbrs(c) ==> At(b, n) != Some(k)
  {
    forall k ensures (forall n :: n in Nbrs(c) ==> At(b, n) != Some(k)) <==> NoneOfFour(b, c, k) {
      NbrsFour(b, c, k);
    }
    Discard(Discard(Discard(Discard(colors,
      GetValue(b, c.0 - 1, c.1)), GetValue(b, c.0 + 1, c.1)), GetValue(b, c.0, c.1 - 1)), GetValue(b, c.0, c.1 + 1))
  }

  /** No value k left of, right of, below or above the cell. */
  predicate NoneOfFour(b: Board, c: Cell, k: int) {
    GetValue(b, c.0 - 1, c.1) != Some(k) && GetValue(b, c.0 + 1, c.1) != Some(k) &&
    GetValue(b, c.0, c.1 - 1) != Some(k) && GetValue(b, c.0, c.1 + 1) != Some(k)
  }

  /** The four cells named one by one are exactly the neighbours. */
  lemma NbrsFour(b: Board, c: Cell, k: int)
    ensures (forall n :: n in Nbrs(c) ==> At(b, n) != Some(k)) <==> NoneOfFour(b, c, k)
  {
    assert (c.0 - 1, c.1) in Nbrs(c) && (c.0 + 1, c.1) in Nbrs(c);
    assert (c.0, c.1 - 1) in Nbrs(c) && (c.0, c.1 + 1) in Nbrs(c);
  }

  /** The loop of _get_new_piece_colors over the listed cells. */
  function DiscardAround(colors: set<int>, b: Board, coords: seq<Cell>): (r: set<int>)
    ensures forall k :: k in r <==> k in colors && forall c: Cell, n: Cell :: c in coords && n in Nbrs(c) ==> At(b, n) != Some(k)
    decreases |coords|
  {
    if |coords| == 0 then colors
    else
      var c := coords[|coords| - 1];
      assert forall d :: d in coords <==> d in coords[..|coords| - 1] || d == c;
      DiscardNbrs(DiscardAround(colors, b, coords[..|coords| - 1]), b, c)
  }

  /**
    _get_new_piece_colors: the colours 1..max_colors that no cell 4-adjacent to a
    placeholder of columns 0..width-1 already has.
  */
  function NewPieceColors(b: Board, maxColors: int): (r: set<int>)
    ensures forall k :: k in r <==> (1 <= k <= maxColors &&
      forall c: Cell, n: Cell :: 0 <= c.0 < Width(b) && IsPlaceholder(b, c.0, c.1) && n in Nbrs(c) ==> At(b, n) != Some(k))
  {
    DiscardAround(ColorRange(maxColors), b, NewPieceCoords(b))
  }

  /** _change_is_colorable: after the change, some colour is still free for the new piece. */
  predicate ChangeIsColorable(b: Board, c: Change, maxColors: int)
    requires Applicable(b, c)
  {
    NewPieceColors(MakeChange(b, c), maxColors) != {}
  }

  /** set_value(x, y, color) for every listed cell, in order. */
  function Paint(b: Board, cells: seq<Cell>, color: int): (r: Board)
    requires forall i :: 0 <= i < |cells| ==> cells[i].1 >= 0
    ensures forall c :: c in cells ==> At(r, c) == Some(color)
    ensures forall x, y :: (x, y) !in cells ==> GetValue(r, x, y) == GetValue(b, x, y)
    decreases |cells|
  {
    if |cells| == 0 then b
    else
      var c := cells[|cells| - 1];
      var pre := cells[..|cells| - 1];
      assert forall d :: d in cells <==> d == c || d in pre by {
        assert cells == pre + [c];
      }
      SetValue(Paint(b, pre, color), c.0, c.1, Some(color))
  }

  /** Painting cells that already hold values changes no column's extent and keeps a board well formed. */
  lemma {:induction false} PaintKeepsShape(b: Board, cells: seq<Cell>, color: int)
    requires forall i :: 0 <= i < |cells| ==> cells[i].1 >= 0
    requires forall c :: c in cells ==> At(b, c) != None
    ensures var r := Paint(b, cells, color);
      (forall x :: x in r <==> x in b) && (forall x :: x in r ==> |r[x]| == |b[x]|)
    ensures WellFormed(b) ==> WellFormed(Paint(b, cells, color))
    decreases |cells|
  {
    if |cells| > 0 {
      var c := cells[|cells| - 1];
      var pre := cells[..|cells| - 1];
      assert forall d :: d in pre ==> d in cells;
      PaintKeepsShape(b, pre, color);
      var p := Paint(b, pre, color);
      assert c in cells;
      if c !in pre {
        assert GetValue(p, c.0, c.1) == GetValue(b, c.0, c.1);
      }
      assert At(p, c) != None;
      assert c.0 in p && 0 <= c.1 < |p[c.0]|;
      var r := Paint(b, cells, color);
      assert r == p[c.0 := p[c.0][c.1 := Some(color)]];
      if WellFormed(b) {
        SetValueWellFormed(p, c.0, c.1, Some(color));
      }
    }
  }

  /**
    _color_piece: paints every placeholder cell of columns 0..width-1 with the
    colour and leaves every other cell as it was.
  */
  function ColorPiece(b: Board, color: int): (r: Board)
    ensures forall x, y :: 0 <= x < Width(b) && IsPlaceholder(b, x, y) ==> GetValue(r, x, y) == Some(color)
    ensures forall x, y :: !(0 <= x < Width(b) && IsPlaceholder(b, x, y)) ==> GetValue(r, x, y) == GetValue(b, x, y)
  {
    var coords := NewPieceCoords(b);
    assert forall i :: 0 <= i < |coords| ==> coords[i] in coords;
    Paint(b, coords, color)
  }

  /**
    On a sound board, colouring with a real colour leaves no placeholder
    anywhere, keeps the board sound and inside the same bounds.
  */
  lemma ColorPieceClears(b: Board, color: int, maxWidth: int, maxHeight: int)
    requires Sound(b) && color != Placeholder
    ensures forall x, y :: !IsPlaceholder(ColorPiece(b, color), x, y)
    ensures Sound(ColorPiece(b, color))
    ensures Bounded(b, maxWidth, maxHeight) ==> Bounded(ColorPiece(b, color), maxWidth, maxHeight)
  {
    var r := ColorPiece(b, color);
    ColorPieceShape(b, color);
    NoPlaceholderLeft(b, r, color);
    SameShapeBounded(b, r, maxWidth, maxHeight);
  }

  /** Colouring the piece rewrites cells that hold values, so no column changes its extent. */
  lemma ColorPieceShape(b: Board, color: int)
    ensures ColorPiece(b, color).Keys == b.Keys
    ensures forall x :: x in b ==> |ColorPiece(b, color)[x]| == |b[x]|
    ensures WellFormed(b) ==> WellFormed(ColorPiece(b, color))
  {
    var coords := NewPieceCoords(b);
    assert forall i :: 0 <= i < |coords| ==> coords[i] in coords;
    PaintKeepsShape(b, coords, color);
  }

  /** A board that paints every placeholder of a sound board and keeps every other cell has no placeholder. */
  lemma NoPlaceholderLeft(b: Board, r: Board, color: int)
    requires KeysNatural(b) && color != Placeholder
    requires forall x, y :: 0 <= x < Width(b) && IsPlaceholder(b, x, y) ==> GetValue(r, x, y) == Some(color)
    requires forall x, y :: !(0 <= x < Width(b) && IsPlaceholder(b, x, y)) ==> GetValue(r, x, y) == GetValue(b, x, y)
    ensures forall x, y :: !IsPlaceholder(r, x, y)
  {
    KeysInWidth(b);
    forall x, y ensures !IsPlaceholder(r, x, y) {
      if IsPlaceholder(b, x, y) {
        assert x in b;
      }
    }
  }

  /** Two boards with the same columns of the same lengths have the same width and bounds. */
  lemma SameShapeBounded(b: Board, r: Board, maxWidth: int, maxHeight: int)
    requires r.Keys == b.Keys && forall x :: x in r ==> |r[x]| == |b[x]|
    ensures Width(r) == Width(b)
    ensures Bounded(b, maxWidth, maxHeight) ==> Bounded(r, maxWidth, maxHeight)
  {
    assert r.Keys == b.Keys;
  }

  /* ---------------------------------------------------------------------- */
  /* Golden fixtures of _change_is_colorable                                */
  /* ---------------------------------------------------------------------- */

  /** A one-column board whose column 0 reads `d` bottom up (d without gaps, ending in a value). */
  lemma OneColumn(r: Board, d: seq<Option<int>>)
    requires |d| > 0 && d[|d| - 1] != None
    requires forall y :: 0 <= y < |d| ==> GetValue(r, 0, y) == d[y]
    requires forall y :: y >= |d| ==> GetValue(r, 0, y) == None
    requires forall x :: x != 0 ==> x !in r
    ensures Width(r) == 1
    ensures forall x, y :: GetValue(r, x, y) != None ==> x == 0 && 0 <= y < |d| && GetValue(r, x, y) == d[y]
  {
    assert GetValue(r, 0, |d| - 1) != None;
    WidthOfKeys(r, 1);
  }

  /** Column data of inserting a cell under the lone `1`. */
  lemma UnderOneData()
    ensures CellData([Some(1)], 0) == [Some(Placeholder), Some(1)]
  {
    assert PlaceholderRows([Some(1)], 1) == [];
    assert Gather([Some(1)], 0, 1) == [Some(Placeholder), Some(1)];
  }

  /** The board after inserting a cell under the lone `1`. */
  lemma UnderOneBoard()
    ensures var r := MakeChange(map[0 := [Some(1)]], InsertCellChange(0, 0));
      && GetValue(r, 0, 0) == Some(Placeholder) && GetValue(r, 0, 1) == Some(1)
      && (forall y :: y >= 2 ==> GetValue(r, 0, y) == None)
      && (forall x :: x != 0 ==> x !in r)
  {
    var b: Board := map[0 := [Some(1)]];
    assert ColumnOf(b, 0) == [Some(1)];
    UnderOneData();
  }

  /** With a placeholder under a `1`, colour 1 is taken. */
  lemma UnderOneTaken(r: Board)
    requires GetValue(r, 0, 0) == Some(Placeholder) && GetValue(r, 0, 1) == Some(1)
    requires forall y :: y >= 2 ==> GetValue(r, 0, y) == None
    requires forall x :: x != 0 ==> x !in r
    ensures NewPieceColors(r, 1) == {}
  {
    OneColumn(r, [Some(Placeholder), Some(1)]);
    assert IsPlaceholder(r, 0, 0) && At(r, (0, 1)) == Some(1) && (0, 1) in Nbrs((0, 0));
    assert 1 !in NewPieceColors(r, 1);
    assert forall k :: k in NewPieceColors(r, 1) ==> k == 1;
  }

  /** With a placeholder under a `1` and nothing else, colour 2 is free. */
  lemma UnderOneFree(r: Board)
    requires GetValue(r, 0, 0) == Some(Placeholder) && GetValue(r, 0, 1) == Some(1)
    requires forall y :: y >= 2 ==> GetValue(r, 0, y) == None
    requires forall x :: x != 0 ==> x !in r
    ensures 2 in NewPieceColors(r, 2)
  {
    var d := [Some(Placeholder), Some(1)];
    OneColumn(r, d);
    assert forall n: Cell :: At(r, n) != Some(2) by {
      forall n: Cell ensures At(r, n) != Some(2) {
        if GetValue(r, n.0, n.1) != None {
          assert n.1 == 0 || n.1 == 1;
        }
      }
    }
  }

  /**
    Inserting a cell under the lone `1` of a one-cell board: with one colour the
    new piece cannot be coloured, with two it can.
  */
  lemma ColorableFixture()
    ensures !ChangeIsColorable(map[0 := [Some(1)]], InsertCellChange(0, 0), 1)
    ensures ChangeIsColorable(map[0 := [Some(1)]], InsertCellChange(0, 0), 2)
  {
    var r := MakeChange(map[0 := [Some(1)]], InsertCellChange(0, 0));
    UnderOneBoard();
    UnderOneTaken(r);
    UnderOneFree(r);
  }

  /** A cell inserted into the empty board is a lone placeholder with every colour free. */
  lemma ColorableOnEmptyBoard()
    ensures ChangeIsColorable(EmptyBoard, InsertCellChange(0, 0), 1)
  {
    EmptyBoardCellChange();
    LonePlaceholderFree(MakeChange(EmptyBoard, InsertCellChange(0, 0)));
  }

  /** Inserting a cell into the empty board leaves a single placeholder at (0, 0). */
  lemma EmptyBoardCellChange()
    ensures forall x, y :: (GetValue(MakeChange(EmptyBoard, InsertCellChange(0, 0)), x, y) ==
      (if x == 0 && y == 0 then Some(Placeholder) else None))
  {
    var d := [Some(Placeholder)];
    assert CellData([], 0) == d by {
      assert PlaceholderRows([], 0) == [];
      assert Gather([], 0, 0) == [];
    }
    var r := MakeChange(EmptyBoard, InsertCellChange(0, 0));
    assert r == WriteColumn(EmptyBoard, 0, d);
  }

  /** On a board holding nothing but placeholders, colour 1 is free. */
  lemma LonePlaceholderFree(r: Board)
    requires forall x, y :: GetValue(r, x, y) == None || GetValue(r, x, y) == Some(Placeholder)
    ensures 1 in NewPieceColors(r, 1)
  {
    forall c: Cell, n: Cell | 0 <= c.0 < Width(r) && IsPlaceholder(r, c.0, c.1) && n in Nbrs(c)
      ensures At(r, n) != Some(1)
    {
      assert GetValue(r, n.0, n.1) == None || GetValue(r, n.0, n.1) == Some(Placeholder);
    }
  }
}
