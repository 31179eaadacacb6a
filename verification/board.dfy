/**
  The sparse board of board.py: a map from column index to a column of optional
  colour values, with y = 0 at the bottom of each column. A missing column and a
  None entry both mean "no piece here".
*/
module Boards {
  import opened Optional
  import opened Extrema

  /** The value the generator stores in cells of the piece it is growing. */
  const Placeholder: int := -1

  type Column = seq<Option<int>>
  type Board = map<int, Column>

  const EmptyBoard: Board := map[]

  /**
    The representation invariant kept by every mutating operation: a stored
    column is never empty and never ends in None.
  */
  ghost predicate WellFormed(b: Board) {
    forall x :: x in b ==> |b[x]| > 0 && b[x][|b[x]| - 1] != None
  }

  /** A column of `n` empty cells. */
  function Nones(n: nat): (r: Column)
    ensures |r| == n
    ensures forall i :: 0 <= i < n ==> r[i] == None
  {
    seq(n, _ => None)
  }

  /** get_value: the value at (x, y), None for any coordinate outside the stored columns. */
  function GetValue(b: Board, x: int, y: int): (v: Option<int>)
    ensures v != None ==> x in b && 0 <= y < |b[x]| && v == b[x][y]
    ensures x in b && 0 <= y < |b[x]| ==> v == b[x][y]
  {
    if x !in b then None
    else if 0 <= y < |b[x]| then b[x][y]
    else None
  }

  /** GetValue on a coordinate tuple. */
  function At(b: Board, c: Cell): Option<int> {
    GetValue(b, c.0, c.1)
  }

  /**
    The downward scan of _trim_column: the highest index at or below `i` whose
    cell holds a value, or -1 when there is none.
  */
  function HighestValue(col: Column, i: int): (k: int)
    requires -1 <= i < |col|
    ensures -1 <= k <= i
    ensures k >= 0 ==> col[k] != None
    ensures forall j :: k < j <= i ==> col[j] == None
    decreases i + 1
  {
    if i < 0 then -1
    else if col[i] != None then i
    else HighestValue(col, i - 1)
  }

  /**
    _trim_column: drops the run of empty cells at the top of column x, and the
    column itself when nothing is left. No cell's value changes.
  */
  function TrimColumn(b: Board, x: int): (r: Board)
    requires x in b && |b[x]| > 0
    ensures forall x', y' :: GetValue(r, x', y') == GetValue(b, x', y')
    ensures forall x' :: x' != x ==> (x' in r <==> x' in b) && (x' in r ==> r[x'] == b[x'])
    ensures x in r ==> |r[x]| > 0 && r[x][|r[x]| - 1] != None
  {
    var col := b[x];
    if col[|col| - 1] != None then b
    else
      var top := HighestValue(col, |col| - 1);
      if top >= 0 then b[x := col[..top + 1]] else b - {x}
  }

  /**
    set_value: writes `v` at (x, y). Writing a value above the top of a column
    pads it with empty cells; writing None trims the column. `y` must be
    non-negative, as the source asserts.
  */
  function SetValue(b: Board, x: int, y: int, v: Option<int>): (r: Board)
    requires y >= 0
    ensures GetValue(r, x, y) == v
    ensures forall x', y' :: (x', y') != (x, y) ==> GetValue(r, x', y') == GetValue(b, x', y')
    ensures forall x' :: x' != x ==> (x' in r <==> x' in b) && (x' in r ==> r[x'] == b[x'])
  {
    if x !in b then
      if v != None then b[x := Nones(y) + [v]] else b
    else if y < |b[x]| then
      var r := b[x := b[x][y := v]];
      if v == None then TrimColumn(r, x) else r
    else if v == None then b
    else b[x := b[x] + Nones(y - |b[x]|) + [v]]
  }

  /** Every write keeps the representation invariant. */
  lemma SetValueWellFormed(b: Board, x: int, y: int, v: Option<int>)
    requires WellFormed(b) && y >= 0
    ensures WellFormed(SetValue(b, x, y, v))
  {
    var r := SetValue(b, x, y, v);
    forall x' | x' in r
      ensures |r[x']| > 0 && r[x'][|r[x']| - 1] != None
    {
      if x' != x {
        assert r[x'] == b[x'];
      } else if x in b && y < |b[x]| && v != None {
        assert r[x] == b[x][y := v];
      }
    }
  }

  /** get_column_height: the stored length of column x, 0 when it is absent. */
  function ColumnHeight(b: Board, x: int): (h: nat)
    ensures forall y :: y >= h ==> GetValue(b, x, y) == None
    ensures WellFormed(b) && h > 0 ==> GetValue(b, x, h - 1) != None
    ensures WellFormed(b) ==> (h == 0 <==> x !in b)
  {
    if x in b then |b[x]| else 0
  }

  /** min_x: the smaller of 0 and the least column index. */
  function MinX(b: Board): (m: int)
    ensures m <= 0
    ensures forall x :: x in b ==> m <= x
    ensures m < 0 ==> m in b
  {
    if |b| == 0 then 0 else Min(0, MinOf(b.Keys))
  }

  /** max_x: one past the larger of 0 and the greatest column index; 0 for the empty board. */
  function MaxX(b: Board): (m: int)
    ensures m >= 0
    ensures forall x :: x in b ==> x < m
    ensures m == 0 <==> |b| == 0
    ensures m > 1 ==> m - 1 in b
  {
    if |b| == 0 then 0 else Max(0, MaxOf(b.Keys)) + 1
  }

  function Min(a: int, b: int): int { if a <= b then a else b }
  function Max(a: int, b: int): int { if a >= b then a else b }

  /** width: the extent of the bounding box spanning column 0 and every stored column. */
  function Width(b: Board): (w: nat)
    ensures w == 0 <==> |b| == 0
    ensures forall x :: x in b ==> MinX(b) <= x < MinX(b) + w
    ensures (forall x :: x in b ==> x >= 0) ==> MinX(b) == 0 && (w > 1 ==> w - 1 in b)
  {
    MaxX(b) - MinX(b)
  }

  /** max_y: the length of the longest column, 0 for the empty board. */
  function MaxY(b: Board): (h: nat)
    ensures forall x :: x in b ==> |b[x]| <= h
    ensures |b| > 0 ==> exists x :: x in b && |b[x]| == h
    ensures |b| == 0 ==> h == 0
  {
    if |b| == 0 then 0
    else
      var lengths := set x | x in b :: |b[x]|;
      assert (forall y :: y !in b.Keys) ==> b.Keys == {};
      var x :| x in b;
      assert forall x' :: x' in b ==> |b[x']| in lengths;
      Max(0, MaxOf(lengths))
  }

  /** height: max_y minus min_y, which is always 0. */
  function Height(b: Board): (h: nat)
    ensures forall x :: x in b ==> ColumnHeight(b, x) <= h
    ensures forall x, y :: y >= h ==> GetValue(b, x, y) == None
    ensures WellFormed(b) ==> (h == 0 <==> |b| == 0)
  {
    MaxY(b) - 0
  }

  /** is_empty: no column is stored. */
  predicate IsEmpty(b: Board)
    ensures IsEmpty(b) <==> Width(b) == 0
    ensures WellFormed(b) ==> (IsEmpty(b) <==> Height(b) == 0)
  {
    |b| == 0
  }

  /** Every stored position (x, y) with 0 <= y < len(column x), whether or not it holds a value. */
  function Cells(b: Board): (s: set<Cell>)
    ensures forall x, y :: (x, y) in s <==> x in b && 0 <= y < |b[x]|
  {
    set x, y | x in b && 0 <= y < |b[x]| :: (x, y)
  }

  /** get_value_map: every coordinate holding a value, mapped to that value. */
  function ValueMap(b: Board): (m: map<Cell, int>)
    ensures forall c :: c in m <==> At(b, c) != None
    ensures forall c :: c in m ==> At(b, c) == Some(m[c])
  {
    map c | c in Cells(b) && At(b, c) != None :: At(b, c).value
  }

  /** On well-formed boards, is_empty holds exactly when no coordinate holds a value. */
  lemma IsEmptyIffNoValues(b: Board)
    requires WellFormed(b)
    ensures IsEmpty(b) <==> ValueMap(b) == map[]
  {
    if !IsEmpty(b) {
      assert (forall y :: y !in b.Keys) ==> b.Keys == {};
      var x :| x in b;
      assert (x, |b[x]| - 1) in ValueMap(b);
    }
  }

  /** Two well-formed boards that agree on every coordinate are the same board. */
  lemma Extensionality(a: Board, b: Board)
    requires WellFormed(a) && WellFormed(b)
    requires forall x, y :: GetValue(a, x, y) == GetValue(b, x, y)
    ensures a == b
  {
    forall x | x in a
      ensures x in b && a[x] == b[x]
    {
      assert GetValue(a, x, |a[x]| - 1) != None;
      assert GetValue(b, x, |b[x]| - 1) != None;
      assert GetValue(a, x, |b[x]| - 1) != None;
      assert GetValue(b, x, |a[x]| - 1) != None;
      forall y | 0 <= y < |a[x]| ensures a[x][y] == b[x][y] {
        assert GetValue(a, x, y) == GetValue(b, x, y);
      }
    }
    forall x | x in b
      ensures x in a
    {
      assert GetValue(b, x, |b[x]| - 1) != None;
    }
  }

  /**
    __eq__ compares the stored columns; on well-formed boards that is the same as
    comparing the occupied-cell mappings.
  */
  lemma EqualIffSameValueMap(a: Board, b: Board)
    requires WellFormed(a) && WellFormed(b)
    ensures a == b <==> ValueMap(a) == ValueMap(b)
  {
    if ValueMap(a) == ValueMap(b) {
      forall x, y ensures GetValue(a, x, y) == GetValue(b, x, y) {
        var c := (x, y);
        assert c in ValueMap(a) <==> c in ValueMap(b);
      }
      Extensionality(a, b);
    }
  }
}
