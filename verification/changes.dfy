/**
  The candidate edits of boardgen.py. The generator grows one new piece, made of
  placeholder cells, by inserting either a whole column of placeholders or a
  single placeholder cell into an existing column.
*/
module Changes {
  import opened Optional
  import opened Extrema
  import opened Boards

  /** _InsertColumnChange and _InsertCellChange. */
  datatype Change =
    | InsertColumnChange(col: int, height: int)
    | InsertCellChange(col: int, height: int)

  /** _make_change asserts that a cell is inserted at most one row above the column's top. */
  predicate Applicable(b: Board, c: Change) {
    c.InsertCellChange? ==> c.height <= ColumnHeight(b, c.col)
  }

  predicate IsPlaceholder(b: Board, x: int, y: int) {
    GetValue(b, x, y) == Some(Placeholder)
  }

  /** Every stored column index is non-negative, as on every board the generator builds. */
  ghost predicate KeysNatural(b: Board) {
    forall x :: x in b ==> x >= 0
  }

  /** The representation invariant together with non-negative column indexes. */
  ghost predicate Sound(b: Board) {
    WellFormed(b) && KeysNatural(b)
  }

  /** On a board with non-negative column indexes every column lies in 0..width-1. */
  lemma KeysInWidth(b: Board)
    requires KeysNatural(b)
    ensures forall x :: x in b ==> 0 <= x < Width(b)
  {
  }

  /** A board whose columns all lie in 0..n-1 is at most n wide. */
  lemma WidthAtMost(b: Board, n: int)
    requires KeysNatural(b)
    requires forall x :: x in b ==> x < n
    ensures Width(b) <= Max(n, 0)
  {
    if |b| > 0 {
      assert (forall y :: y !in b.Keys) ==> b.Keys == {};
      var x :| x in b;
      assert Width(b) > 1 ==> Width(b) - 1 in b;
    }
  }

  /** The board fits in max_size: at most maxWidth columns wide and maxHeight rows high. */
  ghost predicate Bounded(b: Board, maxWidth: int, maxHeight: int) {
    Width(b) <= maxWidth && forall x :: x in b ==> |b[x]| <= maxHeight
  }

  /**
    A change that keeps a board inside max_size: a column inserted at a boundary
    0..width of a board narrower than maxWidth with 1..maxHeight cells, or a cell
    inserted at a row 0..top of a column 0..width-1 lower than maxHeight.
  */
  predicate Allowed(b: Board, maxWidth: int, maxHeight: int, c: Change) {
    match c
    case InsertColumnChange(col, height) =>
      0 <= col <= Width(b) < maxWidth && 1 <= height <= maxHeight
    case InsertCellChange(col, height) =>
      0 <= col < Width(b) && 0 <= height <= ColumnHeight(b, col) < maxHeight
  }

  /** A cell slot: row 0..top of a column 0..w-1 that is lower than maxHeight. */
  predicate CellSlot(b: Board, w: int, maxHeight: int, c: Change) {
    c.InsertCellChange? && 0 <= c.col < w &&
    ColumnHeight(b, c.col) < maxHeight && 0 <= c.height <= ColumnHeight(b, c.col)
  }

  /** The cell insertions of column x, in ascending row order. */
  function ColumnSlots(b: Board, x: int, maxHeight: int): (r: seq<Change>)
    ensures forall c :: c in r <==> (c.InsertCellChange? && c.col == x &&
      ColumnHeight(b, x) < maxHeight && 0 <= c.height <= ColumnHeight(b, x))
  {
    var h := ColumnHeight(b, x);
    if h < maxHeight then
      var r := seq(h + 1, j => InsertCellChange(x, j));
      assert forall j :: 0 <= j <= h ==> r[j] == InsertCellChange(x, j);
      r
    else []
  }

  /** The cell insertions of columns 0..n-1, column by column. */
  function CellSlots(b: Board, n: int, maxHeight: int): (r: seq<Change>)
    ensures forall c :: c in r <==> CellSlot(b, n, maxHeight, c)
    decreases n
  {
    if n <= 0 then []
    else CellSlots(b, n - 1, maxHeight) + ColumnSlots(b, n - 1, maxHeight)
  }

  /** One-column insertions of height 1 at every boundary 0..n-1. */
  function NewColumns(n: int): (r: seq<Change>)
    ensures forall c :: c in r <==> c.InsertColumnChange? && c.height == 1 && 0 <= c.col < n
  {
    if n <= 0 then []
    else
      var r := seq(n, i => InsertColumnChange(i, 1));
      assert forall i :: 0 <= i < n ==> r[i] == InsertColumnChange(i, 1);
      r
  }

  /**
    _enumerate_one_cell_changes: the column insertions of height 1 at boundaries
    0..width while the board is narrower than max_width (and max_height allows a
    row), then every cell slot.
  */
  function EnumerateOneCellChanges(b: Board, maxWidth: int, maxHeight: int): (r: seq<Change>)
    ensures forall c :: c in r <==>
      (c.InsertColumnChange? && c.height == 1 && 0 <= c.col <= Width(b) &&
       Width(b) < maxWidth && maxHeight >= 1) ||
      CellSlot(b, Width(b), maxHeight, c)
  {
    var w := Width(b);
    (if w < maxWidth && maxHeight >= 1 then NewColumns(w + 1) else []) + CellSlots(b, w, maxHeight)
  }

  /** Every enumerated change may be applied and keeps the board inside max_size. */
  lemma EnumeratedChangesAllowed(b: Board, maxWidth: int, maxHeight: int)
    ensures forall c :: c in EnumerateOneCellChanges(b, maxWidth, maxHeight) ==>
      Applicable(b, c) && Allowed(b, maxWidth, maxHeight, c)
  {
  }

  /** The golden fixture `.1.` over `211` with max_size (10, 10): eleven changes, in this order. */
  lemma EnumerateFixture()
    ensures EnumerateOneCellChanges(FixtureBoard(), 10, 10) ==
      [InsertColumnChange(0, 1), InsertColumnChange(1, 1), InsertColumnChange(2, 1),
       InsertColumnChange(3, 1),
       InsertCellChange(0, 0), InsertCellChange(0, 1),
       InsertCellChange(1, 0), InsertCellChange(1, 1), InsertCellChange(1, 2),
       InsertCellChange(2, 0), InsertCellChange(2, 1)]
  {
    FixtureParts();
    FixtureSlots();
    Concat4And7(EnumerateOneCellChanges(FixtureBoard(), 10, 10), CellSlots(FixtureBoard(), 3, 10));
  }

  lemma Concat4And7(e: seq<Change>, cs: seq<Change>)
    requires e == [InsertColumnChange(0, 1), InsertColumnChange(1, 1), InsertColumnChange(2, 1),
      InsertColumnChange(3, 1)] + cs
    requires cs == [InsertCellChange(0, 0), InsertCellChange(0, 1),
      InsertCellChange(1, 0), InsertCellChange(1, 1), InsertCellChange(1, 2),
      InsertCellChange(2, 0), InsertCellChange(2, 1)]
    ensures e ==
      [InsertColumnChange(0, 1), InsertColumnChange(1, 1), InsertColumnChange(2, 1),
       InsertColumnChange(3, 1),
       InsertCellChange(0, 0), InsertCellChange(0, 1),
       InsertCellChange(1, 0), InsertCellChange(1, 1), InsertCellChange(1, 2),
       InsertCellChange(2, 0), InsertCellChange(2, 1)]
  {
  }

  lemma FixtureParts()
    ensures EnumerateOneCellChanges(FixtureBoard(), 10, 10) ==
      [InsertColumnChange(0, 1), InsertColumnChange(1, 1), InsertColumnChange(2, 1), InsertColumnChange(3, 1)] +
      CellSlots(FixtureBoard(), 3, 10)
  {
    WidthOfKeys(FixtureBoard(), 3);
    assert NewColumns(4) ==
      [InsertColumnChange(0, 1), InsertColumnChange(1, 1), InsertColumnChange(2, 1), InsertColumnChange(3, 1)];
  }

  /** The board `.1.` over `211`. */
  function FixtureBoard(): Board {
    map[0 := [Some(2)], 1 := [Some(1), Some(1)], 2 := [Some(1)]]
  }

  lemma FixtureSlots()
    ensures CellSlots(FixtureBoard(), 3, 10) ==
      [InsertCellChange(0, 0), InsertCellChange(0, 1),
       InsertCellChange(1, 0), InsertCellChange(1, 1), InsertCellChange(1, 2),
       InsertCellChange(2, 0), InsertCellChange(2, 1)]
  {
    var b := FixtureBoard();
    var c0 := [InsertCellChange(0, 0), InsertCellChange(0, 1)];
    var c1 := [InsertCellChange(1, 0), InsertCellChange(1, 1), InsertCellChange(1, 2)];
    var c2 := [InsertCellChange(2, 0), InsertCellChange(2, 1)];
    ColumnSlotsOf(b, 0, 10, 1);
    ColumnSlotsOf(b, 1, 10, 2);
    ColumnSlotsOf(b, 2, 10, 1);
    assert CellSlots(b, 1, 10) == c0 by { assert CellSlots(b, 0, 10) == []; }
    assert CellSlots(b, 2, 10) == c0 + c1;
    assert CellSlots(b, 3, 10) == c0 + c1 + c2;
  }

  /** The slots of a column of height h below maxHeight: rows 0..h. */
  lemma ColumnSlotsOf(b: Board, x: int, maxHeight: int, h: nat)
    requires ColumnHeight(b, x) == h < maxHeight
    ensures |ColumnSlots(b, x, maxHeight)| == h + 1
    ensures forall j :: 0 <= j <= h ==> ColumnSlots(b, x, maxHeight)[j] == InsertCellChange(x, j)
  {
  }

  /** A board whose columns are exactly 0..n-1 is n wide. */
  lemma WidthOfKeys(b: Board, n: int)
    requires n > 0
    requires forall x :: x in b <==> 0 <= x < n
    ensures Width(b) == n
  {
    assert 0 in b && n - 1 in b;
  }

  /** A placeholder sits directly left or right of (x, y). */
  predicate TouchesHorizontally(b: Board, x: int, y: int) {
    IsPlaceholder(b, x + 1, y) || IsPlaceholder(b, x - 1, y)
  }

  /** A placeholder sits directly below or above (x, y). */
  predicate TouchesVertically(b: Board, x: int, y: int) {
    IsPlaceholder(b, x, y - 1) || IsPlaceholder(b, x, y + 1)
  }

  /** The members of `s` satisfying `p`, in order. */
  function Filter(s: seq<Change>, p: Change -> bool): (r: seq<Change>)
    ensures forall c :: c in r <==> c in s && p(c)
    ensures |r| <= |s|
  {
    if |s| == 0 then []
    else Filter(s[..|s| - 1], p) + (if p(s[|s| - 1]) then [s[|s| - 1]] else [])
  }

  /**
    _get_cell_changes: the cell slots that are not placeholders themselves, split
    into those with a placeholder beside them (horizontal) and, failing that,
    those with one below or above (vertical).
  */
  function GetCellChanges(b: Board, maxWidth: int, maxHeight: int): (r: (seq<Change>, seq<Change>))
    ensures forall c :: c in r.0 <==> (CellSlot(b, Width(b), maxHeight, c) &&
      !IsPlaceholder(b, c.col, c.height) && TouchesHorizontally(b, c.col, c.height))
    ensures forall c :: c in r.1 <==> (CellSlot(b, Width(b), maxHeight, c) &&
      !IsPlaceholder(b, c.col, c.height) && !TouchesHorizontally(b, c.col, c.height) &&
      TouchesVertically(b, c.col, c.height))
  {
    var slots := CellSlots(b, Width(b), maxHeight);
    (Filter(slots, (c: Change) => !IsPlaceholder(b, c.col, c.height) && TouchesHorizontally(b, c.col, c.height)),
     Filter(slots, (c: Change) => !IsPlaceholder(b, c.col, c.height) && !TouchesHorizontally(b, c.col, c.height) &&
                        TouchesVertically(b, c.col, c.height)))
  }

  /** No slot is offered both as a horizontal and as a vertical change, and every one is allowed. */
  lemma CellChangesDisjoint(b: Board, maxWidth: int, maxHeight: int)
    ensures forall c :: c in GetCellChanges(b, maxWidth, maxHeight).0 ==> c !in GetCellChanges(b, maxWidth, maxHeight).1
    ensures forall c :: c in GetCellChanges(b, maxWidth, maxHeight).0 + GetCellChanges(b, maxWidth, maxHeight).1 ==>
      Applicable(b, c) && Allowed(b, maxWidth, maxHeight, c)
  {
  }

  /** The board `.**` over `12*`. */
  function TouchFixtureBoard(): Board {
    map[0 := [Some(1)], 1 := [Some(2), Some(-1)], 2 := [Some(-1), Some(-1)]]
  }

  lemma TouchFixtureSlots()
    ensures CellSlots(TouchFixtureBoard(), 3, 3) ==
      [InsertCellChange(0, 0), InsertCellChange(0, 1),
       InsertCellChange(1, 0), InsertCellChange(1, 1), InsertCellChange(1, 2),
       InsertCellChange(2, 0), InsertCellChange(2, 1), InsertCellChange(2, 2)]
  {
    var b := TouchFixtureBoard();
    var c0 := [InsertCellChange(0, 0), InsertCellChange(0, 1)];
    var c1 := [InsertCellChange(1, 0), InsertCellChange(1, 1), InsertCellChange(1, 2)];
    var c2 := [InsertCellChange(2, 0), InsertCellChange(2, 1), InsertCellChange(2, 2)];
    ColumnSlotsOf(b, 0, 3, 1);
    ColumnSlotsOf(b, 1, 3, 2);
    ColumnSlotsOf(b, 2, 3, 2);
    assert CellSlots(b, 1, 3) == c0 by { assert CellSlots(b, 0, 3) == []; }
    assert CellSlots(b, 2, 3) == c0 + c1;
    assert CellSlots(b, 3, 3) == c0 + c1 + c2;
  }

  /** The placeholder neighbourhood of each slot of `.**` over `12*`. */
  lemma TouchFixtureNeighbours(b: Board)
    requires b == TouchFixtureBoard()
    ensures !IsPlaceholder(b, 0, 0) && !TouchesHorizontally(b, 0, 0) && !TouchesVertically(b, 0, 0)
    ensures !IsPlaceholder(b, 0, 1) && TouchesHorizontally(b, 0, 1) && !TouchesVertically(b, 0, 1)
    ensures !IsPlaceholder(b, 1, 0) && TouchesHorizontally(b, 1, 0) && TouchesVertically(b, 1, 0)
    ensures IsPlaceholder(b, 1, 1) && TouchesHorizontally(b, 1, 1) && !TouchesVertically(b, 1, 1)
    ensures !IsPlaceholder(b, 1, 2) && !TouchesHorizontally(b, 1, 2) && TouchesVertically(b, 1, 2)
    ensures IsPlaceholder(b, 2, 0) && !TouchesHorizontally(b, 2, 0) && TouchesVertically(b, 2, 0)
    ensures IsPlaceholder(b, 2, 1) && TouchesHorizontally(b, 2, 1) && TouchesVertically(b, 2, 1)
    ensures !IsPlaceholder(b, 2, 2) && !TouchesHorizontally(b, 2, 2) && TouchesVertically(b, 2, 2)
  {
  }

  /**
    The golden fixture `.**` over `12*` with max_size (3, 3): two slots beside a
    placeholder and two more only above one.
  */
  lemma CellChangesFixture()
    ensures forall c :: c in GetCellChanges(TouchFixtureBoard(), 3, 3).0 <==>
      c in [InsertCellChange(0, 1), InsertCellChange(1, 0)]
    ensures forall c :: c in GetCellChanges(TouchFixtureBoard(), 3, 3).1 <==>
      c in [InsertCellChange(1, 2), InsertCellChange(2, 2)]
  {
    HorizontalFixture();
    VerticalFixture();
  }

  lemma HorizontalFixture()
    ensures forall c :: c in GetCellChanges(TouchFixtureBoard(), 3, 3).0 <==>
      c in [InsertCellChange(0, 1), InsertCellChange(1, 0)]
  {
    var b := TouchFixtureBoard();
    WidthOfKeys(b, 3);
    TouchFixtureSlots();
    TouchFixtureNeighbours(b);
  }

  lemma VerticalFixture()
    ensures forall c :: c in GetCellChanges(TouchFixtureBoard(), 3, 3).1 <==>
      c in [InsertCellChange(1, 2), InsertCellChange(2, 2)]
  {
    var b := TouchFixtureBoard();
    WidthOfKeys(b, 3);
    TouchFixtureSlots();
    TouchFixtureNeighbours(b);
  }

  /**
    The highest_new_piece scan of _get_col_changes over rows 0..n-1: one past the
    highest placeholder row, 0 when there is none.
  */
  function PlaceholderExtent(col: Column, n: int): (k: nat)
    requires 0 <= n <= |col|
    ensures k <= n
    ensures k > 0 ==> col[k - 1] == Some(Placeholder)
    ensures forall j :: k <= j < n ==> col[j] != Some(Placeholder)
  {
    if n == 0 then 0
    else if col[n - 1] == Some(Placeholder) then n
    else PlaceholderExtent(col, n - 1)
  }

  /** highest_new_pieces[x] for a column 0..w-1, and the 0 padding outside that range. */
  function Extent(b: Board, w: int, x: int): (k: nat)
    ensures k > 0 ==> 0 <= x < w && IsPlaceholder(b, x, k - 1)
    ensures 0 <= x < w ==> forall j :: j >= k ==> !IsPlaceholder(b, x, j)
    ensures k <= ColumnHeight(b, x)
  {
    if 0 <= x < w && x in b then PlaceholderExtent(b[x], |b[x]|) else 0
  }

  /** The column insertions at boundaries 0..n-1, each as high as the taller placeholder extent beside it. */
  function BoundaryChanges(b: Board, w: int, n: int): (r: seq<Change>)
    ensures forall c :: c in r <==> (c.InsertColumnChange? && 0 <= c.col < n &&
      c.height == Max(Extent(b, w, c.col - 1), Extent(b, w, c.col)) && c.height > 0)
    decreases n
  {
    if n <= 0 then []
    else
      var h := Max(Extent(b, w, n - 2), Extent(b, w, n - 1));
      BoundaryChanges(b, w, n - 1) + (if h > 0 then [InsertColumnChange(n - 1, h)] else [])
  }

  /**
    _get_col_changes: nothing when the board is already max_width wide or no row is
    allowed; otherwise one column insertion per boundary 0..width that touches the
    new piece, as high as the new piece reaches on either side.
  */
  function GetColChanges(b: Board, maxWidth: int, maxHeight: int): (r: seq<Change>)
    ensures Width(b) == maxWidth || maxHeight < 1 ==> r == []
    ensures Width(b) != maxWidth && maxHeight >= 1 ==> forall c :: c in r <==> (
      c.InsertColumnChange? && 0 <= c.col <= Width(b) && c.height > 0 &&
      c.height == Max(Extent(b, Width(b), c.col - 1), Extent(b, Width(b), c.col)))
  {
    var w := Width(b);
    if w == maxWidth || maxHeight < 1 then [] else BoundaryChanges(b, w, w + 1)
  }

  /** On a board inside max_size, every column insertion offered keeps it inside. */
  lemma ColChangesAllowed(b: Board, maxWidth: int, maxHeight: int)
    requires Bounded(b, maxWidth, maxHeight)
    ensures forall c :: c in GetColChanges(b, maxWidth, maxHeight) ==> Allowed(b, maxWidth, maxHeight, c)
  {
    forall c | c in GetColChanges(b, maxWidth, maxHeight)
      ensures Allowed(b, maxWidth, maxHeight, c)
    {
      var w := Width(b);
      var e1, e2 := Extent(b, w, c.col - 1), Extent(b, w, c.col);
      assert e1 <= ColumnHeight(b, c.col - 1) <= Max(maxHeight, 0);
      assert e2 <= ColumnHeight(b, c.col) <= Max(maxHeight, 0);
    }
  }

  /** The column-change fixtures with max_size (3, 3): `*.` over `**`, and `*.` over `12`. */
  lemma ColChangesFixture()
    ensures GetColChanges(map[0 := [Some(-1), Some(-1)], 1 := [Some(-1)]], 3, 3) ==
      [InsertColumnChange(0, 2), InsertColumnChange(1, 2), InsertColumnChange(2, 1)]
    ensures GetColChanges(map[0 := [Some(1), Some(-1)], 1 := [Some(2)]], 3, 3) ==
      [InsertColumnChange(0, 2), InsertColumnChange(1, 2)]
  {
    AllNewFixture();
    OneNewFixture();
  }

  lemma AllNewFixture()
    ensures GetColChanges(map[0 := [Some(-1), Some(-1)], 1 := [Some(-1)]], 3, 3) ==
      [InsertColumnChange(0, 2), InsertColumnChange(1, 2), InsertColumnChange(2, 1)]
  {
    var b := map[0 := [Some(-1), Some(-1)], 1 := [Some(-1)]];
    WidthOfKeys(b, 2);
    assert Extent(b, 2, -1) == 0 && Extent(b, 2, 2) == 0;
    assert Extent(b, 2, 0) == 2;
    assert Extent(b, 2, 1) == 1;
    assert BoundaryChanges(b, 2, 1) == [InsertColumnChange(0, 2)] by {
      assert BoundaryChanges(b, 2, 0) == [];
    }
    assert BoundaryChanges(b, 2, 2) == [InsertColumnChange(0, 2), InsertColumnChange(1, 2)];
  }

  lemma OneNewFixture()
    ensures GetColChanges(map[0 := [Some(1), Some(-1)], 1 := [Some(2)]], 3, 3) ==
      [InsertColumnChange(0, 2), InsertColumnChange(1, 2)]
  {
    var b := map[0 := [Some(1), Some(-1)], 1 := [Some(2)]];
    WidthOfKeys(b, 2);
    assert Extent(b, 2, -1) == 0 && Extent(b, 2, 2) == 0;
    assert Extent(b, 2, 0) == 2;
    assert Extent(b, 2, 1) == 0 by {
      assert PlaceholderExtent([Some(2)], 0) == 0;
    }
    assert BoundaryChanges(b, 2, 1) == [InsertColumnChange(0, 2)] by {
      assert BoundaryChanges(b, 2, 0) == [];
    }
    assert BoundaryChanges(b, 2, 2) == [InsertColumnChange(0, 2), InsertColumnChange(1, 2)];
  }
}
