/**
  The structural edits of board.py: clearing cells, gravity (drop_pieces) and
  column compaction (remove_empty_columns), the pure previews the animation
  uses (get_drop_map, get_slide_map), and the column shifts the generator uses.
*/
module BoardEdits {
  import opened Optional
  import opened Extrema
  import opened Boards

  /* ---------------------------------------------------------------------- */
  /* Clearing                                                               */
  /* ---------------------------------------------------------------------- */

  /**
    clear_pieces: writes None at every listed coordinate. The source visits the
    set in hash order; the writes commute, so the model visits it in ascending
    tuple order.
  */
  function ClearPieces(b: Board, pieces: set<Cell>): (r: Board)
    requires forall p :: p in pieces ==> p.1 >= 0
    ensures forall p :: p in pieces ==> At(r, p) == None
    ensures forall x, y :: (x, y) !in pieces ==> GetValue(r, x, y) == GetValue(b, x, y)
    decreases |pieces|
  {
    if pieces == {} then b
    else
      var p := LeastCell(pieces);
      ClearPieces(SetValue(b, p.0, p.1, None), pieces - {p})
  }

  lemma {:induction false} ClearPiecesWellFormed(b: Board, pieces: set<Cell>)
    requires WellFormed(b)
    requires forall p :: p in pieces ==> p.1 >= 0
    ensures WellFormed(ClearPieces(b, pieces))
    decreases |pieces|
  {
    if pieces != {} {
      var p := LeastCell(pieces);
      SetValueWellFormed(b, p.0, p.1, None);
      ClearPiecesWellFormed(SetValue(b, p.0, p.1, None), pieces - {p});
    }
  }

  /* ---------------------------------------------------------------------- */
  /* Gravity                                                                */
  /* ---------------------------------------------------------------------- */

  /** The values of a column with its empty cells removed, in their original order. */
  function Compact(col: Column): (r: Column)
    ensures |r| <= |col|
    ensures forall i :: 0 <= i < |r| ==> r[i] != None
    ensures (exists i :: 0 <= i < |col| && col[i] != None) ==> |r| > 0
  {
    if |col| == 0 then []
    else
      var front := col[..|col| - 1];
      var last := col[|col| - 1];
      assert forall i :: 0 <= i < |col| - 1 ==> col[i] == front[i];
      Compact(front) + (if last != None then [last] else [])
  }

  lemma {:induction false} CompactAppend(a: Column, b: Column)
    ensures Compact(a + b) == Compact(a) + Compact(b)
    decreases |b|
  {
    if |b| == 0 {
      assert a + b == a;
    } else {
      var b' := b[..|b| - 1];
      assert (a + b)[..|a + b| - 1] == a + b';
      assert (a + b)[|a + b| - 1] == b[|b| - 1];
      CompactAppend(a, b');
    }
  }

  /**
    The number of values strictly below row j of a column: where drop_pieces
    moves the value at row j.
  */
  function Landing(col: Column, j: int): nat
    requires 0 <= j <= |col|
  {
    |Compact(col[..j])|
  }

  /** The value at row j lands at index Landing(col, j) of the compacted column. */
  lemma {:induction false} CompactLanding(col: Column, j: int)
    requires 0 <= j < |col| && col[j] != None
    ensures Landing(col, j) < |Compact(col)|
    ensures Compact(col)[Landing(col, j)] == col[j]
  {
    assert col == col[..j] + [col[j]] + col[j + 1..];
    CompactAppend(col[..j] + [col[j]], col[j + 1..]);
    CompactAppend(col[..j], [col[j]]);
    assert Compact([col[j]]) == [col[j]] by {
      assert [col[j]][..0] == [];
    }
  }

  /** Values at different rows land at different indexes, in the same order. */
  lemma {:induction false} LandingMonotone(col: Column, i: int, j: int)
    requires 0 <= i < j <= |col| && col[i] != None
    ensures Landing(col, i) < Landing(col, j)
  {
    assert col[..j] == col[..i] + col[i..j];
    CompactAppend(col[..i], col[i..j]);
    assert col[i..j] == [col[i]] + col[i + 1..j];
    CompactAppend([col[i]], col[i + 1..j]);
    assert Compact([col[i]]) == [col[i]] by {
      assert [col[i]][..0] == [];
    }
  }

  /** Every index of the compacted column receives the value of some row. */
  lemma {:induction false} LandingOnto(col: Column, k: int) returns (j: int)
    requires 0 <= k < |Compact(col)|
    ensures 0 <= j < |col| && col[j] != None && Landing(col, j) == k
    decreases |col|
  {
    var n := |col|;
    var front := col[..n - 1];
    assert forall i :: 0 <= i < n - 1 ==> col[i] == front[i];
    if k < |Compact(front)| {
      j := LandingOnto(front, k);
      assert col[..j] == front[..j];
    } else {
      j := n - 1;
      assert col[..j] == front;
    }
  }

  /** drop_pieces: every column replaced by its values in order, without gaps. */
  function DropPieces(b: Board): (r: Board)
    ensures r.Keys == b.Keys
    ensures forall x, y :: x in r && 0 <= y < |r[x]| ==> r[x][y] != None
    ensures WellFormed(b) ==> WellFormed(r)
  {
    map x | x in b :: Compact(b[x])
  }

  /**
    get_drop_map: each occupied coordinate (i, j) mapped to (i, number of
    values below it in its column).
  */
  function DropMap(b: Board): map<Cell, Cell> {
    map c | c in Cells(b) && At(b, c) != None :: (c.0, Landing(b[c.0], c.1))
  }

  /**
    The preview agrees with the edit: the drop map is a bijection from the
    occupied cells of the board onto the occupied cells of the dropped board,
    keeps each value in its column, and carries each value to where
    drop_pieces puts it.
  */
  lemma DropMapPredictsDrop(b: Board)
    ensures forall c :: c in DropMap(b) <==> At(b, c) != None
    ensures forall c :: c in DropMap(b) ==>
      DropMap(b)[c].0 == c.0 && At(DropPieces(b), DropMap(b)[c]) == At(b, c)
    ensures forall c, d :: c in DropMap(b) && d in DropMap(b) && c != d ==> DropMap(b)[c] != DropMap(b)[d]
    ensures forall e :: At(DropPieces(b), e) != None ==> exists c :: c in DropMap(b) && DropMap(b)[c] == e
  {
    DropMapCarries(b);
    DropMapInjective(b);
    DropMapOnto(b);
  }

  /** Each value keeps its column and lands where DropMap says. */
  lemma DropMapCarries(b: Board)
    ensures forall c :: c in DropMap(b) ==>
      DropMap(b)[c].0 == c.0 && At(DropPieces(b), DropMap(b)[c]) == At(b, c)
  {
    var m := DropMap(b);
    forall c | c in m
      ensures m[c].0 == c.0 && At(DropPieces(b), m[c]) == At(b, c)
    {
      CompactLanding(b[c.0], c.1);
    }
  }

  /** No two values land on the same cell. */
  lemma DropMapInjective(b: Board)
    ensures forall c, d :: c in DropMap(b) && d in DropMap(b) && c != d ==> DropMap(b)[c] != DropMap(b)[d]
  {
    var m := DropMap(b);
    forall c, d | c in m && d in m && c != d
      ensures m[c] != m[d]
    {
      if c.0 == d.0 {
        if c.1 < d.1 {
          LandingMonotone(b[c.0], c.1, d.1);
        } else {
          LandingMonotone(b[c.0], d.1, c.1);
        }
      }
    }
  }

  /** Every filled cell after the drop is where some value landed. */
  lemma DropMapOnto(b: Board)
    ensures forall e :: At(DropPieces(b), e) != None ==> exists c :: c in DropMap(b) && DropMap(b)[c] == e
  {
    var m := DropMap(b);
    forall e | At(DropPieces(b), e) != None
      ensures exists c :: c in m && m[c] == e
    {
      var j := LandingOnto(b[e.0], e.1);
      assert (e.0, j) in m;
    }
  }

  /* ---------------------------------------------------------------------- */
  /* Sliding columns together                                               */
  /* ---------------------------------------------------------------------- */

  /** The number of stored columns to the left of x: the index x slides to. */
  function Rank(b: Board, x: int): nat {
    |set k | k in b && k < x|
  }

  lemma SortedUnfold(s: set<int>)
    requires s != {}
    ensures Sorted(s) == Sorted(s - {MaxOf(s)}) + [MaxOf(s)]
  {
  }

  lemma {:induction false} SortedRank(s: set<int>, k: int)
    requires 0 <= k < |Sorted(s)|
    ensures |set y | y in s && y < Sorted(s)[k]| == k
    decreases |s|
  {
    SortedUnfold(s);
    if k < |Sorted(s)| - 1 {
      SortedRankBelowMax(s, k);
    } else {
      SortedRankOfMax(s);
    }
  }

  lemma SortedRankOfMax(s: set<int>)
    requires s != {}
    ensures |set y | y in s && y < Sorted(s)[|s| - 1]| == |s| - 1
  {
    SortedUnfold(s);
    var m := MaxOf(s);
    assert Sorted(s)[|s| - 1] == m;
    assert (set y | y in s && y < m) == s - {m};
  }

  lemma {:induction false} SortedRankBelowMax(s: set<int>, k: int)
    requires s != {} && 0 <= k < |s| - 1
    ensures |set y | y in s && y < Sorted(s)[k]| == k
    decreases |s|, 0
  {
    SortedUnfold(s);
    var m := MaxOf(s);
    var rest := s - {m};
    var rs := Sorted(rest);
    var t := Sorted(s)[k];
    assert t == rs[k];
    assert t in rest;
    SortedRank(rest, k);
    BelowWithoutMax(s, m, t);
  }

  lemma BelowWithoutMax(s: set<int>, m: int, t: int)
    requires t <= m
    ensures (set y | y in s && y < t) == (set y | y in s - {m} && y < t)
  {
  }

  /** The rank of each stored column is its position in the sorted column list. */
  lemma RankIsSortedIndex(b: Board, k: int)
    requires 0 <= k < |Sorted(b.Keys)|
    ensures Rank(b, Sorted(b.Keys)[k]) == k
  {
    var ks := Sorted(b.Keys);
    SortedRank(b.Keys, k);
    assert (set y | y in b && y < ks[k]) == (set y | y in b.Keys && y < ks[k]);
  }

  /** The position of a stored column in the sorted column list. */
  lemma SortedIndexOf(b: Board, x: int) returns (k: int)
    requires x in b
    ensures 0 <= k < |Sorted(b.Keys)| && Sorted(b.Keys)[k] == x
  {
    var ks := Sorted(b.Keys);
    assert x in ks;
    k :| 0 <= k < |ks| && ks[k] == x;
  }

  /**
    remove_empty_columns: the stored columns, taken in ascending order of index,
    written to indexes 0, 1, 2, ... of a new map.
  */
  function RemoveEmptyColumns(b: Board): (r: Board)
    ensures forall k :: k in r <==> 0 <= k < |b|
  {
    var ks := Sorted(b.Keys);
    map k | 0 <= k < |ks| :: b[ks[k]]
  }

  /** The column stored at x moves to the number of columns left of it. */
  lemma RemoveEmptyColumnsMovesColumn(b: Board, x: int)
    requires x in b
    ensures Rank(b, x) in RemoveEmptyColumns(b) && RemoveEmptyColumns(b)[Rank(b, x)] == b[x]
  {
    var k := SortedIndexOf(b, x);
    RankIsSortedIndex(b, k);
  }

  /**
    The columns are renumbered 0 .. n-1 in ascending order of their old index,
    each keeping its contents, so the representation invariant survives.
  */
  lemma RemoveEmptyColumnsRenumbers(b: Board)
    ensures forall x :: x in b ==>
      Rank(b, x) in RemoveEmptyColumns(b) && RemoveEmptyColumns(b)[Rank(b, x)] == b[x]
    ensures WellFormed(b) ==> WellFormed(RemoveEmptyColumns(b))
  {
    forall x | x in b
      ensures Rank(b, x) in RemoveEmptyColumns(b) && RemoveEmptyColumns(b)[Rank(b, x)] == b[x]
    {
      RemoveEmptyColumnsMovesColumn(b, x);
    }
    if WellFormed(b) {
      RemoveEmptyColumnsWellFormed(b);
    }
  }

  lemma RemoveEmptyColumnsWellFormed(b: Board)
    requires WellFormed(b)
    ensures WellFormed(RemoveEmptyColumns(b))
  {
    var r := RemoveEmptyColumns(b);
    var ks := Sorted(b.Keys);
    forall k | k in r
      ensures |r[k]| > 0 && r[k][|r[k]| - 1] != None
    {
      assert ks[k] in b;
      assert r[k] == b[ks[k]];
    }
  }

  /**
    get_slide_map: the old index of every column whose index changes under
    remove_empty_columns, mapped to its new index.
  */
  function SlideMap(b: Board): (r: map<int, int>)
  {
    var ks := Sorted(b.Keys);
    SortedAscending(b.Keys);
    map k | 0 <= k < |ks| && ks[k] != k :: ks[k] := k
  }

  /**
    The slide map lists exactly the columns whose rank differs from their index,
    and the preview agrees with the edit: each column is found where the slide
    map (or, when unlisted, its own index) sends it.
  */
  lemma SlideMapPredictsSlide(b: Board)
    ensures forall x :: x in SlideMap(b) <==> x in b && Rank(b, x) != x
    ensures forall x :: x in SlideMap(b) ==> SlideMap(b)[x] == Rank(b, x)
    ensures forall x :: x in b ==>
      var x' := if x in SlideMap(b) then SlideMap(b)[x] else x;
      x' in RemoveEmptyColumns(b) && RemoveEmptyColumns(b)[x'] == b[x]
  {
    forall x ensures x in SlideMap(b) <==> x in b && Rank(b, x) != x
      ensures x in SlideMap(b) ==> SlideMap(b)[x] == Rank(b, x)
    {
      SlideMapAt(b, x);
    }
    forall x | x in b ensures
      var x' := if x in SlideMap(b) then SlideMap(b)[x] else x;
      x' in RemoveEmptyColumns(b) && RemoveEmptyColumns(b)[x'] == b[x]
    {
      SlideMapAt(b, x);
      RemoveEmptyColumnsMovesColumn(b, x);
    }
  }

  /** SlideMapPredictsSlide at one index. */
  lemma SlideMapAt(b: Board, x: int)
    ensures x in SlideMap(b) <==> x in b && Rank(b, x) != x
    ensures x in SlideMap(b) ==> SlideMap(b)[x] == Rank(b, x)
  {
    var ks := Sorted(b.Keys);
    SortedAscending(b.Keys);
    if x in SlideMap(b) {
      var k :| 0 <= k < |ks| && ks[k] != k && ks[k] == x;
      assert ks[k] in b;
      RankIsSortedIndex(b, k);
    }
    if x in b {
      var k := SortedIndexOf(b, x);
      RankIsSortedIndex(b, k);
    }
  }

  /* ---------------------------------------------------------------------- */
  /* Column shifts                                                          */
  /* ---------------------------------------------------------------------- */

  /**
    The loop of insert_columns over the stored indexes `ks`: each column keeps
    its index when left of `at` and moves right by `count` otherwise.
  */
  function InsertFold(b: Board, ks: seq<int>, at: int, count: int): Board
    requires forall i :: 0 <= i < |ks| ==> ks[i] in b
  {
    if |ks| == 0 then map[]
    else
      var x := ks[|ks| - 1];
      var r := InsertFold(b, ks[..|ks| - 1], at, count);
      if x < at then r[x := b[x]] else r[x + count := b[x]]
  }

  /** Every column the loop visits is written to its shifted index. */
  lemma {:induction false} InsertFoldWrites(b: Board, ks: seq<int>, at: int, count: int, i: int)
    requires count >= 0
    requires forall i :: 0 <= i < |ks| ==> ks[i] in b
    requires 0 <= i < |ks|
    ensures var x := ks[i]; var r := InsertFold(b, ks, at, count);
      if x < at then x in r && r[x] == b[x] else x + count in r && r[x + count] == b[x]
    decreases |ks|
  {
    if i < |ks| - 1 {
      InsertFoldWrites(b, ks[..|ks| - 1], at, count, i);
    }
  }

  /** The loop writes no index other than the shifted indexes of the columns it visits. */
  lemma {:induction false} InsertFoldOnly(b: Board, ks: seq<int>, at: int, count: int, y: int)
    requires forall i :: 0 <= i < |ks| ==> ks[i] in b
    requires y in InsertFold(b, ks, at, count)
    ensures (y < at && y in b) || (y >= at + count && y - count in b)
    decreases |ks|
  {
    var x := ks[|ks| - 1];
    if y != (if x < at then x else x + count) {
      InsertFoldOnly(b, ks[..|ks| - 1], at, count, y);
    }
  }

  /**
    Where the column at index y of the result of insert_columns comes from:
    index y itself left of `at`, index y - count from `at + count` on, and
    nowhere in the `count` new slots.
  */
  predicate InsertedFrom(b: Board, at: int, count: int, y: int) {
    (y < at && y in b) || (y >= at + count && y - count in b)
  }

  /**
    r is b with `count` empty slots opened at `at`: the columns left of `at`
    stay and every other column moves right by `count`.
  */
  ghost predicate IsInsertion(b: Board, r: Board, at: int, count: int) {
    && (forall y {:trigger y in r} :: y in r <==> InsertedFrom(b, at, count, y))
    && (forall y {:trigger r[y]} :: y in r ==>
         (y < at && y in b && r[y] == b[y]) || (y >= at + count && y - count in b && r[y] == b[y - count]))
  }

  /** The loop leaves exactly the columns of `b`, moved as insert_columns promises. */
  lemma InsertFoldShiftsAt(b: Board, ks: seq<int>, at: int, count: int, y: int)
    requires count >= 0
    requires forall i :: 0 <= i < |ks| ==> ks[i] in b
    requires forall x :: x in b ==> x in ks
    ensures var r := InsertFold(b, ks, at, count);
      && (y in r <==> InsertedFrom(b, at, count, y))
      && (y in r ==> r[y] == if y < at then b[y] else b[y - count])
  {
    if y in InsertFold(b, ks, at, count) {
      InsertFoldOnly(b, ks, at, count, y);
    }
    if InsertedFrom(b, at, count, y) {
      var x := if y < at then y else y - count;
      var k :| 0 <= k < |ks| && ks[k] == x;
      InsertFoldWrites(b, ks, at, count, k);
    }
  }

  /** The loop leaves exactly the columns insert_columns promises, at every index. */
  lemma InsertFoldShifts(b: Board, ks: seq<int>, at: int, count: int)
    requires count >= 0
    requires forall i :: 0 <= i < |ks| ==> ks[i] in b
    requires forall x :: x in b ==> x in ks
    ensures forall y {:trigger y in InsertFold(b, ks, at, count)} :: y in InsertFold(b, ks, at, count) <==> InsertedFrom(b, at, count, y)
    ensures forall y {:trigger InsertFold(b, ks, at, count)[y]} :: y in InsertFold(b, ks, at, count) ==>
      (y < at && y in b && InsertFold(b, ks, at, count)[y] == b[y]) || (y >= at + count && y - count in b && InsertFold(b, ks, at, count)[y] == b[y - count])
  {
    forall y {:trigger y in InsertFold(b, ks, at, count)} {:trigger InsertFold(b, ks, at, count)[y]} ensures
      && (y in InsertFold(b, ks, at, count) <==> InsertedFrom(b, at, count, y))
      && (y in InsertFold(b, ks, at, count) ==> (y < at && y in b && InsertFold(b, ks, at, count)[y] == b[y]) || (y >= at + count && y - count in b && InsertFold(b, ks, at, count)[y] == b[y - count]))
    {
      InsertFoldShiftsAt(b, ks, at, count, y);
    }
  }

  /** insert_columns run over the column list `ks`, which lists exactly the stored indexes. */
  function InsertColumnsOver(b: Board, ks: seq<int>, at: int, count: int): (r: Board)
    requires count >= 0
    requires forall i :: 0 <= i < |ks| ==> ks[i] in b
    requires forall x :: x in b ==> x in ks
    ensures IsInsertion(b, r, at, count)
  {
    InsertFoldShifts(b, ks, at, count);
    InsertFold(b, ks, at, count)
  }

  /**
    insert_columns: opens `count` empty column slots at index `at`. Columns left
    of `at` stay, every column at or right of it moves right by `count`, and
    no other index holds a column.
  */

  function InsertColumns(b: Board, at: int, count: int): (r: Board)
    requires count >= 0
    ensures IsInsertion(b, r, at, count)
  {
    InsertColumnsOver(b, Sorted(b.Keys), at, count)
  }

  /** Shifting columns keeps the representation invariant: every column is some column of `b`. */
  lemma InsertColumnsWellFormed(b: Board, at: int, count: int)
    requires WellFormed(b) && count >= 0
    ensures WellFormed(InsertColumns(b, at, count))
  {
    ShiftedWellFormed(b, InsertColumns(b, at, count), at, count);
  }

  /** Any board whose every column is a column of a well-formed board is well formed. */
  lemma ShiftedWellFormed(b: Board, r: Board, at: int, count: int)
    requires WellFormed(b) && count >= 0
    requires IsInsertion(b, r, at, count)
    ensures WellFormed(r)
  {
    forall y | y in r
      ensures |r[y]| > 0 && r[y][|r[y]| - 1] != None
    {
      if y < at { assert r[y] == b[y]; } else { assert r[y] == b[y - count]; }
    }
  }

  /**
    The loop of delete_columns over the stored indexes `ks`: columns left of
    `at` stay, columns in [at, at + count) are dropped, the rest move left.
  */
  function DeleteFold(b: Board, ks: seq<int>, at: int, count: int): Board
    requires forall i :: 0 <= i < |ks| ==> ks[i] in b
  {
    if |ks| == 0 then map[]
    else
      var x := ks[|ks| - 1];
      var r := DeleteFold(b, ks[..|ks| - 1], at, count);
      if x < at then r[x := b[x]]
      else if x >= at + count then r[x - count := b[x]]
      else r
  }

  /** Every column the loop keeps is written to its shifted index. */
  lemma {:induction false} DeleteFoldWrites(b: Board, ks: seq<int>, at: int, count: int, i: int)
    requires count >= 0
    requires forall i :: 0 <= i < |ks| ==> ks[i] in b
    requires 0 <= i < |ks| && (ks[i] < at || ks[i] >= at + count)
    ensures var x := ks[i]; var r := DeleteFold(b, ks, at, count);
      if x < at then x in r && r[x] == b[x] else x - count in r && r[x - count] == b[x]
    decreases |ks|
  {
    if i < |ks| - 1 {
      DeleteFoldWrites(b, ks[..|ks| - 1], at, count, i);
    }
  }

  /** The loop writes no index other than the shifted indexes of the columns it keeps. */
  lemma {:induction false} DeleteFoldOnly(b: Board, ks: seq<int>, at: int, count: int, y: int)
    requires forall i :: 0 <= i < |ks| ==> ks[i] in b
    requires y in DeleteFold(b, ks, at, count)
    ensures (y < at && y in b) || (y >= at && y + count in b)
    decreases |ks|
  {
    var x := ks[|ks| - 1];
    if !((x < at && y == x) || (x >= at + count && y == x - count)) {
      DeleteFoldOnly(b, ks[..|ks| - 1], at, count, y);
    }
  }

  /**
    Where the column at index y of the result of delete_columns comes from:
    index y itself left of `at`, index y + count from `at` on.
  */
  predicate DeletedFrom(b: Board, at: int, count: int, y: int) {
    (y < at && y in b) || (y >= at && y + count in b)
  }

  /**
    r is b with the `count` slots from `at` removed: the columns left of `at`
    stay and every column right of the removed run moves left by `count`.
  */
  ghost predicate IsDeletion(b: Board, r: Board, at: int, count: int) {
    && (forall y {:trigger y in r} :: y in r <==> DeletedFrom(b, at, count, y))
    && (forall y {:trigger r[y]} :: y in r ==>
         (y < at && y in b && r[y] == b[y]) || (y >= at && y + count in b && r[y] == b[y + count]))
  }

  /** The loop leaves exactly the kept columns of `b`, moved as delete_columns promises. */
  lemma DeleteFoldShiftsAt(b: Board, ks: seq<int>, at: int, count: int, y: int)
    requires count >= 0
    requires forall i :: 0 <= i < |ks| ==> ks[i] in b
    requires forall x :: x in b ==> x in ks
    ensures var r := DeleteFold(b, ks, at, count);
      && (y in r <==> DeletedFrom(b, at, count, y))
      && (y in r ==> r[y] == if y < at then b[y] else b[y + count])
  {
    if y in DeleteFold(b, ks, at, count) {
      DeleteFoldOnly(b, ks, at, count, y);
    }
    if DeletedFrom(b, at, count, y) {
      var x := if y < at then y else y + count;
      var k :| 0 <= k < |ks| && ks[k] == x;
      DeleteFoldWrites(b, ks, at, count, k);
    }
  }

  /** The loop leaves exactly the columns delete_columns promises, at every index. */
  lemma DeleteFoldShifts(b: Board, ks: seq<int>, at: int, count: int)
    requires count >= 0
    requires forall i :: 0 <= i < |ks| ==> ks[i] in b
    requires forall x :: x in b ==> x in ks
    ensures forall y {:trigger y in DeleteFold(b, ks, at, count)} :: y in DeleteFold(b, ks, at, count) <==> DeletedFrom(b, at, count, y)
    ensures forall y {:trigger DeleteFold(b, ks, at, count)[y]} :: y in DeleteFold(b, ks, at, count) ==>
      (y < at && y in b && DeleteFold(b, ks, at, count)[y] == b[y]) || (y >= at && y + count in b && DeleteFold(b, ks, at, count)[y] == b[y + count])
  {
    forall y {:trigger y in DeleteFold(b, ks, at, count)} {:trigger DeleteFold(b, ks, at, count)[y]} ensures
      && (y in DeleteFold(b, ks, at, count) <==> DeletedFrom(b, at, count, y))
      && (y in DeleteFold(b, ks, at, count) ==> (y < at && y in b && DeleteFold(b, ks, at, count)[y] == b[y]) || (y >= at && y + count in b && DeleteFold(b, ks, at, count)[y] == b[y + count]))
    {
      DeleteFoldShiftsAt(b, ks, at, count, y);
    }
  }

  /** delete_columns run over the column list `ks`, which lists exactly the stored indexes. */
  function DeleteColumnsOver(b: Board, ks: seq<int>, at: int, count: int): (r: Board)
    requires count >= 0
    requires forall i :: 0 <= i < |ks| ==> ks[i] in b
    requires forall x :: x in b ==> x in ks
    ensures IsDeletion(b, r, at, count)
  {
    DeleteFoldShifts(b, ks, at, count);
    DeleteFold(b, ks, at, count)
  }

  /**
    delete_columns: removes the `count` column slots starting at index `at`.
    Columns left of `at` stay, columns right of the removed run move left by
    `count`, and no other index holds a column.
  */

  function DeleteColumns(b: Board, at: int, count: int): (r: Board)
    requires count >= 0
    ensures IsDeletion(b, r, at, count)
  {
    DeleteColumnsOver(b, Sorted(b.Keys), at, count)
  }

  /** Deleting the columns just inserted gives back the original board. */
  lemma DeleteUndoesInsert(b: Board, at: int, count: int)
    requires count >= 0
    ensures DeleteColumns(InsertColumns(b, at, count), at, count) == b
  {
    var i := InsertColumns(b, at, count);
    ShiftBack(b, i, DeleteColumns(i, at, count), at, count);
  }

  /** The round trip of DeleteUndoesInsert, argued from the two contracts alone. */
  lemma ShiftBack(b: Board, i: Board, r: Board, at: int, count: int)
    requires count >= 0
    requires IsInsertion(b, i, at, count) && IsDeletion(i, r, at, count)
    ensures r == b
  {
    forall x ensures (x in r <==> x in b) && (x in r ==> r[x] == b[x]) {
      ShiftBackAt(b, i, r, at, count, x);
    }
  }

  /** One column of ShiftBack. */
  lemma ShiftBackAt(b: Board, i: Board, r: Board, at: int, count: int, x: int)
    requires count >= 0
    requires IsInsertion(b, i, at, count) && IsDeletion(i, r, at, count)
    ensures x in r <==> x in b
    ensures x in r ==> r[x] == b[x]
  {
    if x < at {
      assert x in r <==> x in i;
      assert x in i <==> x in b;
      if x in r {
        assert r[x] == i[x];
        assert i[x] == b[x];
      }
    } else {
      assert x in r <==> x + count in i;
      assert x + count in i <==> x in b;
      if x in r {
        assert r[x] == i[x + count];
        assert i[x + count] == b[x];
      }
    }
  }
}
