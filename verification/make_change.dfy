/**
  _make_change of boardgen.py: applying a column or cell insertion to a board.
  A cell insertion rebuilds the whole column: it lifts every non-placeholder
  value at or above the inserted row by one, then puts each placeholder that was
  already in the column back at its old row.
*/
module MakeChanges {
  import opened Optional
  import opened Extrema
  import opened Boards
  import opened BoardEdits
  import opened Changes

  /* ---------------------------------------------------------------------- */
  /* Writing a column                                                       */
  /* ---------------------------------------------------------------------- */

  /** set_value(x, y, data[y]) for y = 0, 1, ..., |data| - 1, in that order. */
  function WriteColumn(b: Board, x: int, data: seq<Option<int>>): (r: Board)
    ensures forall y :: 0 <= y < |data| ==> GetValue(r, x, y) == data[y]
    ensures forall x', y' :: x' != x || y' < 0 || y' >= |data| ==> GetValue(r, x', y') == GetValue(b, x', y')
    ensures forall x' :: x' != x ==> (x' in r <==> x' in b) && (x' in r ==> r[x'] == b[x'])
    decreases |data|
  {
    if |data| == 0 then b
    else SetValue(WriteColumn(b, x, data[..|data| - 1]), x, |data| - 1, data[|data| - 1])
  }

  lemma {:induction false} WriteColumnWellFormed(b: Board, x: int, data: seq<Option<int>>)
    requires WellFormed(b)
    ensures WellFormed(WriteColumn(b, x, data))
    decreases |data|
  {
    if |data| > 0 {
      WriteColumnWellFormed(b, x, data[..|data| - 1]);
      SetValueWellFormed(WriteColumn(b, x, data[..|data| - 1]), x, |data| - 1, data[|data| - 1]);
    }
  }

  /** On a well-formed board a column that reads empty from row n up is at most n high. */
  lemma ColumnAtMost(b: Board, x: int, n: int)
    requires WellFormed(b) && x in b
    requires forall y :: y >= n ==> GetValue(b, x, y) == None
    ensures |b[x]| <= n
  {
    assert GetValue(b, x, |b[x]| - 1) != None;
  }

  /** The stored column x, empty when absent: what get_value reads in rows 0..height-1. */
  function ColumnOf(b: Board, x: int): (col: Column)
    ensures |col| == ColumnHeight(b, x)
    ensures forall y :: 0 <= y < |col| ==> col[y] == GetValue(b, x, y)
  {
    if x in b then b[x] else []
  }

  /** `n` placeholders (none when n is not positive). */
  function Placeholders(n: int): (r: seq<Option<int>>)
    ensures |r| == Max(n, 0)
    ensures forall i :: 0 <= i < |r| ==> r[i] == Some(Placeholder)
  {
    seq(Max(n, 0), _ => Some(Placeholder))
  }

  /* ---------------------------------------------------------------------- */
  /* Rebuilding a column around an inserted cell                            */
  /* ---------------------------------------------------------------------- */

  /** Number of placeholders in a sequence of cells. */
  function PlaceholderCount(s: seq<Option<int>>): nat {
    if |s| == 0 then 0
    else PlaceholderCount(s[..|s| - 1]) + (if s[|s| - 1] == Some(Placeholder) then 1 else 0)
  }

  lemma {:induction false} CountAppend(a: seq<Option<int>>, b: seq<Option<int>>)
    ensures PlaceholderCount(a + b) == PlaceholderCount(a) + PlaceholderCount(b)
    decreases |b|
  {
    if |b| > 0 {
      assert (a + b)[..|a + b| - 1] == a + b[..|b| - 1];
      assert (a + b)[|a + b| - 1] == b[|b| - 1];
      CountAppend(a, b[..|b| - 1]);
    } else {
      assert a + b == a;
    }
  }

  /** The cells of `s` that are not placeholders, in order. */
  function Keep(s: seq<Option<int>>): seq<Option<int>> {
    if |s| == 0 then []
    else
      var last := s[|s| - 1];
      Keep(s[..|s| - 1]) + (if last == Some(Placeholder) then [] else [last])
  }

  lemma {:induction false} KeepAppend(a: seq<Option<int>>, b: seq<Option<int>>)
    ensures Keep(a + b) == Keep(a) + Keep(b)
    decreases |b|
  {
    if |b| > 0 {
      var last := b[|b| - 1];
      var b' := b[..|b| - 1];
      var f: seq<Option<int>> := if last == Some(Placeholder) then [] else [last];
      assert (a + b)[..|a + b| - 1] == a + b';
      assert (a + b)[|a + b| - 1] == last;
      KeepAppend(a, b');
      calc {
        Keep(a + b);
        Keep(a + b') + f;
        (Keep(a) + Keep(b')) + f;
        Keep(a) + (Keep(b') + f);
        Keep(a) + Keep(b);
      }
    } else {
      assert a + b == a;
    }
  }

  /** Keep drops exactly the placeholders: every other value of `s` survives, and nothing else. */
  lemma {:induction false} KeepMembers(s: seq<Option<int>>, v: Option<int>)
    ensures v in Keep(s) <==> v in s && v != Some(Placeholder)
    decreases |s|
  {
    if |s| > 0 {
      var last := s[|s| - 1];
      assert s == s[..|s| - 1] + [last];
      KeepMembers(s[..|s| - 1], v);
    }
  }

  /**
    The first loop of _make_change over rows 0..n-1: a placeholder is appended
    when row h is reached, and then the row's value unless it is a placeholder.
  */
  function Gather(col: Column, h: int, n: nat): seq<Option<int>>
    requires n <= |col|
  {
    if n == 0 then []
    else
      Gather(col, h, n - 1) +
      (if n - 1 == h then [Some(Placeholder)] else []) +
      (if col[n - 1] == Some(Placeholder) then [] else [col[n - 1]])
  }

  /** A single cell is kept unless it is a placeholder, and counts one exactly when it is. */
  lemma KeepOne(v: Option<int>)
    ensures Keep([v]) == if v == Some(Placeholder) then [] else [v]
    ensures PlaceholderCount([v]) == if v == Some(Placeholder) then 1 else 0
  {
    assert [v][..0] == [];
  }

  /** The gathered rows hold the column's other values in order. */
  lemma {:induction false} GatherKeeps(col: Column, h: int, n: nat)
    requires n <= |col|
    ensures Keep(Gather(col, h, n)) == Keep(col[..n])
  {
    if n > 0 {
      GatherKeeps(col, h, n - 1);
      GatherKeepStep(col, h, n);
      assert col[..n] == col[..n - 1] + [col[n - 1]];
      KeepAppend(col[..n - 1], [col[n - 1]]);
    }
  }

  /** Row n - 1 adds to the kept values what the row itself keeps; the mark adds nothing. */
  lemma GatherKeepStep(col: Column, h: int, n: nat)
    requires 0 < n <= |col|
    ensures Keep(Gather(col, h, n)) == Keep(Gather(col, h, n - 1)) + Keep([col[n - 1]])
  {
    var last := col[n - 1];
    var prev := Gather(col, h, n - 1);
    var mark: seq<Option<int>> := if n - 1 == h then [Some(Placeholder)] else [];
    var value: seq<Option<int>> := if last == Some(Placeholder) then [] else [last];
    assert Gather(col, h, n) == (prev + mark) + value;
    KeepAppend(prev + mark, value);
    KeepAppend(prev, mark);
    assert Keep(mark) == [] by {
      KeepOne(Some(Placeholder));
    }
    assert Keep(prev + mark) == Keep(prev) by {
      assert Keep(prev) + [] == Keep(prev);
    }
    assert Keep(value) == Keep([last]) by {
      KeepOne(last);
    }
  }

  /** The gathered rows hold one placeholder exactly when row h was reached, and nothing else is lost. */
  lemma GatherCounts(col: Column, h: int, n: nat)
    requires n <= |col|
    ensures PlaceholderCount(Gather(col, h, n)) == if 0 <= h < n then 1 else 0
    ensures |Gather(col, h, n)| == n - PlaceholderCount(col[..n]) + (if 0 <= h < n then 1 else 0)
  {
    GatherPlaceholders(col, h, n);
    GatherLength(col, h, n);
  }

  /** One step of Gather: the rows before, the mark at row h, the row's own value. */
  lemma GatherStep(col: Column, h: int, n: nat)
    requires 0 < n <= |col|
    ensures var mark: seq<Option<int>> := if n - 1 == h then [Some(Placeholder)] else [];
      var value: seq<Option<int>> := if col[n - 1] == Some(Placeholder) then [] else [col[n - 1]];
      && Gather(col, h, n) == Gather(col, h, n - 1) + mark + value
      && PlaceholderCount(mark) == |mark|
      && PlaceholderCount(value) == 0
      && |value| + PlaceholderCount([col[n - 1]]) == 1
  {
    KeepOne(Some(Placeholder));
    KeepOne(col[n - 1]);
  }

  lemma {:induction false} GatherPlaceholders(col: Column, h: int, n: nat)
    requires n <= |col|
    ensures PlaceholderCount(Gather(col, h, n)) == if 0 <= h < n then 1 else 0
  {
    if n > 0 {
      GatherPlaceholders(col, h, n - 1);
      GatherStep(col, h, n);
      var prev := Gather(col, h, n - 1);
      var mark: seq<Option<int>> := if n - 1 == h then [Some(Placeholder)] else [];
      var value: seq<Option<int>> := if col[n - 1] == Some(Placeholder) then [] else [col[n - 1]];
      CountAppend(prev + mark, value);
      CountAppend(prev, mark);
    }
  }

  lemma {:induction false} GatherLength(col: Column, h: int, n: nat)
    requires n <= |col|
    ensures |Gather(col, h, n)| == n - PlaceholderCount(col[..n]) + (if 0 <= h < n then 1 else 0)
  {
    if n > 0 {
      GatherLength(col, h, n - 1);
      GatherStep(col, h, n);
      assert col[..n] == col[..n - 1] + [col[n - 1]];
      CountAppend(col[..n - 1], [col[n - 1]]);
    }
  }

  /** new_indexes: the rows 0..n-1 of `col` holding a placeholder, in ascending order. */
  function PlaceholderRows(col: Column, n: nat): (r: seq<nat>)
    requires n <= |col|
    ensures |r| <= n
  {
    if n == 0 then []
    else PlaceholderRows(col, n - 1) + (if col[n - 1] == Some(Placeholder) then [n - 1] else [])
  }

  /** new_indexes lists exactly the placeholder rows below n, ascending, one per placeholder. */
  lemma PlaceholderRowsSpec(col: Column, n: nat)
    requires n <= |col|
    ensures var r := PlaceholderRows(col, n);
      && (forall i :: 0 <= i < |r| ==> r[i] < n && col[r[i]] == Some(Placeholder))
      && (forall i :: 0 <= i < n && col[i] == Some(Placeholder) ==> i in r)
      && (forall i, j :: 0 <= i < j < |r| ==> r[i] < r[j])
      && |r| == PlaceholderCount(col[..n])
  {
    PlaceholderRowsSound(col, n);
    PlaceholderRowsComplete(col, n);
    PlaceholderRowsAscending(col, n);
    PlaceholderRowsCount(col, n);
  }

  /** One step of new_indexes: the rows below n - 1, then row n - 1 when it is a placeholder. */
  lemma PlaceholderRowsStep(col: Column, n: nat)
    requires 0 < n <= |col|
    ensures var last: seq<nat> := if col[n - 1] == Some(Placeholder) then [n - 1] else [];
      PlaceholderRows(col, n) == PlaceholderRows(col, n - 1) + last
  {
  }

  lemma {:induction false} PlaceholderRowsSound(col: Column, n: nat)
    requires n <= |col|
    ensures var r := PlaceholderRows(col, n);
      forall i :: 0 <= i < |r| ==> r[i] < n && col[r[i]] == Some(Placeholder)
  {
    if n > 0 {
      var prev := PlaceholderRows(col, n - 1);
      var r := PlaceholderRows(col, n);
      PlaceholderRowsSound(col, n - 1);
      PlaceholderRowsStep(col, n);
      forall i | 0 <= i < |r| ensures r[i] < n && col[r[i]] == Some(Placeholder) {
        if i >= |prev| { assert r[i] == n - 1; } else { assert r[i] == prev[i]; }
      }
    }
  }

  lemma {:induction false} PlaceholderRowsComplete(col: Column, n: nat)
    requires n <= |col|
    ensures forall i :: 0 <= i < n && col[i] == Some(Placeholder) ==> i in PlaceholderRows(col, n)
  {
    if n > 0 {
      var prev := PlaceholderRows(col, n - 1);
      var r := PlaceholderRows(col, n);
      PlaceholderRowsComplete(col, n - 1);
      PlaceholderRowsStep(col, n);
      forall i | 0 <= i < n && col[i] == Some(Placeholder) ensures i in r {
        if i == n - 1 { assert r[|prev|] == i; } else { assert i in prev; }
      }
    }
  }

  lemma {:induction false} PlaceholderRowsAscending(col: Column, n: nat)
    requires n <= |col|
    ensures var r := PlaceholderRows(col, n);
      forall i, j :: 0 <= i < j < |r| ==> r[i] < r[j]
  {
    if n > 0 {
      var prev := PlaceholderRows(col, n - 1);
      var r := PlaceholderRows(col, n);
      PlaceholderRowsAscending(col, n - 1);
      PlaceholderRowsSound(col, n - 1);
      PlaceholderRowsStep(col, n);
      forall i, j | 0 <= i < j < |r| ensures r[i] < r[j] {
        assert r[i] == prev[i];
        if j >= |prev| { assert r[j] == n - 1; } else { assert r[j] == prev[j]; }
      }
    }
  }

  lemma {:induction false} PlaceholderRowsCount(col: Column, n: nat)
    requires n <= |col|
    ensures |PlaceholderRows(col, n)| == PlaceholderCount(col[..n])
  {
    if n > 0 {
      PlaceholderRowsCount(col, n - 1);
      PlaceholderRowsStep(col, n);
      assert col[..n] == col[..n - 1] + [col[n - 1]];
      CountAppend(col[..n - 1], [col[n - 1]]);
      KeepOne(col[n - 1]);
    }
  }

  /** Python's list.insert(i, v) for i >= 0: past the end it appends. */
  function PyInsert(s: seq<Option<int>>, i: nat, v: Option<int>): (r: seq<Option<int>>)
    ensures |r| == |s| + 1
    ensures i <= |s| ==> r[i] == v
    ensures i <= |s| ==> forall k :: 0 <= k < i ==> r[k] == s[k]
    ensures i <= |s| ==> forall k :: i < k < |r| ==> r[k] == s[k - 1]
  {
    var k := if i <= |s| then i else |s|;
    assert s == s[..k] + s[k..];
    s[..k] + [v] + s[k..]
  }

  /** Inserting a placeholder keeps the other values and adds one placeholder. */
  lemma KeepPyInsert(s: seq<Option<int>>, i: nat)
    ensures Keep(PyInsert(s, i, Some(Placeholder))) == Keep(s)
    ensures PlaceholderCount(PyInsert(s, i, Some(Placeholder))) == PlaceholderCount(s) + 1
  {
    var k := if i <= |s| then i else |s|;
    PyInsertSplit(s, i);
    KeepOne(Some(Placeholder));
    KeepAppend(s[..k] + [Some(Placeholder)], s[k..]);
    KeepAppend(s[..k], [Some(Placeholder)]);
    KeepAppend(s[..k], s[k..]);
    assert Keep(s[..k] + [Some(Placeholder)]) == Keep(s[..k]) by {
      assert Keep(s[..k]) + [] == Keep(s[..k]);
    }
    CountPyInsert(s, i);
  }

  /** PyInsert puts the value between the first min(i, |s|) cells and the rest. */
  lemma PyInsertSplit(s: seq<Option<int>>, i: nat)
    ensures var k := if i <= |s| then i else |s|;
      && s == s[..k] + s[k..]
      && PyInsert(s, i, Some(Placeholder)) == s[..k] + [Some(Placeholder)] + s[k..]
  {
  }

  lemma CountPyInsert(s: seq<Option<int>>, i: nat)
    ensures PlaceholderCount(PyInsert(s, i, Some(Placeholder))) == PlaceholderCount(s) + 1
  {
    var k := if i <= |s| then i else |s|;
    PyInsertSplit(s, i);
    KeepOne(Some(Placeholder));
    CountAppend(s[..k] + [Some(Placeholder)], s[k..]);
    CountAppend(s[..k], [Some(Placeholder)]);
    CountAppend(s[..k], s[k..]);
  }

  /** The second loop of _make_change: data.insert(index, -1) for each index in turn. */
  function InsertPlaceholders(data: seq<Option<int>>, idx: seq<nat>): (r: seq<Option<int>>)
    ensures |r| == |data| + |idx|
    decreases |idx|
  {
    if |idx| == 0 then data
    else PyInsert(InsertPlaceholders(data, idx[..|idx| - 1]), idx[|idx| - 1], Some(Placeholder))
  }

  /** Each inserted index adds one placeholder and leaves the other values alone. */
  lemma {:induction false} InsertPlaceholdersKeeps(data: seq<Option<int>>, idx: seq<nat>)
    ensures PlaceholderCount(InsertPlaceholders(data, idx)) == PlaceholderCount(data) + |idx|
    ensures Keep(InsertPlaceholders(data, idx)) == Keep(data)
    decreases |idx|
  {
    if |idx| > 0 {
      InsertPlaceholdersKeeps(data, idx[..|idx| - 1]);
      KeepPyInsert(InsertPlaceholders(data, idx[..|idx| - 1]), idx[|idx| - 1]);
    }
  }

  /**
    Ascending indexes that never point past the end of the list they are
    inserted into leave a placeholder at each of their own positions.
  */
  lemma {:induction false} InsertPlaceholdersAt(data: seq<Option<int>>, idx: seq<nat>)
    requires forall i, j :: 0 <= i < j < |idx| ==> idx[i] < idx[j]
    requires forall k :: 0 <= k < |idx| ==> idx[k] <= |data| + k
    ensures forall k :: 0 <= k < |idx| ==> InsertPlaceholders(data, idx)[idx[k]] == Some(Placeholder)
    decreases |idx|
  {
    if |idx| > 0 {
      var m := |idx| - 1;
      InsertPlaceholdersAt(data, idx[..m]);
      var prev := InsertPlaceholders(data, idx[..m]);
      assert forall k :: 0 <= k < m ==> prev[idx[k]] == Some(Placeholder);
      forall k | 0 <= k < |idx|
        ensures InsertPlaceholders(data, idx)[idx[k]] == Some(Placeholder)
      {
        if k < m {
          assert idx[k] < idx[m];
          assert idx[..m][k] == idx[k];
        }
      }
    }
  }

  /** Ascending indexes below n leave room above each: the k-th is at most n - |idx| + k. */
  lemma {:induction false} AscendingRoom(idx: seq<nat>, n: int)
    requires forall i, j :: 0 <= i < j < |idx| ==> idx[i] < idx[j]
    requires forall k :: 0 <= k < |idx| ==> idx[k] < n
    ensures forall k :: 0 <= k < |idx| ==> idx[k] + |idx| - k <= n
    decreases |idx|
  {
    if |idx| > 0 {
      var m := |idx| - 1;
      AscendingRoom(idx[..m], idx[m]);
      assert forall k :: 0 <= k < m ==> idx[..m][k] == idx[k];
    }
  }

  /** The column _make_change writes back for a cell insertion at row h. */
  function CellData(col: Column, h: int): seq<Option<int>> {
    InsertPlaceholders(Gather(col, h, |col|) + (if h == |col| then [Some(Placeholder)] else []),
                       PlaceholderRows(col, |col|))
  }

  /**
    What a cell insertion at row 0..top makes of a column: one cell longer, one
    more placeholder, the non-placeholder values in their old order, and every
    old placeholder still at its old row.
  */
  lemma CellDataShape(col: Column, h: int)
    requires 0 <= h <= |col|
    ensures |CellData(col, h)| == |col| + 1
    ensures PlaceholderCount(CellData(col, h)) == PlaceholderCount(col) + 1
    ensures Keep(CellData(col, h)) == Keep(col)
    ensures forall i :: 0 <= i < |col| && col[i] == Some(Placeholder) ==> CellData(col, h)[i] == Some(Placeholder)
  {
    assert col[..|col|] == col;
    var tail: seq<Option<int>> := if h == |col| then [Some(Placeholder)] else [];
    var data := Gather(col, h, |col|) + tail;
    GatherKeeps(col, h, |col|);
    GatherCounts(col, h, |col|);
    CountAppend(Gather(col, h, |col|), tail);
    KeepAppend(Gather(col, h, |col|), tail);
    assert Keep(tail) == [] && PlaceholderCount(tail) == (if h == |col| then 1 else 0) by {
      if tail != [] { assert tail[..0] == []; }
    }
    var idx := PlaceholderRows(col, |col|);
    PlaceholderRowsSpec(col, |col|);
    AscendingRoom(idx, |col|);
    assert |data| == |col| - |idx| + 1;
    InsertPlaceholdersAt(data, idx);
    InsertPlaceholdersKeeps(data, idx);
    forall i | 0 <= i < |col| && col[i] == Some(Placeholder)
      ensures CellData(col, h)[i] == Some(Placeholder)
    {
      var k :| 0 <= k < |idx| && idx[k] == i;
    }
  }

  /** testCell7: a cell inserted at row 4 of 5,4,*,3,2,1 leaves the two placeholders apart. */
  lemma CellDataApart()
    ensures CellData([Some(5), Some(4), Some(-1), Some(3), Some(2), Some(1)], 4) ==
      [Some(5), Some(4), Some(-1), Some(3), Some(-1), Some(2), Some(1)]
  {
    var col := [Some(5), Some(4), Some(-1), Some(3), Some(2), Some(1)];
    var data := [Some(5), Some(4), Some(3), Some(-1), Some(2), Some(1)];
    assert PlaceholderRows(col, 6) == [2];
    assert Gather(col, 4, 6) == data;
    assert [2][..0] == [];
    assert InsertPlaceholders(data, [2]) == PyInsert(data, 2, Some(-1));
  }

  /** testCell8: a cell inserted at row 0 of 5,*,*,*,*,1 gathers the placeholders at the bottom. */
  lemma CellDataGathered()
    ensures CellData([Some(5), Some(-1), Some(-1), Some(-1), Some(-1), Some(1)], 0) ==
      [Some(-1), Some(-1), Some(-1), Some(-1), Some(-1), Some(5), Some(1)]
  {
    var col := [Some(5), Some(-1), Some(-1), Some(-1), Some(-1), Some(1)];
    GatheredRows();
    GatheredInserts();
    assert CellData(col, 0) == InsertPlaceholders(Gather(col, 0, 6), PlaceholderRows(col, 6)) by {
      assert Gather(col, 0, 6) + [] == Gather(col, 0, 6);
    }
  }

  lemma GatheredRows()
    ensures PlaceholderRows([Some(5), Some(-1), Some(-1), Some(-1), Some(-1), Some(1)], 6) == [1, 2, 3, 4]
    ensures Gather([Some(5), Some(-1), Some(-1), Some(-1), Some(-1), Some(1)], 0, 6) == [Some(-1), Some(5), Some(1)]
  {
    var col := [Some(5), Some(-1), Some(-1), Some(-1), Some(-1), Some(1)];
    assert PlaceholderRows(col, 1) == [];
    assert PlaceholderRows(col, 2) == [1];
    assert PlaceholderRows(col, 3) == [1, 2];
    assert PlaceholderRows(col, 4) == [1, 2, 3];
    assert PlaceholderRows(col, 5) == [1, 2, 3, 4];
    assert Gather(col, 0, 1) == [Some(-1), Some(5)];
    assert Gather(col, 0, 2) == [Some(-1), Some(5)];
    assert Gather(col, 0, 3) == [Some(-1), Some(5)];
    assert Gather(col, 0, 4) == [Some(-1), Some(5)];
    assert Gather(col, 0, 5) == [Some(-1), Some(5)];
  }

  lemma GatheredInserts()
    ensures InsertPlaceholders([Some(-1), Some(5), Some(1)], [1, 2, 3, 4]) ==
      [Some(-1), Some(-1), Some(-1), Some(-1), Some(-1), Some(5), Some(1)]
  {
    var data := [Some(-1), Some(5), Some(1)];
    assert [1, 2, 3, 4][..3] == [1, 2, 3] && [1, 2, 3][..2] == [1, 2] && [1, 2][..1] == [1] && [1][..0] == [];
    assert InsertPlaceholders(data, [1]) == [Some(-1), Some(-1), Some(5), Some(1)];
    assert InsertPlaceholders(data, [1, 2]) == [Some(-1), Some(-1), Some(-1), Some(5), Some(1)];
    assert InsertPlaceholders(data, [1, 2, 3]) == [Some(-1), Some(-1), Some(-1), Some(-1), Some(5), Some(1)];
  }

  /* ---------------------------------------------------------------------- */
  /* _make_change                                                           */
  /* ---------------------------------------------------------------------- */

  /**
    _make_change: a column insertion opens an empty column at `col` and fills
    rows 0..height-1 with placeholders; a cell insertion rewrites column `col`
    with CellData.
  */
  function MakeChange(b: Board, c: Change): (r: Board)
    requires Applicable(b, c)
    ensures c.InsertCellChange? ==> forall x :: x != c.col ==> (x in r <==> x in b) && (x in r ==> r[x] == b[x])
  {
    match c
    case InsertColumnChange(col, height) =>
      WriteColumn(InsertColumns(b, col, 1), col, Placeholders(height))
    case InsertCellChange(col, height) =>
      WriteColumn(b, col, CellData(ColumnOf(b, col), height))
  }

  /**
    A column insertion moves every column from `col` on one place right and
    leaves column `col` holding exactly `height` placeholders.
  */
  lemma ColumnChangeShifts(b: Board, col: int, height: int)
    ensures forall x, y {:trigger GetValue(MakeChange(b, InsertColumnChange(col, height)), x, y)} ::
      GetValue(MakeChange(b, InsertColumnChange(col, height)), x, y) ==
        (if x < col then GetValue(b, x, y)
         else if x == col then (if 0 <= y < height then Some(Placeholder) else None)
         else GetValue(b, x - 1, y))
  {
    forall x, y
      ensures GetValue(MakeChange(b, InsertColumnChange(col, height)), x, y) ==
        (if x < col then GetValue(b, x, y)
         else if x == col then (if 0 <= y < height then Some(Placeholder) else None)
         else GetValue(b, x - 1, y))
    {
      ColumnChangeShiftsAt(b, col, height, x, y);
    }
  }

  /** One cell of ColumnChangeShifts. */
  lemma ColumnChangeShiftsAt(b: Board, col: int, height: int, x: int, y: int)
    ensures GetValue(MakeChange(b, InsertColumnChange(col, height)), x, y) ==
      (if x < col then GetValue(b, x, y)
       else if x == col then (if 0 <= y < height then Some(Placeholder) else None)
       else GetValue(b, x - 1, y))
  {
    var i := InsertColumns(b, col, 1);
    var r := MakeChange(b, InsertColumnChange(col, height));
    assert r == WriteColumn(i, col, Placeholders(height));
    assert IsInsertion(b, i, col, 1);
    if x < col {
      assert GetValue(r, x, y) == GetValue(i, x, y);
      assert x in i <==> x in b;
      if x in i { assert i[x] == b[x]; }
    } else if x == col {
      assert col !in i;
    } else {
      assert GetValue(r, x, y) == GetValue(i, x, y);
      assert x in i <==> x - 1 in b;
      if x in i { assert i[x] == b[x - 1]; }
    }
  }

  /**
    A cell insertion at row 0..top of a column without gaps makes the column one
    cell longer with one more placeholder, keeps its other values in order and
    its old placeholders at their rows, and leaves every other column alone.
  */
  lemma CellChangeColumn(b: Board, col: int, h: int)
    requires WellFormed(b)
    requires 0 <= h <= ColumnHeight(b, col)
    requires forall y :: 0 <= y < ColumnHeight(b, col) ==> GetValue(b, col, y) != None
    ensures var r := MakeChange(b, InsertCellChange(col, h));
      && col in r
      && |r[col]| == ColumnHeight(b, col) + 1
      && PlaceholderCount(r[col]) == PlaceholderCount(ColumnOf(b, col)) + 1
      && Keep(r[col]) == Keep(ColumnOf(b, col))
      && (forall y :: 0 <= y < ColumnHeight(b, col) && GetValue(b, col, y) == Some(Placeholder) ==>
            r[col][y] == Some(Placeholder))
  {
    var before := ColumnOf(b, col);
    var d := CellData(before, h);
    CellDataShape(before, h);
    var r := MakeChange(b, InsertCellChange(col, h));
    WriteColumnWellFormed(b, col, d);
    assert None !in before;
    KeepMembers(before, None);
    KeepMembers(d, None);
    assert None !in d;
    assert GetValue(r, col, |d| - 1) == d[|d| - 1];
    assert col in r;
    ColumnAtMost(r, col, |d|);
    assert |r[col]| == |d| by {
      assert GetValue(r, col, |r[col]| - 1) != None;
    }
    assert r[col] == d by {
      forall y | 0 <= y < |d| ensures r[col][y] == d[y] {
        assert GetValue(r, col, y) == d[y];
      }
    }
  }

  /** Applying a change at a non-negative column keeps the board sound. */
  lemma MakeChangeSound(b: Board, c: Change)
    requires Sound(b) && Applicable(b, c) && c.col >= 0
    ensures Sound(MakeChange(b, c))
  {
    var r := MakeChange(b, c);
    match c
    case InsertColumnChange(col, height) =>
      var i := InsertColumns(b, col, 1);
      InsertColumnsWellFormed(b, col, 1);
      WriteColumnWellFormed(i, col, Placeholders(height));
      forall x | x in r ensures x >= 0 {
        if x != col { assert x in i; }
      }
    case InsertCellChange(col, height) =>
      WriteColumnWellFormed(b, col, CellData(ColumnOf(b, col), height));
      forall x | x in r ensures x >= 0 {
        if x != col { assert x in b; }
      }
  }

  /**
    An allowed change keeps a sound board inside max_size: a column insertion
    widens it by one column of at most max_height cells, a cell insertion
    lengthens one column lower than max_height by one.
  */
  lemma MakeChangeBounded(b: Board, maxWidth: int, maxHeight: int, c: Change)
    requires Sound(b) && Bounded(b, maxWidth, maxHeight) && Allowed(b, maxWidth, maxHeight, c)
    ensures Bounded(MakeChange(b, c), maxWidth, maxHeight)
  {
    MakeChangeSound(b, c);
    KeysInWidth(b);
    assert Sound(MakeChange(b, c));
    match c
    case InsertColumnChange(col, height) =>
      ColumnChangeBounded(b, maxWidth, maxHeight, col, height);
    case InsertCellChange(col, height) =>
      CellChangeBounded(b, maxWidth, maxHeight, col, height);
  }

  /** MakeChangeBounded for a column insertion. */
  lemma ColumnChangeBounded(b: Board, maxWidth: int, maxHeight: int, col: int, height: int)
    requires Sound(b) && Bounded(b, maxWidth, maxHeight)
    requires Allowed(b, maxWidth, maxHeight, InsertColumnChange(col, height))
    ensures Bounded(MakeChange(b, InsertColumnChange(col, height)), maxWidth, maxHeight)
  {
    var r := MakeChange(b, InsertColumnChange(col, height));
    assert Sound(r) by {
      MakeChangeSound(b, InsertColumnChange(col, height));
    }
    assert forall x :: x in b ==> 0 <= x < Width(b) by {
      KeysInWidth(b);
    }
    ColumnChangeShiftsOf(b, col, height, r);
    ShiftedBounded(b, r, maxWidth, maxHeight, col, height);
  }

  /** ColumnChangeShifts, stated of a board named r. */
  lemma ColumnChangeShiftsOf(b: Board, col: int, height: int, r: Board)
    requires r == MakeChange(b, InsertColumnChange(col, height))
    ensures forall x, y {:trigger GetValue(r, x, y)} :: (GetValue(r, x, y) ==
      (if x < col then GetValue(b, x, y)
       else if x == col then (if 0 <= y < height then Some(Placeholder) else None)
       else GetValue(b, x - 1, y)))
  {
    ColumnChangeShifts(b, col, height);
  }

  /** A sound board that shifts a bounded board right from `col` and fills `col` with `height` cells is bounded. */
  lemma ShiftedBounded(b: Board, r: Board, maxWidth: int, maxHeight: int, col: int, height: int)
    requires Bounded(b, maxWidth, maxHeight) && forall x :: x in b ==> 0 <= x < Width(b)
    requires Sound(r) && 0 <= col <= Width(b) < maxWidth && 1 <= height <= maxHeight
    requires forall x, y {:trigger GetValue(r, x, y)} :: (GetValue(r, x, y) ==
      (if x < col then GetValue(b, x, y)
       else if x == col then (if 0 <= y < height then Some(Placeholder) else None)
       else GetValue(b, x - 1, y)))
    ensures Bounded(r, maxWidth, maxHeight)
  {
    var w := Width(b);
    forall x | x in r ensures x < w + 1 && |r[x]| <= maxHeight {
      var t := |r[x]| - 1;
      assert GetValue(r, x, t) != None;
      if x == col {
        ColumnAtMost(r, x, height);
      } else {
        var x' := if x < col then x else x - 1;
        assert GetValue(b, x', t) != None;
        assert x' in b;
        forall y | y >= maxHeight ensures GetValue(r, x, y) == None {
          assert GetValue(r, x, y) == GetValue(b, x', y);
        }
        ColumnAtMost(r, x, maxHeight);
      }
    }
    WidthAtMost(r, w + 1);
  }

  /** MakeChangeBounded for a cell insertion. */
  lemma CellChangeBounded(b: Board, maxWidth: int, maxHeight: int, col: int, height: int)
    requires Sound(b) && Bounded(b, maxWidth, maxHeight)
    requires Allowed(b, maxWidth, maxHeight, InsertCellChange(col, height))
    requires WellFormed(MakeChange(b, InsertCellChange(col, height)))
    requires forall x :: x in b ==> 0 <= x < Width(b)
    ensures Bounded(MakeChange(b, InsertCellChange(col, height)), maxWidth, maxHeight)
  {
    var r := MakeChange(b, InsertCellChange(col, height));
    var w := Width(b);
    var d := CellData(ColumnOf(b, col), height);
    CellDataShape(ColumnOf(b, col), height);
    forall x | x in r ensures x < w && |r[x]| <= maxHeight {
      if x != col {
        assert x in b && r[x] == b[x];
      } else {
        ColumnAtMost(r, col, |d|);
      }
    }
    WidthAtMost(r, w);
  }
}
