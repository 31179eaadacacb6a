/**
  Extremes of finite sets of integers and of board coordinates. Each extreme is
  computed by a let-such-that whose value is unique, so the functions compile.
*/
module Extrema {

  /** A board coordinate `(x, y)`. */
  type Cell = (int, int)

  /** Python's tuple ordering on coordinates: by `x`, then by `y`. */
  predicate CellLe(a: Cell, b: Cell) {
    a.0 < b.0 || (a.0 == b.0 && a.1 <= b.1)
  }

  lemma MaxExists(s: set<int>)
    requires s != {}
    ensures exists m :: m in s && forall k :: k in s ==> k <= m
  {
    assert (forall y :: y !in s) ==> s == {};
    var x :| x in s;
    var rest := s - {x};
    if rest == {} {
      assert s == {x};
    } else {
      MaxExists(rest);
      var m' :| m' in rest && forall k :: k in rest ==> k <= m';
      if x <= m' {
        assert forall k :: k in s ==> k <= m' by {
          forall k | k in s ensures k <= m' { if k != x { assert k in rest; } }
        }
      } else {
        assert forall k :: k in s ==> k <= x by {
          forall k | k in s ensures k <= x { if k != x { assert k in rest; } }
        }
      }
    }
  }

  lemma MinExists(s: set<int>)
    requires s != {}
    ensures exists m :: m in s && forall k :: k in s ==> m <= k
  {
    assert (forall y :: y !in s) ==> s == {};
    var x :| x in s;
    var rest := s - {x};
    if rest == {} {
      assert s == {x};
    } else {
      MinExists(rest);
      var m' :| m' in rest && forall k :: k in rest ==> m' <= k;
      if m' <= x {
        assert forall k :: k in s ==> m' <= k by {
          forall k | k in s ensures m' <= k { if k != x { assert k in rest; } }
        }
      } else {
        assert forall k :: k in s ==> x <= k by {
          forall k | k in s ensures x <= k { if k != x { assert k in rest; } }
        }
      }
    }
  }

  lemma LeastCellExists(s: set<Cell>)
    requires s != {}
    ensures exists m :: m in s && forall c :: c in s ==> CellLe(m, c)
  {
    assert (forall y :: y !in s) ==> s == {};
    var x :| x in s;
    var rest := s - {x};
    if rest == {} {
      assert s == {x};
    } else {
      LeastCellExists(rest);
      var m' :| m' in rest && forall c :: c in rest ==> CellLe(m', c);
      if CellLe(m', x) {
        assert forall c :: c in s ==> CellLe(m', c) by {
          forall c | c in s ensures CellLe(m', c) { if c != x { assert c in rest; } }
        }
      } else {
        assert forall c :: c in s ==> CellLe(x, c) by {
          forall c | c in s ensures CellLe(x, c) { if c != x { assert c in rest; } }
        }
      }
    }
  }

  /** Python's `max` of a non-empty set of integers. */
  function MaxOf(s: set<int>): (m: int)
    requires s != {}
    ensures m in s
    ensures forall k :: k in s ==> k <= m
  {
    MaxExists(s);
    var m :| m in s && forall k :: k in s ==> k <= m; m
  }

  /** Python's `min` of a non-empty set of integers. */
  function MinOf(s: set<int>): (m: int)
    requires s != {}
    ensures m in s
    ensures forall k :: k in s ==> m <= k
  {
    MinExists(s);
    var m :| m in s && forall k :: k in s ==> m <= k; m
  }

  /** Python's `min` of a non-empty set of coordinate tuples. */
  function LeastCell(s: set<Cell>): (m: Cell)
    requires s != {}
    ensures m in s
    ensures forall c :: c in s ==> CellLe(m, c)
  {
    LeastCellExists(s);
    var m :| m in s && forall c :: c in s ==> CellLe(m, c); m
  }

  /** The elements of a finite set of integers in ascending order (Python's `sorted`). */
  function Sorted(s: set<int>): (r: seq<int>)
    ensures |r| == |s|
    ensures forall k :: k in s <==> k in r
    decreases |s|
  {
    if s == {} then []
    else
      var m := MaxOf(s);
      Sorted(s - {m}) + [m]
  }

  /** The sorted elements ascend strictly. */
  lemma {:induction false} SortedAscending(s: set<int>)
    ensures forall i, j :: 0 <= i < j < |Sorted(s)| ==> Sorted(s)[i] < Sorted(s)[j]
    decreases |s|
  {
    if s != {} {
      var m := MaxOf(s);
      var rest := Sorted(s - {m});
      SortedAscending(s - {m});
      assert Sorted(s) == rest + [m];
      forall i, j | 0 <= i < j < |Sorted(s)| ensures Sorted(s)[i] < Sorted(s)[j] {
        assert rest[i] in s - {m};
        if j == |rest| {
          assert Sorted(s)[j] == m;
        }
      }
    }
  }
}
