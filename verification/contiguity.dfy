/**
  The flood fill of board.py: get_contiguous grows the 4-connected group of
  equal values around a cell, and get_all_contiguous collects every group of
  three or more cells.
*/
module Contiguity {
  import opened Optional
  import opened Extrema
  import opened Boards

  /** The four orthogonal neighbours of a cell, in the order the source visits them. */
  function Nbrs(c: Cell): (r: set<Cell>)
    ensures |r| == 4
  {
    assert (c.0 + 1, c.1) != (c.0 - 1, c.1);
    {(c.0 + 1, c.1), (c.0 - 1, c.1), (c.0, c.1 + 1), (c.0, c.1 - 1)}
  }

  /** Adjacency is symmetric. */
  lemma NbrsSymmetric(c: Cell, n: Cell)
    ensures n in Nbrs(c) <==> c in Nbrs(n)
  {
  }

  /**
    A set of cells holding `v` is closed when every neighbour of a member that
    also holds `v` is a member too.
  */
  ghost predicate Closed(b: Board, v: int, s: set<Cell>) {
    forall c, n :: c in s && n in Nbrs(c) && At(b, n) == Some(v) ==> n in s
  }

  /**
    The group of `start`: the least set that contains `start`, holds only the
    value of `start`, and is closed under same-valued neighbours.
  */
  ghost predicate IsComponent(b: Board, start: Cell, r: set<Cell>) {
    && At(b, start) != None
    && start in r
    && (forall c :: c in r ==> At(b, c) == At(b, start))
    && Closed(b, At(b, start).value, r)
    && (forall s :: start in s && Closed(b, At(b, start).value, s) ==> r <= s)
  }

  /** Every cell that holds a value. */
  function Occupied(b: Board): (s: set<Cell>)
    ensures forall c :: c in s <==> At(b, c) != None
  {
    ValueMap(b).Keys
  }

  /** Every neighbour of an occupied cell: the only cells the flood fill can examine. */
  function Halo(b: Board): (s: set<Cell>)
    ensures forall c, n :: At(b, c) != None && n in Nbrs(c) ==> n in s
  {
    set c, n | c in Occupied(b) && n in Nbrs(c) :: n
  }

  /**
    The loop invariant of get_contiguous looking for value `v`: every candidate
    has been examined, the group so far holds `v`, every examined non-candidate
    holding `v` is already in the group, and every neighbour of a group member
    has been examined.
  */
  ghost predicate FloodInv(b: Board, v: int, cand: set<Cell>, exam: set<Cell>, cont: set<Cell>) {
    && cand <= exam
    && (forall c :: c in cont ==> At(b, c) == Some(v))
    && (forall e :: e in exam && e !in cand && At(b, e) == Some(v) ==> e in cont)
    && (forall c, n :: c in cont && n in Nbrs(c) ==> n in exam)
  }

  lemma CardRemoveFresh(h: set<Cell>, e: set<Cell>, f: set<Cell>)
    requires f <= h && f !! e
    ensures |h - (e + f)| == |h - e| - |f|
  {
    assert h - e == (h - (e + f)) + f;
  }

  /**
    The while loop of get_contiguous. Each step pops a candidate (the least
    one; the source pops an arbitrary one, and the result does not depend on
    the choice); a candidate holding `v` joins the group and its unexamined
    neighbours become candidates.
  */
  function Flood(b: Board, v: int, cand: set<Cell>, exam: set<Cell>, cont: set<Cell>): (r: set<Cell>)
    requires FloodInv(b, v, cand, exam, cont)
    ensures cont <= r
    ensures forall c :: c in r ==> At(b, c) == Some(v)
    decreases 2 * |Halo(b) - exam| + |cand|
  {
    if cand == {} then cont
    else
      var c := LeastCell(cand);
      if At(b, c) == Some(v) then
        var added := Nbrs(c) - exam;
        CardRemoveFresh(Halo(b), exam, added);
        FloodJoin(b, v, cand, exam, cont, c);
        Flood(b, v, (cand - {c}) + added, exam + added, cont + {c})
      else
        FloodSkip(b, v, cand, exam, cont, c);
        Flood(b, v, cand - {c}, exam, cont)
  }

  /** A candidate holding `v` joins the group and its unexamined neighbours become candidates: the invariant holds on. */
  lemma FloodJoin(b: Board, v: int, cand: set<Cell>, exam: set<Cell>, cont: set<Cell>, c: Cell)
    requires FloodInv(b, v, cand, exam, cont) && c in cand && At(b, c) == Some(v)
    ensures FloodInv(b, v, (cand - {c}) + (Nbrs(c) - exam), exam + (Nbrs(c) - exam), cont + {c})
  {
  }

  /** A candidate not holding `v` is dropped: the invariant holds on. */
  lemma FloodSkip(b: Board, v: int, cand: set<Cell>, exam: set<Cell>, cont: set<Cell>, c: Cell)
    requires FloodInv(b, v, cand, exam, cont) && c in cand && At(b, c) != Some(v)
    ensures FloodInv(b, v, cand - {c}, exam, cont)
  {
  }

  /** The flood fill ends holding every examined cell with `v`, and closed under same-valued neighbours. */
  lemma {:induction false} FloodCovers(b: Board, v: int, cand: set<Cell>, exam: set<Cell>, cont: set<Cell>)
    requires FloodInv(b, v, cand, exam, cont)
    ensures forall e :: e in exam && At(b, e) == Some(v) ==> e in Flood(b, v, cand, exam, cont)
    ensures Closed(b, v, Flood(b, v, cand, exam, cont))
    decreases 2 * |Halo(b) - exam| + |cand|
  {
    if cand != {} {
      var c := LeastCell(cand);
      if At(b, c) == Some(v) {
        var added := Nbrs(c) - exam;
        CardRemoveFresh(Halo(b), exam, added);
        FloodJoin(b, v, cand, exam, cont, c);
        FloodCovers(b, v, (cand - {c}) + added, exam + added, cont + {c});
      } else {
        FloodSkip(b, v, cand, exam, cont, c);
        FloodCovers(b, v, cand - {c}, exam, cont);
      }
    }
  }

  /**
    The flood fill ends with the least closed set that contains the group so
    far and every candidate holding `v`.
  */
  lemma {:induction false} FloodLeast(b: Board, v: int, cand: set<Cell>, exam: set<Cell>, cont: set<Cell>, s: set<Cell>)
    requires FloodInv(b, v, cand, exam, cont)
    requires Closed(b, v, s) && cont <= s && forall c :: c in cand && At(b, c) == Some(v) ==> c in s
    ensures Flood(b, v, cand, exam, cont) <= s
    decreases 2 * |Halo(b) - exam| + |cand|, 1
  {
    if cand != {} {
      var c := LeastCell(cand);
      if At(b, c) == Some(v) {
        FloodLeastJoin(b, v, cand, exam, cont, s, c);
      } else {
        FloodSkip(b, v, cand, exam, cont, c);
        FloodLeast(b, v, cand - {c}, exam, cont, s);
      }
    }
  }

  /** The joining step of FloodLeast. */
  lemma {:induction false} FloodLeastJoin(b: Board, v: int, cand: set<Cell>, exam: set<Cell>, cont: set<Cell>, s: set<Cell>, c: Cell)
    requires FloodInv(b, v, cand, exam, cont)
    requires Closed(b, v, s) && cont <= s && forall c :: c in cand && At(b, c) == Some(v) ==> c in s
    requires cand != {} && c == LeastCell(cand) && At(b, c) == Some(v)
    ensures Flood(b, v, cand, exam, cont) <= s
    decreases 2 * |Halo(b) - exam| + |cand|, 0
  {
    var added := Nbrs(c) - exam;
    CardRemoveFresh(Halo(b), exam, added);
    FloodJoin(b, v, cand, exam, cont, c);
    JoinInside(b, v, cand, exam, cont, c, s);
    FloodLeast(b, v, (cand - {c}) + added, exam + added, cont + {c}, s);
  }

  /** A closed set holding the group and the candidates with `v` still holds them after a join. */
  lemma JoinInside(b: Board, v: int, cand: set<Cell>, exam: set<Cell>, cont: set<Cell>, c: Cell, s: set<Cell>)
    requires Closed(b, v, s) && cont <= s && forall d :: d in cand && At(b, d) == Some(v) ==> d in s
    requires c in cand && At(b, c) == Some(v)
    ensures cont + {c} <= s
    ensures forall n :: n in (cand - {c}) + (Nbrs(c) - exam) && At(b, n) == Some(v) ==> n in s
  {
    forall n | n in (cand - {c}) + (Nbrs(c) - exam) && At(b, n) == Some(v) ensures n in s {
      if n !in cand {
        assert n in Nbrs(c);
      }
    }
  }

  /** get_contiguous: the group of equal values around (x, y); empty when the cell is empty. */
  function GetContiguous(b: Board, x: int, y: int): (r: set<Cell>)
    ensures r == {} <==> GetValue(b, x, y) == None
    ensures forall c :: c in r ==> At(b, c) == GetValue(b, x, y)
    ensures r != {} ==> (x, y) in r && Closed(b, GetValue(b, x, y).value, r)
  {
    var value := GetValue(b, x, y);
    if value == None then {}
    else
      FloodCovers(b, value.value, {(x, y)}, {(x, y)}, {});
      Flood(b, value.value, {(x, y)}, {(x, y)}, {})
  }

  /** get_contiguous of an occupied cell is exactly that cell's group. */
  lemma GetContiguousIsComponent(b: Board, x: int, y: int)
    requires GetValue(b, x, y) != None
    ensures IsComponent(b, (x, y), GetContiguous(b, x, y))
  {
    var v := GetValue(b, x, y).value;
    forall s | (x, y) in s && Closed(b, v, s) ensures GetContiguous(b, x, y) <= s {
      FloodLeast(b, v, {(x, y)}, {(x, y)}, {}, s);
    }
  }

  /** A cell has only one group. */
  lemma ComponentUnique(b: Board, start: Cell, r1: set<Cell>, r2: set<Cell>)
    requires IsComponent(b, start, r1) && IsComponent(b, start, r2)
    ensures r1 == r2
  {
    assert Closed(b, At(b, start).value, r2);
    assert Closed(b, At(b, start).value, r1);
  }

  /** Starting the flood fill from any member of a group gives the same group. */
  lemma ComponentOfMember(b: Board, x: int, y: int, c: Cell)
    requires c in GetContiguous(b, x, y)
    ensures GetContiguous(b, c.0, c.1) == GetContiguous(b, x, y)
  {
    var r := GetContiguous(b, x, y);
    var v := GetValue(b, x, y).value;
    var r' := GetContiguous(b, c.0, c.1);
    GetContiguousIsComponent(b, x, y);
    GetContiguousIsComponent(b, c.0, c.1);
    // The group of c lies inside the group of (x, y).
    assert r' <= r;
    // What the group of (x, y) holds outside the group of c is closed as well,
    // so it cannot hold (x, y): otherwise it would hold c.
    var rest := r - r';
    forall d, n | d in rest && n in Nbrs(d) && At(b, n) == Some(v)
      ensures n in rest
    {
      NbrsSymmetric(d, n);
      assert n in r' ==> d in r';
    }
    assert (x, y) in rest ==> r <= rest;
    assert (x, y) in r';
  }

  /** The cells of column x, bottom to top. */
  function ColumnScan(x: int, n: nat): (r: seq<Cell>)
    ensures |r| == n
    ensures forall j :: 0 <= j < n ==> r[j] == (x, j)
  {
    seq(n, j => (x, j))
  }

  /**
    The order in which get_all_contiguous visits the stored positions: column by
    column in the order `ks`, each column bottom to top.
  */
  function ScanOrder(b: Board, ks: seq<int>): (r: seq<Cell>)
    requires forall i :: 0 <= i < |ks| ==> ks[i] in b
    ensures forall i, j :: 0 <= i < |ks| && 0 <= j < |b[ks[i]]| ==> (ks[i], j) in r
  {
    if |ks| == 0 then []
    else
      var rest := ScanOrder(b, ks[1..]);
      assert forall i :: 1 <= i < |ks| ==> ks[i] == ks[1..][i - 1];
      ColumnScan(ks[0], |b[ks[0]]|) + rest
  }

  /** get_contiguous as a function of the cell. */
  function GroupOf(b: Board): Cell -> set<Cell> {
    (c: Cell) => GetContiguous(b, c.0, c.1)
  }

  /**
    What the scan needs of get_contiguous: an empty cell has no group, an
    occupied cell lies in its own group, and every member of a group has that same group.
  */
  ghost predicate IsGrouping(b: Board, group: Cell -> set<Cell>) {
    && (forall c :: At(b, c) == None ==> group(c) == {})
    && (forall c :: At(b, c) != None ==> c in group(c))
    && (forall c, m :: m in group(c) ==> group(m) == group(c))
  }

  /** get_contiguous is a grouping of the occupied cells. */
  lemma GroupOfIsGrouping(b: Board)
    ensures IsGrouping(b, GroupOf(b))
  {
    forall c, m | m in GroupOf(b)(c)
      ensures GroupOf(b)(m) == GroupOf(b)(c)
    {
      ComponentOfMember(b, c.0, c.1, m);
    }
  }

  /** The scan visits every occupied cell. */
  lemma ScanOrderCovers(b: Board)
    ensures forall x, y :: GetValue(b, x, y) != None ==> (x, y) in ScanOrder(b, Sorted(b.Keys))
  {
    var ks := Sorted(b.Keys);
    forall x, y | GetValue(b, x, y) != None
      ensures (x, y) in ScanOrder(b, ks)
    {
      assert x in ks;
      var i :| 0 <= i < |ks| && ks[i] == x;
    }
  }

  /** Each group in the list has at least three cells and is the group of each of its members. */
  ghost predicate GroupsAreComponents(group: Cell -> set<Cell>, groups: seq<set<Cell>>) {
    forall k :: 0 <= k < |groups| ==>
      |groups[k]| >= 3 && forall m: Cell :: m in groups[k] ==> group(m) == groups[k]
  }

  /** No cell lies in two groups of the list. */
  ghost predicate PairwiseDisjoint(groups: seq<set<Cell>>) {
    forall k, l :: 0 <= k < l < |groups| ==> groups[k] !! groups[l]
  }

  /**
    The loop invariant of get_all_contiguous: the groups found so far are
    disjoint components of size three or more lying in `examined`, and every
    examined occupied cell has its whole group examined and, when that group
    has three or more cells, listed.
  */
  ghost predicate ScanInv(b: Board, group: Cell -> set<Cell>, examined: set<Cell>, groups: seq<set<Cell>>) {
    && GroupsAreComponents(group, groups)
    && PairwiseDisjoint(groups)
    && (forall k, m :: 0 <= k < |groups| && m in groups[k] ==> m in examined)
    && (forall e :: e in examined && At(b, e) != None ==>
          group(e) <= examined && (|group(e)| >= 3 ==> group(e) in groups))
  }

  /** Visiting an unexamined cell keeps the invariant of get_all_contiguous. */
  lemma ScanStep(b: Board, group: Cell -> set<Cell>, examined: set<Cell>, groups: seq<set<Cell>>, c: Cell)
    requires IsGrouping(b, group)
    requires ScanInv(b, group, examined, groups) && c !in examined
    ensures var g := group(c);
      ScanInv(b, group, examined + {c} + g, if |g| >= 3 then groups + [g] else groups)
  {
    ScanStepGroups(b, group, examined, groups, c);
    ScanStepExamined(b, group, examined, groups, c);
  }

  /** The group of an unexamined cell, appended when large enough, keeps the list disjoint components. */
  lemma ScanStepGroups(b: Board, group: Cell -> set<Cell>, examined: set<Cell>, groups: seq<set<Cell>>, c: Cell)
    requires IsGrouping(b, group)
    requires ScanInv(b, group, examined, groups) && c !in examined
    ensures var g := group(c); var groups' := if |g| >= 3 then groups + [g] else groups;
      GroupsAreComponents(group, groups') && PairwiseDisjoint(groups')
  {
    var g := group(c);
    var groups' := if |g| >= 3 then groups + [g] else groups;
    forall k | 0 <= k < |groups|
      ensures groups[k] !! g
    {
      assert forall m :: m in groups[k] && m in g ==> c in groups[k];
    }
    assert forall k :: 0 <= k < |groups| ==> groups'[k] == groups[k];
  }

  /** Examining the visited cell and its group keeps the bookkeeping part of the invariant. */
  lemma ScanStepExamined(b: Board, group: Cell -> set<Cell>, examined: set<Cell>, groups: seq<set<Cell>>, c: Cell)
    requires IsGrouping(b, group)
    requires ScanInv(b, group, examined, groups) && c !in examined
    ensures var g := group(c); var groups' := if |g| >= 3 then groups + [g] else groups;
      var examined' := examined + {c} + g;
      && (forall k, m :: 0 <= k < |groups'| && m in groups'[k] ==> m in examined')
      && (forall e :: e in examined' && At(b, e) != None ==>
            group(e) <= examined' && (|group(e)| >= 3 ==> group(e) in groups'))
  {
    var g := group(c);
    var examined' := examined + {c} + g;
    var groups' := if |g| >= 3 then groups + [g] else groups;
    assert forall k :: 0 <= k < |groups| ==> groups'[k] == groups[k];
    assert forall h :: h in groups ==> h in groups';
    forall e | e in examined' && At(b, e) != None
      ensures group(e) <= examined' && (|group(e)| >= 3 ==> group(e) in groups')
    {
      if e !in examined {
        assert group(e) == g;
      }
    }
  }

  /**
    The loop of get_all_contiguous over the positions `cells`: each unexamined
    position is marked examined together with its group, and the group is kept
    when it has three or more cells.
  */
  function ScanGroups(b: Board, cells: seq<Cell>, examined: set<Cell>, groups: seq<set<Cell>>): (r: seq<set<Cell>>)
    requires ScanInv(b, GroupOf(b), examined, groups)
    ensures GroupsAreComponents(GroupOf(b), r) && PairwiseDisjoint(r)
    ensures forall e :: (e in examined || e in cells) && At(b, e) != None && |GetContiguous(b, e.0, e.1)| >= 3 ==>
      GetContiguous(b, e.0, e.1) in r
    decreases |cells|
  {
    if |cells| == 0 then groups
    else
      var c := cells[0];
      assert forall e :: e in cells ==> e == c || e in cells[1..];
      if c in examined then ScanGroups(b, cells[1..], examined, groups)
      else
        var g := GetContiguous(b, c.0, c.1);
        GroupOfIsGrouping(b);
        ScanStep(b, GroupOf(b), examined, groups, c);
        ScanGroups(b, cells[1..], examined + {c} + g, if |g| >= 3 then groups + [g] else groups)
  }

  /**
    get_all_contiguous: the groups of three or more cells. They are pairwise
    disjoint, each is the group of each of its members, and every occupied
    cell whose group has three or more cells has that group listed.
  */
  function GetAllContiguous(b: Board): (r: seq<set<Cell>>)
    ensures forall k :: 0 <= k < |r| ==> |r[k]| >= 3
    ensures forall k, m :: 0 <= k < |r| && m in r[k] ==> GetContiguous(b, m.0, m.1) == r[k]
    ensures forall k, l :: 0 <= k < l < |r| ==> r[k] !! r[l]
    ensures forall x, y :: GetValue(b, x, y) != None && |GetContiguous(b, x, y)| >= 3 ==>
      GetContiguous(b, x, y) in r
  {
    var cells := ScanOrder(b, Sorted(b.Keys));
    ScanOrderCovers(b);
    ScanGroups(b, cells, {}, [])
  }
}
