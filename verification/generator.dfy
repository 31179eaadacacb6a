/**
  Random board generation (boardgen.py): growing one piece at a time out of
  one-cell changes, colouring it, and folding that over the piece sizes.
*/
module Generator {
  import opened Optional
  import opened Extrema
  import opened Boards
  import opened Changes
  import opened MakeChanges
  import opened Coloring

  /* ---------------------------------------------------------------------- */
  /* The random number generator                                            */
  /* ---------------------------------------------------------------------- */

  /**
    The shared random.Random object: an unbounded stream of raw draws and how
    many of them have been used.  Every randrange consumes one draw.
  */
  datatype Random = Random(draws: nat -> nat, used: nat)

  /** randrange(n): a draw reduced into 0..n-1. */
  function RandBelow(rng: Random, n: int): (r: (int, Random))
    requires n > 0
    ensures 0 <= r.0 < n
    ensures r.1.draws == rng.draws && r.1.used == rng.used + 1
  {
    (rng.draws(rng.used) % n, Random(rng.draws, rng.used + 1))
  }

  /** A draw already in range is returned unchanged, so every value of 0..n-1 can come up. */
  lemma RandBelowReproduces(rng: Random, n: int)
    requires n > 0 && rng.draws(rng.used) < n
    ensures RandBelow(rng, n).0 == rng.draws(rng.used)
  {
  }

  /** randint(a, b): a value of a..b inclusive. */
  function RandInt(rng: Random, a: int, b: int): (r: (int, Random))
    requires a <= b
    ensures a <= r.0 <= b
    ensures r.1.used == rng.used + 1
  {
    var (k, next) := RandBelow(rng, b - a + 1);
    (a + k, next)
  }

  /** choice(s): one element of a non-empty list. */
  function Choice<T(==)>(rng: Random, s: seq<T>): (r: (T, Random))
    requires |s| > 0
    ensures r.0 in s
    ensures r.1.used == rng.used + 1
  {
    var (i, next) := RandBelow(rng, |s|);
    (s[i], next)
  }

  /* ---------------------------------------------------------------------- */
  /* Removing changes from candidate lists                                  */
  /* ---------------------------------------------------------------------- */

  /** _pick: pops the item at a random index; the rest keeps its order. */
  function Pick(rng: Random, items: seq<Change>): (r: (Change, seq<Change>, Random))
    requires |items| > 0
    ensures exists i :: 0 <= i < |items| && r.0 == items[i] && r.1 == items[..i] + items[i + 1..]
    ensures multiset(items) == multiset(r.1) + multiset{r.0}
  {
    var (i, next) := RandInt(rng, 0, |items| - 1);
    assert items == items[..i] + [items[i]] + items[i + 1..];
    (items[i], items[..i] + items[i + 1..], next)
  }

  /** list.remove(v): drops the first occurrence of a value the list holds. */
  function RemoveFirst(s: seq<Change>, v: Change): (r: seq<Change>)
    requires v in s
    ensures multiset(s) == multiset(r) + multiset{v}
  {
    assert s == [s[0]] + s[1..];
    if s[0] == v then s[1..] else [s[0]] + RemoveFirst(s[1..], v)
  }

  /** The three candidate lists of _try_add_cells. */
  datatype Pending = Pending(h: seq<Change>, v: seq<Change>, cols: seq<Change>) {
    function Size(): nat { |h| + |v| + |cols| }
    function All(): seq<Change> { h + v + cols }

    /** List k: 0 the horizontal cell changes, 1 the vertical ones, 2 the column changes. */
    function List(k: int): seq<Change>
      requires 0 <= k < 3
    {
      if k == 0 then h else if k == 1 then v else cols
    }

    /** These lists with list k replaced by `s`. */
    function With(k: int, s: seq<Change>): Pending
      requires 0 <= k < 3
    {
      if k == 0 then this.(h := s) else if k == 1 then this.(v := s) else this.(cols := s)
    }
  }

  /**
    The weighted draw of _remove_change: 10 per horizontal cell change, 5 per
    vertical one and 1 per column change.  The list drawn is never empty.
  */
  function ChooseList(rng: Random, p: Pending): (r: (int, Random))
    requires p.Size() > 0
    ensures 0 <= r.0 < 3 && |p.List(r.0)| > 0
  {
    var hw, vw, cw := |p.h| * 10, |p.v| * 5, |p.cols|;
    var (value, next) := RandInt(rng, 0, hw + vw + cw - 1);
    if value < hw then (0, next)
    else if value < hw + vw then (1, next)
    else (2, next)
  }

  /** Taking `c` out of list k takes it out of the lists together and leaves the other two alone. */
  lemma WithTakesOut(p: Pending, k: int, rest: seq<Change>, c: Change)
    requires 0 <= k < 3 && multiset(p.List(k)) == multiset(rest) + multiset{c}
    ensures p.With(k, rest).Size() == p.Size() - 1
    ensures multiset(p.All()) == multiset(p.With(k, rest).All()) + multiset{c}
    ensures var q := p.With(k, rest);
      (q.v == p.v && q.cols == p.cols && multiset(p.h) == multiset(q.h) + multiset{c}) ||
      (q.h == p.h && q.cols == p.cols && multiset(p.v) == multiset(q.v) + multiset{c}) ||
      (q.h == p.h && q.v == p.v && multiset(p.cols) == multiset(q.cols) + multiset{c})
  {
    assert |p.List(k)| == |rest| + 1 by {
      assert |multiset(p.List(k))| == |multiset(rest)| + 1;
    }
  }

  /** What is left after taking `c` out is what was there, less `c`. */
  lemma TakenOutMembers(all: seq<Change>, rest: seq<Change>, c: Change)
    requires multiset(all) == multiset(rest) + multiset{c}
    ensures c in all
    ensures forall d :: d in all <==> d == c || d in rest
  {
    assert c in multiset(all);
    forall d ensures d in all <==> d == c || d in rest {
      assert d in all <==> d in multiset(all);
      assert d in rest <==> d in multiset(rest);
    }
  }

  /**
    _remove_change: draws a list and picks from it.  The list drawn is never
    empty, and it is the only one that loses an element.
  */
  function RemoveChange(rng: Random, p: Pending): (r: (Change, Pending, Random))
    requires p.Size() > 0
    ensures r.1.Size() == p.Size() - 1
    ensures multiset(p.All()) == multiset(r.1.All()) + multiset{r.0}
    ensures (r.1.v == p.v && r.1.cols == p.cols && multiset(p.h) == multiset(r.1.h) + multiset{r.0}) ||
            (r.1.h == p.h && r.1.cols == p.cols && multiset(p.v) == multiset(r.1.v) + multiset{r.0}) ||
            (r.1.h == p.h && r.1.v == p.v && multiset(p.cols) == multiset(r.1.cols) + multiset{r.0})
  {
    var (k, next) := ChooseList(rng, p);
    var (c, rest, last) := Pick(next, p.List(k));
    WithTakesOut(p, k, rest, c);
    (c, p.With(k, rest), last)
  }

  /** When only column changes remain, _remove_change takes one of them. */
  lemma RemoveChangeOnlyColumns(rng: Random, p: Pending)
    requires p.h == [] && p.v == [] && |p.cols| > 0
    ensures RemoveChange(rng, p).0 in p.cols
    ensures RemoveChange(rng, p).1.h == [] && RemoveChange(rng, p).1.v == []
  {
    var r := RemoveChange(rng, p);
    assert r.0 in multiset(p.cols);
  }

  /* ---------------------------------------------------------------------- */
  /* Searching for a colourable change                                      */
  /* ---------------------------------------------------------------------- */

  /** _change_is_colorable as a test on candidate changes; a change that cannot be applied fails it. */
  function Colorable(b: Board, maxColors: int): (ok: Change -> bool)
    ensures forall c :: ok(c) <==> Applicable(b, c) && ChangeIsColorable(b, c, maxColors)
  {
    (c: Change) => Applicable(b, c) && ChangeIsColorable(b, c, maxColors)
  }

  /**
    The loop of _get_starting_change over a candidate list: draws changes until
    one passes the test.  It finds one exactly when the list holds one.
  */
  function TryStarts(changes: seq<Change>, rng: Random, ok: Change -> bool): (r: (Option<Change>, Random))
    ensures r.0.Some? ==> r.0.value in changes && ok(r.0.value)
    ensures r.0.None? ==> forall c :: c in changes ==> !ok(c)
    decreases |changes|
  {
    if |changes| == 0 then (None, rng)
    else
      var (c, next) := Choice(rng, changes);
      var rest := RemoveFirst(changes, c);
      assert forall d :: d in changes ==> d == c || d in rest by {
        forall d | d in changes ensures d == c || d in rest {
          assert d in multiset(changes);
        }
      }
      assert forall d :: d in rest ==> d in changes by {
        forall d | d in rest ensures d in changes {
          assert d in multiset(rest);
          assert d in multiset(changes);
        }
      }
      if ok(c) then (Some(c), next) else TryStarts(rest, next, ok)
  }

  /**
    _get_starting_change: a random colourable one-cell change, or None when no
    enumerated change is colourable.
  */
  function GetStartingChange(b: Board, rng: Random, maxColors: int, maxWidth: int, maxHeight: int): (r: (Option<Change>, Random))
    ensures r.0.Some? ==> (r.0.value in EnumerateOneCellChanges(b, maxWidth, maxHeight) &&
      Applicable(b, r.0.value) && ChangeIsColorable(b, r.0.value, maxColors))
    ensures r.0.None? ==> forall c :: c in EnumerateOneCellChanges(b, maxWidth, maxHeight) ==>
      Applicable(b, c) && !ChangeIsColorable(b, c, maxColors)
  {
    EnumeratedChangesAllowed(b, maxWidth, maxHeight);
    TryStarts(EnumerateOneCellChanges(b, maxWidth, maxHeight), rng, Colorable(b, maxColors))
  }

  /**
    The loop of _try_add_cells over the candidate lists: removes changes until
    one passes the test.  It finds one exactly when the lists hold one.
  */
  function TryPending(p: Pending, rng: Random, ok: Change -> bool): (r: (Option<Change>, Random))
    ensures r.0.Some? ==> r.0.value in p.All() && ok(r.0.value)
    ensures r.0.None? ==> forall c :: c in p.All() ==> !ok(c)
    decreases p.Size()
  {
    if p.Size() == 0 then (None, rng)
    else
      var (c, rest, next) := RemoveChange(rng, p);
      TakenOutMembers(p.All(), rest.All(), c);
      if ok(c) then (Some(c), next) else TryPending(rest, next, ok)
  }

  /** The changes _try_add_cells offers: cell changes touching the piece, then column changes. */
  predicate Candidate(b: Board, maxWidth: int, maxHeight: int, c: Change)
    ensures Candidate(b, maxWidth, maxHeight, c) ==> Applicable(b, c)
  {
    var (h, v) := GetCellChanges(b, maxWidth, maxHeight);
    c in h || c in v || c in GetColChanges(b, maxWidth, maxHeight)
  }

  /** The number of cells a change adds to the piece. */
  function CellsAdded(c: Change): int {
    if c.InsertCellChange? then 1 else c.height
  }

  /**
    The search of _try_add_cells: a colourable candidate change drawn from the
    three lists, or None when no candidate is colourable.
  */
  function FindCellChange(b: Board, rng: Random, maxColors: int, maxWidth: int, maxHeight: int): (Option<Change>, Random) {
    var (h, v) := GetCellChanges(b, maxWidth, maxHeight);
    TryPending(Pending(h, v, GetColChanges(b, maxWidth, maxHeight)), rng, Colorable(b, maxColors))
  }

  /** The search finds a colourable candidate exactly when there is one. */
  lemma FindCellChangeFinds(b: Board, rng: Random, maxColors: int, maxWidth: int, maxHeight: int)
    ensures var r := FindCellChange(b, rng, maxColors, maxWidth, maxHeight);
      r.0.Some? ==> (Candidate(b, maxWidth, maxHeight, r.0.value) && Applicable(b, r.0.value) &&
        ChangeIsColorable(b, r.0.value, maxColors))
    ensures FindCellChange(b, rng, maxColors, maxWidth, maxHeight).0.None? ==>
      forall c :: Candidate(b, maxWidth, maxHeight, c) ==> !ChangeIsColorable(b, c, maxColors)
  {
    var (h, v) := GetCellChanges(b, maxWidth, maxHeight);
    var p := Pending(h, v, GetColChanges(b, maxWidth, maxHeight));
    assert forall c :: c in p.All() <==> Candidate(b, maxWidth, maxHeight, c);
  }

  /**
    _try_add_cells: makes the change found, if any, and reports how many cells
    it added (zero when none was found, the board then unchanged).
  */
  function TryAddCells(b: Board, rng: Random, maxColors: int, maxWidth: int, maxHeight: int): (r: (int, Board, Random))
    ensures r.0 >= 0
    ensures r.0 == 0 ==> r.1 == b
  {
    var (found, next) := FindCellChange(b, rng, maxColors, maxWidth, maxHeight);
    FindCellChangeFinds(b, rng, maxColors, maxWidth, maxHeight);
    if found.None? then (0, b, next)
    else (CellsAdded(found.value), MakeChange(b, found.value), next)
  }

  /**
    _try_add_cells adds cells exactly when some candidate change is colourable,
    and then the board is that change made, grown by the change's cell count.
  */
  lemma TryAddCellsFinds(b: Board, rng: Random, maxColors: int, maxWidth: int, maxHeight: int)
    ensures var r := TryAddCells(b, rng, maxColors, maxWidth, maxHeight);
      r.0 == 0 <==> forall c :: Candidate(b, maxWidth, maxHeight, c) ==> !ChangeIsColorable(b, c, maxColors)
    ensures var r := TryAddCells(b, rng, maxColors, maxWidth, maxHeight);
      r.0 > 0 ==> exists c :: (Candidate(b, maxWidth, maxHeight, c) && ChangeIsColorable(b, c, maxColors) &&
        r.1 == MakeChange(b, c) && r.0 == CellsAdded(c))
  {
    var (found, next) := FindCellChange(b, rng, maxColors, maxWidth, maxHeight);
    FindCellChangeFinds(b, rng, maxColors, maxWidth, maxHeight);
    if found.Some? {
      var c := found.value;
      assert CellsAdded(c) > 0;
    }
  }

  /* ---------------------------------------------------------------------- */
  /* Growing and colouring a piece                                          */
  /* ---------------------------------------------------------------------- */

  /** The outcome of the growing loop of _try_add_piece. */
  datatype Growth = Aborted(rng: Random) | Grown(board: Board, cells: int, rng: Random)

  /** One round of the growing loop: the cells it added, the board and the generator after it. */
  type AddCellsStep = (Board, Random) -> (int, Board, Random)

  /** _try_add_cells with the generator's colour count and max_size fixed. */
  function AddCells(maxColors: int, maxWidth: int, maxHeight: int): AddCellsStep {
    (b: Board, rng: Random) => TryAddCells(b, rng, maxColors, maxWidth, maxHeight)
  }

  /**
    The while loop of _try_add_piece, over its round `step` (AddCells in the
    generator): adds cells until the piece reaches its size; when a round adds
    nothing it keeps a piece of at least three cells and aborts a smaller one.
  */
  function Grow(step: AddCellsStep, b: Board, rng: Random, total: int, pieceSize: int): (g: Growth)
    ensures g.Grown? ==> g.cells >= total && (g.cells >= pieceSize || g.cells >= 3)
    ensures g.Aborted? ==> total < 3
    decreases pieceSize - total
  {
    if total >= pieceSize then Grown(b, total, rng)
    else
      var (added, next, rng1) := step(b, rng);
      if added > 0 then Grow(step, next, rng1, total + added, pieceSize)
      else if total >= 3 then Grown(b, total, rng1)
      else Aborted(rng1)
  }

  /** Whatever every round that adds cells keeps, the whole loop keeps. */
  lemma {:induction false} GrowKeeps(step: AddCellsStep, keep: Board -> bool, b: Board, rng: Random, total: int, pieceSize: int)
    requires keep(b)
    requires forall b1, rng1 :: keep(b1) && step(b1, rng1).0 > 0 ==> keep(step(b1, rng1).1)
    ensures Grow(step, b, rng, total, pieceSize).Grown? ==> keep(Grow(step, b, rng, total, pieceSize).board)
    decreases pieceSize - total
  {
    if total < pieceSize {
      var t := step(b, rng);
      if t.0 > 0 {
        GrowKeeps(step, keep, t.1, t.2, total + t.0, pieceSize);
      }
    }
  }

  /** A piece grown by _try_add_cells can still be coloured. */
  lemma TryAddCellsColorable(b: Board, rng: Random, maxColors: int, maxWidth: int, maxHeight: int)
    ensures TryAddCells(b, rng, maxColors, maxWidth, maxHeight).0 > 0 ==>
      NewPieceColors(TryAddCells(b, rng, maxColors, maxWidth, maxHeight).1, maxColors) != {}
  {
    FindCellChangeFinds(b, rng, maxColors, maxWidth, maxHeight);
  }

  /** The piece stays colourable while it grows. */
  lemma GrowColorable(b: Board, rng: Random, total: int, pieceSize: int, maxColors: int, maxWidth: int, maxHeight: int)
    requires NewPieceColors(b, maxColors) != {}
    ensures var g := Grow(AddCells(maxColors, maxWidth, maxHeight), b, rng, total, pieceSize);
      g.Grown? ==> NewPieceColors(g.board, maxColors) != {}
  {
    var step := AddCells(maxColors, maxWidth, maxHeight);
    var keep := (b1: Board) => NewPieceColors(b1, maxColors) != {};
    forall b1, rng1 | keep(b1) && step(b1, rng1).0 > 0 ensures keep(step(b1, rng1).1) {
      TryAddCellsColorable(b1, rng1, maxColors, maxWidth, maxHeight);
    }
    GrowKeeps(step, keep, b, rng, total, pieceSize);
  }

  /**
    _color_piece_random: paints the piece with a colour drawn from the sorted
    free colours, so the colour lies in 1..max_colors and no cell next to the
    piece has it.
  */
  function ColorPieceRandom(b: Board, rng: Random, maxColors: int): (r: (Board, int, Random))
    requires NewPieceColors(b, maxColors) != {}
    ensures r.1 in NewPieceColors(b, maxColors) && 1 <= r.1 <= maxColors
    ensures r.0 == ColorPiece(b, r.1)
  {
    var colors := Sorted(NewPieceColors(b, maxColors));
    var (color, next) := Choice(rng, colors);
    (ColorPiece(b, color), color, next)
  }

  /**
    _try_add_piece: starts a piece with a colourable one-cell change, grows it
    and colours it; returns the original board when there is no start or the
    piece is aborted.
  */
  function TryAddPiece(b: Board, rng: Random, pieceSize: int, maxColors: int, maxWidth: int, maxHeight: int): (r: (Board, Random))
    ensures (forall c :: c in EnumerateOneCellChanges(b, maxWidth, maxHeight) ==>
      Applicable(b, c) && !ChangeIsColorable(b, c, maxColors)) ==> r.0 == b
  {
    var (start, rng1) := GetStartingChange(b, rng, maxColors, maxWidth, maxHeight);
    if start.None? then (b, rng1)
    else
      var b1 := MakeChange(b, start.value);
      var g := Grow(AddCells(maxColors, maxWidth, maxHeight), b1, rng1, 1, pieceSize);
      if g.Aborted? then (b, g.rng)
      else
        GrowColorable(b1, rng1, 1, pieceSize, maxColors, maxWidth, maxHeight);
        var (painted, _, rng2) := ColorPieceRandom(g.board, g.rng, maxColors);
        (painted, rng2)
  }

  /**
    _try_add_piece returns the original board when there is no starting change
    or when growing stops below three cells; otherwise it returns the grown
    piece, of its size or of at least three cells, painted with a colour that
    no neighbour of the piece holds.
  */
  lemma TryAddPieceOutcome(b: Board, rng: Random, pieceSize: int, maxColors: int, maxWidth: int, maxHeight: int)
    ensures var (start, rng1) := GetStartingChange(b, rng, maxColors, maxWidth, maxHeight);
      var r := TryAddPiece(b, rng, pieceSize, maxColors, maxWidth, maxHeight).0;
      && (start.None? ==> r == b)
      && (start.Some? ==>
        var g := Grow(AddCells(maxColors, maxWidth, maxHeight), MakeChange(b, start.value), rng1, 1, pieceSize);
        && (g.Aborted? ==> r == b)
        && (g.Grown? ==> g.cells >= pieceSize || g.cells >= 3)
        && (g.Grown? ==> exists c :: c in NewPieceColors(g.board, maxColors) && r == ColorPiece(g.board, c)))
  {
    var (start, rng1) := GetStartingChange(b, rng, maxColors, maxWidth, maxHeight);
    if start.Some? {
      var b1 := MakeChange(b, start.value);
      var g := Grow(AddCells(maxColors, maxWidth, maxHeight), b1, rng1, 1, pieceSize);
      if g.Grown? {
        GrowColorable(b1, rng1, 1, pieceSize, maxColors, maxWidth, maxHeight);
        PaintedWithFree(g.board, g.rng, maxColors);
      }
    }
  }

  /** The random colouring paints the piece with one of its free colours. */
  lemma PaintedWithFree(b: Board, rng: Random, maxColors: int)
    requires NewPieceColors(b, maxColors) != {}
    ensures exists c :: c in NewPieceColors(b, maxColors) && ColorPieceRandom(b, rng, maxColors).0 == ColorPiece(b, c)
  {
    var painted := ColorPieceRandom(b, rng, maxColors);
    assert painted.1 in NewPieceColors(b, maxColors) && painted.0 == ColorPiece(b, painted.1);
  }

  /** The loop of generate_board over the piece sizes. */
  function AddPieces(b: Board, rng: Random, sizes: seq<int>, maxColors: int, maxWidth: int, maxHeight: int): (r: (Board, Random))
    decreases |sizes|
  {
    if |sizes| == 0 then (b, rng)
    else
      var (next, rng1) := TryAddPiece(b, rng, sizes[0], maxColors, maxWidth, maxHeight);
      AddPieces(next, rng1, sizes[1..], maxColors, maxWidth, maxHeight)
  }

  /** generate_board, given the piece sizes: adds the pieces one by one to an empty board. */
  function GenerateBoard(rng: Random, sizes: seq<int>, maxColors: int, maxWidth: int, maxHeight: int): Board {
    AddPieces(EmptyBoard, rng, sizes, maxColors, maxWidth, maxHeight).0
  }

  /* ---------------------------------------------------------------------- */
  /* What generation keeps                                                  */
  /* ---------------------------------------------------------------------- */

  /** Every cell holds a placeholder or a colour of 1..max_colors. */
  ghost predicate ColorsWithin(b: Board, maxColors: int) {
    forall x, y :: GetValue(b, x, y) == None || GetValue(b, x, y) == Some(Placeholder) ||
      1 <= GetValue(b, x, y).value <= maxColors
  }

  /** No cell is a placeholder. */
  ghost predicate NoPlaceholders(b: Board) {
    forall x, y :: !IsPlaceholder(b, x, y)
  }

  /** A column insertion brings in placeholders only. */
  lemma ColumnChangeColors(b: Board, col: int, height: int, maxColors: int)
    requires ColorsWithin(b, maxColors)
    ensures ColorsWithin(MakeChange(b, InsertColumnChange(col, height)), maxColors)
  {
    ColumnChangeShifts(b, col, height);
    ShiftedColors(b, MakeChange(b, InsertColumnChange(col, height)), col, height, maxColors);
  }

  lemma ShiftedColors(b: Board, r: Board, col: int, height: int, maxColors: int)
    requires ColorsWithin(b, maxColors)
    requires forall x, y {:trigger GetValue(r, x, y)} ::
      GetValue(r, x, y) == (if x < col then GetValue(b, x, y)
        else if x == col then (if 0 <= y < height then Some(Placeholder) else None)
        else GetValue(b, x - 1, y))
    ensures ColorsWithin(r, maxColors)
  {
    forall x, y ensures GetValue(r, x, y) == None || GetValue(r, x, y) == Some(Placeholder) ||
      1 <= GetValue(r, x, y).value <= maxColors
    {
      var v := GetValue(r, x, y);
      if x < col {
        assert v == GetValue(b, x, y);
      } else if x > col {
        assert v == GetValue(b, x - 1, y);
      }
    }
  }

  /** Every value of the rewritten column that is not a placeholder comes from the old column. */
  lemma CellDataValues(before: Column, h: int, y: int)
    requires 0 <= h <= |before| && 0 <= y < |CellData(before, h)|
    requires CellData(before, h)[y] != Some(Placeholder)
    ensures CellData(before, h)[y] in before
  {
    var d := CellData(before, h);
    CellDataShape(before, h);
    KeepMembers(d, d[y]);
    KeepMembers(before, d[y]);
  }

  /** A cell insertion brings in a placeholder only. */
  lemma CellChangeColors(b: Board, col: int, h: int, maxColors: int)
    requires 0 <= h <= ColumnHeight(b, col) && ColorsWithin(b, maxColors)
    ensures ColorsWithin(MakeChange(b, InsertCellChange(col, h)), maxColors)
  {
    var before := ColumnOf(b, col);
    var d := CellData(before, h);
    var r := WriteColumn(b, col, d);
    assert r == MakeChange(b, InsertCellChange(col, h));
    forall x, y ensures GetValue(r, x, y) == None || GetValue(r, x, y) == Some(Placeholder) ||
      1 <= GetValue(r, x, y).value <= maxColors
    {
      if x == col && 0 <= y < |d| && d[y] != Some(Placeholder) {
        CellDataValues(before, h, y);
        var i :| 0 <= i < |before| && before[i] == d[y];
        assert GetValue(b, col, i) == d[y];
      }
    }
  }

  /** A change brings in placeholders only: every colour it leaves was on the board before. */
  lemma MakeChangeColors(b: Board, c: Change, maxColors: int)
    requires Applicable(b, c) && c.height >= 0 && ColorsWithin(b, maxColors)
    ensures ColorsWithin(MakeChange(b, c), maxColors)
  {
    match c
    case InsertColumnChange(col, height) => ColumnChangeColors(b, col, height, maxColors);
    case InsertCellChange(col, h) => CellChangeColors(b, col, h, maxColors);
  }

  /**
    A change at a natural column with a natural height keeps a board sound,
    inside max_size when it is allowed there, and within the colours.
  */
  lemma ChangeKeeps(b: Board, c: Change, maxColors: int, maxWidth: int, maxHeight: int)
    requires Sound(b) && Applicable(b, c) && c.col >= 0 && c.height >= 0
    ensures Sound(MakeChange(b, c))
    ensures Bounded(b, maxWidth, maxHeight) && Allowed(b, maxWidth, maxHeight, c) ==>
      Bounded(MakeChange(b, c), maxWidth, maxHeight)
    ensures ColorsWithin(b, maxColors) ==> ColorsWithin(MakeChange(b, c), maxColors)
  {
    MakeChangeSound(b, c);
    if Bounded(b, maxWidth, maxHeight) && Allowed(b, maxWidth, maxHeight, c) {
      MakeChangeBounded(b, maxWidth, maxHeight, c);
    }
    if ColorsWithin(b, maxColors) {
      MakeChangeColors(b, c, maxColors);
    }
  }

  /** Every change _try_add_cells may make keeps a board sound, inside max_size and within the colours. */
  lemma CandidateKeeps(b: Board, c: Change, maxColors: int, maxWidth: int, maxHeight: int)
    requires Sound(b) && Candidate(b, maxWidth, maxHeight, c)
    ensures Sound(MakeChange(b, c))
    ensures Bounded(b, maxWidth, maxHeight) ==> Bounded(MakeChange(b, c), maxWidth, maxHeight)
    ensures ColorsWithin(b, maxColors) ==> ColorsWithin(MakeChange(b, c), maxColors)
  {
    CellChangesDisjoint(b, maxWidth, maxHeight);
    if Bounded(b, maxWidth, maxHeight) {
      ColChangesAllowed(b, maxWidth, maxHeight);
    }
    ChangeKeeps(b, c, maxColors, maxWidth, maxHeight);
  }

  /** _try_add_cells keeps a board sound, inside max_size and within the colours. */
  lemma TryAddCellsKeeps(b: Board, rng: Random, maxColors: int, maxWidth: int, maxHeight: int)
    requires Sound(b)
    ensures Sound(TryAddCells(b, rng, maxColors, maxWidth, maxHeight).1)
    ensures Bounded(b, maxWidth, maxHeight) ==> Bounded(TryAddCells(b, rng, maxColors, maxWidth, maxHeight).1, maxWidth, maxHeight)
    ensures ColorsWithin(b, maxColors) ==> ColorsWithin(TryAddCells(b, rng, maxColors, maxWidth, maxHeight).1, maxColors)
  {
    var (found, next) := FindCellChange(b, rng, maxColors, maxWidth, maxHeight);
    FindCellChangeFinds(b, rng, maxColors, maxWidth, maxHeight);
    if found.Some? {
      CandidateKeeps(b, found.value, maxColors, maxWidth, maxHeight);
    }
  }

  /** The growing loop keeps a board sound. */
  lemma GrowSound(b: Board, rng: Random, total: int, pieceSize: int, maxColors: int, maxWidth: int, maxHeight: int)
    requires Sound(b)
    ensures var g := Grow(AddCells(maxColors, maxWidth, maxHeight), b, rng, total, pieceSize);
      g.Grown? ==> Sound(g.board)
  {
    var step := AddCells(maxColors, maxWidth, maxHeight);
    var keep := (b1: Board) => Sound(b1);
    forall b1, rng1 | keep(b1) && step(b1, rng1).0 > 0 ensures keep(step(b1, rng1).1) {
      TryAddCellsKeeps(b1, rng1, maxColors, maxWidth, maxHeight);
    }
    GrowKeeps(step, keep, b, rng, total, pieceSize);
  }

  /** The growing loop keeps a board inside max_size. */
  lemma GrowBounded(b: Board, rng: Random, total: int, pieceSize: int, maxColors: int, maxWidth: int, maxHeight: int)
    requires Sound(b) && Bounded(b, maxWidth, maxHeight)
    ensures var g := Grow(AddCells(maxColors, maxWidth, maxHeight), b, rng, total, pieceSize);
      g.Grown? ==> Bounded(g.board, maxWidth, maxHeight)
  {
    var step := AddCells(maxColors, maxWidth, maxHeight);
    var keep := (b1: Board) => Sound(b1) && Bounded(b1, maxWidth, maxHeight);
    forall b1, rng1 | keep(b1) && step(b1, rng1).0 > 0 ensures keep(step(b1, rng1).1) {
      TryAddCellsKeeps(b1, rng1, maxColors, maxWidth, maxHeight);
    }
    GrowKeeps(step, keep, b, rng, total, pieceSize);
  }

  /** The growing loop keeps a board within the colours. */
  lemma GrowColors(b: Board, rng: Random, total: int, pieceSize: int, maxColors: int, maxWidth: int, maxHeight: int)
    requires Sound(b) && ColorsWithin(b, maxColors)
    ensures var g := Grow(AddCells(maxColors, maxWidth, maxHeight), b, rng, total, pieceSize);
      g.Grown? ==> ColorsWithin(g.board, maxColors)
  {
    var step := AddCells(maxColors, maxWidth, maxHeight);
    var keep := (b1: Board) => Sound(b1) && ColorsWithin(b1, maxColors);
    forall b1, rng1 | keep(b1) && step(b1, rng1).0 > 0 ensures keep(step(b1, rng1).1) {
      TryAddCellsKeeps(b1, rng1, maxColors, maxWidth, maxHeight);
    }
    GrowKeeps(step, keep, b, rng, total, pieceSize);
  }

  /** Painting with a colour of 1..max_colors keeps a board within the colours. */
  lemma ColorPieceColors(b: Board, color: int, maxColors: int)
    requires 1 <= color <= maxColors && ColorsWithin(b, maxColors)
    ensures ColorsWithin(ColorPiece(b, color), maxColors)
  {
  }

  /**
    Colouring with a free colour leaves a sound board free of placeholders,
    inside the same bounds and within the colours.
  */
  lemma ColorPieceRandomKeeps(b: Board, rng: Random, maxColors: int, maxWidth: int, maxHeight: int)
    requires Sound(b) && NewPieceColors(b, maxColors) != {}
    ensures Sound(ColorPieceRandom(b, rng, maxColors).0)
    ensures NoPlaceholders(ColorPieceRandom(b, rng, maxColors).0)
    ensures Bounded(b, maxWidth, maxHeight) ==> Bounded(ColorPieceRandom(b, rng, maxColors).0, maxWidth, maxHeight)
    ensures ColorsWithin(b, maxColors) ==> ColorsWithin(ColorPieceRandom(b, rng, maxColors).0, maxColors)
  {
    var color := ColorPieceRandom(b, rng, maxColors).1;
    ColorPieceClears(b, color, maxWidth, maxHeight);
    if ColorsWithin(b, maxColors) {
      ColorPieceColors(b, color, maxColors);
    }
  }

  /**
    _try_add_piece keeps a board sound, inside max_size, within the colours and
    free of placeholders.
  */
  lemma TryAddPieceKeeps(b: Board, rng: Random, pieceSize: int, maxColors: int, maxWidth: int, maxHeight: int)
    requires Sound(b)
    ensures var r := TryAddPiece(b, rng, pieceSize, maxColors, maxWidth, maxHeight).0;
      Sound(r) &&
      (Bounded(b, maxWidth, maxHeight) ==> Bounded(r, maxWidth, maxHeight)) &&
      (ColorsWithin(b, maxColors) ==> ColorsWithin(r, maxColors)) &&
      (NoPlaceholders(b) ==> NoPlaceholders(r))
  {
    var (start, rng1) := GetStartingChange(b, rng, maxColors, maxWidth, maxHeight);
    if start.Some? {
      var c := start.value;
      EnumeratedChangesAllowed(b, maxWidth, maxHeight);
      ChangeKeeps(b, c, maxColors, maxWidth, maxHeight);
      var b1 := MakeChange(b, c);
      GrowSound(b1, rng1, 1, pieceSize, maxColors, maxWidth, maxHeight);
      if Bounded(b, maxWidth, maxHeight) {
        GrowBounded(b1, rng1, 1, pieceSize, maxColors, maxWidth, maxHeight);
      }
      if ColorsWithin(b, maxColors) {
        GrowColors(b1, rng1, 1, pieceSize, maxColors, maxWidth, maxHeight);
      }
      var g := Grow(AddCells(maxColors, maxWidth, maxHeight), b1, rng1, 1, pieceSize);
      if g.Grown? {
        GrowColorable(b1, rng1, 1, pieceSize, maxColors, maxWidth, maxHeight);
        ColorPieceRandomKeeps(g.board, g.rng, maxColors, maxWidth, maxHeight);
      }
    }
  }

  /** The loop of generate_board keeps a board sound, inside max_size, within the colours and free of placeholders. */
  lemma {:induction false} AddPiecesKeeps(b: Board, rng: Random, sizes: seq<int>, maxColors: int, maxWidth: int, maxHeight: int)
    requires Sound(b)
    ensures var r := AddPieces(b, rng, sizes, maxColors, maxWidth, maxHeight).0;
      Sound(r) &&
      (Bounded(b, maxWidth, maxHeight) ==> Bounded(r, maxWidth, maxHeight)) &&
      (ColorsWithin(b, maxColors) ==> ColorsWithin(r, maxColors)) &&
      (NoPlaceholders(b) ==> NoPlaceholders(r))
    decreases |sizes|
  {
    if |sizes| > 0 {
      var t := TryAddPiece(b, rng, sizes[0], maxColors, maxWidth, maxHeight);
      TryAddPieceKeeps(b, rng, sizes[0], maxColors, maxWidth, maxHeight);
      AddPiecesKeeps(t.0, t.1, sizes[1..], maxColors, maxWidth, maxHeight);
    }
  }

  /**
    generate_board yields a sound board without placeholders whose every cell
    holds a colour of 1..max_colors, and which fits max_size.
  */
  lemma GenerateBoardValid(rng: Random, sizes: seq<int>, maxColors: int, maxWidth: int, maxHeight: int)
    ensures Sound(GenerateBoard(rng, sizes, maxColors, maxWidth, maxHeight))
    ensures NoPlaceholders(GenerateBoard(rng, sizes, maxColors, maxWidth, maxHeight))
    ensures forall x, y :: GetValue(GenerateBoard(rng, sizes, maxColors, maxWidth, maxHeight), x, y) != None ==>
      1 <= GetValue(GenerateBoard(rng, sizes, maxColors, maxWidth, maxHeight), x, y).value <= maxColors
    ensures maxWidth >= 0 ==> Bounded(GenerateBoard(rng, sizes, maxColors, maxWidth, maxHeight), maxWidth, maxHeight)
  {
    var r := GenerateBoard(rng, sizes, maxColors, maxWidth, maxHeight);
    assert Width(EmptyBoard) == 0;
    AddPiecesKeeps(EmptyBoard, rng, sizes, maxColors, maxWidth, maxHeight);
    forall x, y | GetValue(r, x, y) != None ensures 1 <= GetValue(r, x, y).value <= maxColors {
      assert !IsPlaceholder(r, x, y);
    }
  }
}
