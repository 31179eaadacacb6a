/**
  The pure bookkeeping of a game (implodegame.py): the flat save encoding of
  a board, the undo and redo stacks, moves, winning and getting stuck.
*/
module Game {
  import opened Optional
  import opened Extrema
  import opened Boards
  import opened Contiguity
  import opened BoardEdits

  /* ---------------------------------------------------------------------- */
  /* Save encoding                                                          */
  /* ---------------------------------------------------------------------- */

  /** An entry of a saved state array: an integer, or Python's None for an empty cell. */
  type Item = Option<int>

  /** How many times range(n) runs from a start index i: n - i, or none. */
  function Span(i: int, n: int): nat {
    if i < n then n - i else 0
  }

  /** How many entries rows y .. h-1 of width w take. */
  function RowsCells(y: int, h: int, w: int): nat {
    Span(y, h) * Span(0, w)
  }

  /** Rows y .. h-1 take one row and then rows y+1 .. h-1. */
  lemma RowsCellsStep(y: int, h: int, w: int)
    ensures y >= h ==> RowsCells(y, h, w) == 0
    ensures y < h ==> RowsCells(y, h, w) == Span(0, w) + RowsCells(y + 1, h, w)
  {
    if y < h {
      assert Span(y, h) == Span(y + 1, h) + 1;
    }
  }

  /** The cells of row y, x = 0 .. w-1. */
  function Row(b: Board, w: int, y: int): (r: seq<Item>)
    ensures |r| == Span(0, w)
  {
    seq(Span(0, w), x requires 0 <= x < Span(0, w) => GetValue(b, x, y))
  }

  /** Rows y .. h-1 of the encoding, bottom row first. */
  function Rows(b: Board, w: int, y: int, h: int): (r: seq<Item>)
    ensures |r| == RowsCells(y, h, w)
    decreases h - y
  {
    RowsCellsStep(y, h, w);
    if y >= h then [] else Row(b, w, y) + Rows(b, w, y + 1, h)
  }

  /** For natural bounds the rows take width times height entries. */
  lemma NaturalCells(w: nat, h: nat)
    ensures RowsCells(0, h, w) == w * h
  {
    assert Span(0, h) == h && Span(0, w) == w;
  }

  /** The two entries of a move appended to a state array. */
  function MoveItems(move: Cell): seq<Item> {
    [Some(move.0), Some(move.1)]
  }

  /** encode_board: [width, height], the cells row by row from the bottom, then the move if there is one. */
  function Encode(b: Board, move: Option<Cell>): (r: seq<Item>)
    ensures |r| == 2 + Width(b) * Height(b) + (if move.Some? then 2 else 0)
    ensures r[0] == Some(Width(b)) && r[1] == Some(Height(b))
  {
    var w, h := Width(b), Height(b);
    var cells := Rows(b, w, 0, h);
    NaturalCells(w, h);
    var tail := if move.Some? then MoveItems(move.value) else [];
    var r := [Some(w), Some(h)] + cells + tail;
    assert |r| == 2 + w * h + |tail|;
    r
  }

  /** A decoded board and, when exactly two entries are left after the cells, those two. */
  datatype Decoded = Decoded(board: Board, move: Option<(Item, Item)>)

  /** The inner loop of decode_board: cells x .. w-1 of row y, each popped from the front of data. */
  function FillRow(b: Board, data: seq<Item>, x: int, y: int, w: int): (r: Option<(Board, seq<Item>)>)
    requires y >= 0
    ensures r.Some? <==> |data| >= Span(x, w)
    ensures r.Some? ==> r.value.1 == data[Span(x, w)..]
    ensures r.Some? ==> forall x', y' :: (GetValue(r.value.0, x', y') ==
      (if y' == y && x <= x' < w then data[x' - x] else GetValue(b, x', y')))
    ensures r.Some? && WellFormed(b) ==> WellFormed(r.value.0)
    decreases w - x
  {
    if x >= w then Some((b, data))
    else if |data| == 0 then None
    else
      SetValueWellFormedIf(b, x, y, data[0]);
      FillRow(SetValue(b, x, y, data[0]), data[1..], x + 1, y, w)
  }

  /** SetValue keeps a well-formed board well formed. */
  lemma SetValueWellFormedIf(b: Board, x: int, y: int, v: Option<int>)
    requires y >= 0
    ensures WellFormed(b) ==> WellFormed(SetValue(b, x, y, v))
  {
    if WellFormed(b) {
      SetValueWellFormed(b, x, y, v);
    }
  }

  /** The outer loop of decode_board: rows y .. h-1. */
  function FillRows(b: Board, data: seq<Item>, y: int, w: int, h: int): (r: Option<(Board, seq<Item>)>)
    requires y >= 0
    ensures r.Some? <==> |data| >= RowsCells(y, h, w)
    ensures r.Some? ==> r.value.1 == data[RowsCells(y, h, w)..]
    ensures r.Some? ==> forall x', y' :: GetValue(r.value.0, x', y') != None ==>
      GetValue(b, x', y') != None || (0 <= x' < w && y <= y' < h)
    ensures r.Some? && WellFormed(b) ==> WellFormed(r.value.0)
    decreases h - y
  {
    RowsCellsStep(y, h, w);
    if y >= h then Some((b, data))
    else
      match FillRow(b, data, 0, y, w)
      case None => None
      case Some(next) =>
        var r := FillRows(next.0, next.1, y + 1, w, h);
        assert r.Some? ==> r.value.1 == data[Span(0, w)..][RowsCells(y + 1, h, w)..];
        r
  }

  /** Filling rows y .. h-1 from their own encoding copies those rows of the source board and leaves the rest. */
  lemma {:induction false} FillRowsRows(src: Board, b: Board, w: int, y: int, h: int, rest: seq<Item>)
    requires y >= 0
    ensures FillRows(b, Rows(src, w, y, h) + rest, y, w, h).Some?
    ensures FillRows(b, Rows(src, w, y, h) + rest, y, w, h).value.1 == rest
    ensures forall x', y' :: (GetValue(FillRows(b, Rows(src, w, y, h) + rest, y, w, h).value.0, x', y') ==
      (if 0 <= x' < w && y <= y' < h then GetValue(src, x', y') else GetValue(b, x', y')))
    decreases h - y
  {
    if y < h {
      var more := Rows(src, w, y + 1, h) + rest;
      var data := Rows(src, w, y, h) + rest;
      assert data == Row(src, w, y) + more;
      var next := FillRow(b, data, 0, y, w);
      assert next.Some?;
      assert next.value.1 == more;
      FillRowsRows(src, next.value.0, w, y + 1, h, rest);
      forall x', y' ensures GetValue(next.value.0, x', y') ==
        (if y' == y && 0 <= x' < w then GetValue(src, x', y') else GetValue(b, x', y'))
      {
        if y' == y && 0 <= x' < w {
          assert data[x'] == Row(src, w, y)[x'];
        }
      }
    }
  }

  /** How many entries decode_board pops: width times height when both are positive. */
  function CellCount(w: int, h: int): nat {
    if w > 0 && h > 0 then w * h else 0
  }

  /**
    The width decode_board reads.  range(w) is only evaluated inside the row
    loop, so with no rows a missing width is never read; 0 stands for it.
  */
  function WidthRead(w: Item): int {
    if w.Some? then w.value else 0
  }

  /**
    decode_board: None where Python raises (fewer than two entries, a missing
    height, a missing width when there is a row to fill, or too few cell
    entries to pop); otherwise the board and the two entries left after the
    cells, if exactly two are left.
  */
  function Decode(state: seq<Item>): (r: Option<Decoded>)
    ensures r.Some? <==> (|state| >= 2 && state[1].Some? &&
      (state[0].Some? || state[1].value <= 0) &&
      |state| >= 2 + CellCount(WidthRead(state[0]), state[1].value))
    ensures r.Some? ==> WellFormed(r.value.board)
    ensures r.Some? ==> forall x, y :: GetValue(r.value.board, x, y) != None ==>
      0 <= x < WidthRead(state[0]) && 0 <= y < state[1].value
    ensures r.Some? ==> (r.value.move.Some? <==>
      |state| == 4 + CellCount(WidthRead(state[0]), state[1].value))
  {
    if |state| < 2 || state[1].None? || (state[0].None? && state[1].value > 0) then None
    else
      var w, h := WidthRead(state[0]), state[1].value;
      assert CellCount(w, h) == RowsCells(0, h, w);
      match FillRows(EmptyBoard, state[2..], 0, w, h)
      case None => None
      case Some(filled) =>
        var rest := filled.1;
        Some(Decoded(filled.0, if |rest| == 2 then Some((rest[0], rest[1])) else None))
  }

  /**
    Decoding an encoded board gives the board back, with the move as two
    entries, whenever the board's columns lie in 0 .. width-1.
  */
  lemma DecodeEncode(b: Board, move: Option<Cell>)
    requires WellFormed(b) && forall x :: x in b ==> x >= 0
    ensures Decode(Encode(b, move)).Some?
    ensures Decode(Encode(b, move)).value.board == b
    ensures Decode(Encode(b, move)).value.move ==
      if move.Some? then Some((Some(move.value.0), Some(move.value.1))) else None
  {
    var w, h := Width(b), Height(b);
    var tail := if move.Some? then MoveItems(move.value) else [];
    var state := Encode(b, move);
    EncodeParts(b, move);
    FillRowsRows(b, EmptyBoard, w, 0, h, tail);
    var f := FillRows(EmptyBoard, state[2..], 0, w, h);
    DecodeFilled(state, w, h);
    FilledIsSource(b, f.value.0);
  }

  /** The encoding is the header, the rows, then the move's two entries if there is a move. */
  lemma EncodeParts(b: Board, move: Option<Cell>)
    ensures var state := Encode(b, move);
      && |state| >= 2 && state[0] == Some(Width(b)) && state[1] == Some(Height(b))
      && state[2..] == Rows(b, Width(b), 0, Height(b)) + (if move.Some? then MoveItems(move.value) else [])
  {
  }

  /** One more row of width w takes w more entries. */
  lemma MulSucc(k: int, w: int)
    ensures (k + 1) * w == w + k * w
  {
  }

  /** Cell (x, y0 + k) of rows y0 .. h-1 sits at k * w + x: rows from the bottom, x fastest. */
  lemma {:induction false} RowsAt(b: Board, w: nat, y0: int, h: int, x: int, k: nat)
    requires 0 <= x < w && y0 + k < h
    ensures k * w + x < |Rows(b, w, y0, h)|
    ensures Rows(b, w, y0, h)[k * w + x] == GetValue(b, x, y0 + k)
    decreases k
  {
    RowsCellsStep(y0, h, w);
    var row := Row(b, w, y0);
    var rest := Rows(b, w, y0 + 1, h);
    assert Rows(b, w, y0, h) == row + rest;
    assert |row| == w;
    if k > 0 {
      RowsAt(b, w, y0 + 1, h, x, k - 1);
      MulSucc(k - 1, w);
      assert k * w + x == w + ((k - 1) * w + x);
      assert (row + rest)[w + ((k - 1) * w + x)] == rest[(k - 1) * w + x];
    } else {
      assert k * w + x == x;
    }
  }

  /** Where encode_board puts cell (x, y) of a board of width w: after the header, row by row, x fastest. */
  function CellIndex(w: int, x: int, y: int): int {
    2 + y * w + x
  }

  /** encode_board writes cell (x, y) at 2 + y * width + x. */
  lemma EncodeCellAt(b: Board, move: Option<Cell>, x: int, y: int)
    requires 0 <= x < Width(b) && 0 <= y < Height(b)
    ensures 0 <= CellIndex(Width(b), x, y) < |Encode(b, move)|
    ensures Encode(b, move)[CellIndex(Width(b), x, y)] == GetValue(b, x, y)
  {
    EncodeParts(b, move);
    RowsAfterHeader(b, Encode(b, move), if move.Some? then MoveItems(move.value) else [], Width(b), Height(b), x, y);
  }

  /** Cell (x, y) of the rows that follow the header of r sits at CellIndex(w, x, y) of r. */
  lemma RowsAfterHeader(b: Board, r: seq<Item>, tail: seq<Item>, w: nat, h: int, x: int, y: int)
    requires |r| >= 2 && r[2..] == Rows(b, w, 0, h) + tail
    requires 0 <= x < w && 0 <= y < h
    ensures 0 <= CellIndex(w, x, y) < |r| && r[CellIndex(w, x, y)] == GetValue(b, x, y)
  {
    RowsAt(b, w, 0, h, x, y);
    AfterHeader(r, Rows(b, w, 0, h), tail, w, x, y, GetValue(b, x, y));
  }

  /** Entry y * w + x of the part after the two-entry header is entry CellIndex(w, x, y) of the whole. */
  lemma AfterHeader(r: seq<Item>, cells: seq<Item>, tail: seq<Item>, w: int, x: int, y: int, v: Item)
    requires |r| >= 2 && r[2..] == cells + tail
    requires 0 <= y * w + x < |cells| && cells[y * w + x] == v
    ensures 0 <= CellIndex(w, x, y) < |r| && r[CellIndex(w, x, y)] == v
  {
    var i := y * w + x;
    assert r[2 + i] == r[2..][i];
  }

  /** encode_board ends with the move's two entries. */
  lemma EncodeMove(b: Board, move: Cell)
    ensures Encode(b, Some(move))[|Encode(b, Some(move))| - 2..] == MoveItems(move)
  {
    var r := Encode(b, Some(move));
    var front := [Some(Width(b)), Some(Height(b))] + Rows(b, Width(b), 0, Height(b));
    assert r == front + MoveItems(move);
    assert r[|front|..] == MoveItems(move);
  }

  /** encode_board writes every cell (x, y) at 2 + y * width + x and ends with the move. */
  lemma EncodeCells(b: Board, move: Option<Cell>)
    ensures forall x, y :: 0 <= x < Width(b) && 0 <= y < Height(b) ==>
      0 <= CellIndex(Width(b), x, y) < |Encode(b, move)| &&
      Encode(b, move)[CellIndex(Width(b), x, y)] == GetValue(b, x, y)
    ensures move.Some? ==> Encode(b, move)[|Encode(b, move)| - 2..] == MoveItems(move.value)
  {
    forall x, y | 0 <= x < Width(b) && 0 <= y < Height(b)
      ensures 0 <= CellIndex(Width(b), x, y) < |Encode(b, move)|
      ensures Encode(b, move)[CellIndex(Width(b), x, y)] == GetValue(b, x, y)
    {
      EncodeCellAt(b, move, x, y);
    }
    if move.Some? {
      EncodeMove(b, move.value);
    }
  }

  /** With no rows to fill the width is never read: [None, 0] and [None, -1, 5, 6] decode to an empty board. */
  lemma DecodeNoRows()
    ensures Decode([None, Some(0)]) == Some(Decoded(EmptyBoard, None))
    ensures Decode([None, Some(-1), Some(5), Some(6)]) == Some(Decoded(EmptyBoard, Some((Some(5), Some(6)))))
  {
    assert [None, Some(-1), Some(5), Some(6)][2..] == [Some(5), Some(6)];
  }

  /** When the rows fill, decode_board returns what they filled and the entries left after them. */
  lemma DecodeFilled(state: seq<Item>, w: int, h: int)
    requires |state| >= 2 && state[0] == Some(w) && state[1] == Some(h)
    ensures FillRows(EmptyBoard, state[2..], 0, w, h).Some? ==>
      var f := FillRows(EmptyBoard, state[2..], 0, w, h).value;
      Decode(state) == Some(Decoded(f.0, if |f.1| == 2 then Some((f.1[0], f.1[1])) else None))
  {
  }

  /** A well-formed board that agrees with b inside b's width and height and is empty outside is b. */
  lemma FilledIsSource(b: Board, r: Board)
    requires WellFormed(b) && WellFormed(r) && forall x :: x in b ==> x >= 0
    requires forall x, y :: (GetValue(r, x, y) ==
      (if 0 <= x < Width(b) && 0 <= y < Height(b) then GetValue(b, x, y) else None))
    ensures r == b
  {
    forall x, y ensures GetValue(r, x, y) == GetValue(b, x, y) {
      if GetValue(b, x, y) != None {
        assert x in b;
      }
    }
    Extensionality(r, b);
  }

  /* ---------------------------------------------------------------------- */
  /* Game state                                                             */
  /* ---------------------------------------------------------------------- */

  /** An undo or redo stack entry: a board and the move made from it. */
  datatype Entry = Entry(board: Board, move: Cell)

  /**
    The game's state: the board, the undo and redo stacks (last element on
    top), whether the win is drawn, and whether the stuck dialog is pending.
  */
  datatype State = State(board: Board, undo: seq<Entry>, redo: seq<Entry>, won: bool, stuck: bool)

  /** _hide_stuck. */
  function HideStuck(s: State): (r: State)
    ensures r.board == s.board && r.undo == s.undo && r.redo == s.redo && r.won == s.won
    ensures !r.stuck
  {
    s.(stuck := false)
  }

  /** The lose state: a non-empty board with no group of three or more. */
  predicate LoseState(b: Board) {
    !IsEmpty(b) && |GetAllContiguous(b)| == 0
  }

  /** The board is lost exactly when it is non-empty and every cell's group is smaller than three. */
  lemma LoseStateMeansNoMove(b: Board)
    ensures LoseState(b) <==>
      !IsEmpty(b) && forall x, y :: GetValue(b, x, y) != None ==> |GetContiguous(b, x, y)| < 3
  {
    var all := GetAllContiguous(b);
    if |all| > 0 {
      assert |all[0]| >= 3;
      var m: Cell :| m in all[0];
      assert GetContiguous(b, m.0, m.1) == all[0];
    }
  }

  /** _check_for_lose_state: schedules the stuck dialog on a lost board. */
  function CheckForLoseState(s: State): (r: State)
    ensures r.board == s.board && r.undo == s.undo && r.redo == s.redo && r.won == s.won
    ensures r.stuck == (s.stuck || LoseState(s.board))
  {
    if LoseState(s.board) then s.(stuck := true) else s
  }

  /** The moves of a stack, bottom to top. */
  function MovesOf(stack: seq<Entry>): (r: seq<Cell>)
    ensures |r| == |stack|
    ensures forall i :: 0 <= i < |r| ==> r[i] == stack[i].move
  {
    seq(|stack|, i requires 0 <= i < |stack| => stack[i].move)
  }

  /** _get_moves_so_far: the moves of the undo stack. */
  function MovesSoFar(s: State): seq<Cell> {
    MovesOf(s.undo)
  }

  /** _undo_last_move: pops the undo stack onto the redo stack and restores its board. */
  function UndoLastMove(s: State): (r: State)
    requires |s.undo| > 0
    ensures r.board == s.undo[|s.undo| - 1].board
    ensures |r.undo| == |s.undo| - 1 && |r.redo| == |s.redo| + 1
    ensures r.undo + [Entry(s.undo[|s.undo| - 1].board, r.redo[|r.redo| - 1].move)] == s.undo
    ensures r.redo[..|s.redo|] == s.redo && r.redo[|s.redo|].board == s.board
    ensures !r.won && r.stuck == s.stuck
  {
    var top := s.undo[|s.undo| - 1];
    State(top.board, s.undo[..|s.undo| - 1], s.redo + [Entry(s.board, top.move)], false, s.stuck)
  }

  /** undo: nothing but hiding the stuck dialog on an empty undo stack. */
  function Undo(s: State): (r: State)
    ensures |s.undo| == 0 ==> r == HideStuck(s)
    ensures |s.undo| > 0 ==> r == UndoLastMove(HideStuck(s))
  {
    var t := HideStuck(s);
    if |t.undo| == 0 then t else UndoLastMove(t)
  }

  /** redo: pops the redo stack onto the undo stack, restores its board and checks for a loss. */
  function Redo(s: State): (r: State)
    ensures |s.redo| == 0 ==> r == HideStuck(s)
    ensures |s.redo| > 0 ==> (|r.redo| == |s.redo| - 1 && |r.undo| == |s.undo| + 1 &&
      r.board == s.redo[|s.redo| - 1].board && r.undo[..|s.undo|] == s.undo &&
      r.undo[|s.undo|] == Entry(s.board, s.redo[|s.redo| - 1].move) &&
      r.redo == s.redo[..|s.redo| - 1] && r.won == s.won && r.stuck == LoseState(r.board))
  {
    var t := HideStuck(s);
    if |t.redo| == 0 then t
    else
      var top := t.redo[|t.redo| - 1];
      CheckForLoseState(State(top.board, t.undo + [Entry(t.board, top.move)], t.redo[..|t.redo| - 1], t.won, false))
  }

  /** Redoing an undone move restores the board and both stacks. */
  lemma RedoUndoesUndo(s: State)
    requires |s.undo| > 0
    ensures Redo(Undo(s)).board == s.board
    ensures Redo(Undo(s)).undo == s.undo && Redo(Undo(s)).redo == s.redo
  {
    var u := Undo(s);
    assert u.redo[|u.redo| - 1].move == s.undo[|s.undo| - 1].move;
    assert u.undo + [s.undo[|s.undo| - 1]] == s.undo;
    assert u.redo[..|u.redo| - 1] == s.redo;
  }

  /** Undoing a redone move restores the board and both stacks. */
  lemma UndoUndoesRedo(s: State)
    requires |s.redo| > 0
    ensures Undo(Redo(s)).board == s.board
    ensures Undo(Redo(s)).undo == s.undo && Undo(Redo(s)).redo == s.redo
  {
    var r := Redo(s);
    assert r.undo[..|r.undo| - 1] == s.undo;
    assert r.redo + [s.redo[|s.redo| - 1]] == s.redo;
  }

  /** _init_win: draws the win and clears the undo stack. */
  function InitWin(s: State): (r: State)
    ensures r.won && r.undo == [] && r.board == s.board && r.redo == s.redo
  {
    s.(won := true, undo := [])
  }

  /** The board a move leaves: the group cleared, the columns dropped, the empty columns removed. */
  function AfterMove(b: Board, group: set<Cell>): Board
    requires forall p :: p in group ==> p.1 >= 0
  {
    RemoveEmptyColumns(DropPieces(ClearPieces(b, group)))
  }

  /** A move keeps a board well formed and numbers its columns 0..n-1, so it can be saved and restored. */
  lemma AfterMoveWellFormed(b: Board, group: set<Cell>)
    requires WellFormed(b) && forall p :: p in group ==> p.1 >= 0
    ensures WellFormed(AfterMove(b, group))
    ensures forall x :: x in AfterMove(b, group) ==> x >= 0
  {
    ClearPiecesWellFormed(b, group);
    RemoveEmptyColumnsWellFormed(DropPieces(ClearPieces(b, group)));
  }

  /**
    _remove_contiguous (the path without animation): empties the redo stack,
    records the old board with the group's least cell as the move, makes the
    move, and then either wins on an empty board or checks for a loss.
  */
  function RemoveContiguous(s: State, group: set<Cell>): (r: State)
    requires group != {} && forall p :: p in group ==> p.1 >= 0
    ensures r.redo == []
    ensures r.board == AfterMove(s.board, group)
    ensures IsEmpty(r.board) ==> r.won && r.undo == []
    ensures !IsEmpty(r.board) ==> (|r.undo| == |s.undo| + 1 && r.undo[..|s.undo|] == s.undo &&
      r.undo[|s.undo|].board == s.board && r.undo[|s.undo|].move in group &&
      (forall p :: p in group ==> CellLe(r.undo[|s.undo|].move, p)) &&
      r.won == s.won && r.stuck == (s.stuck || LoseState(r.board)))
  {
    Finish(RecordMove(s, group))
  }

  /** The part of _remove_contiguous before the animation: the move is pushed and made. */
  function RecordMove(s: State, group: set<Cell>): (r: State)
    requires group != {} && forall p :: p in group ==> p.1 >= 0
    ensures r.undo == s.undo + [Entry(s.board, LeastCell(group))]
  {
    State(AfterMove(s.board, group), s.undo + [Entry(s.board, LeastCell(group))], [], s.won, s.stuck)
  }

  /** The end of a move: a win on an empty board, otherwise a check for a loss. */
  function Finish(t: State): (r: State)
    ensures r.board == t.board && r.redo == t.redo
    ensures IsEmpty(t.board) ==> r.won && r.undo == []
    ensures !IsEmpty(t.board) ==> r.undo == t.undo && r.won == t.won && r.stuck == (t.stuck || LoseState(t.board))
  {
    if IsEmpty(t.board) then InitWin(t) else CheckForLoseState(t)
  }

  /** Undoing a move that did not win gives back the board and the undo stack from before it. */
  lemma UndoUndoesMove(s: State, group: set<Cell>)
    requires group != {} && forall p :: p in group ==> p.1 >= 0
    requires !IsEmpty(AfterMove(s.board, group))
    ensures Undo(RemoveContiguous(s, group)).board == s.board
    ensures Undo(RemoveContiguous(s, group)).undo == s.undo
    ensures MovesSoFar(RemoveContiguous(s, group)) == MovesSoFar(s) + [LeastCell(group)]
  {
    var r := RemoveContiguous(s, group);
    var u := s.undo + [Entry(s.board, LeastCell(group))];
    assert r.undo == u;
    assert u[..|u| - 1] == s.undo;
    MovesSoFarPush(s.undo, r.undo, Entry(s.board, LeastCell(group)));
  }

  /** Pushing an entry adds its move to the moves so far. */
  lemma MovesSoFarPush(before: seq<Entry>, after: seq<Entry>, e: Entry)
    requires after == before + [e]
    ensures MovesOf(after) == MovesOf(before) + [e.move]
  {
    var m, m' := MovesOf(after), MovesOf(before) + [e.move];
    assert |m| == |m'|;
    forall i | 0 <= i < |m| ensures m[i] == m'[i] {
      assert m[i] == after[i].move;
    }
  }

  /**
    piece_selected: hides the stuck dialog and removes the group of the cell
    only when it has three or more cells.
  */
  function PieceSelected(s: State, x: int, y: int): (r: State)
    ensures |GetContiguous(s.board, x, y)| < 3 ==> r == HideStuck(s)
    ensures |GetContiguous(s.board, x, y)| >= 3 ==>
      (r.board == AfterMove(s.board, GetContiguous(s.board, x, y)) && r.redo == [] &&
       r.stuck == LoseState(r.board))
  {
    var t := HideStuck(s);
    var group := GetContiguous(t.board, x, y);
    if |group| >= 3 then RemoveContiguous(t, group) else t
  }

  /** _reset_board, given the new board: both stacks empty and no win drawn. */
  function ResetBoard(s: State, b: Board): (r: State)
    ensures r.board == b && r.undo == [] && r.redo == [] && !r.won
  {
    s.(board := b, undo := [], redo := [], won := false)
  }

  /* ---------------------------------------------------------------------- */
  /* Undoing to a solvable state                                            */
  /* ---------------------------------------------------------------------- */

  /** moves == winning_moves[:len(moves)], with Python's clamped slice. */
  predicate PrefixOfWinning(moves: seq<Cell>, winning: seq<Cell>) {
    moves == winning[..Min(|moves|, |winning|)]
  }

  /** The slice test holds exactly when the moves are a prefix of the winning moves. */
  lemma PrefixOfWinningIsPrefix(moves: seq<Cell>, winning: seq<Cell>)
    ensures PrefixOfWinning(moves, winning) <==> moves <= winning
  {
    if |moves| > |winning| {
      assert |winning[..Min(|moves|, |winning|)]| < |moves|;
    }
  }

  /** The board current once the undo stack is popped down to k entries: entry k's board, or the current board when nothing is popped. */
  function BoardAfterUndo(s: State, k: nat): Board
    requires k <= |s.undo|
  {
    if k == |s.undo| then s.board else s.undo[k].board
  }

  /** The redo entry the i-th of a run of undos pushes: the board current before it, and the move of the entry it pops. */
  function UndoneEntry(s: State, i: nat): Entry
    requires i < |s.undo|
  {
    Entry(BoardAfterUndo(s, |s.undo| - i), s.undo[|s.undo| - 1 - i].move)
  }

  /**
    r is what a run of _undo_last_move calls makes of s: the undo stack popped
    down to |r.undo| entries, the board of the last popped entry current, and
    one redo entry pushed per undo, in order.
  */
  predicate UndoneTo(s: State, r: State) {
    && |r.undo| <= |s.undo| && r.undo == s.undo[..|r.undo|]
    && |r.redo| == |s.redo| + (|s.undo| - |r.undo|) && r.redo[..|s.redo|] == s.redo
    && r.board == BoardAfterUndo(s, |r.undo|)
    && forall i :: 0 <= i < |s.undo| - |r.undo| ==> r.redo[|s.redo| + i] == UndoneEntry(s, i)
  }

  /** A run of undos after one more undo is a run of undos from the state before it. */
  lemma UndoneToStep(s: State, t: State, r: State)
    requires |s.undo| > 0 && t == UndoLastMove(s) && UndoneTo(t, r)
    ensures UndoneTo(s, r)
  {
    var n := |s.undo|;
    assert t.undo == s.undo[..n - 1];
    assert r.redo[..|s.redo|] == r.redo[..|t.redo|][..|s.redo|];
    if |r.undo| < n - 1 {
      assert r.board == t.undo[|r.undo|].board == s.undo[|r.undo|].board;
    }
    forall i | 0 <= i < n - |r.undo| ensures r.redo[|s.redo| + i] == UndoneEntry(s, i) {
      if i == 0 {
        assert r.redo[|s.redo|] == r.redo[..|t.redo|][|s.redo|] == t.redo[|s.redo|];
      } else {
        assert r.redo[|s.redo| + i] == r.redo[|t.redo| + (i - 1)] == UndoneEntry(t, i - 1);
        assert BoardAfterUndo(t, |t.undo| - (i - 1)) == BoardAfterUndo(s, n - i);
      }
    }
  }

  /**
    The loop that ends undo_to_solvable_state: undoes moves until the moves so
    far are a prefix of the winning moves.  It stops at the first, i.e. longest,
    such stack prefix, and every undone entry lands on the redo stack.
  */
  function UndoUntilPrefix(s: State, winning: seq<Cell>): (r: State)
    ensures PrefixOfWinning(MovesSoFar(r), winning)
    ensures |r.undo| <= |s.undo| && r.undo == s.undo[..|r.undo|]
    ensures forall k :: |r.undo| < k <= |s.undo| ==> !PrefixOfWinning(MovesSoFar(s)[..k], winning)
    ensures |r.undo| + |r.redo| == |s.undo| + |s.redo| && r.redo[..|s.redo|] == s.redo
    ensures UndoneTo(s, r)
    ensures r.stuck == s.stuck
    decreases |s.undo|
  {
    if PrefixOfWinning(MovesSoFar(s), winning) then
      assert MovesSoFar(s)[..|s.undo|] == MovesSoFar(s);
      assert s.undo[..|s.undo|] == s.undo && s.redo[..|s.redo|] == s.redo;
      s
    else
      var t := UndoLastMove(s);
      var r := UndoUntilPrefix(t, winning);
      UndoUntilPrefixStep(s, t, r, winning);
      UndoneToStep(s, t, r);
      r
  }

  /** One undo in front of the loop carries the loop's guarantees back to the state before it. */
  lemma UndoUntilPrefixStep(s: State, t: State, r: State, winning: seq<Cell>)
    requires |s.undo| > 0 && !PrefixOfWinning(MovesSoFar(s), winning) && t == UndoLastMove(s)
    requires |r.undo| <= |t.undo| && r.undo == t.undo[..|r.undo|]
    requires forall k :: |r.undo| < k <= |t.undo| ==> !PrefixOfWinning(MovesSoFar(t)[..k], winning)
    requires |r.undo| + |r.redo| == |t.undo| + |t.redo| && r.redo[..|t.redo|] == t.redo
    ensures r.undo == s.undo[..|r.undo|]
    ensures forall k :: |r.undo| < k <= |s.undo| ==> !PrefixOfWinning(MovesSoFar(s)[..k], winning)
    ensures r.redo[..|s.redo|] == s.redo
  {
    assert t.undo == s.undo[..|t.undo|];
    MovesOfPrefix(s.undo, |t.undo|);
    forall k | |r.undo| < k <= |s.undo| ensures !PrefixOfWinning(MovesSoFar(s)[..k], winning) {
      if k == |s.undo| {
        assert MovesSoFar(s)[..k] == MovesSoFar(s);
      } else {
        assert MovesSoFar(t)[..k] == MovesSoFar(s)[..k];
      }
    }
    assert r.redo[..|s.redo|] == r.redo[..|t.redo|][..|s.redo|];
  }

  /** The moves of a bottom part of a stack are the bottom part of its moves. */
  lemma MovesOfPrefix(stack: seq<Entry>, k: nat)
    requires k <= |stack|
    ensures MovesOf(stack[..k]) == MovesOf(stack)[..k]
    ensures forall j :: 0 <= j <= k ==> MovesOf(stack[..k])[..j] == MovesOf(stack)[..j]
  {
    assert forall i :: 0 <= i < k ==> MovesOf(stack[..k])[i] == MovesOf(stack)[..k][i];
  }

  /**
    undo_to_solvable_state once its animation has ended.  The timer undoes a
    move before it first compares, while the end of the animation compares
    first; timerUndid says whether the timer undid a move before the end.
    Either way the moves left are a prefix of the winning moves; without the
    timer it is the longest prefix of the stack whose moves are one.
  */
  function UndoToSolvableState(s: State, winning: seq<Cell>, timerUndid: bool): (r: State)
    ensures MovesSoFar(r) <= winning
    ensures r.undo <= s.undo && !r.stuck
    ensures |r.undo| + |r.redo| == |s.undo| + |s.redo|
    ensures timerUndid && |s.undo| > 0 ==> |r.undo| < |s.undo|
    ensures !timerUndid ==> forall k :: |r.undo| < k <= |s.undo| ==> !(MovesSoFar(s)[..k] <= winning)
    ensures timerUndid ==> forall k :: |r.undo| < k < |s.undo| ==> !(MovesSoFar(s)[..k] <= winning)
    ensures UndoneTo(s, r)
  {
    var t := HideStuck(s);
    var r := if |t.undo| == 0 then (
        assert t.undo[..0] == t.undo && t.redo[..|t.redo|] == t.redo; t
      ) else if timerUndid then (
        TimerThenLoop(t, winning);
        UndoUntilPrefix(UndoLastMove(t), winning)
      ) else (
        LoopOnly(t, winning);
        UndoUntilPrefix(t, winning)
      );
    assert MovesSoFar(t) == MovesSoFar(s);
    HideStuckUndoneTo(s, r);
    r
  }

  /** Without the timer: the loop keeps the longest stack prefix whose moves prefix the winning moves. */
  lemma LoopOnly(t: State, winning: seq<Cell>)
    ensures var r := UndoUntilPrefix(t, winning);
      && MovesSoFar(r) <= winning
      && forall k :: |r.undo| < k <= |t.undo| ==> !(MovesSoFar(t)[..k] <= winning)
  {
    var r := UndoUntilPrefix(t, winning);
    PrefixOfWinningIsPrefix(MovesSoFar(r), winning);
    forall k | |r.undo| < k <= |t.undo| ensures !(MovesSoFar(t)[..k] <= winning) {
      PrefixOfWinningIsPrefix(MovesSoFar(t)[..k], winning);
    }
  }

  /** With the timer's undo first: the loop keeps the longest such prefix shorter than the stack. */
  lemma TimerThenLoop(t: State, winning: seq<Cell>)
    requires |t.undo| > 0
    ensures var r := UndoUntilPrefix(UndoLastMove(t), winning);
      && MovesSoFar(r) <= winning && UndoneTo(t, r) && |r.undo| < |t.undo|
      && forall k :: |r.undo| < k < |t.undo| ==> !(MovesSoFar(t)[..k] <= winning)
  {
    var u := UndoLastMove(t);
    var r := UndoUntilPrefix(u, winning);
    UndoneToStep(t, u, r);
    PrefixOfWinningIsPrefix(MovesSoFar(r), winning);
    MovesOfPrefix(t.undo, |u.undo|);
    assert u.undo == t.undo[..|u.undo|];
    forall k | |r.undo| < k < |t.undo| ensures !(MovesSoFar(t)[..k] <= winning) {
      assert MovesSoFar(u)[..k] == MovesSoFar(t)[..k];
      PrefixOfWinningIsPrefix(MovesSoFar(t)[..k], winning);
    }
  }

  /** Hiding the stuck dialog first changes nothing about a run of undos. */
  lemma HideStuckUndoneTo(s: State, r: State)
    requires UndoneTo(HideStuck(s), r)
    ensures UndoneTo(s, r)
  {
    var t := HideStuck(s);
    forall i | 0 <= i < |s.undo| ensures UndoneEntry(t, i) == UndoneEntry(s, i) {
      assert BoardAfterUndo(t, |s.undo| - i) == BoardAfterUndo(s, |s.undo| - i);
    }
  }
}
