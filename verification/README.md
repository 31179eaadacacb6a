# Implode: board, board generator and game bookkeeping in Dafny

Implode is a tile-matching puzzle. The player clicks a group of three or more
4-connected cells of the same colour. The group is removed, the cells above it
fall, and empty columns close up. The game is won when the board is empty and
lost when no group of three is left.

This project models the pure logic of the game in three layers and proves
properties of each.

- **The sparse board** (`board.dfy`, `extrema.dfy`, `contiguity.dfy`,
  `board_edits.dfy`). A board is a map from column index to a column. A column
  is a sequence of optional colours, with y = 0 at the bottom. The model covers:
  - reads that are safe out of range;
  - writes that pad a column or trim its top;
  - the bounding box;
  - the flood fill that finds a group, and the scan that collects every group;
  - gravity and its preview map;
  - column compaction and its preview map;
  - column insertion and deletion.

  `WellFormed` is the representation invariant: no stored column is empty or
  ends in an empty cell.
- **The board generator** (`changes.dfy`, `make_change.dfy`, `coloring.dfy`,
  `generator.dfy`). The generator grows one piece at a time out of placeholder
  cells (value -1), then paints the piece a colour that no neighbouring cell
  has. The model covers:
  - the three ways it enumerates candidate edits;
  - the two kinds of edit: insert a column, or insert a cell and re-normalise
    the column;
  - the colourability test and the colouring;
  - the random-driven loops. Each random draw is an explicit input.
- **Game bookkeeping** (`game.dfy`). This covers:
  - the flat save format of a board and its decoding;
  - the undo/redo stacks;
  - the move record, which is the least cell of the removed group;
  - the lose test;
  - the loop that undoes moves until the history is a prefix of the known
    winning moves.

Everything is a pure function over immutable values. `Optional.Option` stands
in for Python's `None`. Where Python would raise (an unparsable save array),
the model returns `None`.

## Model

| member | source | states |
|---|---|---|
| Boards.GetValue | board.py:38-47 | The stored value when the column exists and 0 <= y < its length. None for a missing column and for any y outside the column, negative y included. |
| Boards.HighestValue | board.py:124-129 | The index of the highest non-empty cell at or below i (or -1). Every cell above it, up to i, is empty. |
| Boards.TrimColumn | board.py:120-130 | No cell changes its value and no other column is touched. Afterwards column x is either gone or ends in a value. |
| Boards.SetValue | board.py:49-64 | Afterwards (x, y) reads v and every other cell reads as before. Other columns are untouched. |
| Boards.SetValueWellFormed | board.py:49-64 | Any write with y >= 0 keeps the invariant. A column written to all-empty disappears, and a padded column ends in the new value. |
| Boards.ColumnHeight | board.py:66-73 | Nothing is stored at or above the height. On a well-formed board the top cell holds a value, and height 0 means the column is absent. |
| Boards.MinX | board.py:82-87 | At most 0 and at most every column index. When negative, it is itself a column index. |
| Boards.MaxX | board.py:89-94 | At least 0 and above every column index. It is 0 exactly for an empty board, and above 1 it is one past a stored column. |
| Boards.Width | board.py:74-94 | 0 exactly for an empty board. Every column lies in MinX .. MinX + width - 1. With non-negative indexes the rightmost column is width - 1. |
| Boards.MaxY | board.py:100-105 | No column is longer than it and some column is exactly that long. It is 0 for an empty board. |
| Boards.Height | board.py:78-105 | No cell at or above it holds a value. On a well-formed board it is 0 exactly when the board is empty. |
| Boards.ValueMap | board.py:110-118 | Its keys are exactly the cells holding a value, and each maps to that value. |
| Boards.IsEmptyIffNoValues | board.py:107-118 | On a well-formed board, is_empty holds exactly when no cell holds a value. |
| Boards.IsEmpty | board.py:107-108 | is_empty holds exactly when the width is 0, and on a well-formed board exactly when the height is 0. |
| Boards.Extensionality | board.py:252-253 | Two well-formed boards that read the same at every cell are equal. |
| Boards.EqualIffSameValueMap | board.py:252-253 | Two well-formed boards are equal exactly when their value maps are equal. |
| Extrema.MaxOf | board.py:94 | The greatest element of a non-empty set. |
| Extrema.MinOf | board.py:87 | The least element of a non-empty set. |
| Extrema.LeastCell | implodegame.py:321 | min(contiguous): a member lexicographically no greater than any member. |
| Extrema.Sorted | board.py:182 | A sequence holding exactly the elements of the set, each once. |
| Extrema.SortedAscending | board.py:182 | sorted(keys) is strictly ascending. |
| Contiguity.Nbrs | board.py:172-173 | The four orthogonal neighbours. |
| Contiguity.NbrsSymmetric | board.py:172-173 | Being a neighbour is symmetric. |
| Contiguity.Flood | board.py:157-177 | The flood keeps what it has collected, and every collected cell holds the sought value. |
| Contiguity.FloodCovers | board.py:157-177 | The result holds every examined cell of the value and is closed under same-valued neighbours. |
| Contiguity.FloodLeast | board.py:157-177 | The result lies inside every closed same-valued set that contains what was collected and the pending same-valued candidates. |
| Contiguity.GetContiguous | board.py:149-177 | Empty exactly when (x, y) is empty. Otherwise it contains (x, y), holds only cells of that value, and is closed under same-valued neighbours. |
| Contiguity.GetContiguousIsComponent | board.py:149-177 | The result is the least such closed set: the 4-connected component of (x, y). |
| Contiguity.ComponentUnique | board.py:149-177 | A start cell has exactly one component. |
| Contiguity.ComponentOfMember | board.py:149-177 | Asking from any member of a group gives the same group. |
| Contiguity.ScanOrder | board.py:138-140 | The scan visits every position of every listed column. |
| Contiguity.ScanOrderCovers | board.py:138-140 | Scanning the columns in ascending order visits every occupied cell. |
| Contiguity.ScanGroups | board.py:138-146 | The groups kept are components and pairwise disjoint. Every scanned cell whose group has three or more cells has that group kept. |
| Contiguity.GetAllContiguous | board.py:132-147 | Every group has at least 3 cells and equals get_contiguous of each of its members. The groups are pairwise disjoint, and every cell whose group has at least 3 cells has that group listed. |
| BoardEdits.ClearPieces | board.py:197-201 | The listed cells read empty and every other cell reads as before. |
| BoardEdits.ClearPiecesWellFormed | board.py:197-201 | Clearing keeps the invariant. |
| BoardEdits.Compact | board.py:237 | The compacted column has no empty cell and is no longer. It is non-empty when the column held a value. |
| BoardEdits.CompactAppend | board.py:237 | Compacting distributes over concatenation. |
| BoardEdits.CompactLanding | board.py:243-250 | The value at row j lands at the number of values below j. |
| BoardEdits.LandingMonotone | board.py:243-250 | Dropping keeps the vertical order of the values. |
| BoardEdits.LandingOnto | board.py:243-250 | Every row of the dropped column receives the value of some original row. |
| BoardEdits.DropPieces | board.py:235-237 | Same columns, no empty cell left, and the invariant is kept. |
| BoardEdits.DropMapPredictsDrop | board.py:235-250 | The drop map's keys are exactly the occupied cells. Each cell goes to (i, number of values below it), where the dropped board holds the same value. No two cells share a target, and every occupied cell of the dropped board is a target. |
| BoardEdits.DropMap | board.py:239-250 | The drop preview: each occupied (i, j) maps to (i, count of values below j). Its agreement with drop_pieces is stated by DropMapPredictsDrop. |
| BoardEdits.RemoveEmptyColumns | board.py:179-184 | The columns are renumbered to exactly 0 .. n-1. |
| BoardEdits.RemoveEmptyColumnsMovesColumn | board.py:179-184 | Each column lands at the number of columns left of it, with its contents unchanged. |
| BoardEdits.RemoveEmptyColumnsRenumbers | board.py:179-184 | Every column moves to its rank with its contents, and the invariant is kept. |
| BoardEdits.RemoveEmptyColumnsWellFormed | board.py:179-184 | Compaction keeps the invariant. |
| BoardEdits.SortedRank | board.py:182 | The k-th key in sorted order has exactly k keys below it. |
| BoardEdits.SlideMapPredictsSlide | board.py:186-195 | The slide map lists exactly the columns whose new index differs from the old one. It sends each to its rank, where remove_empty_columns puts it. |
| BoardEdits.SlideMap | board.py:186-195 | The slide preview: each column whose rank in the sorted keys differs from its index maps to that rank. Its agreement with remove_empty_columns is stated by SlideMapPredictsSlide. |
| BoardEdits.InsertColumns | board.py:203-213 | Columns left of the index stay, columns at or right of it move up by the count, and nothing lands in the gap. |
| BoardEdits.InsertColumnsWellFormed | board.py:203-213 | Insertion keeps the invariant. |
| BoardEdits.DeleteColumns | board.py:215-225 | Columns left of the index stay, columns in the deleted range vanish, and columns past the range move down by the count. |
| BoardEdits.DeleteUndoesInsert | board.py:203-225 | Deleting the columns just inserted gives back the original board. |
| Changes.KeysInWidth | board.py:74-94 | With non-negative column indexes, every column lies in 0 .. width-1. |
| Changes.ColumnSlots | boardgen.py:83-86 | Exactly the cell insertions at rows 0 .. height of one column lower than max_height. |
| Changes.CellSlots | boardgen.py:82-86 | Exactly the cell insertions at rows 0 .. height of columns 0 .. n-1 lower than max_height. |
| Changes.NewColumns | boardgen.py:79-81 | Exactly the one-cell column insertions at boundaries 0 .. n-1. |
| Changes.EnumerateOneCellChanges | boardgen.py:74-87 | Column insertions of height 1 at every boundary 0 .. width, only when width < max_width and max_height >= 1. Then every cell insertion slot of a column lower than max_height. |
| Changes.EnumeratedChangesAllowed | boardgen.py:74-87 | Every enumerated change can be applied and keeps the board within max_size. |
| Changes.EnumerateFixture | boardgentest.py:45-62 | The board `.1.` over `211` with max_size (10, 10) yields the eleven expected changes in order. |
| Changes.Filter | boardgen.py:117-127 | Keeps exactly the elements satisfying the test. |
| Changes.GetCellChanges | boardgen.py:111-128 | Horizontal list: slots that are not placeholders and have a placeholder left or right. Vertical list: the other such slots with a placeholder below or above. |
| Changes.CellChangesDisjoint | boardgen.py:111-128 | No slot is offered both ways, and every offered change is applicable and within max_size. |
| Changes.CellChangesFixture | boardgentest.py:268-275 | The board `.**` over `12*` gives exactly the four expected cell changes. |
| Changes.PlaceholderExtent | boardgen.py:139-143 | One past the highest placeholder among the first n rows, or 0 when there is none. |
| Changes.Extent | boardgen.py:137-144 | For columns 0 .. w-1: one past the highest placeholder, so nothing at or above it is a placeholder. For any other column: 0. |
| Changes.BoundaryChanges | boardgen.py:145-150 | One column insertion per boundary whose taller neighbouring extent is positive, of that height. |
| Changes.GetColChanges | boardgen.py:130-151 | Empty when width == max_width or max_height < 1. Otherwise one insertion per boundary 0 .. width touching the piece, as tall as the piece reaches on either side. |
| Changes.ColChangesAllowed | boardgen.py:130-151 | On a board within max_size, every offered column insertion keeps it within. |
| Changes.ColChangesFixture | boardgentest.py:310-323 | `*.` over `12` and `*.` over `**` give exactly the expected column insertions. |
| MakeChanges.WriteColumn | boardgen.py:202-203 | Rows 0 .. len-1 of the column read the data, and everything else reads as before. |
| MakeChanges.WriteColumnWellFormed | boardgen.py:202-203 | Writing the column keeps the invariant. |
| MakeChanges.ColumnOf | boardgen.py:188-191 | The column's values, as long as the column is high. |
| MakeChanges.Placeholders | boardgen.py:183-184 | max(n, 0) placeholders. |
| MakeChanges.CountAppend | boardgen.py:190-201 | Placeholder counts add over concatenation. |
| MakeChanges.KeepAppend | boardgen.py:190-201 | The non-placeholder values of a concatenation are those of the parts, in order. |
| MakeChanges.GatherKeeps | boardgen.py:190-197 | The gathering loop keeps the column's non-placeholder values in order. |
| MakeChanges.GatherCounts | boardgen.py:190-197 | The gathered data holds exactly one placeholder when the insertion row was reached, and its length follows. |
| MakeChanges.PlaceholderRowsSpec | boardgen.py:190-195 | new_indexes lists the rows holding a placeholder, all of them, in ascending order. |
| MakeChanges.PyInsert | boardgen.py:201 | list.insert: one longer, the value at the index, the rest shifted. An index past the end appends. |
| MakeChanges.KeepPyInsert | boardgen.py:200-201 | Inserting a placeholder keeps the other values and adds one placeholder. |
| MakeChanges.InsertPlaceholdersKeeps | boardgen.py:200-201 | Re-inserting the old placeholders adds one placeholder per index and keeps the other values in order. |
| MakeChanges.InsertPlaceholdersAt | boardgen.py:200-201 | With ascending indexes, each recorded row holds a placeholder afterwards. |
| MakeChanges.CellDataShape | boardgen.py:185-201 | The new column is one longer, has one more placeholder, keeps the other values in order, and keeps every old placeholder at its row. |
| MakeChanges.CellData | boardgen.py:185-201 | The new column a cell insertion builds: the placeholder at the insertion row among the gathered values, then the old placeholders re-inserted at their rows. Its shape is stated by CellDataShape. |
| MakeChanges.CellDataApart | boardgentest.py:181-196 | testCell7: the new placeholder is not next to the old one. |
| MakeChanges.CellDataGathered | boardgentest.py:198-213 | testCell8: the column is re-normalised with the placeholders gathered upward. |
| MakeChanges.GatheredRows | boardgentest.py:198-213 | The intermediate new_indexes and data of testCell8. |
| MakeChanges.GatheredInserts | boardgentest.py:198-213 | Re-inserting the placeholders in testCell8 gives the expected column. |
| MakeChanges.MakeChange | boardgen.py:179-205 | A cell insertion leaves every other column untouched. |
| MakeChanges.ColumnChangeShifts | boardgen.py:181-184 | Columns left of col stay and columns from col on move right by one. Column col holds exactly height placeholders. |
| MakeChanges.CellChangeColumn | boardgen.py:185-203 | In a column without gaps, the column grows by one cell and gains one placeholder. Its other values keep their order and its old placeholders stay at their rows. |
| MakeChanges.MakeChangeSound | boardgen.py:179-205 | Any applicable change keeps the invariant and non-negative column indexes. |
| MakeChanges.MakeChangeBounded | boardgen.py:179-205 | A change allowed by max_size keeps the board within max_size. |
| Coloring.NewPieceCoords | boardgen.py:229-237 | Exactly the placeholder cells of columns 0 .. width-1. |
| Coloring.Discard | boardgen.py:226 | set.discard removes the value if it is a colour. |
| Coloring.ColorRange | boardgen.py:222 | Exactly the colours 1 .. max_colors. |
| Coloring.DiscardAround | boardgen.py:223-226 | The colours left after discarding every value 4-adjacent to a listed cell. |
| Coloring.NewPieceColors | boardgen.py:220-227 | Exactly the colours 1 .. max_colors that no cell 4-adjacent to the piece holds. |
| Coloring.ChangeIsColorable | boardgen.py:171-177 | A change is colourable when, after it is made, some colour 1 .. max_colors is free for the new piece. GetStartingChange and FindCellChangeFinds state how the generator uses it. |
| Coloring.ColorableFixture | boardgentest.py:228-236 | Under a lone `1`, a cell insertion is not colourable with one colour and is colourable with two. |
| Coloring.ColorableOnEmptyBoard | boardgentest.py:223-226 | On an empty board, the first cell is colourable with one colour. |
| Coloring.Paint | boardgen.py:217-218 | The listed cells read the colour and every other cell reads as before. |
| Coloring.PaintKeepsShape | boardgen.py:217-218 | Painting cells that hold values changes no column's extent and keeps the invariant. |
| Coloring.ColorPiece | boardgen.py:214-218 | Every placeholder of columns 0 .. width-1 reads the colour, and every other cell reads as before. |
| Coloring.ColorPieceClears | boardgen.py:214-218 | With a real colour, no placeholder is left anywhere. The board stays sound and within its bounds. |
| Coloring.ColorPieceShape | boardgen.py:214-218 | Colouring keeps the columns and their lengths, and the invariant. |
| Generator.RandBelow | boardgen.py:159 | A draw lies in 0 .. n-1 and consumes one position of the draw stream. |
| Generator.RandBelowReproduces | boardgen.py:159 | A stream value already in range is returned unchanged. |
| Generator.RandInt | boardgen.py:168 | randint(a, b) lies in a .. b. |
| Generator.Choice | boardgen.py:68 | choice returns a member of the list. |
| Generator.Pick | boardgen.py:167-169 | Pops one element: the rest is the list without that position, and the multiset drops exactly that element. |
| Generator.RemoveFirst | boardgen.py:69 | list.remove drops one occurrence of the value. |
| Generator.ChooseList | boardgen.py:156-165 | The weighted draw selects one of the three lists, and that list is non-empty. |
| Generator.WithTakesOut | boardgen.py:160-165 | Popping from the chosen list shortens the total by one, removes exactly that change, and leaves the other lists alone. |
| Generator.RemoveChange | boardgen.py:153-165 | Removes exactly one change from exactly one list and returns it. The total length drops by one. |
| Generator.RemoveChangeOnlyColumns | boardgen.py:153-165 | When only column changes remain, a column change is taken. |
| Generator.TryStarts | boardgen.py:66-72 | Returns a candidate that passes the test, or None exactly when none does. |
| Generator.GetStartingChange | boardgen.py:63-72 | A colourable enumerated change, or None when no enumerated change is colourable. |
| Generator.TryPending | boardgen.py:96-100 | Returns a pending change that passes the test, or None exactly when none does. |
| Generator.FindCellChangeFinds | boardgen.py:94-100 | Finds a colourable candidate exactly when there is one. |
| Generator.TryAddCells | boardgen.py:89-109 | The count added is never negative, and when it is zero the board is unchanged. |
| Generator.TryAddCellsFinds | boardgen.py:89-109 | Adds cells exactly when some candidate is colourable. The result is then that change made, with 1 cell for a cell insertion and height cells for a column. |
| Generator.TryAddCellsKeeps | boardgen.py:89-109 | Adding cells keeps the board sound, within max_size and within the colours. |
| Generator.Grow | boardgen.py:47-59 | A grown piece has reached the requested size or has at least 3 cells. Growth aborts only below 3 cells. |
| Generator.GrowKeeps | boardgen.py:47-59 | Any board property kept by each growing step holds for the grown board. |
| Generator.GrowColorable | boardgen.py:47-59 | The piece stays colourable while it grows. |
| Generator.GrowSound | boardgen.py:47-59 | Growing keeps the board sound. |
| Generator.GrowBounded | boardgen.py:47-59 | Growing keeps the board within max_size. |
| Generator.GrowColors | boardgen.py:47-59 | Growing keeps every value a placeholder or a colour 1 .. max_colors. |
| Generator.ColorPieceRandom | boardgen.py:207-212 | Paints the piece with a free colour in 1 .. max_colors. |
| Generator.ColorPieceRandomKeeps | boardgen.py:207-212 | After painting, the board is sound, within max_size and has no placeholders. |
| Generator.TryAddPiece | boardgen.py:38-61 | Without a colourable starting change, the original board is returned. |
| Generator.TryAddPieceKeeps | boardgen.py:38-61 | Adding a piece keeps the board sound, within max_size, within the colours, and free of placeholders. |
| Generator.TryAddPieceOutcome | boardgen.py:38-61 | Without a starting change, or when growing stops below 3 cells, the original board comes back. Otherwise the grown piece, of its size or of at least 3 cells, is painted with a colour no neighbour holds. |
| Generator.AddPieces | boardgen.py:34-35 | One _try_add_piece per piece size, in order, each on the board the previous one returned. AddPiecesKeeps states what the loop keeps. |
| Generator.AddPiecesKeeps | boardgen.py:34-35 | The loop over piece sizes keeps all four properties. |
| Generator.GenerateBoardValid | boardgen.py:24-36 | The generated board is sound and has no placeholder. Every cell holds a colour in 1 .. max_colors, and the board fits max_size. |
| Generator.GenerateBoard | boardgen.py:24-36 | The pieces added one by one to an empty board. GenerateBoardValid states what the result satisfies. |
| Generator.MakeChangeColors | boardgen.py:179-205 | Any change keeps every value a placeholder or a colour 1 .. max_colors. |
| Game.Row | implodegame.py:195-196 | One board row holds width entries. |
| Game.Rows | implodegame.py:194-196 | The rows y .. h-1 hold width entries each. |
| Game.NaturalCells | implodegame.py:194-196 | h rows of w entries are w * h entries. |
| Game.Encode | implodegame.py:190-200 | [w, h], then w * h cells, then two more entries when a move is given. |
| Game.RowsAt | implodegame.py:194-196 | Cell (x, y0 + k) of the rows sits at k * w + x: rows bottom first, x fastest. |
| Game.EncodeCells | implodegame.py:190-200 | Cell (x, y) of the board sits at 2 + y * w + x of the encoding, and a given move fills the last two entries. |
| Game.FillRow | implodegame.py:226-227 | Fails exactly when too few entries remain. Otherwise one row is written from the entries, the rest is returned, and the invariant is kept. |
| Game.FillRows | implodegame.py:225-227 | Fails exactly when too few entries remain. Otherwise it returns the rest and writes values only inside the rows. |
| Game.FillRowsRows | implodegame.py:219-227 | Decoding the encoded rows writes each cell's own value and leaves the tail. |
| Game.Decode | implodegame.py:219-232 | None exactly where Python raises: fewer than two entries, a missing height, a missing width when there is a row to fill, or too few cell entries. Otherwise a well-formed board inside w x h, with the move present exactly when two entries follow the cells. |
| Game.DecodeNoRows | implodegame.py:219-232 | With a height of 0 or less the width is never read: [None, 0] decodes to the empty board, and [None, -1, 5, 6] to the empty board with the move (5, 6). |
| Game.DecodeEncode | implodegame.py:190-232 | Decoding an encoded board whose columns lie in 0 .. width-1 gives the board back, with the move or None. |
| Game.LoseStateMeansNoMove | implodegame.py:339-343 | The board is lost exactly when it is non-empty and every group has fewer than 3 cells. |
| Game.CheckForLoseState | implodegame.py:339-343 | Only the stuck flag changes, and it is raised exactly on a lost board. |
| Game.LoseState | implodegame.py:339-343 | The lose condition: a non-empty board with no group of 3 or more. LoseStateMeansNoMove restates it cell by cell. |
| Game.HideStuck | implodegame.py:367-368 | Hiding the stuck dialog clears the stuck flag and changes nothing else. |
| Game.MovesOf | implodegame.py:156-158 | The moves of the stack, bottom to top. |
| Game.MovesSoFar | implodegame.py:156-158 | _get_moves_so_far: the moves of the undo stack, bottom to top, as MovesOf states them. |
| Game.UndoLastMove | implodegame.py:160-168 | Pops the undo entry and pushes (current board, its move) on the redo stack. The popped board becomes current and the win flag is cleared. |
| Game.Undo | implodegame.py:110-116 | A no-op apart from hiding the stuck dialog on an empty undo stack. Otherwise it undoes the last move. |
| Game.Redo | implodegame.py:170-183 | A no-op apart from hiding the stuck dialog on an empty redo stack. Otherwise it pops the redo entry, pushes (current, move) on the undo stack, restores the board, and flags a loss. |
| Game.RedoUndoesUndo | implodegame.py:160-183 | Redo after undo restores the board and both stacks. |
| Game.UndoUndoesRedo | implodegame.py:160-183 | Undo after redo restores the board and both stacks. |
| Game.InitWin | implodegame.py:345-349 | After a win the undo stack is empty. |
| Game.AfterMoveWellFormed | implodegame.py:323-325 | Clearing, dropping and compacting keeps the invariant and numbers the columns 0 .. n-1. |
| Game.RemoveContiguous | implodegame.py:316-337 | Empties redo and makes the move. On an empty board it wins with an empty undo stack. Otherwise it pushes (old board, least cell of the group) and flags a loss when one remains. |
| Game.UndoUndoesMove | implodegame.py:316-325 | Undoing a non-winning move restores the board and the undo stack. The move recorded is the group's least cell. |
| Game.PieceSelected | implodegame.py:273-288 | Only groups of 3 or more are removed. Otherwise only the stuck dialog is hidden. |
| Game.ResetBoard | implodegame.py:250-259 | The new board, with both stacks empty and no win drawn. |
| Game.PrefixOfWinningIsPrefix | implodegame.py:149 | moves == winning[:len(moves)] holds exactly when moves is a prefix of winning. |
| Game.MovesOfPrefix | implodegame.py:156-158 | The moves of a bottom part of the stack are the bottom part of its moves. |
| Game.UndoUntilPrefix | implodegame.py:147-151 | Stops at the longest bottom part of the stack whose moves prefix the winning moves. The board of the last popped entry becomes current (the current board when nothing is popped). Each undo pushes (board before it, popped move) on the redo stack, in order. |
| Game.UndoneToStep | implodegame.py:160-168 | One more _undo_last_move in front of a run of undos is again a run of undos: the stacks, the current board and the pushed redo entries agree. |
| Game.UndoToSolvableState | implodegame.py:118-154 | The moves left prefix the winning moves, and the stack only shrinks. Without the timer, the longest such prefix of the stack is kept. When the timer undid a move first, the longest such prefix shorter than the stack is kept. The board of the last popped entry becomes current, and each undone entry is pushed on the redo stack, in order. |

## Left out

- GTK, signals, the grid widget and all animation are not part of this model. Only the path without animation of `piece_selected` and `_remove_contiguous` is modelled. `_hide_stuck` and the stuck dialog become a `stuck` flag.
- The timer inside `undo_to_solvable_state` is not modelled. Whether it undid a move before the end callback ran is the input `timerUndid`.
- Python's Mersenne Twister and seed reproducibility are not modelled. The draws are an arbitrary stream `nat -> nat`, reduced into the requested range.
- The float piece-size sampling in `_get_piece_sizes` and `_get_piece_size` is not modelled. The sizes are an input to `GenerateBoard`.
- The known winning moves are an input to the undo loop. `generate_board` returns only a board, while `_reset_board` unpacks a pair from it; the model follows the generator and takes the board as an input of `ResetBoard`.
- `Board.get_empty_columns` is not modelled. Nothing calls it, and its test `i not in self._data.items()` compares an int with key/value pairs, so it lists every index in the range.
- `Board.__repr__`, `make_test_board`, `dump_board` and `main` are not modelled. They are debugging output.
- `clone` is not modelled because boards are values, so a copy is the board itself.
- Python set and dict iteration order is unspecified, so the model fixes one order:
  - the flood fill pops the lexicographically least candidate;
  - the groups are scanned in ascending column order;
  - the free colours are offered to `choice` in ascending order;
  - `clear_pieces` is order-independent.
- Generator.TryAddPiece: its own contract covers only the no-start case. TryAddPieceOutcome states both outcomes, and TryAddPieceKeeps the properties kept.
- Generator.Grow: it is written over a step function. `AddCells` supplies `_try_add_cells`.
- Game.Decode: Python's exceptions become `None`. The decoded move is the raw pair of the two trailing entries, as `tuple(data)` gives it.
- Game.DecodeEncode: requires non-negative column indexes. A board with a negative column index does not round-trip, because `encode_board` reads columns 0 .. width-1; every board the game builds satisfies this.
- The other fields of the saved game state (difficulty, seed, size, colours and win flag) are not modelled. They are stored as they are.
