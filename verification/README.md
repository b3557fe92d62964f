# Sudoku engine core, modelled in Dafny

This project models the game engine of a console Sudoku program written in
C. A board is N x N cells with N = m * n, split into m x n blocks. A cell
holds a committed value `num` (0 means empty) and a scratch value `alt`,
used by the exhaustive search and by autofill. Each cell also has a status:
HIDDEN, SHOWN, FIXED or ERRONEOUS. The game runs in one of three modes
(INIT, EDIT, SOLVE) and keeps `count_hid`, the number of empty cells. It
also keeps an undo/redo list of moves; a move is a list of single-cell
changes.

The model covers:

* the constraint validator (`validate_row`, `validate_col`,
  `validate_block`, `validate_dig`) in probe mode and in mark mode;
* the error-status repair helpers (`parse_row`, `parse_col`,
  `parse_block`, `parse_legitimate`) and `erroneous_board`;
* the commands `set`, `undo`, `redo`, `reset`, `autofill` and
  `switch_mode`, on a session value;
* the guard logic and observable result of `hint`, `generate`, `validate`,
  `num_of_solutions` and `save`;
* the stack-based exhaustive solution counter (`find_first_empty`,
  `clear_fill_alt_board`, `pop_till_inc`, `ex_backtrack`);
* the move list and stack of `struct_functions.c`;
* `create_move_from_board`, and `clear_board`'s full-clear branch;
* loading a board from its tokens (`parse_file`) and writing it back
  (`write_num`).

Modules follow the source files:

| module | file | source |
|---|---|---|
| `Structs` | structs.dfy | the cell, the board and the board predicates |
| `StructFunctions` | struct_functions.dfy | `struct_functions.c`: cells, empty board, move list, stack |
| `Validation` | validation.dfy | `validate_*` in `solver.c` |
| `Repair` | repair.dfy | `parse_*` in `game.c` |
| `Backtrack` | backtrack.dfy | the exhaustive counter in `solver.c` |
| `Edits` | edits.dfy | the board side of `set`, `undo` and `redo` |
| `Moves` | moves.dfy | `create_move_from_board` |
| `AutoFill` | autofill.dfy | the staging sweep of `autofill` |
| `Timeline` | timeline.dfy | how the move list relates to the board values |
| `Game` | game.dfy | the commands on a session |
| `GameLemmas` | game_lemmas.dfy | what the commands promise |
| `Loader` | loader.dfy | `parse_file`, `write_num`, `save` |

### The session invariant

The central invariant is `Game.Consistent`. It holds when all of these hold:

* `count_hid` equals the number of empty cells;
* a cell is empty exactly when it is HIDDEN;
* no scratch value is left behind;
* the move list is *coherent* with the board;
* no recorded move names a FIXED cell.

"Coherent" is defined in `Timeline`. From the current values, every move
back to the sentinel can be undone in turn, and every move up to the tail
can be redone in turn. Each undo or redo finds every cell it touches holding
the value it moves away from.

Every command keeps this invariant. Undo followed by redo (and redo
followed by undo) restores the committed values, `count_hid` and the
history. Saving a board and loading it back restores its values.

### How C constructs are represented

* The linked `MoveList` is a sequence with a cursor; index 0 is the
  sentinel node.
* The stack is a sequence whose last element is the top.
* Commands that fail return `Err` and leave the session as it was.
* The printed messages are the constructors of `Game.Error`.

## Model

| member | source | states |
|---|---|---|
| StructFunctions.CreateNum | struct_functions.c:16-25 | a fresh cell holds the given value, has no scratch value, and is HIDDEN |
| StructFunctions.CreateEmptyBoard | game.c:209-220 | the new board is N x N, every cell a fresh empty cell |
| StructFunctions.EmptyBoardConsistent | game.c:209-220 | on a fresh board: empty means HIDDEN, nothing staged, nothing erroneous, and N*N cells are empty (the count_hid that parse_file starts from) |
| StructFunctions.InitialHistory | struct_functions.c:95-101 | the list holding only the sentinel is well formed, with nothing to undo or redo |
| StructFunctions.DropFrom | struct_functions.c:108-114 | freeing from node k keeps exactly the first k nodes and the current node; nothing is left to redo exactly when k is the node after the current one |
| StructFunctions.Record | struct_functions.c:95-101 | linking a new node after the current one drops the redo part, keeps every node up to the current one, makes the new move current, and leaves it undoable and not redoable |
| StructFunctions.SentinelBefore | struct_functions.c:123-131 | walking back through prev pointers stops at a node with no move, and every node passed holds a move |
| StructFunctions.SentinelIsFirst | struct_functions.c:123-131 | in a well-formed list, the walk back from the current node reaches the first node |
| StructFunctions.Clear | struct_functions.c:139-151 | emptying the list leaves only the sentinel, current, with nothing to undo or redo |
| StructFunctions.StepBack | game.c:641 | undo's move to the previous node keeps the nodes and leaves something to redo |
| StructFunctions.StepForward | game.c:661-716 | redo's move to the next node keeps the nodes and leaves something to undo |
| StructFunctions.StepBackForward | game.c:586-716 | stepping back then forward returns to the same node |
| StructFunctions.RecordAfterUndoDropsRedo | game.c:450-455 | after an undo, recording a new move discards the undone move: nothing is left to redo |
| StructFunctions.CreateStack | struct_functions.c:158-162 | a new stack is empty |
| StructFunctions.Push | struct_functions.c:171-178 | pushing adds exactly one frame, on top, and keeps the frames below |
| StructFunctions.Pop | struct_functions.c:185-189 | popping removes exactly the top frame |
| StructFunctions.PushPop | struct_functions.c:171-189 | popping right after a push restores the stack, and the pushed frame is the top |
| Validation.ValidateRow | solver.c:30-42 | the verdict is true exactly when no cell of the row holds the digit; in mark mode, exactly the row's non-FIXED cells holding a nonzero digit become ERRONEOUS |
| Validation.ValidateCol | solver.c:61-75 | the verdict is true exactly when no cell of the column holds the digit; in mark mode, exactly the column's non-FIXED cells holding it become ERRONEOUS |
| Validation.ValidateBlock | solver.c:96-113 | the verdict is true exactly when no cell of the m x n block holds the digit; in mark mode, exactly the block's non-FIXED cells holding it become ERRONEOUS |
| Validation.ValidateDig | solver.c:128-139 | the verdict is Legal (0, or absent from row, column and block); in mark mode, the board is the one marked scope by scope; probe mode leaves the board alone |
| Validation.MarkAllEffect | solver.c:128-139 | mark mode flags exactly the cells that see (row, col), hold the digit and are not FIXED, and only for a nonzero digit |
| Validation.MarkAllKeepsValuesAndFixed | solver.c:30-139 | marking changes no value and no FIXED cell; every other cell keeps its status or becomes ERRONEOUS |
| Validation.BlockIsRect | solver.c:96-113 | the block scope is the m x n rectangle at (row - row % m, col - col % n), inside the board |
| Repair.ParseRow | game.c:233-243 | only statuses in the row change: cells holding the digit that are not FIXED and become SHOWN |
| Repair.ParseCol | game.c:256-266 | only statuses in the column change: cells holding the digit that are not FIXED and become SHOWN |
| Repair.ParseBlock | game.c:279-294 | only statuses in the block change: cells holding the digit that are not FIXED and become SHOWN |
| Repair.ParseLegitimate | game.c:307-313 | a nonzero digit repairs the row, then the column, then the block; digit 0 leaves the board unchanged. Which cells it promotes is stated by `Repair.ParseLegitimateEffect` and `Repair.ParseLegitimateOnlyPromotes` |
| Repair.ParseLegitimateEffect | game.c:307-313 | a cell becomes SHOWN exactly when the row (with m and n exchanged), column or block scan promotes it: it holds the nonzero digit, is not FIXED, and is legal with its own value set aside |
| Repair.ParseLegitimateOnlyPromotes | game.c:307-313 | repair changes no value and no FIXED cell; a changed cell held the digit and is now SHOWN |
| Repair.UniqueMeans | game.c:236-240 | a cell passes re-validation exactly when no other cell in its row, column or block holds the digit |
| Backtrack.FindFirstEmpty | solver.c:155-163 | finds the first cell in row-major order with no scratch value; finds none exactly when no cell is empty |
| Backtrack.ClearFillAlt | solver.c:172-182 | every scratch value becomes the committed value (fill) or 0 (clear); nothing else changes |
| Backtrack.SetAltUndone | solver.c:200-210 | clearing a scratch value just written restores the board |
| Backtrack.PopFull | solver.c:196-203 | pops exactly the frames that have tried every digit, clears their cells and adds one to count_hid per frame |
| Backtrack.PopTillInc | solver.c:193-213 | pops the exhausted frames; the next frame is replaced by one with the next digit and its cell cleared; the search tree still to explore is unchanged |
| Backtrack.Count | solver.c:226-272 | the reference count for the search: the first empty cell in row-major order is tried with every digit from 1, with the source's last-cell rule. `Backtrack.SearchStep` and `Backtrack.ExBacktrack` prove the stack loop equal to it |
| Backtrack.CountSolution | solver.c:237-246 | a legal digit at the last empty cell counts exactly one solution and one step of the search tree, then backtracks; the board keeps its committed values |
| Backtrack.Descend | solver.c:237-250 | a legal digit with empty cells left takes one step of the search tree and no solution; the next frame is digit 1 at the first empty cell |
| Backtrack.Reject | solver.c:252-261 | an illegal digit takes one step and no solution: the next digit replaces it, or after N the exhausted frames are popped |
| Backtrack.SearchStep | solver.c:233-261 | one loop iteration finds one solution or none, matching the reference count of the search tree, and strictly shrinks the steps left |
| Backtrack.ExBacktrack | solver.c:226-272 | the result is the number of solution leaves of the backtracking tree over the empty cells; a full board counts 1; scratch values are cleared afterwards |
| Edits.SetBoardEffect | game.c:430-449 | writing a new value changes only that cell's value; the cell becomes SHOWN exactly when no other cell it sees holds the digit; every other non-FIXED cell it sees holding the digit becomes ERRONEOUS |
| Edits.SetBoard | game.c:432-449 | the board half of set; what it writes, marks and repairs is stated by `Edits.SetBoardEffect` and `Edits.WroteNums` |
| Edits.LegalIgnoresCell | game.c:433-445 | the verdict for the written cell does not depend on what the cell held before |
| Edits.WroteNums | game.c:449 | after the write, the committed values differ from before at the written cell only |
| Edits.WroteZeros | game.c:437-448 | count_hid changes by one when a cell becomes empty or stops being empty, and not otherwise |
| Edits.ApplyChangeEffect | game.c:598-621 | undoing or redoing one change writes its target value; a change whose two values agree is skipped; count_hid tracks the empty cells. On a cell holding the value the change moves away from, the step is set's board change to the target value. A nonzero target leaves the cell SHOWN exactly when no other cell it sees holds that value, and ERRONEOUS otherwise |
| Edits.ApplyChangeIsSet | game.c:601-620 | one undo or redo step on a cell holding its source value equals `Edits.SetBoard` with the target value. So `Edits.SetBoardEffect` gives its status rule: HIDDEN when cleared; SHOWN or ERRONEOUS by mark-mode validation; non-FIXED cells it sees holding the value flagged ERRONEOUS. When the cell was ERRONEOUS, the repair of the cells its old value collided with is the same `Repair.ParseLegitimate` call as in set |
| Edits.ApplyChange | game.c:601-620 | one undo step (redo's step at game.c:675-693 is the same with the values swapped); stated by `Edits.ApplyChangeEffect` and `Edits.ApplyChangeIsSet` |
| Edits.ApplyMove | game.c:597-623 | the steps of a move applied in list order; stated by `Edits.ApplyNumsEffect`, `Edits.ApplyMoveTracks`, `Edits.ApplyMoveKeeps` and `Edits.ApplyMoveIsSets` |
| Edits.SetSteps | game.c:597-623 | the reference for a whole undo or redo: each step that changes a value is set's board change to its target value, in list order |
| Edits.ApplyMoveIsSets | game.c:597-623 | when no cell is named twice and every cell holds the value its step moves away from, undo and redo of a move build exactly the `Edits.SetSteps` board, statuses included |
| Edits.ApplyNumsEffect | game.c:598-623 | every cell a move names ends with the step's target value; no other cell changes |
| Edits.ApplyNumsRoundTrip | game.c:586-716 | undoing a move that was just redone, or redoing one just undone, restores the values |
| Edits.ApplyMoveTracks | game.c:597-623 | on the real board, a whole move changes the values exactly as on the value grid, and count_hid keeps tracking the empty cells |
| Edits.ApplyMoveKeeps | game.c:597-623 | undo and redo keep "empty exactly when HIDDEN" and the scratch values clear; a FIXED cell the move does not name is untouched; no cell becomes FIXED |
| Moves.StepsOf | game.c:481-508 | the move has one step per cell with a nonzero value, from 0 to that value, no cell twice and every cell on the board; it is empty exactly when no cell has a value |
| Moves.StepsFromCells | game.c:485-504 | every step of the walk from a position on is a step 0 -> value for a nonzero cell at or after that position |
| Moves.StepsFromOrdered | game.c:485-506 | the steps come in strictly increasing row-major order, so no cell is named twice |
| Moves.StepsFromComplete | game.c:485-506 | every nonzero cell from the starting position on is named by a step |
| Moves.CommitStaged | game.c:489-494 | in autofill mode, every staged scratch value becomes the committed value and the scratch value is cleared |
| Moves.StepsOfRoundTrip | game.c:481-508 | redoing the move turns the values before into the values after, and undoing it goes back |
| Moves.StepsOfFromEmpty | game.c:552-556 | on an empty board, generate's move is redoable and turns the empty values into the generated board's values |
| AutoFill.ScanDigitsMeans | game.c:744-752 | the digit scan counts 1 exactly when one digit alone is legal at the cell, and then returns it |
| AutoFill.ScanDigits | game.c:744-751 | the digit loop of autofill, which stops at the second legal digit; stated by `AutoFill.ScanDigitsMeans` |
| AutoFill.Single | game.c:741-752 | the digit a cell is forced to, or 0; stated by `AutoFill.SingleMeans` |
| AutoFill.SingleMeans | game.c:743-753 | a cell is filled exactly when it is empty and exactly one digit is legal there, judged on the committed values |
| AutoFill.SweepEffect | game.c:741-764 | after the sweep, every forced cell holds its digit as a scratch value; it is ERRONEOUS exactly when another forced cell it sees is forced to the same digit, else SHOWN; other cells keep their status |
| AutoFill.SweepCount | game.c:754 | count_hid drops by one per staged cell, so it counts the empty cells once the staged values are committed |
| AutoFill.StageCell | game.c:753-758 | staging one forced digit in the scratch channel with its mark-mode status; stated by `AutoFill.SweepEffect` |
| AutoFill.Sweep | game.c:737-760 | the sweep over the board; stated by `AutoFill.SweepEffect` and `AutoFill.SweepCount` |
| Timeline.CoherentStepBack | game.c:586-643 | on a coherent history, the current move can be undone, and the result is coherent one node back |
| Timeline.CoherentStepForward | game.c:661-716 | on a coherent history, the next move can be redone, and the result is coherent one node forward |
| Timeline.CoherentRecord | game.c:450-455 | recording a move that fits the values keeps the history coherent with the values it leads to |
| Timeline.CoherentSentinel | struct_functions.c:139-151 | a history holding only the sentinel is coherent with any board |
| Game.Start | main.c:14-15 | the session starts in INIT with the sentinel alone in its history, so there is nothing to undo or redo, and it is Consistent |
| Game.SwitchMode | game.c:377-392 | switch_mode; stated by `GameLemmas.SwitchModeEffect` |
| Game.Finish | game.c:458-465 | the end-of-game check of set and autofill; stated by `GameLemmas.FinishEffect` |
| Game.Place | game.c:430-455 | the change set makes once its guards pass; stated by `GameLemmas.PlaceSameValue`, `GameLemmas.PlaceRecords` and `GameLemmas.PlaceEffect` |
| Game.Set | game.c:414-467 | set; stated by `GameLemmas.SetGuards`, `GameLemmas.SetKeepsConsistent`, `GameLemmas.SetThenUndo` and `GameLemmas.SetThenRedoFails` |
| Game.Undo | game.c:586-643 | undo: InvalidCommand in INIT, NothingToUndo at the sentinel, else one undo step; stated by `GameLemmas.UndoStepEffect` and `GameLemmas.UndoThenRedo` |
| Game.Redo | game.c:661-716 | redo: InvalidCommand in INIT, NothingToRedo at the tail, else one redo step; stated by `GameLemmas.RedoStepEffect` and `GameLemmas.RedoThenUndo` |
| Game.Reset | game.c:947-960 | reset; stated by `GameLemmas.ResetEffect` and `GameLemmas.SetThenReset` |
| Game.Fill | game.c:737-775 | autofill's change to the board and history; stated by `GameLemmas.FillBoard`, `GameLemmas.FillOnlyForced`, `GameLemmas.FillHistory` and `GameLemmas.FillKeepsConsistent` |
| Game.Autofill | game.c:729-785 | autofill; stated by `GameLemmas.AutofillEffect` |
| Game.Hint | game.c:800-832 | hint; stated by `GameLemmas.HintGuards` |
| Game.Generate | game.c:526-568 | generate; stated by `GameLemmas.GenerateGuards`, `GameLemmas.GenerateEffect`, `GameLemmas.GenerateFailureClears` and `GameLemmas.GenerateKeepsConsistent` |
| Game.ErroneousBoard | game.c:327-337 | the scan reports an error exactly when some cell is ERRONEOUS |
| Game.ValidateCode | game.c:347-366 | validate gives 2 exactly outside INIT on an error-free, solvable board; it gives 0 exactly outside INIT on an erroneous board when no message is asked for |
| Game.UndoStep | game.c:597-641 | an undo step keeps the session shape and mode, and moves the cursor one node back |
| Game.RedoStep | game.c:673-697 | a redo step keeps the session shape and mode, and moves the cursor one node forward |
| Game.UndoAll | game.c:952-954 | reset's loop keeps the nodes and stops at the sentinel |
| Game.ClearAll | game.c:85-91 | clearing the whole board empties every cell and makes it HIDDEN |
| Game.KeepCells | game.c:546-549 | the kept cells hold the solved value and are SHOWN; every other cell is empty and HIDDEN |
| Game.NumOfSolutions | game.c:1035-1052 | fails exactly in INIT or on an erroneous board, with that error; otherwise returns the exhaustive count (1 for a full board) and leaves the board as it was |
| GameLemmas.SwitchModeEffect | game.c:377-392 | modes 1, 2, 3 select INIT, EDIT, SOLVE and any other value keeps the mode; the history is emptied; board and count_hid are kept; Consistent is preserved |
| GameLemmas.FinishEffect | game.c:458-465 | the end-of-game check returns to INIT (history emptied) exactly in SOLVE on a full, error-free, solvable board; otherwise nothing changes |
| GameLemmas.SetGuards | game.c:414-428 | set fails exactly in INIT, out of range (col, row, dig) or on a FIXED cell. The error is InvalidCommand, OutOfRange or FixedCell, checked in that order |
| GameLemmas.PlaceSameValue | game.c:432 | setting a cell to the value it holds changes nothing and records no move |
| GameLemmas.PlaceRecords | game.c:430-455 | a new value changes the committed values at that cell only, records the single step (prev, dig, col, row) as the current move, leaves nothing to redo, and keeps Consistent |
| GameLemmas.PlaceEffect | game.c:430-449 | the written cell becomes SHOWN exactly when no other cell it sees holds the digit; cells it sees that hold the digit and are not FIXED become ERRONEOUS |
| GameLemmas.SetKeepsConsistent | game.c:414-467 | a successful set keeps the session Consistent |
| GameLemmas.SetThenUndo | game.c:414-643 | undo right after a set that did not end the game restores the committed values and count_hid |
| GameLemmas.SetThenRedoFails | game.c:414-716 | right after a set there is nothing to redo |
| GameLemmas.UndoStepEffect | game.c:586-643 | undo changes the values exactly by undoing the current move, and keeps Consistent; the statuses are stated by `GameLemmas.UndoStepStatuses` |
| GameLemmas.UndoStepStatuses | game.c:597-623 | the board after undo, statuses included, is `Edits.SetSteps` of the move backwards. Every step re-runs set's board change and its status rule |
| GameLemmas.RedoStepEffect | game.c:661-716 | redo changes the values exactly by redoing the next move, and keeps Consistent; the statuses are stated by `GameLemmas.RedoStepStatuses` |
| GameLemmas.RedoStepStatuses | game.c:673-697 | the board after redo, statuses included, is `Edits.SetSteps` of the move forwards. Every step re-runs set's board change and its status rule |
| GameLemmas.UndoThenRedo | game.c:586-716 | after a successful undo, redo succeeds and restores the values, count_hid and the history |
| GameLemmas.RedoThenUndo | game.c:586-716 | after a successful redo, undo succeeds and restores the values, count_hid and the history |
| GameLemmas.UndoAllConsistent | game.c:952-954 | undoing every move keeps Consistent, and the board ends up holding `Timeline.Rewound`: the values obtained by undoing each move from the current node down to the sentinel in turn |
| GameLemmas.ResetEffect | game.c:947-960 | reset fails exactly in INIT. Otherwise it keeps the mode and Consistent, returns the board to the values it held before the first recorded move (`Timeline.Rewound`), and leaves the sentinel alone with nothing to undo or redo |
| GameLemmas.SetThenReset | game.c:947-960 | from a history holding only the sentinel, reset after a set that changed a cell and did not end the puzzle gives back the board values from before the set |
| GameLemmas.FillBoard | game.c:741-775 | after autofill, each forced cell holds its only legal digit, SHOWN or ERRONEOUS by the clash rule; every other cell is unchanged |
| GameLemmas.FillOnlyForced | game.c:743-759 | autofill changes only empty cells with exactly one legal digit, and always fills such a cell with that digit |
| GameLemmas.FillHistory | game.c:766-775 | autofill records one move exactly when some cell was forced, and otherwise leaves the history alone |
| GameLemmas.FillKeepsConsistent | game.c:741-775 | the autofill change keeps the session Consistent |
| GameLemmas.AutofillEffect | game.c:729-785 | autofill fails exactly outside SOLVE or on an erroneous board; a success is Consistent |
| GameLemmas.HintGuards | game.c:800-832 | hint succeeds exactly in SOLVE, in range, on an error-free board, at a non-FIXED empty cell, with a solvable board; it then returns the solution's digit. The guards are checked in the source's order, each with its own error: InvalidCommand, OutOfRange, ContainsErrors, FixedCell (before CellHasValue, since a FIXED cell also holds a value), CellHasValue, Unsolvable |
| GameLemmas.GenerateGuards | game.c:526-568 | generate fails exactly outside EDIT, out of range, on a non-empty board, or when no attempt succeeds; y = 0 changes nothing |
| GameLemmas.GenerateFailureClears | game.c:561 | clearing the whole board after a failed attempt gives back the empty board generate started from |
| GameLemmas.KeepCellsZeros | game.c:548-549 | after clearing all but y cells, the number of empty cells is N*N - y, the count_hid generate sets |
| GameLemmas.GenerateEffect | game.c:543-557 | the kept cells hold the solution and are SHOWN, the rest are empty and HIDDEN; count_hid is N*N - y; the recorded move creates the kept cells; nothing is left to redo |
| GameLemmas.GenerateKeepsConsistent | game.c:526-568 | a successful generate keeps the session Consistent |
| Loader.IndexRoundTrip | parser.c:125-126 | the k-th cell token goes to row k / N, column k % N, and every cell has exactly one index |
| Loader.LoadTokenStep | parser.c:127-137 | a loaded cell holds its token's value and is FIXED exactly for a '.' token in SOLVE, HIDDEN exactly for a 0 token; other cells keep their values and FIXED flags and can only become ERRONEOUS |
| Loader.LoadToken | parser.c:124-136 | one cell token; stated by `Loader.LoadTokenStep` |
| Loader.LoadFrom | parser.c:119-142 | the cell tokens in order from the k-th on; stated by `Loader.LoadFromSpec` |
| Loader.ParseFile | parser.c:102-150 | parse_file on a file's tokens; stated by `Loader.ParseFileEffect` and `Loader.LoadedConsistent`, and the inputs it rejects are listed under "## Left out" |
| Loader.LoadFromSpec | parser.c:112-143 | after every token is placed, each cell matches its token, count_hid counts the empty cells, and the error marking holds |
| Loader.ParseFileEffect | parser.c:102-150 | a file loads exactly when it has at least one cell token, m, n >= 1 and at most N*N cell tokens; the board is N x N; every cell matches its token (missing tokens read as 0); a nonzero non-FIXED cell is ERRONEOUS exactly when another cell it sees holds its value |
| Loader.LoadedConsistent | parser.c:102-150 | a loaded board with a fresh history is a Consistent session |
| Loader.WriteNum | game.c:24-38 | a cell is written in EDIT and SOLVE and not in INIT |
| Loader.Save | game.c:846-880 | save; its guards and the round trip through loading are stated by `Loader.SaveThenLoad` |
| Loader.SaveThenLoad | game.c:846-880 | save fails exactly in INIT, or in EDIT on an erroneous or unsolvable board; otherwise loading the saved tokens gives the same m, n and values, with FIXED exactly on the cells saved with '.' when loaded in SOLVE |

## Left out

- The ILP solver (Gurobi, `ilp` and its helpers in `solver.c`) is not modelled. Where a command consults it, its answer is a parameter:
  - `solvable` for `validate`, `set`, `autofill` and `save`;
  - `oracle` for `hint`;
  - `solved` for `generate`.
- Randomness is not modelled: `fill_k_cells` and the random branch of `clear_board` are replaced by the `solved` and `keep` parameters of `Game.Generate`.
- Game.Generate: requires what the random filler and the ILP would provide:
  - a completed board;
  - `keep` on the board with exactly `y` cells.
- Game.Generate does not model the 1000-attempt loop. A failing attempt clears the whole board; `GameLemmas.GenerateFailureClears` shows that this gives back the empty board generate started from.
- Printing is not modelled (`print_board`, the messages, the undo/redo report loop, `mark_errors`).
- File I/O is not modelled (`fopen`, `fgets`, `strtok`, `ferror`); a file is given as its token sequence.
- Memory management is not modelled (`free_board`, `delete_move`, `destroy_num`).
- The command reader (`get_command`, `read_args`), `change_mark_errors`, `solve`, `edit` and `exit_game` are not modelled.
- `main_aux.c` is not part of this model.
- Loader.ParseFile: returns None for:
  - fewer than three tokens, for which no board is created;
  - a block side below 1;
  - more than N*N cell tokens, which the source would write past the board.
- Loader.ParseFile: the source cannot load a block side of 0, since N = 0 and `count/N` divides by zero (parser.c:125). With exactly one negative side, N = m*n is negative. `create_empty_board` then builds no rows (game.c:210-212), and the first cell write goes past it. With both sides negative, N is positive and the source does load the file. Its block scans are then empty loops (solver.c:97-101), so no block conflict is ever found. The model rejects this case as well, because every block operation here is defined for m, n >= 1.
- Loader.ParseFile: the tokens are integers already. `atoi` on non-numeric text is not modelled.
- Repair.ParseRow: modelled as written. The row is re-validated with m and n exchanged in the block geometry (game.c:238), so for m != n the block checked is a different rectangle.
- Backtrack.ExBacktrack: states the result as `Backtrack.Count`, a recursive count over the search tree in the source's order. When a legal digit completes the board at the last empty cell, the source counts that solution and backtracks without trying the larger digits. `Count` follows this; no proof connects `Count` to the number of completions of the board.
- Backtrack.ExBacktrack: the solution counter is an unbounded integer. The source's 32-bit `int` would overflow on a board with more than 2^31 - 1 solutions, such as a nearly empty 9 x 9 board; the model counts exactly.
- Game.Hint: only the guards and the returned digit are modelled. Which digit the ILP chooses is the oracle.
- Game.NumOfSolutions: requires count_hid to count the empty cells and the scratch values to be clear. `Game.Consistent` provides both for every session the commands produce.
- Game.Start: main.c starts with no board (`board = NULL`) and with `rows`, `cols` and `count_hid` uninitialised. The model's empty m x n board, its m and n and its count_hid of N*N are placeholders. No command accepted in INIT reads them; loading a file replaces all of them.
- Game.UndoStep: does not restate the printed "Undo x,y: from a to b" lines.
