/** The game commands of game.c on a session: the mode, the block geometry,
    the board, count_hid and the undo/redo history.  A failing command
    returns its error and leaves the session as it was; the calls into the
    ILP solver are parameters (an oracle answer for the board at hand). */
module Game {
  import opened Structs
  import opened StructFunctions
  import opened Validation
  import opened Edits
  import opened Backtrack
  import opened Moves
  import opened AutoFill
  import opened Timeline

  datatype Session = Session(mode: Mode, m: int, n: int, board: Grid, countHid: int, history: History)

  /** Why a command was refused (the message main_aux.c prints). */
  datatype Error =
    | InvalidCommand     // not available in this mode
    | OutOfRange
    | FixedCell
    | NothingToUndo
    | NothingToRedo
    | ContainsErrors
    | CellHasValue
    | Unsolvable
    | BoardNotEmpty
    | GenerationFailed

  datatype Outcome<T> = Ok(value: T) | Err(error: Error)

  function Size(s: Session): int
  {
    s.m * s.n
  }

  /** The shape every command relies on: a board of N x N cells, N = m * n,
      and a history whose moves name cells of the board. */
  predicate WellFormed(s: Session)
  {
    && s.m >= 1 && s.n >= 1
    && IsGrid(s.board, Size(s))
    && ValidHistory(s.history)
    && forall k :: 0 <= k < |s.history.moves| ==> StepsOnBoard(s.history.moves[k], Size(s))
  }

  /** No recorded move names a FIXED cell. */
  ghost predicate MovesAvoidFixed(g: Grid, h: History)
    requires IsGrid(g, |g|)
  {
    forall k, l :: 0 <= k < |h.moves| && 0 <= l < |h.moves[k]| && OnBoard(g, h.moves[k][l].row, h.moves[k][l].col)
                   ==> g[h.moves[k][l].row][h.moves[k][l].col].status != Fixed
  }

  /** The invariant every command keeps: count_hid counts the empty cells,
      an empty cell is exactly a HIDDEN one, the scratch values are clear,
      the history is coherent with the board and never names a FIXED
      cell. */
  ghost predicate Consistent(s: Session)
  {
    && WellFormed(s)
    && s.countHid == Zeros(s.board)
    && StatusMatchesValue(s.board) && AltClear(s.board)
    && Coherent(Nums(s.board), s.history)
    && MovesAvoidFixed(s.board, s.history)
  }

  /** main.c: the session starts in INIT with the sentinel alone.  main.c
      has no board yet; the empty m x n board, m, n and count_hid here are
      placeholders that no command accepted in INIT reads. */
  function Start(m: int, n: int): (s: Session)
    requires m >= 1 && n >= 1
    ensures s.mode == Init && Consistent(s) && !CanUndo(s.history) && !CanRedo(s.history)
  {
    EmptyBoardConsistent(m, n);
    Session(Init, m, n, CreateEmptyBoard(m, n), (m * n) * (m * n), InitialHistory())
  }

  // ------------------------------------------------------------ switch_mode

  /** switch_mode (game.c:377-392): 1, 2, 3 select INIT, EDIT, SOLVE, any
      other value keeps the mode; the history is emptied in every case. */
  function SwitchMode(s: Session, val: int): (s': Session)
    requires ValidHistory(s.history)
  {
    var mode := if val == 1 then Init else if val == 2 then Edit else if val == 3 then Solve else s.mode;
    s.(mode := mode, history := Clear(s.history))
  }

  // ------------------------------------------------------------ queries

  /** erroneous_board (game.c:327-337). */
  method ErroneousBoard(g: Grid, size: int) returns (found: bool)
    requires IsGrid(g, size)
    ensures found <==> !NoErroneous(g)
  {
    var i := 0;
    while i < size
      invariant 0 <= i <= size
      invariant forall r, c :: 0 <= r < i && 0 <= c < size ==> g[r][c].status != Erroneous
    {
      var j := 0;
      while j < size
        invariant 0 <= j <= size
        invariant forall r, c :: 0 <= r < i && 0 <= c < size ==> g[r][c].status != Erroneous
        invariant forall c :: 0 <= c < j ==> g[i][c].status != Erroneous
      {
        if g[i][j].status == Erroneous {
          return true;
        }
        j := j + 1;
      }
      i := i + 1;
    }
    return false;
  }

  /** validate (game.c:347-366) with the ILP verdict for the board as a
      parameter: 2 when the board is solvable, 0 for an erroneous board
      when no message is printed, 3 otherwise. */
  function ValidateCode(mode: Mode, g: Grid, printMsg: bool, solvable: bool): (code: int)
    ensures code == 2 <==> mode != Init && NoErroneous(g) && solvable
    ensures code == 0 <==> mode != Init && !NoErroneous(g) && !printMsg
  {
    if mode == Init then 3
    else if !NoErroneous(g) then (if printMsg then 3 else 0)
    else if solvable then 2
    else 3
  }

  /** The end-of-game check of set and autofill (game.c:458-465, 776-782):
      a full board that validates ends the puzzle and returns to INIT. */
  function Finish(s: Session, solvable: Grid -> bool): (s': Session)
    requires ValidHistory(s.history)
    ensures WellFormed(s) ==> WellFormed(s')
  {
    if s.countHid == 0 && s.mode == Solve && ValidateCode(s.mode, s.board, false, solvable(s.board)) == 2
    then SwitchMode(s, 1)
    else s
  }

  // ------------------------------------------------------------ set

  /** Recording a move on the board keeps every move on the board. */
  lemma RecordOnBoard(h: History, mv: Move, size: int)
    requires ValidHistory(h) && mv != [] && StepsOnBoard(mv, size)
    requires forall k :: 0 <= k < |h.moves| ==> StepsOnBoard(h.moves[k], size)
    ensures forall k :: 0 <= k < |Record(h, mv).moves| ==> StepsOnBoard(Record(h, mv).moves[k], size)
  {
    var h' := Record(h, mv);
    forall k | 0 <= k < |h'.moves| - 1 ensures h'.moves[k] == h.moves[k] {
      assert h'.moves[k] == h'.moves[..h'.cursor][k];
    }
  }

  /** The change set makes to a cell holding another value (game.c:430-455):
      the board write, count_hid, and the one-step move recorded after the
      forward part of the history is dropped. */
  function Place(s: Session, col: int, row: int, dig: int): (s': Session)
    requires WellFormed(s) && 0 <= row < Size(s) && 0 <= col < Size(s)
    ensures WellFormed(s') && s'.mode == s.mode && s'.m == s.m && s'.n == s.n
  {
    var prev := s.board[row][col].num;
    if prev == dig then s
    else
      RecordOnBoard(s.history, [Change(prev, dig, col, row)], Size(s));
      s.(board := SetBoard(s.board, row, col, dig, s.m, s.n),
            countHid := s.countHid + (if dig == 0 then 1 else 0) - (if prev == 0 then 1 else 0),
            history := Record(s.history, [Change(prev, dig, col, row)]))
  }

  /** set (game.c:414-467).  The oracle tells whether a board is solvable. */
  function Set(s: Session, col: int, row: int, dig: int, solvable: Grid -> bool): (r: Outcome<Session>)
    requires WellFormed(s)
    ensures r.Ok? ==> WellFormed(r.value)
  {
    var size := Size(s);
    if s.mode == Init then Err(InvalidCommand)
    else if col < 0 || row < 0 || dig < 0 || col >= size || row >= size || dig > size then Err(OutOfRange)
    else if s.board[row][col].status == Fixed then Err(FixedCell)
    else Ok(Finish(Place(s, col, row, dig), solvable))
  }

  // ------------------------------------------------------------ undo / redo

  /** The board side of undo: every step of the current move is undone
      and the cursor steps back (game.c:597-641). */
  function UndoStep(s: Session): (s': Session)
    requires WellFormed(s) && CanUndo(s.history)
    ensures WellFormed(s') && s'.history == StepBack(s.history)
    ensures s'.mode == s.mode && s'.m == s.m && s'.n == s.n
  {
    var b := ApplyMove(s.board, s.countHid, s.history.moves[s.history.cursor], false, s.m, s.n);
    s.(board := b.0, countHid := b.1, history := StepBack(s.history))
  }

  /** The board side of redo: the cursor steps forward and every step of
      the move there is redone (game.c:673-697). */
  function RedoStep(s: Session): (s': Session)
    requires WellFormed(s) && CanRedo(s.history)
    ensures WellFormed(s') && s'.history == StepForward(s.history)
    ensures s'.mode == s.mode && s'.m == s.m && s'.n == s.n
  {
    var h := StepForward(s.history);
    var b := ApplyMove(s.board, s.countHid, h.moves[h.cursor], true, s.m, s.n);
    s.(board := b.0, countHid := b.1, history := h)
  }

  /** undo (game.c:586-643). */
  function Undo(s: Session): (r: Outcome<Session>)
    requires WellFormed(s)
    ensures r.Ok? ==> WellFormed(r.value)
  {
    if s.mode == Init then Err(InvalidCommand)
    else if !CanUndo(s.history) then Err(NothingToUndo)
    else Ok(UndoStep(s))
  }

  /** redo (game.c:661-716). */
  function Redo(s: Session): (r: Outcome<Session>)
    requires WellFormed(s)
    ensures r.Ok? ==> WellFormed(r.value)
  {
    if s.mode == Init then Err(InvalidCommand)
    else if !CanRedo(s.history) then Err(NothingToRedo)
    else Ok(RedoStep(s))
  }

  /** reset's loop (game.c:952-954): undo until the current node is the
      sentinel. */
  function UndoAll(s: Session): (s': Session)
    requires WellFormed(s)
    ensures WellFormed(s') && s'.history.moves == s.history.moves && s'.history.cursor == 0
    ensures s'.mode == s.mode && s'.m == s.m && s'.n == s.n
    decreases s.history.cursor
  {
    if !CanUndo(s.history) then s
    else UndoAll(UndoStep(s))
  }

  /** reset (game.c:947-960): undo everything, then drop every move. */
  function Reset(s: Session): (r: Outcome<Session>)
    requires WellFormed(s)
  {
    if s.mode == Init then Err(InvalidCommand)
    else
      var u := UndoAll(s);
      Ok(u.(history := DropFrom(u.history, 1)))
  }

  // ------------------------------------------------------------ autofill

  /** The change autofill makes (game.c:737-775): stage the forced cells,
      commit them with create_move_from_board, and record the move when it
      is not empty. */
  function Fill(s: Session): (s': Session)
    requires WellFormed(s)
  {
    var staged := Sweep(s.board, s.countHid, s.m, s.n);
    var mv := StepsOf(staged.0, Scratch);
    var h := if mv != [] then Record(s.history, mv) else s.history;
    s.(board := CommitStaged(staged.0), countHid := staged.1, history := h)
  }

  /** autofill (game.c:729-785). */
  function Autofill(s: Session, solvable: Grid -> bool): (r: Outcome<Session>)
    requires WellFormed(s)
  {
    if s.mode != Solve then Err(InvalidCommand)
    else if !NoErroneous(s.board) then Err(ContainsErrors)
    else Ok(Finish(Fill(s), solvable))
  }

  // ------------------------------------------------------------ hint

  /** hint (game.c:800-832): the guards in the source's order, then the
      oracle's digit for the cell, 0 standing for an unsolvable board. */
  function Hint(s: Session, col: int, row: int, oracle: int): (r: Outcome<int>)
    requires WellFormed(s)
  {
    var size := Size(s);
    if s.mode != Solve then Err(InvalidCommand)
    else if col < 0 || row < 0 || col >= size || row >= size then Err(OutOfRange)
    else if !NoErroneous(s.board) then Err(ContainsErrors)
    else if s.board[row][col].status == Fixed then Err(FixedCell)
    else if s.board[row][col].num != 0 then Err(CellHasValue)
    else if oracle == 0 then Err(Unsolvable)
    else Ok(oracle)
  }

  // ------------------------------------------------------------ generate

  /** clear_board (game.c:80-92), the branch that clears the whole board. */
  function ClearAll(g: Grid): (g': Grid)
    ensures |g'| == |g| && forall i :: 0 <= i < |g| ==> |g'[i]| == |g[i]|
    ensures forall i, j :: OnBoard(g, i, j) ==> g'[i][j] == g[i][j].(num := 0, status := Hidden)
  {
    seq(|g|, i requires 0 <= i < |g| =>
      seq(|g[i]|, j requires 0 <= j < |g[i]| => g[i][j].(num := 0, status := Hidden)))
  }

  /** The board generate leaves: the solved values at the kept cells, SHOWN
      (as the ILP result is written back), every other cell cleared. */
  function KeepCells(g: Grid, solved: Grid, keep: set<(int, int)>): (g': Grid)
    requires IsGrid(solved, |g|) && IsGrid(g, |g|)
    ensures IsGrid(g', |g|)
    ensures forall i, j :: OnBoard(g, i, j) ==>
              g'[i][j] == if (i, j) in keep then g[i][j].(num := solved[i][j].num, status := Shown)
                          else g[i][j].(num := 0, status := Hidden)
  {
    seq(|g|, i requires 0 <= i < |g| =>
      seq(|g|, j requires 0 <= j < |g| =>
        if (i, j) in keep then g[i][j].(num := solved[i][j].num, status := Shown)
        else g[i][j].(num := 0, status := Hidden)))
  }

  /** Keeping at least one cell of a completed board leaves a nonempty move. */
  lemma KeptSteps(g: Grid, solved: Grid, keep: set<(int, int)>)
    requires IsGrid(g, |g|) && Completed(solved, |g|) && keep != {}
    requires forall p :: p in keep ==> 0 <= p.0 < |g| && 0 <= p.1 < |g|
    ensures StepsOf(KeepCells(g, solved, keep), Committed) != []
  {
    var k := KeepCells(g, solved, keep);
    var p :| p in keep;
    assert OnBoard(k, p.0, p.1) && Value(k[p.0][p.1], Committed) != 0;
  }

  /** A completed board: every committed value is a digit of 1..N. */
  predicate Completed(g: Grid, size: int)
  {
    IsGrid(g, size) && forall i, j | 0 <= i < size && 0 <= j < size :: 1 <= g[i][j].num <= size
  }

  /** generate (game.c:526-568).  The random filling and the ILP run are the
      oracle `solved`: the completed board of the first successful attempt,
      or None when all 1000 attempts fail; the random clearing is `keep`,
      the y cells that survive it. */
  function Generate(s: Session, x: int, y: int, solved: Option<Grid>, keep: set<(int, int)>): (r: Outcome<Session>)
    requires WellFormed(s)
    requires solved.Some? ==> Completed(solved.value, Size(s))
    requires forall p :: p in keep ==> 0 <= p.0 < Size(s) && 0 <= p.1 < Size(s)
    requires 0 < y <= Size(s) * Size(s) ==> |keep| == y
  {
    var size := Size(s);
    if s.mode != Edit then Err(InvalidCommand)
    else if x < 0 || x > size * size || y < 0 || y > size * size then Err(OutOfRange)
    else if s.countHid < size * size then Err(BoardNotEmpty)
    else if y == 0 then Ok(s)
    else if solved.None? then Err(GenerationFailed)
    else
      var g := KeepCells(s.board, solved.value, keep);
      var mv := StepsOf(g, Committed);
      KeptSteps(s.board, solved.value, keep);
      Ok(s.(board := g, countHid := size * size - y, history := Record(s.history, mv)))
  }

  // ------------------------------------------------------------ num_of_solutions

  /** num_of_solutions (game.c:1035-1052): the guards, then the exhaustive
      count, which leaves the board as it was. */
  method NumOfSolutions(s: Session) returns (r: Outcome<nat>, board': Grid)
    requires WellFormed(s) && s.countHid == Zeros(s.board) && AltClear(s.board)
    ensures r.Err? <==> s.mode == Init || !NoErroneous(s.board)
    ensures r.Err? ==> r.error == (if s.mode == Init then InvalidCommand else ContainsErrors)
    ensures r.Ok? ==> r.value == Count(ClearFillAlt(s.board, true), s.m, s.n, Solutions)
    ensures r.Ok? && Zeros(s.board) == 0 ==> r.value == 1
    ensures board' == s.board
  {
    board' := s.board;
    if s.mode == Init {
      return Err(InvalidCommand), board';
    }
    var bad := ErroneousBoard(s.board, Size(s));
    if bad {
      return Err(ContainsErrors), board';
    }
    var sols;
    sols, board' := ExBacktrack(s.board, s.m, s.n, s.countHid);
    ClearFillAltIdle(s.board);
    r := Ok(sols);
  }

  /** Clearing the scratch values of a board whose scratch values are clear
      changes nothing. */
  lemma ClearFillAltIdle(g: Grid)
    requires AltClear(g)
    ensures ClearFillAlt(g, false) == g
  {
    var g' := ClearFillAlt(g, false);
    forall i, j | OnBoard(g, i, j) ensures g'[i][j] == g[i][j] {
    }
    SameGrid(g', g);
  }
}
