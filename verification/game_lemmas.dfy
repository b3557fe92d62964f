/** What the game commands promise: each keeps the session consistent, set
    writes its cell and records one step, undo and redo are inverse to each
    other, reset returns to the sentinel, autofill fills exactly the forced
    cells, generate leaves y solved cells. */
module GameLemmas {
  import opened Structs
  import opened StructFunctions
  import opened Validation
  import opened Repair
  import opened Edits
  import opened Moves
  import opened AutoFill
  import opened Timeline
  import opened Game

  // ------------------------------------------------------------ helpers

  /** Two square boards with the same committed values have the same
      number of empty cells. */
  lemma ZerosByNums(a: Grid, b: Grid)
    requires IsGrid(a, |a|) && IsGrid(b, |a|) && Nums(a) == Nums(b)
    ensures Zeros(a) == Zeros(b)
  {
    forall i, j | OnBoard(a, i, j) ensures Value(a[i][j], Committed) == Value(b[i][j], Committed) {
      assert Nums(a)[i][j] == Nums(b)[i][j];
    }
    EmptyCellsSameValues(a, b, Committed);
  }

  /** The same cells are FIXED on both boards. */
  ghost predicate FixedSame(g: Grid, g': Grid)
  {
    && |g'| == |g| && (forall i :: 0 <= i < |g| ==> |g'[i]| == |g[i]|)
    && forall i, j :: OnBoard(g, i, j) ==> (g'[i][j].status == Fixed <==> g[i][j].status == Fixed)
  }

  lemma AvoidFixedSame(g: Grid, g': Grid, h: History)
    requires IsGrid(g, |g|) && FixedSame(g, g') && MovesAvoidFixed(g, h)
    ensures IsGrid(g', |g'|) && MovesAvoidFixed(g', h)
  {
  }

  /** Recording a move that avoids the FIXED cells. */
  lemma AvoidFixedRecord(g: Grid, h: History, mv: Move)
    requires IsGrid(g, |g|) && ValidHistory(h) && mv != [] && MovesAvoidFixed(g, h)
    requires forall l :: 0 <= l < |mv| && OnBoard(g, mv[l].row, mv[l].col) ==> g[mv[l].row][mv[l].col].status != Fixed
    ensures MovesAvoidFixed(g, Record(h, mv))
  {
    var h' := Record(h, mv);
    forall k | 0 <= k < |h'.moves| - 1 ensures h'.moves[k] == h.moves[k] {
      assert h'.moves[k] == h'.moves[..h'.cursor][k];
    }
  }

  /** A write at a non-FIXED cell keeps the FIXED cells. */
  lemma WroteFixedSame(g: Grid, g': Grid, r: int, c: int, v: int)
    requires Wrote(g, g', r, c, v) && g[r][c].status != Fixed
    ensures FixedSame(g, g')
  {
  }

  /** A one-step move, redone, writes its target value at its cell. */
  lemma ApplyNumsOne(v: Values, c: Change, forward: bool)
    requires Square(v) && 0 <= c.row < |v| && 0 <= c.col < |v|
    ensures StepsOnBoard([c], |v|) && ApplyNums(v, [c], forward) == v[c.row := v[c.row][c.col := To(c, forward)]]
  {
    var mv := [c];
    assert mv[1..] == [];
  }

  // ------------------------------------------------------------ finish / switch_mode

  /** switch_mode keeps the board and leaves the sentinel alone in the
      history; the mode follows the selector. */
  lemma SwitchModeEffect(s: Session, val: int)
    requires Consistent(s)
    ensures var s' := SwitchMode(s, val);
            && Consistent(s') && s'.board == s.board && s'.countHid == s.countHid
            && |s'.history.moves| == 1 && !CanUndo(s'.history) && !CanRedo(s'.history)
            && s'.mode == (if val == 1 then Init else if val == 2 then Edit else if val == 3 then Solve else s.mode)
  {
    var s' := SwitchMode(s, val);
    CoherentSentinel(Nums(s.board), s'.history);
    assert s'.history.moves[0] == [];
  }

  /** The end-of-game check keeps the board and count_hid; it either leaves
      the session alone or ends the puzzle (INIT, history emptied), and it
      ends it exactly when a SOLVE board is full, free of errors and
      solvable. */
  lemma FinishEffect(s: Session, solvable: Grid -> bool)
    requires Consistent(s)
    ensures var s' := Finish(s, solvable);
            && Consistent(s') && s'.board == s.board && s'.countHid == s.countHid
            && (s' == s || (s'.mode == Init && |s'.history.moves| == 1))
            && (s'.mode == Init && s.mode != Init <==>
                  s.mode == Solve && Zeros(s.board) == 0 && NoErroneous(s.board) && solvable(s.board))
  {
    SwitchModeEffect(s, 1);
  }

  // ------------------------------------------------------------ set

  /** set fails, and leaves the session alone, exactly when the mode is
      INIT, a coordinate or the digit is out of range, or the cell is FIXED,
      each reported in that order. */
  lemma SetGuards(s: Session, col: int, row: int, dig: int, solvable: Grid -> bool)
    requires WellFormed(s)
    ensures var size := Size(s);
            var outOfRange := col < 0 || row < 0 || dig < 0 || col >= size || row >= size || dig > size;
            && (Set(s, col, row, dig, solvable).Err? <==>
                  s.mode == Init || outOfRange || s.board[row][col].status == Fixed)
            && (s.mode == Init ==> Set(s, col, row, dig, solvable) == Err(InvalidCommand))
            && (s.mode != Init && outOfRange ==> Set(s, col, row, dig, solvable) == Err(OutOfRange))
            && (s.mode != Init && !outOfRange && s.board[row][col].status == Fixed ==>
                  Set(s, col, row, dig, solvable) == Err(FixedCell))
  {
  }

  /** A set that writes the value the cell already holds records nothing and
      changes no cell. */
  lemma PlaceSameValue(s: Session, col: int, row: int)
    requires WellFormed(s) && 0 <= row < Size(s) && 0 <= col < Size(s)
    ensures Place(s, col, row, s.board[row][col].num) == s
  {
  }

  /** A set that changes the cell writes dig there and nowhere else on the
      committed values, keeps count_hid counting the empty cells, and ends
      the history with the one step prev -> dig, with nothing to redo. */
  lemma PlaceRecords(s: Session, col: int, row: int, dig: int)
    requires Consistent(s) && 0 <= row < Size(s) && 0 <= col < Size(s)
    requires s.board[row][col].status != Fixed && s.board[row][col].num != dig
    ensures var s' := Place(s, col, row, dig);
            && Consistent(s')
            && Nums(s'.board) == Nums(s.board)[row := Nums(s.board)[row][col := dig]]
            && s'.history.moves[s'.history.cursor] == [Change(s.board[row][col].num, dig, col, row)]
            && CanUndo(s'.history) && !CanRedo(s'.history)
  {
    var g: Grid := s.board;
    var prev := g[row][col].num;
    var s' := Place(s, col, row, dig);
    var c := Change(prev, dig, col, row);
    assert s' == s.(board := s'.board, countHid := s'.countHid, history := Record(s.history, [c]));
    PlaceBoard(g, row, col, dig, s.m, s.n);
    PlaceHistory(g, s'.board, s.history, c);
  }

  /** The board of a set that changes a non-FIXED cell: a write of dig that
      keeps the status and scratch invariants and the FIXED cells. */
  lemma PlaceBoard(g: Grid, row: int, col: int, dig: int, m: int, n: int)
    requires IsGrid(g, |g|) && OnBoard(g, row, col) && g[row][col].status != Fixed && g[row][col].num != dig
    requires StatusMatchesValue(g) && AltClear(g)
    ensures var g' := SetBoard(g, row, col, dig, m, n);
            && Zeros(g') == Zeros(g) - (if g[row][col].num == 0 then 1 else 0) + (if dig == 0 then 1 else 0)
            && StatusMatchesValue(g') && AltClear(g') && FixedSame(g, g')
            && Nums(g') == Nums(g)[row := Nums(g)[row][col := dig]]
  {
    var g' := SetBoard(g, row, col, dig, m, n);
    SetBoardEffect(g, row, col, dig, m, n);
    WroteZeros(g, g', row, col, dig);
    WroteStatusMatches(g, g', row, col, dig);
    WroteAltClear(g, g', row, col, dig);
    WroteNums(g, g', row, col, dig);
    WroteFixedSame(g, g', row, col, dig);
  }

  /** Recording the one step c of a set keeps the history coherent with the
      values after the write and clear of the FIXED cells. */
  lemma PlaceHistory(g: Grid, g': Grid, h: History, c: Change)
    requires IsGrid(g, |g|) && OnBoard(g, c.row, c.col) && g[c.row][c.col].num == c.prevVal
    requires g[c.row][c.col].status != Fixed
    requires Coherent(Nums(g), h) && MovesAvoidFixed(g, h) && FixedSame(g, g')
    requires forall k :: 0 <= k < |h.moves| ==> StepsOnBoard(h.moves[k], |g|)
    requires Nums(g') == Nums(g)[c.row := Nums(g)[c.row][c.col := c.newVal]]
    ensures StepsOnBoard([c], |g|)
    ensures Coherent(Nums(g'), Record(h, [c])) && MovesAvoidFixed(g', Record(h, [c]))
  {
    var v := Nums(g);
    ApplyNumsOne(v, c, true);
    assert Fits(v, [c], true);
    CoherentRecord(v, h, [c]);
    AvoidFixedSame(g, g', h);
    AvoidFixedRecord(g', h, [c]);
  }

  /** A set that changes the cell, on the board: the cell holds dig, HIDDEN
      exactly for 0 and otherwise SHOWN exactly when no other cell of its
      row, column or block holds dig; the cells there holding dig become
      ERRONEOUS unless FIXED; every other cell keeps its value and scratch
      value. */
  lemma PlaceEffect(s: Session, col: int, row: int, dig: int)
    requires Consistent(s) && 0 <= row < Size(s) && 0 <= col < Size(s)
    requires s.board[row][col].status != Fixed && s.board[row][col].num != dig
    ensures var s' := Place(s, col, row, dig);
            && Wrote(s.board, s'.board, row, col, dig)
            && (dig != 0 ==> (s'.board[row][col].status == Shown <==> Unique(s.board, dig, row, col, s.m, s.n)))
            && (dig != 0 ==> forall i, j :: OnBoard(s.board, i, j) && (i, j) != (row, col) && Sees(row, col, s.m, s.n, i, j)
                                          && s.board[i][j].num == dig && s.board[i][j].status != Fixed
                                          ==> s'.board[i][j].status == Erroneous)
  {
    SetBoardEffect(s.board, row, col, dig, s.m, s.n);
  }

  /** set keeps the session consistent. */
  lemma SetKeepsConsistent(s: Session, col: int, row: int, dig: int, solvable: Grid -> bool)
    requires Consistent(s)
    ensures Set(s, col, row, dig, solvable).Ok? ==> Consistent(Set(s, col, row, dig, solvable).value)
  {
    if Set(s, col, row, dig, solvable).Ok? {
      if s.board[row][col].num != dig {
        PlaceRecords(s, col, row, dig);
      }
      FinishEffect(Place(s, col, row, dig), solvable);
    }
  }

  // ------------------------------------------------------------ undo / redo

  /** undo on a consistent session: every cell of the current move gets
      back the value before the move, every other cell keeps its value,
      count_hid follows, and the session stays consistent. */
  lemma UndoStepEffect(s: Session)
    requires Consistent(s) && CanUndo(s.history)
    ensures var s' := UndoStep(s);
            && Nums(s'.board) == ApplyNums(Nums(s.board), s.history.moves[s.history.cursor], false)
            && Consistent(s')
  {
    var g: Grid := s.board;
    var mv := s.history.moves[s.history.cursor];
    var h' := StepBack(s.history);
    var b := ApplyMove(g, s.countHid, mv, false, s.m, s.n);
    assert UndoStep(s) == s.(board := b.0, countHid := b.1, history := h');
    CoherentStepBack(Nums(g), s.history);
    MoveEffect(g, s.countHid, mv, false, s.m, s.n, s.history, s.history.cursor, h');
    ConsistentParts(UndoStep(s));
  }

  /** The statuses after undo: every step of the move undone re-runs set's
      board change, so each cell it writes is HIDDEN, SHOWN or ERRONEOUS by
      set's rule and the cells it sees are flagged or repaired as set does
      (game.c:605-612). */
  lemma UndoStepStatuses(s: Session)
    requires Consistent(s) && CanUndo(s.history)
    ensures UndoStep(s).board == SetSteps(s.board, s.history.moves[s.history.cursor], false, s.m, s.n)
  {
    var mv := s.history.moves[s.history.cursor];
    SentinelIsFirst(s.history);
    assert Fits(Nums(s.board), mv, false);
    ApplyMoveIsSets(s.board, s.countHid, mv, false, s.m, s.n);
  }

  /** The statuses after redo, as for undo (game.c:682-688). */
  lemma RedoStepStatuses(s: Session)
    requires Consistent(s) && CanRedo(s.history)
    ensures RedoStep(s).board == SetSteps(s.board, s.history.moves[s.history.cursor + 1], true, s.m, s.n)
  {
    var mv := s.history.moves[s.history.cursor + 1];
    assert Fits(Nums(s.board), mv, true);
    ApplyMoveIsSets(s.board, s.countHid, mv, true, s.m, s.n);
  }

  /** redo on a consistent session. */
  lemma RedoStepEffect(s: Session)
    requires Consistent(s) && CanRedo(s.history)
    ensures var s' := RedoStep(s);
            && Nums(s'.board) == ApplyNums(Nums(s.board), s.history.moves[s.history.cursor + 1], true)
            && Consistent(s')
  {
    var g: Grid := s.board;
    var mv := s.history.moves[s.history.cursor + 1];
    var h' := StepForward(s.history);
    var b := ApplyMove(g, s.countHid, mv, true, s.m, s.n);
    assert RedoStep(s) == s.(board := b.0, countHid := b.1, history := h');
    CoherentStepForward(Nums(g), s.history);
    MoveEffect(g, s.countHid, mv, true, s.m, s.n, s.history, s.history.cursor + 1, h');
    ConsistentParts(RedoStep(s));
  }

  /** The parts of the session invariant, one by one. */
  lemma ConsistentParts(s: Session)
    requires WellFormed(s) && s.countHid == Zeros(s.board)
    requires StatusMatchesValue(s.board) && AltClear(s.board)
    requires Coherent(Nums(s.board), s.history) && MovesAvoidFixed(s.board, s.history)
    ensures Consistent(s)
  {
  }

  /** Undoing or redoing a recorded move that fits the committed values: the
      values follow the reference, count_hid still counts the empty cells,
      and the status and scratch invariants and the FIXED cells are kept. */
  lemma MoveEffect(g: Grid, cnt: int, mv: Move, forward: bool, m: int, n: int, h: History, k: int, h': History)
    requires IsGrid(g, |g|) && Fits(Nums(g), mv, forward)
    requires cnt == Zeros(g) && StatusMatchesValue(g) && AltClear(g)
    requires 0 <= k < |h.moves| && h.moves[k] == mv && MovesAvoidFixed(g, h) && h'.moves == h.moves
    ensures var r := ApplyMove(g, cnt, mv, forward, m, n);
            && Nums(r.0) == ApplyNums(Nums(g), mv, forward)
            && r.1 == Zeros(r.0) && StatusMatchesValue(r.0) && AltClear(r.0)
            && MovesAvoidFixed(r.0, h')
  {
    ApplyMoveTracks(g, cnt, mv, forward, m, n);
    ApplyMoveKeeps(g, cnt, mv, forward, m, n);
    MoveKeepsFixed(g, cnt, mv, forward, m, n, h, k);
    AvoidFixedSame(g, ApplyMove(g, cnt, mv, forward, m, n).0, h);
  }

  /** A recorded move keeps the FIXED cells. */
  lemma MoveKeepsFixed(g: Grid, cnt: int, mv: Move, forward: bool, m: int, n: int, h: History, k: int)
    requires IsGrid(g, |g|) && StepsOnBoard(mv, |g|) && 0 <= k < |h.moves| && h.moves[k] == mv
    requires MovesAvoidFixed(g, h)
    ensures FixedSame(g, ApplyMove(g, cnt, mv, forward, m, n).0)
  {
    var g' := ApplyMove(g, cnt, mv, forward, m, n).0;
    ApplyMoveKeeps(g, cnt, mv, forward, m, n);
    forall i, j | OnBoard(g, i, j) && g[i][j].status == Fixed ensures !Names(mv, i, j) {
      forall l | 0 <= l < |mv| ensures !(mv[l].row == i && mv[l].col == j) {
        assert h.moves[k][l] == mv[l];
      }
    }
  }

  /** undo then redo gives back the committed values, count_hid and the
      history. */
  lemma UndoThenRedo(s: Session)
    requires Consistent(s) && Undo(s).Ok?
    ensures Redo(Undo(s).value).Ok?
    ensures var s' := Redo(Undo(s).value).value;
            Nums(s'.board) == Nums(s.board) && s'.countHid == s.countHid && s'.history == s.history
  {
    UndoRedoSteps(s);
  }

  /** The board side of undo then redo. */
  lemma UndoRedoSteps(s: Session)
    requires Consistent(s) && CanUndo(s.history)
    ensures CanRedo(UndoStep(s).history)
    ensures var s' := RedoStep(UndoStep(s));
            Nums(s'.board) == Nums(s.board) && s'.countHid == s.countHid && s'.history == s.history
  {
    var v := Nums(s.board);
    var mv := s.history.moves[s.history.cursor];
    var s1 := UndoStep(s);
    UndoStepEffect(s);
    assert s1.history.moves[s1.history.cursor + 1] == mv;
    var s2 := RedoStep(s1);
    RedoStepEffect(s1);
    assert Nums(s2.board) == v by {
      CoherentStepBack(v, s.history);
      ApplyNumsRoundTrip(v, mv, false);
    }
    StepBackForward(s.history);
    ZerosByNums(s2.board, s.board);
  }

  /** redo then undo gives back the committed values, count_hid and the
      history. */
  lemma RedoThenUndo(s: Session)
    requires Consistent(s) && Redo(s).Ok?
    ensures Undo(Redo(s).value).Ok?
    ensures var s' := Undo(Redo(s).value).value;
            Nums(s'.board) == Nums(s.board) && s'.countHid == s.countHid && s'.history == s.history
  {
    RedoUndoSteps(s);
  }

  /** The board side of redo then undo. */
  lemma RedoUndoSteps(s: Session)
    requires Consistent(s) && CanRedo(s.history)
    ensures CanUndo(RedoStep(s).history)
    ensures var s' := UndoStep(RedoStep(s));
            Nums(s'.board) == Nums(s.board) && s'.countHid == s.countHid && s'.history == s.history
  {
    var v := Nums(s.board);
    var mv := s.history.moves[s.history.cursor + 1];
    var s1 := RedoStep(s);
    RedoStepEffect(s);
    assert s1.history.moves[s1.history.cursor] == mv;
    var s2 := UndoStep(s1);
    UndoStepEffect(s1);
    assert Nums(s2.board) == v by {
      CoherentStepForward(v, s.history);
      ApplyNumsRoundTrip(v, mv, true);
    }
    ZerosByNums(s2.board, s.board);
  }

  /** A set that changes a cell, undone, gives back every committed value
      and count_hid (unless the set finished the puzzle, which empties the
      history). */
  lemma SetThenUndo(s: Session, col: int, row: int, dig: int, solvable: Grid -> bool)
    requires Consistent(s) && Set(s, col, row, dig, solvable).Ok?
    requires 0 <= row < Size(s) && 0 <= col < Size(s) && s.board[row][col].num != dig
    requires Set(s, col, row, dig, solvable).value.mode != Init
    ensures Undo(Set(s, col, row, dig, solvable).value).Ok?
    ensures var s' := Undo(Set(s, col, row, dig, solvable).value).value;
            Nums(s'.board) == Nums(s.board) && s'.countHid == s.countHid
  {
    var s1 := Place(s, col, row, dig);
    SetOk(s, col, row, dig, solvable);
    FinishIdle(s1, solvable);
    PlaceRecords(s, col, row, dig);
    UndoStepEffect(s1);
    var c := Change(s.board[row][col].num, dig, col, row);
    var v := Nums(s.board);
    ApplyNumsOne(v, c, true);
    assert Fits(v, [c], true);
    ApplyNumsRoundTrip(v, [c], true);
    var s2 := UndoStep(s1);
    assert Nums(s2.board) == v;
    ZerosByNums(s2.board, s.board);
  }

  /** A set that succeeds had its cell in range and not FIXED, and is the
      write followed by the end-of-game check. */
  lemma SetOk(s: Session, col: int, row: int, dig: int, solvable: Grid -> bool)
    requires WellFormed(s) && Set(s, col, row, dig, solvable).Ok?
    ensures 0 <= row < Size(s) && 0 <= col < Size(s) && s.board[row][col].status != Fixed
    ensures Set(s, col, row, dig, solvable).value == Finish(Place(s, col, row, dig), solvable)
  {
  }

  /** The end-of-game check either ends the puzzle or changes nothing, and
      it never leaves anything to redo that was not there. */
  lemma FinishIdle(s: Session, solvable: Grid -> bool)
    requires ValidHistory(s.history)
    ensures Finish(s, solvable).mode != Init ==> Finish(s, solvable) == s
    ensures CanRedo(Finish(s, solvable).history) ==> CanRedo(s.history)
  {
  }

  /** A set that changes a cell leaves nothing to redo. */
  lemma SetThenRedoFails(s: Session, col: int, row: int, dig: int, solvable: Grid -> bool)
    requires Consistent(s) && Set(s, col, row, dig, solvable).Ok?
    requires 0 <= row < Size(s) && 0 <= col < Size(s) && s.board[row][col].num != dig
    ensures Redo(Set(s, col, row, dig, solvable).value).Err?
  {
    var s1 := Place(s, col, row, dig);
    SetOk(s, col, row, dig, solvable);
    PlaceRecords(s, col, row, dig);
    FinishIdle(s1, solvable);
  }

  // ------------------------------------------------------------ reset

  /** undo repeated down to the sentinel keeps the session consistent and
      leaves the values the history held at its sentinel. */
  lemma UndoAllConsistent(s: Session)
    requires Consistent(s)
    ensures Consistent(UndoAll(s))
    ensures Back(Nums(s.board), s.history.moves, s.history.cursor)
    ensures Nums(UndoAll(s).board) == Rewound(Nums(s.board), s.history.moves, s.history.cursor)
  {
    UndoAllKeeps(s);
    UndoAllRewinds(s);
  }

  /** The invariant half of undoing everything. */
  lemma {:induction false} UndoAllKeeps(s: Session)
    requires Consistent(s)
    ensures Consistent(UndoAll(s))
    decreases s.history.cursor
  {
    if CanUndo(s.history) {
      UndoStepEffect(s);
      UndoAllKeeps(UndoStep(s));
    }
  }

  /** The values half of undoing everything. */
  lemma {:induction false} UndoAllRewinds(s: Session)
    requires Consistent(s)
    ensures Back(Nums(s.board), s.history.moves, s.history.cursor)
    ensures Nums(UndoAll(s).board) == Rewound(Nums(s.board), s.history.moves, s.history.cursor)
    decreases s.history.cursor
  {
    var v := Nums(s.board);
    var h := s.history;
    assert Back(v, h.moves, h.cursor);
    if CanUndo(h) {
      var s1 := UndoStep(s);
      UndoStepEffect(s);
      UndoAllRewinds(s1);
      assert UndoAll(s) == UndoAll(s1);
      assert Rewound(v, h.moves, h.cursor) == Rewound(Nums(s1.board), h.moves, h.cursor - 1);
    } else {
      SentinelIsFirst(h);
    }
  }

  /** reset: outside INIT it succeeds, the session stays consistent, the
      mode is kept, the board is back to the values it held before the
      first recorded move, and only the sentinel is left in the history. */
  lemma ResetEffect(s: Session)
    requires Consistent(s)
    ensures Reset(s).Ok? <==> s.mode != Init
    ensures Reset(s).Ok? ==> Back(Nums(s.board), s.history.moves, s.history.cursor)
    ensures Reset(s).Ok? ==> var s' := Reset(s).value;
              && Consistent(s') && s'.mode == s.mode
              && Nums(s'.board) == Rewound(Nums(s.board), s.history.moves, s.history.cursor)
              && |s'.history.moves| == 1 && !CanUndo(s'.history) && !CanRedo(s'.history)
  {
    if s.mode != Init {
      UndoAllConsistent(s);
      var u := UndoAll(s);
      var s' := Reset(s).value;
      CoherentSentinel(Nums(u.board), s'.history);
      assert s'.history.moves == [u.history.moves[0]];
    }
  }

  /** From a history holding only the sentinel (right after a load or a
      reset), a set that changes a cell and does not end the puzzle is
      taken back by reset: the board returns to its values before the set. */
  lemma SetThenReset(s: Session, col: int, row: int, dig: int, solvable: Grid -> bool)
    requires Consistent(s) && s.history.cursor == 0 && Set(s, col, row, dig, solvable).Ok?
    requires 0 <= row < Size(s) && 0 <= col < Size(s) && s.board[row][col].num != dig
    requires Set(s, col, row, dig, solvable).value.mode != Init
    ensures Reset(Set(s, col, row, dig, solvable).value).Ok?
    ensures Nums(Reset(Set(s, col, row, dig, solvable).value).value.board) == Nums(s.board)
  {
    var s1 := Set(s, col, row, dig, solvable).value;
    SetThenUndo(s, col, row, dig, solvable);
    SetOk(s, col, row, dig, solvable);
    FinishIdle(Place(s, col, row, dig), solvable);
    PlaceRecords(s, col, row, dig);
    var u := UndoStep(s1);
    assert u.history.cursor == 0;
    assert UndoAll(s1) == UndoAll(u) == u;
  }

  // ------------------------------------------------------------ autofill

  /** The board autofill leaves, cell by cell, judged against the board
      before: a cell with a single legal digit gets it, ERRONEOUS exactly
      when another such cell it sees got the same digit and SHOWN
      otherwise; every other cell is kept; no scratch value is left. */
  lemma FillBoard(s: Session)
    requires Consistent(s)
    ensures var g' := Fill(s).board;
            && IsGrid(g', Size(s))
            && forall r, c :: OnBoard(s.board, r, c) ==>
                 var d := Single(s.board, r, c, s.m, s.n);
                 g'[r][c] == Cell(if d != 0 then d else s.board[r][c].num, 0,
                                  if d != 0 then (if Clash(s.board, s.m, s.n, r, c, Size(s), 0) then Erroneous else Shown)
                                  else s.board[r][c].status)
  {
    SweepEffect(s.board, s.countHid, s.m, s.n);
  }

  /** A cell autofill fills was empty and had exactly one legal digit. */
  lemma FillOnlyForced(s: Session, r: int, c: int)
    requires Consistent(s) && OnBoard(s.board, r, c)
    ensures Fill(s).board[r][c].num != s.board[r][c].num ==>
              && s.board[r][c].num == 0
              && OnlyLegal(s.board, r, c, s.m, s.n, Fill(s).board[r][c].num)
    ensures s.board[r][c].num == 0 && (exists e :: OnlyLegal(s.board, r, c, s.m, s.n, e)) ==>
              OnlyLegal(s.board, r, c, s.m, s.n, Fill(s).board[r][c].num)
  {
    FillBoard(s);
    SingleMeans(s.board, r, c, s.m, s.n);
  }

  /** Some empty cell has a single legal digit. */
  ghost predicate AnyForced(s: Session)
    requires WellFormed(s)
  {
    exists r, c :: OnBoard(s.board, r, c) && Single(s.board, r, c, s.m, s.n) != 0
  }

  /** The sweep stages some cell exactly when some cell has a single legal
      digit. */
  lemma StagedSome(s: Session)
    requires WellFormed(s) && StatusMatchesValue(s.board) && AltClear(s.board)
    ensures StepsOf(Sweep(s.board, s.countHid, s.m, s.n).0, Scratch) != [] <==> AnyForced(s)
  {
    var g := s.board;
    var staged := Sweep(g, s.countHid, s.m, s.n).0;
    var mv := StepsOf(staged, Scratch);
    SweepEffect(g, s.countHid, s.m, s.n);
    if mv != [] {
      var r, c := mv[0].row, mv[0].col;
      assert OnBoard(staged, r, c) && staged[r][c].alt != 0;
      assert OnBoard(g, r, c) && Single(g, r, c, s.m, s.n) != 0;
    } else {
      forall r, c | OnBoard(g, r, c) ensures Single(g, r, c, s.m, s.n) == 0 {
        assert OnBoard(staged, r, c);
        assert !Names(mv, r, c);
      }
    }
  }

  /** autofill records a move exactly when it fills some cell; the move has
      one step 0 -> d for each cell the sweep staged with d. */
  lemma FillHistory(s: Session)
    requires WellFormed(s) && StatusMatchesValue(s.board) && AltClear(s.board)
    ensures StepsOf(Sweep(s.board, s.countHid, s.m, s.n).0, Scratch) != [] <==> AnyForced(s)
    ensures Fill(s).history == (if AnyForced(s) then Record(s.history, StepsOf(Sweep(s.board, s.countHid, s.m, s.n).0, Scratch))
                                else s.history)
  {
    StagedSome(s);
  }

  /** A cell the sweep stages is neither FIXED before nor after. */
  lemma StagedNotFixed(s: Session)
    requires WellFormed(s) && StatusMatchesValue(s.board) && AltClear(s.board)
    ensures var staged := Sweep(s.board, s.countHid, s.m, s.n).0;
            forall r, c :: OnBoard(s.board, r, c) && staged[r][c].alt != 0 ==>
              s.board[r][c].status != Fixed && Fill(s).board[r][c].status != Fixed
  {
    SweepEffect(s.board, s.countHid, s.m, s.n);
    FilledWereEmpty(s);
  }

  /** The cells autofill fills were empty, hence HIDDEN and not FIXED. */
  lemma FilledWereEmpty(s: Session)
    requires WellFormed(s) && StatusMatchesValue(s.board)
    ensures forall r, c :: OnBoard(s.board, r, c) && Single(s.board, r, c, s.m, s.n) != 0 ==>
              s.board[r][c].num == 0 && s.board[r][c].status == Hidden
  {
    forall r, c | OnBoard(s.board, r, c) && Single(s.board, r, c, s.m, s.n) != 0
      ensures s.board[r][c].num == 0
    {
      SingleMeans(s.board, r, c, s.m, s.n);
    }
  }

  /** autofill's board: count_hid counts its empty cells, an empty cell is
      exactly a HIDDEN one, no scratch value is left, and the FIXED cells
      are the same. */
  lemma FillStatus(s: Session)
    requires WellFormed(s) && StatusMatchesValue(s.board) && AltClear(s.board) && s.countHid == Zeros(s.board)
    ensures var g' := Fill(s).board;
            && IsGrid(g', Size(s)) && Fill(s).countHid == Zeros(g')
            && StatusMatchesValue(g') && AltClear(g') && FixedSame(s.board, g')
  {
    var g' := Fill(s).board;
    assert Fill(s).countHid == Zeros(g') by {
      SweepCount(s.board, s.countHid, s.m, s.n);
    }
    FillCells(s);
    forall i, j | OnBoard(g', i, j)
      ensures && (g'[i][j].num == 0 <==> g'[i][j].status == Hidden) && g'[i][j].alt == 0
              && (g'[i][j].status == Fixed <==> s.board[i][j].status == Fixed)
    {
      assert OnBoard(s.board, i, j);
    }
  }

  /** autofill cell by cell: a cell with a single candidate was empty and
      HIDDEN and now holds that digit, neither HIDDEN nor FIXED; every other
      cell is unchanged; no scratch value is left. */
  lemma FillCells(s: Session)
    requires WellFormed(s) && StatusMatchesValue(s.board) && AltClear(s.board)
    ensures IsGrid(Fill(s).board, Size(s))
    ensures forall r, c :: OnBoard(s.board, r, c) ==>
              && Fill(s).board[r][c].alt == 0
              && (Single(s.board, r, c, s.m, s.n) != 0 ==>
                    && s.board[r][c].num == 0 && s.board[r][c].status == Hidden
                    && Fill(s).board[r][c].num == Single(s.board, r, c, s.m, s.n)
                    && Fill(s).board[r][c].status in {Shown, Erroneous})
              && (Single(s.board, r, c, s.m, s.n) == 0 ==> Fill(s).board[r][c] == s.board[r][c])
  {
    SweepEffect(s.board, s.countHid, s.m, s.n);
    FilledWereEmpty(s);
  }

  /** autofill keeps the history coherent with the committed values. */
  lemma FillCoherent(s: Session)
    requires WellFormed(s) && StatusMatchesValue(s.board) && AltClear(s.board)
    requires Coherent(Nums(s.board), s.history)
    ensures Coherent(Nums(Fill(s).board), Fill(s).history)
    ensures forall k :: 0 <= k < |Fill(s).history.moves| ==> StepsOnBoard(Fill(s).history.moves[k], Size(s))
  {
    var g: Grid := s.board;
    var staged: Grid := Sweep(g, s.countHid, s.m, s.n).0;
    var mv := StepsOf(staged, Scratch);
    var g': Grid := Fill(s).board;
    SweepEffect(g, s.countHid, s.m, s.n);
    FilledWereEmpty(s);
    var v0, v1 := Nums(g), Nums(g');
    if mv != [] {
      assert Fits(v0, mv, true) && ApplyNums(v0, mv, true) == v1 by {
        StepsOfRoundTrip(staged, Scratch, v0, v1);
      }
      CoherentRecord(v0, s.history, mv);
      RecordOnBoard(s.history, mv, Size(s));
    } else {
      FillNothing(s);
    }
  }

  /** When the sweep stages nothing, autofill leaves the committed values as
      they were. */
  lemma FillNothing(s: Session)
    requires WellFormed(s) && StatusMatchesValue(s.board) && AltClear(s.board)
    requires StepsOf(Sweep(s.board, s.countHid, s.m, s.n).0, Scratch) == []
    ensures Nums(Fill(s).board) == Nums(s.board)
  {
    var g: Grid := s.board;
    var staged: Grid := Sweep(g, s.countHid, s.m, s.n).0;
    var g': Grid := Fill(s).board;
    var mv := StepsOf(staged, Scratch);
    SweepEffect(g, s.countHid, s.m, s.n);
    forall r, c | OnBoard(g, r, c) ensures g'[r][c].num == g[r][c].num {
      assert OnBoard(staged, r, c);
      assert !Names(mv, r, c);
    }
    NumsEqual(g, g');
  }

  /** autofill's move names no FIXED cell. */
  lemma FillAvoidsFixed(s: Session)
    requires WellFormed(s) && StatusMatchesValue(s.board) && AltClear(s.board) && s.countHid == Zeros(s.board)
    requires MovesAvoidFixed(s.board, s.history)
    ensures MovesAvoidFixed(Fill(s).board, Fill(s).history)
  {
    var g: Grid := s.board;
    var staged: Grid := Sweep(g, s.countHid, s.m, s.n).0;
    var mv := StepsOf(staged, Scratch);
    var g': Grid := Fill(s).board;
    FillStatus(s);
    StagedNotFixed(s);
    AvoidFixedSame(g, g', s.history);
    if mv != [] {
      forall l | 0 <= l < |mv| && OnBoard(g', mv[l].row, mv[l].col)
        ensures g'[mv[l].row][mv[l].col].status != Fixed
      {
        assert OnBoard(g, mv[l].row, mv[l].col) && staged[mv[l].row][mv[l].col].alt != 0;
      }
      AvoidFixedRecord(g', s.history, mv);
    }
  }

  /** autofill keeps the session consistent. */
  lemma FillKeepsConsistent(s: Session)
    requires Consistent(s)
    ensures Consistent(Fill(s))
  {
    FillStatus(s);
    FillCoherent(s);
    FillAvoidsFixed(s);
  }

  /** autofill fails exactly outside SOLVE or on an erroneous board, and
      otherwise keeps the session consistent. */
  lemma AutofillEffect(s: Session, solvable: Grid -> bool)
    requires Consistent(s)
    ensures Autofill(s, solvable).Err? <==> s.mode != Solve || !NoErroneous(s.board)
    ensures Autofill(s, solvable).Ok? ==> Consistent(Autofill(s, solvable).value)
  {
    if s.mode == Solve && NoErroneous(s.board) {
      FillKeepsConsistent(s);
      FinishEffect(Fill(s), solvable);
    }
  }

  // ------------------------------------------------------------ hint

  /** hint answers exactly for an empty, non-FIXED cell of a SOLVE board
      without errors when the ILP finds a solution, and then answers the
      solution's digit; the errors are reported in the source's order. */
  lemma HintGuards(s: Session, col: int, row: int, oracle: int)
    requires WellFormed(s)
    ensures var size := Size(s);
            var r := Hint(s, col, row, oracle);
            && (r.Ok? <==> s.mode == Solve && 0 <= col < size && 0 <= row < size && NoErroneous(s.board)
                            && s.board[row][col].status != Fixed && s.board[row][col].num == 0 && oracle != 0)
            && (r.Ok? ==> r.value == oracle)
            && (s.mode != Solve ==> r == Err(InvalidCommand))
            && (s.mode == Solve && !(0 <= col < size && 0 <= row < size) ==> r == Err(OutOfRange))
            && (s.mode == Solve && 0 <= col < size && 0 <= row < size && !NoErroneous(s.board) ==> r == Err(ContainsErrors))
            && var ok := s.mode == Solve && 0 <= col < size && 0 <= row < size && NoErroneous(s.board);
               && (ok && s.board[row][col].status == Fixed ==> r == Err(FixedCell))
               && (ok && s.board[row][col].status != Fixed && s.board[row][col].num != 0 ==> r == Err(CellHasValue))
               && (ok && s.board[row][col].status != Fixed && s.board[row][col].num == 0 && oracle == 0 ==> r == Err(Unsolvable))
  {
  }

  // ------------------------------------------------------------ generate

  /** A subset of a finite set leaves the rest. */
  lemma CardMinus<T>(a: set<T>, b: set<T>)
    requires a <= b
    ensures |b - a| == |b| - |a|
  {
    assert b == a + (b - a);
  }

  /** A board with N * N empty cells is empty everywhere. */
  lemma AllEmpty(g: Grid, size: nat)
    requires IsGrid(g, size) && Zeros(g) == size * size
    ensures forall i, j :: OnBoard(g, i, j) ==> g[i][j].num == 0
  {
    var e := EmptyCells(g, Committed);
    RectCount(size, size);
    assert e <= Rect(size, size);
    forall i, j | OnBoard(g, i, j) ensures g[i][j].num == 0 {
      if g[i][j].num != 0 {
        assert (i, j) in Rect(size, size) - e;
        CardMinus(e, Rect(size, size));
      }
    }
  }

  /** generate fails, and leaves the session alone, exactly outside EDIT,
      for x or y outside 0..N*N, on a board that is not empty, or when no
      attempt succeeds; for y = 0 it changes nothing. */
  lemma GenerateGuards(s: Session, x: int, y: int, solved: Option<Grid>, keep: set<(int, int)>)
    requires WellFormed(s)
    requires solved.Some? ==> Completed(solved.value, Size(s))
    requires forall p :: p in keep ==> 0 <= p.0 < Size(s) && 0 <= p.1 < Size(s)
    requires 0 < y <= Size(s) * Size(s) ==> |keep| == y
    ensures var nn := Size(s) * Size(s);
            var r := Generate(s, x, y, solved, keep);
            && (r.Err? <==> s.mode != Edit || x < 0 || x > nn || y < 0 || y > nn || s.countHid < nn
                            || (y != 0 && solved.None?))
            && (s.mode != Edit ==> r == Err(InvalidCommand))
            && (s.mode == Edit && (x < 0 || x > nn || y < 0 || y > nn) ==> r == Err(OutOfRange))
            && (r.Ok? && y == 0 ==> r.value == s)
  {
  }

  /** When every attempt fails the board is cleared; on a consistent empty
      board that clearing changes nothing, so the error leaves the board as
      it was. */
  lemma GenerateFailureClears(s: Session)
    requires Consistent(s) && s.countHid == Size(s) * Size(s)
    ensures ClearAll(s.board) == s.board
  {
    AllEmpty(s.board, Size(s));
    var g' := ClearAll(s.board);
    forall i | 0 <= i < |g'| ensures g'[i] == s.board[i] {
      forall j | 0 <= j < |g'[i]| ensures g'[i][j] == s.board[i][j] {
        assert OnBoard(s.board, i, j);
      }
    }
  }

  /** The empty cells generate leaves are the cells not kept. */
  lemma KeepCellsZeros(g: Grid, solved: Grid, keep: set<(int, int)>)
    requires IsGrid(g, |g|) && Completed(solved, |g|)
    requires forall p :: p in keep ==> 0 <= p.0 < |g| && 0 <= p.1 < |g|
    ensures Zeros(KeepCells(g, solved, keep)) == |g| * |g| - |keep|
  {
    var g' := KeepCells(g, solved, keep);
    var e := EmptyCells(g', Committed);
    assert keep <= Rect(|g|, |g|);
    forall p | p in e ensures p in Rect(|g|, |g|) - keep {
      assert OnBoard(g, p.0, p.1);
    }
    forall p | p in Rect(|g|, |g|) - keep ensures p in e {
      assert OnBoard(g, p.0, p.1);
    }
    assert e == Rect(|g|, |g|) - keep;
    RectCount(|g|, |g|);
    CardMinus(keep, Rect(|g|, |g|));
  }

  /** A successful generate with y > 0 keeps the cells and records their
      steps. */
  lemma GenerateOk(s: Session, x: int, y: int, solved: Option<Grid>, keep: set<(int, int)>)
    requires WellFormed(s)
    requires solved.Some? ==> Completed(solved.value, Size(s))
    requires forall p :: p in keep ==> 0 <= p.0 < Size(s) && 0 <= p.1 < Size(s)
    requires 0 < y <= Size(s) * Size(s) ==> |keep| == y
    requires Generate(s, x, y, solved, keep).Ok? && y != 0
    ensures solved.Some? && |keep| == y && s.countHid >= Size(s) * Size(s)
    ensures var g' := KeepCells(s.board, solved.value, keep);
            && StepsOf(g', Committed) != []
            && Generate(s, x, y, solved, keep).value
                 == s.(board := g', countHid := Size(s) * Size(s) - y, history := Record(s.history, StepsOf(g', Committed)))
  {
  }

  /** The move generate records leads from the empty board to the kept
      one. */
  lemma KeepCellsMove(g: Grid, solved: Grid, keep: set<(int, int)>)
    requires IsGrid(g, |g|) && forall i, j :: OnBoard(g, i, j) ==> g[i][j].num == 0
    requires Completed(solved, |g|) && keep != {}
    requires forall p :: p in keep ==> 0 <= p.0 < |g| && 0 <= p.1 < |g|
    ensures var g' := KeepCells(g, solved, keep);
            var mv := StepsOf(g', Committed);
            && mv != [] && Fits(Nums(g), mv, true) && ApplyNums(Nums(g), mv, true) == Nums(g')
  {
    var g': Grid := KeepCells(g, solved, keep);
    var mv := StepsOf(g', Committed);
    StepsOfFromEmpty(g, g');
    KeptSteps(g, solved, keep);
  }

  /** Recording that move keeps the history coherent. */
  lemma KeepCellsRecord(g: Grid, h: History, solved: Grid, keep: set<(int, int)>)
    requires IsGrid(g, |g|) && forall i, j :: OnBoard(g, i, j) ==> g[i][j].num == 0
    requires Coherent(Nums(g), h)
    requires forall k :: 0 <= k < |h.moves| ==> StepsOnBoard(h.moves[k], |g|)
    requires Completed(solved, |g|) && keep != {}
    requires forall p :: p in keep ==> 0 <= p.0 < |g| && 0 <= p.1 < |g|
    ensures var g' := KeepCells(g, solved, keep);
            var mv := StepsOf(g', Committed);
            && mv != []
            && Coherent(Nums(g'), Record(h, mv))
            && forall k :: 0 <= k < |Record(h, mv).moves| ==> StepsOnBoard(Record(h, mv).moves[k], |g|)
  {
    var mv := StepsOf(KeepCells(g, solved, keep), Committed);
    KeepCellsMove(g, solved, keep);
    CoherentRecord(Nums(g), h, mv);
    RecordOnBoard(h, mv, |g|);
  }

  /** The kept board: an empty cell is exactly a HIDDEN one, no cell is
      FIXED, and the scratch values are those of the board before. */
  lemma KeepCellsStatus(g: Grid, solved: Grid, keep: set<(int, int)>, h: History)
    requires IsGrid(g, |g|) && AltClear(g) && Completed(solved, |g|)
    ensures var g' := KeepCells(g, solved, keep);
            StatusMatchesValue(g') && AltClear(g') && MovesAvoidFixed(g', h)
  {
  }

  /** A successful generate with y > 0: exactly the y kept cells hold their
      digit of the completed board, SHOWN, every other cell is empty and
      HIDDEN; count_hid is N*N - y; the move records one step 0 -> d per kept
      cell, with nothing to redo. */
  lemma GenerateEffect(s: Session, x: int, y: int, solved: Option<Grid>, keep: set<(int, int)>)
    requires Consistent(s)
    requires solved.Some? ==> Completed(solved.value, Size(s))
    requires forall p :: p in keep ==> 0 <= p.0 < Size(s) && 0 <= p.1 < Size(s)
    requires 0 < y <= Size(s) * Size(s) ==> |keep| == y
    requires Generate(s, x, y, solved, keep).Ok? && y != 0
    ensures solved.Some?
    ensures var s' := Generate(s, x, y, solved, keep).value;
            && (forall i, j :: OnBoard(s.board, i, j) ==>
                  if (i, j) in keep then s'.board[i][j].num == solved.value[i][j].num && s'.board[i][j].status == Shown
                  else s'.board[i][j].num == 0 && s'.board[i][j].status == Hidden)
            && s'.countHid == Size(s) * Size(s) - y
            && s'.history.moves[s'.history.cursor] == StepsOf(s'.board, Committed)
            && !CanRedo(s'.history)
  {
    GenerateOk(s, x, y, solved, keep);
  }

  /** The session generate leaves is consistent. */
  lemma KeptConsistent(s: Session, y: int, solved: Grid, keep: set<(int, int)>)
    requires Consistent(s) && s.countHid >= Size(s) * Size(s)
    requires Completed(solved, Size(s)) && |keep| == y && y > 0
    requires forall p :: p in keep ==> 0 <= p.0 < Size(s) && 0 <= p.1 < Size(s)
    ensures var g' := KeepCells(s.board, solved, keep);
            StepsOf(g', Committed) != [] &&
            Consistent(s.(board := g', countHid := Size(s) * Size(s) - y, history := Record(s.history, StepsOf(g', Committed))))
  {
    var g' := KeepCells(s.board, solved, keep);
    var h' := Record(s.history, StepsOf(g', Committed));
    var s' := s.(board := g', countHid := Size(s) * Size(s) - y, history := h');
    ZerosAtMost(s.board, Size(s));
    AllEmpty(s.board, Size(s));
    KeepCellsZeros(s.board, solved, keep);
    KeepCellsRecord(s.board, s.history, solved, keep);
    KeepCellsStatus(s.board, solved, keep, h');
    assert WellFormed(s');
    ConsistentParts(s');
  }

  /** A board has at most size * size empty cells. */
  lemma ZerosAtMost(g: Grid, size: nat)
    requires IsGrid(g, size)
    ensures Zeros(g) <= size * size
  {
    assert EmptyCells(g, Committed) <= Rect(size, size);
    RectCount(size, size);
    CardMinus(EmptyCells(g, Committed), Rect(size, size));
  }

  /** generate keeps the session consistent. */
  lemma GenerateKeepsConsistent(s: Session, x: int, y: int, solved: Option<Grid>, keep: set<(int, int)>)
    requires Consistent(s)
    requires solved.Some? ==> Completed(solved.value, Size(s))
    requires forall p :: p in keep ==> 0 <= p.0 < Size(s) && 0 <= p.1 < Size(s)
    requires 0 < y <= Size(s) * Size(s) ==> |keep| == y
    requires Generate(s, x, y, solved, keep).Ok?
    ensures Consistent(Generate(s, x, y, solved, keep).value)
  {
    if y != 0 {
      GenerateOk(s, x, y, solved, keep);
      KeptConsistent(s, y, solved.value, keep);
    }
  }
}
