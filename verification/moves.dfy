/** create_move_from_board (game.c:481-508): the move recorded by generate
    ("gen") and by autofill ("auto").  The board is walked in row-major order
    and every cell with a nonzero value in the channel read gives one step
    0 -> value; for autofill the staged scratch value is committed and the
    scratch value cleared on the way. */
module Moves {
  import opened Structs
  import opened Backtrack
  import opened Edits

  /** The steps for the cells from (i, j) on, in row-major order. */
  function StepsFrom(g: Grid, ch: Channel, i: int, j: int): (mv: Move)
    requires IsGrid(g, |g|) && 0 <= i <= |g| && 0 <= j <= |g|
    decreases |g| - i, |g| - j
  {
    if i == |g| then []
    else if j == |g| then StepsFrom(g, ch, i + 1, 0)
    else if Value(g[i][j], ch) != 0 then [Change(0, Value(g[i][j], ch), j, i)] + StepsFrom(g, ch, i, j + 1)
    else StepsFrom(g, ch, i, j + 1)
  }

  /** Step c sets a cell at or after (i, j) from 0 to its nonzero value in
      channel ch. */
  predicate StepFor(g: Grid, ch: Channel, c: Change, i: int, j: int)
  {
    && OnBoard(g, c.row, c.col) && !RowMajorBefore(c.row, c.col, i, j)
    && c.prevVal == 0 && c.newVal == Value(g[c.row][c.col], ch) && c.newVal != 0
  }

  /** Every step from (i, j) on is a step 0 -> value for a cell at or after
      (i, j) whose value is nonzero. */
  lemma {:induction false} StepsFromCells(g: Grid, ch: Channel, i: int, j: int)
    requires IsGrid(g, |g|) && 0 <= i <= |g| && 0 <= j <= |g|
    ensures forall k :: 0 <= k < |StepsFrom(g, ch, i, j)| ==> StepFor(g, ch, StepsFrom(g, ch, i, j)[k], i, j)
    decreases |g| - i, |g| - j
  {
    if i == |g| {
    } else if j == |g| {
      StepsFromCells(g, ch, i + 1, 0);
      assert StepsFrom(g, ch, i, j) == StepsFrom(g, ch, i + 1, 0);
    } else {
      StepsFromCells(g, ch, i, j + 1);
      var mv, rest := StepsFrom(g, ch, i, j), StepsFrom(g, ch, i, j + 1);
      if Value(g[i][j], ch) != 0 {
        assert mv == [Change(0, Value(g[i][j], ch), j, i)] + rest;
        forall k | 0 <= k < |mv| ensures StepFor(g, ch, mv[k], i, j) {
          if k > 0 { assert mv[k] == rest[k - 1]; }
        }
      } else {
        assert mv == rest;
      }
    }
  }

  /** The steps of mv come in strictly increasing row-major order. */
  predicate InOrder(mv: Move)
  {
    forall k, l :: 0 <= k < l < |mv| ==> RowMajorBefore(mv[k].row, mv[k].col, mv[l].row, mv[l].col)
  }

  /** The steps from (i, j) on come in strictly increasing row-major order. */
  lemma {:induction false} StepsFromOrdered(g: Grid, ch: Channel, i: int, j: int)
    requires IsGrid(g, |g|) && 0 <= i <= |g| && 0 <= j <= |g|
    ensures InOrder(StepsFrom(g, ch, i, j))
    decreases |g| - i, |g| - j
  {
    if i == |g| {
    } else if j == |g| {
      StepsFromOrdered(g, ch, i + 1, 0);
      assert StepsFrom(g, ch, i, j) == StepsFrom(g, ch, i + 1, 0);
    } else {
      StepsFromOrdered(g, ch, i, j + 1);
      StepsFromCells(g, ch, i, j + 1);
      var mv, rest := StepsFrom(g, ch, i, j), StepsFrom(g, ch, i, j + 1);
      if Value(g[i][j], ch) != 0 {
        assert mv == [Change(0, Value(g[i][j], ch), j, i)] + rest;
        forall k, l | 0 <= k < l < |mv| ensures RowMajorBefore(mv[k].row, mv[k].col, mv[l].row, mv[l].col) {
          assert mv[l] == rest[l - 1];
          assert StepFor(g, ch, rest[l - 1], i, j + 1);
          if k > 0 { assert mv[k] == rest[k - 1]; }
        }
      }
    }
  }

  /** Every cell at or after (i, j) with a nonzero value is named by a step. */
  lemma {:induction false} StepsFromComplete(g: Grid, ch: Channel, i: int, j: int)
    requires IsGrid(g, |g|) && 0 <= i <= |g| && 0 <= j <= |g|
    ensures forall r, c :: OnBoard(g, r, c) && !RowMajorBefore(r, c, i, j) && Value(g[r][c], ch) != 0 ==>
              Names(StepsFrom(g, ch, i, j), r, c)
    decreases |g| - i, |g| - j
  {
    if i == |g| {
    } else if j == |g| {
      StepsFromComplete(g, ch, i + 1, 0);
      assert StepsFrom(g, ch, i, j) == StepsFrom(g, ch, i + 1, 0);
    } else {
      StepsFromComplete(g, ch, i, j + 1);
      var mv, rest := StepsFrom(g, ch, i, j), StepsFrom(g, ch, i, j + 1);
      if Value(g[i][j], ch) != 0 {
        var s := Change(0, Value(g[i][j], ch), j, i);
        assert mv == [s] + rest;
        forall r, c | OnBoard(g, r, c) && !RowMajorBefore(r, c, i, j) && Value(g[r][c], ch) != 0 ensures Names(mv, r, c) {
          if (r, c) == (i, j) {
            assert mv[0] == s;
          } else {
            assert Names(rest, r, c);
            var l :| 0 <= l < |rest| && rest[l].row == r && rest[l].col == c;
            assert mv[l + 1] == rest[l];
          }
        }
      }
    }
  }

  /** The steps of a whole board: exactly one step 0 -> value per cell with
      a nonzero value in channel ch, no cell named twice. */
  function StepsOf(g: Grid, ch: Channel): (mv: Move)
    requires IsGrid(g, |g|)
    ensures StepsOnBoard(mv, |g|) && DistinctSteps(mv)
    ensures forall k :: 0 <= k < |mv| ==> mv[k].prevVal == 0 && mv[k].newVal == Value(g[mv[k].row][mv[k].col], ch) && mv[k].newVal != 0
    ensures forall r, c :: OnBoard(g, r, c) ==> (Names(mv, r, c) <==> Value(g[r][c], ch) != 0)
    ensures mv == [] <==> EmptyCells(g, ch) == set r, c | 0 <= r < |g| && 0 <= c < |g| :: (r, c)
  {
    StepsFromCells(g, ch, 0, 0);
    StepsFromOrdered(g, ch, 0, 0);
    StepsFromComplete(g, ch, 0, 0);
    StepsFromEmpty(g, ch);
    StepsFrom(g, ch, 0, 0)
  }

  /** The walk gives no step exactly when every cell is empty in channel ch. */
  lemma StepsFromEmpty(g: Grid, ch: Channel)
    requires IsGrid(g, |g|)
    ensures StepsFrom(g, ch, 0, 0) == [] <==> EmptyCells(g, ch) == set r, c | 0 <= r < |g| && 0 <= c < |g| :: (r, c)
  {
    StepsFromCells(g, ch, 0, 0);
    StepsFromComplete(g, ch, 0, 0);
    var mv := StepsFrom(g, ch, 0, 0);
    if mv != [] {
      var r, c := mv[0].row, mv[0].col;
      assert StepFor(g, ch, mv[0], 0, 0);
      assert (r, c) !in EmptyCells(g, ch);
      assert (r, c) in set r, c | 0 <= r < |g| && 0 <= c < |g| :: (r, c);
    } else {
      forall r, c | 0 <= r < |g| && 0 <= c < |g| ensures (r, c) in EmptyCells(g, ch) {
        assert !Names(mv, r, c);
      }
    }
  }

  /** create_move_from_board for "auto": every staged scratch value is
      committed and cleared; statuses are kept. */
  function CommitStaged(g: Grid): (g': Grid)
    ensures |g'| == |g| && forall i :: 0 <= i < |g| ==> |g'[i]| == |g[i]|
    ensures forall i, j :: OnBoard(g, i, j) ==>
              g'[i][j] == Cell(if g[i][j].alt != 0 then g[i][j].alt else g[i][j].num, 0, g[i][j].status)
  {
    seq(|g|, i requires 0 <= i < |g| =>
      seq(|g[i]|, j requires 0 <= j < |g[i]| =>
        Cell(if g[i][j].alt != 0 then g[i][j].alt else g[i][j].num, 0, g[i][j].status)))
  }

  /** Undo and redo of a recorded board move, on the committed values: when
      the cells the move names held 0 before (v0) and hold the named value
      after (v1), every other cell being unchanged, undoing the move leads
      from v1 back to v0 and redoing it from v0 to v1. */
  lemma StepsOfRoundTrip(g: Grid, ch: Channel, v0: seq<seq<int>>, v1: seq<seq<int>>)
    requires IsGrid(g, |g|) && |v0| == |g| && |v1| == |g|
    requires forall i :: 0 <= i < |g| ==> |v0[i]| == |g| && |v1[i]| == |g|
    requires forall r, c :: OnBoard(g, r, c) && Value(g[r][c], ch) != 0 ==> v0[r][c] == 0 && v1[r][c] == Value(g[r][c], ch)
    requires forall r, c :: OnBoard(g, r, c) && Value(g[r][c], ch) == 0 ==> v1[r][c] == v0[r][c]
    ensures Holds(v0, StepsOf(g, ch), true) && ApplyNums(v0, StepsOf(g, ch), true) == v1
    ensures Holds(v1, StepsOf(g, ch), false) && ApplyNums(v1, StepsOf(g, ch), false) == v0
  {
    var mv := StepsOf(g, ch);
    ApplyNumsEffect(v0, mv, true);
    var w := ApplyNums(v0, mv, true);
    forall r | 0 <= r < |g| ensures w[r] == v1[r] {
      forall c | 0 <= c < |g| ensures w[r][c] == v1[r][c] {
        assert OnBoard(g, r, c);
        if Names(mv, r, c) {
          var k :| 0 <= k < |mv| && mv[k].row == r && mv[k].col == c;
        }
      }
    }
    ApplyNumsRoundTrip(v0, mv, true);
  }

  /** The move generate records, against the empty board it starts from:
      redoing it from the empty values gives the values of the filled board. */
  lemma StepsOfFromEmpty(g: Grid, g': Grid)
    requires IsGrid(g, |g|) && IsGrid(g', |g|) && forall i, j :: OnBoard(g, i, j) ==> g[i][j].num == 0
    ensures Holds(Nums(g), StepsOf(g', Committed), true) && ApplyNums(Nums(g), StepsOf(g', Committed), true) == Nums(g')
  {
    var v0, v1 := Nums(g), Nums(g');
    forall r, c | OnBoard(g', r, c) ensures v0[r][c] == 0 && v1[r][c] == Value(g'[r][c], Committed) {
      assert OnBoard(g, r, c);
    }
    StepsOfRoundTrip(g', Committed, v0, v1);
  }
}
