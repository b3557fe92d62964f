/** The board side of set, undo and redo (game.c): writing one value into one
    cell, together with the status bookkeeping around it.

    Writing a value first repairs the cells that were ERRONEOUS because of the
    value leaving the cell (when the cell itself was ERRONEOUS), then marks
    the cells the new value collides with, then gives the cell its own
    status.  Only the written cell's value changes; every other cell can only
    move between statuses of nonzero, non-FIXED cells. */
module Edits {
  import opened Structs
  import opened StructFunctions
  import opened Validation
  import opened Repair

  /** Every cell keeps its values, and a cell that changes is a nonzero
      non-FIXED cell that stays visible (neither HIDDEN nor FIXED). */
  ghost predicate Restatus(g: Grid, g': Grid)
  {
    && |g'| == |g| && (forall i :: 0 <= i < |g| ==> |g'[i]| == |g[i]|)
    && forall i, j :: OnBoard(g, i, j) ==>
         && g'[i][j].num == g[i][j].num && g'[i][j].alt == g[i][j].alt
         && (g'[i][j] != g[i][j] ==>
               && g[i][j].status != Fixed && g[i][j].num != 0
               && g'[i][j].status != Fixed && g'[i][j].status != Hidden)
  }

  lemma RestatusTrans(a: Grid, b: Grid, c: Grid)
    requires Restatus(a, b) && Restatus(b, c)
    ensures Restatus(a, c)
  {
  }

  /** parse_legitimate only restatuses. */
  lemma RepairRestatus(col: int, row: int, dig: int, g: Grid, m: int, n: int)
    ensures Restatus(g, ParseLegitimate(col, row, dig, g, m, n))
  {
    ParseLegitimateOnlyPromotes(col, row, dig, g, m, n);
  }

  /** Mark mode on the committed values only restatuses. */
  lemma MarkRestatus(g: Grid, dig: int, row: int, col: int, m: int, n: int)
    ensures Restatus(g, MarkAll(g, Committed, dig, row, col, m, n))
  {
    var g' := MarkAll(g, Committed, dig, row, col, m, n);
    MarkAllKeepsValuesAndFixed(g, Committed, dig, row, col, m, n);
    forall i, j | OnBoard(g, i, j) && g'[i][j] != g[i][j]
      ensures g[i][j].num != 0 && g'[i][j].status == Erroneous
    {
      MarkAllEffect(g, Committed, dig, row, col, m, n, i, j);
    }
  }

  /** The cell (r, c) with its value set to v and its status to st. */
  function Write(g: Grid, r: int, c: int, v: int, st: Status): (g': Grid)
    requires OnBoard(g, r, c)
  {
    Put(g, r, c, g[r][c].(num := v, status := st))
  }

  /** The status a written nonzero value gets from mark-mode validation. */
  function Verdict(valid: bool): Status
  {
    if valid then Shown else Erroneous
  }

  // ------------------------------------------------------------------ set

  /** The board after set(col, row, dig) changes the cell from prev = its
      current value to dig (game.c:432-449).  When the cell was ERRONEOUS its
      value is cleared and the cells its old value collided with are
      repaired; a nonzero dig is then validated in mark mode. */
  function SetBoard(g: Grid, row: int, col: int, dig: int, m: int, n: int): (g': Grid)
    requires IsGrid(g, |g|) && OnBoard(g, row, col)
    ensures IsGrid(g', |g|)
  {
    var prev := g[row][col].num;
    var g1 := if g[row][col].status == Erroneous
              then ParseLegitimate(col, row, prev, Put(g, row, col, g[row][col].(num := 0)), m, n)
              else g;
    assert IsGrid(g1, |g|) by { RepairRestatus(col, row, prev, Put(g, row, col, g[row][col].(num := 0)), m, n); }
    if dig == 0 then Write(g1, row, col, dig, Hidden)
    else
      var g2 := MarkAll(g1, Committed, dig, row, col, m, n);
      assert IsGrid(g2, |g|) by { MarkRestatus(g1, dig, row, col, m, n); }
      Write(g2, row, col, dig, Verdict(Legal(g1, Committed, dig, row, col, m, n)))
  }

  // ------------------------------------------------------------ undo / redo

  /** The value a change moves away from and the value it moves to: redo
      goes from prevVal to newVal, undo the other way. */
  function From(c: Change, forward: bool): int
  {
    if forward then c.prevVal else c.newVal
  }

  function To(c: Change, forward: bool): int
  {
    if forward then c.newVal else c.prevVal
  }

  /** One step of undo (game.c:601-620) or redo (game.c:675-693) on the
      board, with the hidden counter. */
  function ApplyChange(g: Grid, cnt: int, c: Change, forward: bool, m: int, n: int): (r: (Grid, int))
    requires IsGrid(g, |g|) && OnBoard(g, c.row, c.col)
    ensures IsGrid(r.0, |g|)
  {
    var from, to := From(c, forward), To(c, forward);
    if from == to then (g, cnt)
    else
      var g0: Grid := Put(g, c.row, c.col, g[c.row][c.col].(num := 0));
      var g1: Grid := if g0[c.row][c.col].status == Erroneous then ParseLegitimate(c.col, c.row, from, g0, m, n) else g0;
      assert IsGrid(g1, |g|) by { RepairRestatus(c.col, c.row, from, g0, m, n); }
      var g2 := MarkAll(g1, Committed, to, c.row, c.col, m, n);
      assert IsGrid(g2, |g|) by { MarkRestatus(g1, to, c.row, c.col, m, n); }
      var g3 := Write(g2, c.row, c.col, to, Verdict(Legal(g1, Committed, to, c.row, c.col, m, n)));
      if to == 0 then (Write(g3, c.row, c.col, to, Hidden), cnt + 1)
      else if from == 0 then (g3, cnt - 1)
      else (g3, cnt)
  }

  /** Every step of mv names a cell of an N x N board. */
  predicate StepsOnBoard(mv: Move, size: int)
  {
    forall k | 0 <= k < |mv| :: 0 <= mv[k].row < size && 0 <= mv[k].col < size
  }

  /** The steps of a move, applied in list order (undo and redo both walk the
      list from its head). */
  function ApplyMove(g: Grid, cnt: int, mv: Move, forward: bool, m: int, n: int): (r: (Grid, int))
    requires IsGrid(g, |g|) && StepsOnBoard(mv, |g|)
    ensures IsGrid(r.0, |g|)
    decreases |mv|
  {
    if |mv| == 0 then (g, cnt)
    else
      var r1 := ApplyChange(g, cnt, mv[0], forward, m, n);
      ApplyMove(r1.0, r1.1, mv[1..], forward, m, n)
  }

  // ------------------------------------------------------------ reference

  /** The committed values alone, as undo and redo are meant to change them:
      each step's cell gets the step's target value. */
  function ApplyNums(v: seq<seq<int>>, mv: Move, forward: bool): (v': seq<seq<int>>)
    requires forall i :: 0 <= i < |v| ==> |v[i]| == |v|
    requires StepsOnBoard(mv, |v|)
    ensures |v'| == |v| && forall i :: 0 <= i < |v| ==> |v'[i]| == |v|
    decreases |mv|
  {
    if |mv| == 0 then v
    else
      var c := mv[0];
      ApplyNums(v[c.row := v[c.row][c.col := To(c, forward)]], mv[1..], forward)
  }

  /** Every step's cell holds the value the step moves away from. */
  ghost predicate Holds(v: seq<seq<int>>, mv: Move, forward: bool)
    requires forall i :: 0 <= i < |v| ==> |v[i]| == |v|
    requires StepsOnBoard(mv, |v|)
  {
    forall k :: 0 <= k < |mv| ==> v[mv[k].row][mv[k].col] == From(mv[k], forward)
  }

  /** No two steps name the same cell. */
  ghost predicate DistinctSteps(mv: Move)
  {
    forall k, l :: 0 <= k < l < |mv| ==> (mv[k].row, mv[k].col) != (mv[l].row, mv[l].col)
  }

  // ------------------------------------------------------------ effects

  /** g' is g with value v written at (r, c): the cell holds v, is HIDDEN
      exactly when v is 0 and is not FIXED; every other cell only
      restatuses. */
  ghost predicate Wrote(g: Grid, g': Grid, r: int, c: int, v: int)
  {
    && |g'| == |g| && (forall i :: 0 <= i < |g| ==> |g'[i]| == |g[i]|)
    && OnBoard(g, r, c)
    && g'[r][c].num == v && g'[r][c].alt == g[r][c].alt
    && (g'[r][c].status == Hidden <==> v == 0) && g'[r][c].status != Fixed
    && forall i, j :: OnBoard(g, i, j) && (i, j) != (r, c) ==>
         && g'[i][j].num == g[i][j].num && g'[i][j].alt == g[i][j].alt
         && (g'[i][j] != g[i][j] ==>
               && g[i][j].status != Fixed && g[i][j].num != 0
               && g'[i][j].status != Fixed && g'[i][j].status != Hidden)
  }

  /** Restatusing the board (or the board with the target cell's value
      cleared), then writing the target cell, is a write. */
  lemma WroteFrom(g: Grid, g0: Grid, g2: Grid, r: int, c: int, v: int, st: Status)
    requires OnBoard(g, r, c) && (g0 == Put(g, r, c, g[r][c].(num := 0)) || g0 == g)
    requires Restatus(g0, g2)
    requires (st == Hidden <==> v == 0) && st != Fixed
    ensures Wrote(g, Write(g2, r, c, v, st), r, c, v)
  {
  }

  /** A write keeps every empty cell HIDDEN and every HIDDEN cell empty. */
  lemma WroteStatusMatches(g: Grid, g': Grid, r: int, c: int, v: int)
    requires Wrote(g, g', r, c, v) && StatusMatchesValue(g)
    ensures StatusMatchesValue(g')
  {
  }

  /** A write keeps every scratch value. */
  lemma WroteAltClear(g: Grid, g': Grid, r: int, c: int, v: int)
    requires Wrote(g, g', r, c, v) && AltClear(g)
    ensures AltClear(g')
  {
  }

  /** A write changes the committed values at (r, c) only. */
  lemma WroteNums(g: Grid, g': Grid, r: int, c: int, v: int)
    requires Wrote(g, g', r, c, v)
    ensures Nums(g') == Nums(g)[r := Nums(g)[r][c := v]]
  {
    var a, b := Nums(g'), Nums(g)[r := Nums(g)[r][c := v]];
    forall i | 0 <= i < |a| ensures a[i] == b[i] {
      assert |a[i]| == |b[i]|;
      forall j | 0 <= j < |a[i]| ensures a[i][j] == b[i][j] {
        assert OnBoard(g, i, j);
      }
    }
  }

  /** A write changes the number of empty cells by the change at (r, c). */
  lemma WroteZeros(g: Grid, g': Grid, r: int, c: int, v: int)
    requires Wrote(g, g', r, c, v)
    ensures Zeros(g') == Zeros(g) - (if g[r][c].num == 0 then 1 else 0) + (if v == 0 then 1 else 0)
  {
    var p := Put(g, r, c, g[r][c].(num := v));
    EmptyCellsSameValues(g', p, Committed);
    EmptyCellsPut(g, r, c, g[r][c].(num := v), Committed);
  }

  /** set's board is a write of dig (for a dig that differs from the cell's
      value).  A nonzero dig is SHOWN exactly when no other cell of its row,
      column or block holds it, and the cells that do, unless FIXED, become
      ERRONEOUS. */
  lemma SetBoardEffect(g: Grid, row: int, col: int, dig: int, m: int, n: int)
    requires IsGrid(g, |g|) && OnBoard(g, row, col) && g[row][col].num != dig
    ensures Wrote(g, SetBoard(g, row, col, dig, m, n), row, col, dig)
    ensures dig != 0 ==> (SetBoard(g, row, col, dig, m, n)[row][col].status == Shown <==> Unique(g, dig, row, col, m, n))
    ensures dig != 0 ==> forall i, j :: OnBoard(g, i, j) && (i, j) != (row, col) && Sees(row, col, m, n, i, j)
                                     && g[i][j].num == dig && g[i][j].status != Fixed
                                     ==> SetBoard(g, row, col, dig, m, n)[i][j].status == Erroneous
  {
    SetBoardWrote(g, row, col, dig, m, n);
    if dig != 0 {
      SetBoardMarks(g, row, col, dig, m, n);
    }
  }

  /** The board of set is a write of dig. */
  lemma SetBoardWrote(g: Grid, row: int, col: int, dig: int, m: int, n: int)
    requires IsGrid(g, |g|) && OnBoard(g, row, col)
    ensures Wrote(g, SetBoard(g, row, col, dig, m, n), row, col, dig)
  {
    var prev := g[row][col].num;
    var g0 := Put(g, row, col, g[row][col].(num := 0));
    var g1: Grid := if g[row][col].status == Erroneous then ParseLegitimate(col, row, prev, g0, m, n) else g;
    var base := if g[row][col].status == Erroneous then g0 else g;
    RepairRestatus(col, row, prev, g0, m, n);
    assert Restatus(base, g1);
    if dig == 0 {
      WroteFrom(g, base, g1, row, col, dig, Hidden);
    } else {
      var g2 := MarkAll(g1, Committed, dig, row, col, m, n);
      MarkRestatus(g1, dig, row, col, m, n);
      RestatusTrans(base, g1, g2);
      WroteFrom(g, base, g2, row, col, dig, Verdict(Legal(g1, Committed, dig, row, col, m, n)));
    }
  }

  /** The status set gives a nonzero dig, and the cells it collides with. */
  lemma SetBoardMarks(g: Grid, row: int, col: int, dig: int, m: int, n: int)
    requires IsGrid(g, |g|) && OnBoard(g, row, col) && g[row][col].num != dig && dig != 0
    ensures SetBoard(g, row, col, dig, m, n)[row][col].status == Shown <==> Unique(g, dig, row, col, m, n)
    ensures forall i, j :: OnBoard(g, i, j) && (i, j) != (row, col) && Sees(row, col, m, n, i, j)
                         && g[i][j].num == dig && g[i][j].status != Fixed
                         ==> SetBoard(g, row, col, dig, m, n)[i][j].status == Erroneous
  {
    var g1: Grid := if g[row][col].status == Erroneous
                    then ParseLegitimate(col, row, g[row][col].num, Put(g, row, col, g[row][col].(num := 0)), m, n)
                    else g;
    RepairedKeeps(g, row, col, m, n, g1);
    SetBoardVerdict(g, row, col, dig, m, n, g1);
    SetBoardFlags(g, row, col, dig, m, n, g1);
  }

  /** The cell set writes is SHOWN exactly when dig is unique in its scopes. */
  lemma SetBoardVerdict(g: Grid, row: int, col: int, dig: int, m: int, n: int, g1: Grid)
    requires IsGrid(g, |g|) && OnBoard(g, row, col) && g[row][col].num != dig && dig != 0
    requires g1 == if g[row][col].status == Erroneous
                   then ParseLegitimate(col, row, g[row][col].num, Put(g, row, col, g[row][col].(num := 0)), m, n)
                   else g
    requires |g1| == |g| && forall i :: 0 <= i < |g| ==> |g1[i]| == |g[i]|
    requires forall i, j :: OnBoard(g, i, j) && (i, j) != (row, col) ==> g1[i][j].num == g[i][j].num
    requires g1[row][col].num == 0 || g1[row][col].num == g[row][col].num
    ensures SetBoard(g, row, col, dig, m, n)[row][col].status == Shown <==> Unique(g, dig, row, col, m, n)
  {
    LegalIgnoresCell(g, g1, dig, row, col, m, n);
  }

  /** The cells set flags: the non-FIXED cells its row, column and block
      share dig with. */
  lemma SetBoardFlags(g: Grid, row: int, col: int, dig: int, m: int, n: int, g1: Grid)
    requires IsGrid(g, |g|) && OnBoard(g, row, col) && dig != 0
    requires g1 == if g[row][col].status == Erroneous
                   then ParseLegitimate(col, row, g[row][col].num, Put(g, row, col, g[row][col].(num := 0)), m, n)
                   else g
    requires |g1| == |g| && forall i :: 0 <= i < |g| ==> |g1[i]| == |g[i]|
    requires forall i, j :: OnBoard(g, i, j) && (i, j) != (row, col) ==>
               g1[i][j].num == g[i][j].num && (g1[i][j].status == Fixed <==> g[i][j].status == Fixed)
    ensures forall i, j :: OnBoard(g, i, j) && (i, j) != (row, col) && Sees(row, col, m, n, i, j)
                         && g[i][j].num == dig && g[i][j].status != Fixed
                         ==> SetBoard(g, row, col, dig, m, n)[i][j].status == Erroneous
  {
    var g2 := MarkAll(g1, Committed, dig, row, col, m, n);
    assert SetBoard(g, row, col, dig, m, n) == Write(g2, row, col, dig, Verdict(Legal(g1, Committed, dig, row, col, m, n)));
    forall i, j | OnBoard(g, i, j) && (i, j) != (row, col) && Sees(row, col, m, n, i, j)
                  && g[i][j].num == dig && g[i][j].status != Fixed
      ensures g2[i][j].status == Erroneous
    {
      MarkAllEffect(g1, Committed, dig, row, col, m, n, i, j);
    }
  }

  /** Repairing the statuses around the old value of (row, col) keeps the
      shape, every other cell's value and which cells are FIXED. */
  lemma RepairedKeeps(g: Grid, row: int, col: int, m: int, n: int, g1: Grid)
    requires IsGrid(g, |g|) && OnBoard(g, row, col)
    requires g1 == if g[row][col].status == Erroneous
                   then ParseLegitimate(col, row, g[row][col].num, Put(g, row, col, g[row][col].(num := 0)), m, n)
                   else g
    ensures |g1| == |g| && forall i :: 0 <= i < |g| ==> |g1[i]| == |g[i]|
    ensures forall i, j :: OnBoard(g, i, j) && (i, j) != (row, col) ==>
              g1[i][j].num == g[i][j].num && (g1[i][j].status == Fixed <==> g[i][j].status == Fixed)
    ensures g1[row][col].num == 0 || g1[row][col].num == g[row][col].num
  {
    ParseLegitimateOnlyPromotes(col, row, g[row][col].num, Put(g, row, col, g[row][col].(num := 0)), m, n);
  }

  /** validate_dig's verdict for a nonzero digit at (r, c) does not depend on
      the value at (r, c) itself, as long as that value is not the digit. */
  lemma LegalIgnoresCell(g: Grid, g1: Grid, dig: int, r: int, c: int, m: int, n: int)
    requires IsGrid(g, |g|) && OnBoard(g, r, c) && dig != 0
    requires |g1| == |g| && forall i :: 0 <= i < |g| ==> |g1[i]| == |g[i]|
    requires forall i, j :: OnBoard(g, i, j) && (i, j) != (r, c) ==> g1[i][j].num == g[i][j].num
    requires g1[r][c].num != dig
    ensures Legal(g1, Committed, dig, r, c, m, n) == Unique(g, dig, r, c, m, n)
  {
    var h := Put(g, r, c, g[r][c].(num := 0));
    var h1 := Put(g1, r, c, g1[r][c].(num := 0));
    forall i, j | OnBoard(h, i, j) ensures Value(h1[i][j], Committed) == Value(h[i][j], Committed) {
    }
    ConflictSameValues(h, h1, Committed, dig, RowOf(r));
    ConflictSameValues(h, h1, Committed, dig, ColOf(c));
    ConflictSameValues(h, h1, Committed, dig, BlockOf(r, c, m, n));
    CenterIrrelevant(g1, dig, r, c, RowOf(r));
    CenterIrrelevant(g1, dig, r, c, ColOf(c));
    CenterIrrelevant(g1, dig, r, c, BlockOf(r, c, m, n));
  }

  /** Clearing a cell that does not hold dig does not change what a scope sees. */
  lemma CenterIrrelevant(g: Grid, dig: int, r: int, c: int, s: Scope)
    requires OnBoard(g, r, c) && g[r][c].num != dig && dig != 0
    ensures Conflict(Put(g, r, c, g[r][c].(num := 0)), Committed, dig, s) == Conflict(g, Committed, dig, s)
  {
    var h := Put(g, r, c, g[r][c].(num := 0));
    if Conflict(g, Committed, dig, s) {
      var i, j :| 0 <= i < |g| && 0 <= j < |g[i]| && InScope(s, i, j) && Value(g[i][j], Committed) == dig;
      assert Value(h[i][j], Committed) == dig;
    }
    if Conflict(h, Committed, dig, s) {
      var i, j :| 0 <= i < |h| && 0 <= j < |h[i]| && InScope(s, i, j) && Value(h[i][j], Committed) == dig;
      assert Value(g[i][j], Committed) == dig;
    }
  }

  /** One undo or redo step whose value really changes is a write of its
      target value, and moves the hidden counter by the change in emptiness
      of its cell when that cell held the step's source value. */
  lemma ApplyChangeEffect(g: Grid, cnt: int, c: Change, forward: bool, m: int, n: int)
    requires IsGrid(g, |g|) && OnBoard(g, c.row, c.col)
    ensures From(c, forward) == To(c, forward) ==> ApplyChange(g, cnt, c, forward, m, n) == (g, cnt)
    ensures From(c, forward) != To(c, forward) ==> Wrote(g, ApplyChange(g, cnt, c, forward, m, n).0, c.row, c.col, To(c, forward))
    ensures g[c.row][c.col].num == From(c, forward) ==>
              ApplyChange(g, cnt, c, forward, m, n).1 - Zeros(ApplyChange(g, cnt, c, forward, m, n).0) == cnt - Zeros(g)
    ensures g[c.row][c.col].num == From(c, forward) && From(c, forward) != To(c, forward) ==>
              ApplyChange(g, cnt, c, forward, m, n).0 == SetBoard(g, c.row, c.col, To(c, forward), m, n)
    ensures g[c.row][c.col].num == From(c, forward) && From(c, forward) != To(c, forward) && To(c, forward) != 0 ==>
              (ApplyChange(g, cnt, c, forward, m, n).0[c.row][c.col].status == Shown <==> Unique(g, To(c, forward), c.row, c.col, m, n))
  {
    if From(c, forward) != To(c, forward) {
      ApplyChangeWrote(g, cnt, c, forward, m, n);
      WroteZeros(g, ApplyChange(g, cnt, c, forward, m, n).0, c.row, c.col, To(c, forward));
      if g[c.row][c.col].num == From(c, forward) {
        ApplyChangeIsSet(g, cnt, c, forward, m, n);
        SetBoardEffect(g, c.row, c.col, To(c, forward), m, n);
      }
    }
  }

  /** One undo or redo step on a cell holding the value the step moves away
      from is exactly set's board change to the target value: the same
      repair of an ERRONEOUS cell, the same mark-mode validation and the same
      SHOWN, ERRONEOUS or HIDDEN status (game.c:605-612 and 682-688 against
      game.c:432-449). */
  lemma ApplyChangeIsSet(g: Grid, cnt: int, c: Change, forward: bool, m: int, n: int)
    requires IsGrid(g, |g|) && OnBoard(g, c.row, c.col)
    requires g[c.row][c.col].num == From(c, forward) && From(c, forward) != To(c, forward)
    ensures ApplyChange(g, cnt, c, forward, m, n).0 == SetBoard(g, c.row, c.col, To(c, forward), m, n)
  {
    if g[c.row][c.col].status == Erroneous {
      ApplyChangeIsSetRepaired(g, cnt, c, forward, m, n);
    } else if To(c, forward) != 0 {
      ApplyChangeIsSetMarked(g, cnt, c, forward, m, n);
    } else {
      ApplyChangeIsSetCleared(g, cnt, c, forward, m, n);
    }
  }

  /** Two grids that agree everywhere except on the scratch-free part of
      (r, c) give the same grid once (r, c) is written. */
  lemma WriteAgrees(x: Grid, y: Grid, r: int, c: int, v: int, st: Status)
    requires OnBoard(x, r, c) && |y| == |x| && forall i :: 0 <= i < |x| ==> |y[i]| == |x[i]|
    requires forall i, j :: OnBoard(x, i, j) && (i, j) != (r, c) ==> x[i][j] == y[i][j]
    requires x[r][c].alt == y[r][c].alt
    ensures Write(x, r, c, v, st) == Write(y, r, c, v, st)
  {
    var a, b := Write(x, r, c, v, st), Write(y, r, c, v, st);
    forall i | 0 <= i < |a| ensures a[i] == b[i] {
      forall j | 0 <= j < |a[i]| ensures a[i][j] == b[i][j] {
        assert OnBoard(x, i, j);
      }
    }
  }

  /** Mark mode with digit 0 flags nothing. */
  lemma MarkNothing(g: Grid, row: int, col: int, m: int, n: int)
    requires IsGrid(g, |g|)
    ensures MarkAll(g, Committed, 0, row, col, m, n) == g
  {
    var g' := MarkAll(g, Committed, 0, row, col, m, n);
    MarkAllKeepsValuesAndFixed(g, Committed, 0, row, col, m, n);
    forall i | 0 <= i < |g| ensures g'[i] == g[i] {
      forall j | 0 <= j < |g[i]| ensures g'[i][j] == g[i][j] {
        MarkAllEffect(g, Committed, 0, row, col, m, n, i, j);
      }
    }
  }

  /** The step on an ERRONEOUS cell: both repair the cells the old value
      collided with, from the same board. */
  lemma ApplyChangeIsSetRepaired(g: Grid, cnt: int, c: Change, forward: bool, m: int, n: int)
    requires IsGrid(g, |g|) && OnBoard(g, c.row, c.col) && g[c.row][c.col].status == Erroneous
    requires g[c.row][c.col].num == From(c, forward) && From(c, forward) != To(c, forward)
    ensures ApplyChange(g, cnt, c, forward, m, n).0 == SetBoard(g, c.row, c.col, To(c, forward), m, n)
  {
    var r, k, from, to := c.row, c.col, From(c, forward), To(c, forward);
    var g0: Grid := Put(g, r, k, g[r][k].(num := 0));
    var g1 := ParseLegitimate(k, r, from, g0, m, n);
    RepairRestatus(k, r, from, g0, m, n);
    assert IsGrid(g1, |g|);
    if to == 0 {
      MarkNothing(g1, r, k, m, n);
      var g3 := Write(g1, r, k, 0, Verdict(Legal(g1, Committed, 0, r, k, m, n)));
      assert ApplyChange(g, cnt, c, forward, m, n).0 == Write(g3, r, k, 0, Hidden);
      assert SetBoard(g, r, k, to, m, n) == Write(g1, r, k, 0, Hidden);
      WriteAgrees(g3, g1, r, k, 0, Hidden);
    }
  }

  /** The step writing a nonzero value on a cell that is not ERRONEOUS:
      marking does not read the cell's own value, so clearing it first
      changes nothing. */
  lemma ApplyChangeIsSetMarked(g: Grid, cnt: int, c: Change, forward: bool, m: int, n: int)
    requires IsGrid(g, |g|) && OnBoard(g, c.row, c.col) && g[c.row][c.col].status != Erroneous
    requires g[c.row][c.col].num == From(c, forward) && From(c, forward) != To(c, forward) && To(c, forward) != 0
    ensures ApplyChange(g, cnt, c, forward, m, n).0 == SetBoard(g, c.row, c.col, To(c, forward), m, n)
  {
    var r, k, to := c.row, c.col, To(c, forward);
    var g0: Grid := Put(g, r, k, g[r][k].(num := 0));
    LegalIgnoresCell(g, g0, to, r, k, m, n);
    LegalIgnoresCell(g, g, to, r, k, m, n);
    var st := Verdict(Legal(g, Committed, to, r, k, m, n));
    var x := MarkAll(g0, Committed, to, r, k, m, n);
    var y := MarkAll(g, Committed, to, r, k, m, n);
    assert ApplyChange(g, cnt, c, forward, m, n).0 == Write(x, r, k, to, st);
    assert SetBoard(g, r, k, to, m, n) == Write(y, r, k, to, st);
    MarkAllKeepsValuesAndFixed(g0, Committed, to, r, k, m, n);
    MarkAllKeepsValuesAndFixed(g, Committed, to, r, k, m, n);
    forall i, j | OnBoard(x, i, j) && (i, j) != (r, k) ensures x[i][j] == y[i][j] {
      MarkAllEffect(g0, Committed, to, r, k, m, n, i, j);
      MarkAllEffect(g, Committed, to, r, k, m, n, i, j);
    }
    WriteAgrees(x, y, r, k, to, st);
  }

  /** The step clearing a cell that is not ERRONEOUS: it becomes empty and
      HIDDEN and nothing else changes. */
  lemma ApplyChangeIsSetCleared(g: Grid, cnt: int, c: Change, forward: bool, m: int, n: int)
    requires IsGrid(g, |g|) && OnBoard(g, c.row, c.col) && g[c.row][c.col].status != Erroneous
    requires g[c.row][c.col].num == From(c, forward) && From(c, forward) != To(c, forward) && To(c, forward) == 0
    ensures ApplyChange(g, cnt, c, forward, m, n).0 == SetBoard(g, c.row, c.col, To(c, forward), m, n)
  {
    var r, k := c.row, c.col;
    var g0: Grid := Put(g, r, k, g[r][k].(num := 0));
    MarkNothing(g0, r, k, m, n);
    var g3 := Write(g0, r, k, 0, Verdict(Legal(g0, Committed, 0, r, k, m, n)));
    assert ApplyChange(g, cnt, c, forward, m, n).0 == Write(g3, r, k, 0, Hidden);
    assert SetBoard(g, r, k, 0, m, n) == Write(g, r, k, 0, Hidden);
    WriteAgrees(g3, g, r, k, 0, Hidden);
  }

  /** A step whose value really changes writes its target value. */
  lemma ApplyChangeWrote(g: Grid, cnt: int, c: Change, forward: bool, m: int, n: int)
    requires IsGrid(g, |g|) && OnBoard(g, c.row, c.col) && From(c, forward) != To(c, forward)
    ensures Wrote(g, ApplyChange(g, cnt, c, forward, m, n).0, c.row, c.col, To(c, forward))
  {
    var from, to := From(c, forward), To(c, forward);
    var g0: Grid := Put(g, c.row, c.col, g[c.row][c.col].(num := 0));
    assert g0[c.row][c.col].status == g[c.row][c.col].status;
    var g1: Grid := if g[c.row][c.col].status == Erroneous then ParseLegitimate(c.col, c.row, from, g0, m, n) else g0;
    RepairRestatus(c.col, c.row, from, g0, m, n);
    assert Restatus(g0, g1);
    var g2 := MarkAll(g1, Committed, to, c.row, c.col, m, n);
    MarkRestatus(g1, to, c.row, c.col, m, n);
    RestatusTrans(g0, g1, g2);
    var st := Verdict(Legal(g1, Committed, to, c.row, c.col, m, n));
    if to == 0 {
      ClearedWrote(g, g0, g2, c.row, c.col, st);
    } else {
      WroteFrom(g, g0, g2, c.row, c.col, to, st);
    }
  }

  /** Writing a value and then 0 with HIDDEN over it is a write of 0. */
  lemma ClearedWrote(g: Grid, g0: Grid, g2: Grid, r: int, c: int, st: Status)
    requires OnBoard(g, r, c) && g0 == Put(g, r, c, g[r][c].(num := 0)) && Restatus(g0, g2)
    ensures Wrote(g, Write(Write(g2, r, c, 0, st), r, c, 0, Hidden), r, c, 0)
  {
    WroteFrom(g, g0, g2, r, c, 0, Hidden);
    var g3: Grid := Write(g2, r, c, 0, st);
    assert g3[r][c].(num := 0, status := Hidden) == g2[r][c].(num := 0, status := Hidden);
    assert g3[r][c := g3[r][c].(num := 0, status := Hidden)] == g2[r][c := g2[r][c].(num := 0, status := Hidden)];
  }

  // ------------------------------------------------------------ moves

  /** Some step of mv names cell (i, j). */
  predicate Names(mv: Move, i: int, j: int)
  {
    exists k :: 0 <= k < |mv| && mv[k].row == i && mv[k].col == j
  }

  /** The reference, cell by cell: with no cell named twice, every named cell
      ends with its step's target value and every other cell is untouched. */
  lemma {:induction false} ApplyNumsEffect(v: seq<seq<int>>, mv: Move, forward: bool)
    requires forall i :: 0 <= i < |v| ==> |v[i]| == |v|
    requires StepsOnBoard(mv, |v|) && DistinctSteps(mv)
    ensures forall k :: 0 <= k < |mv| ==> ApplyNums(v, mv, forward)[mv[k].row][mv[k].col] == To(mv[k], forward)
    ensures forall i, j :: 0 <= i < |v| && 0 <= j < |v| && !Names(mv, i, j) ==> ApplyNums(v, mv, forward)[i][j] == v[i][j]
    decreases |mv|
  {
    if |mv| > 0 {
      var c := mv[0];
      var v0 := v[c.row := v[c.row][c.col := To(c, forward)]];
      var rest := mv[1..];
      ApplyNumsEffect(v0, rest, forward);
      var r := ApplyNums(v, mv, forward);
      assert r == ApplyNums(v0, rest, forward);
      forall k | 0 <= k < |mv| ensures r[mv[k].row][mv[k].col] == To(mv[k], forward) {
        if k == 0 {
          forall l | 0 <= l < |rest| ensures !(rest[l].row == c.row && rest[l].col == c.col) {
            assert rest[l] == mv[l + 1];
          }
        } else {
          assert mv[k] == rest[k - 1];
        }
      }
      forall i, j | 0 <= i < |v| && 0 <= j < |v| && !Names(mv, i, j) ensures r[i][j] == v[i][j] {
        forall l | 0 <= l < |rest| ensures !(rest[l].row == i && rest[l].col == j) {
          assert rest[l] == mv[l + 1];
        }
        assert !(c.row == i && c.col == j) by { assert mv[0] == c; }
      }
    }
  }

  /** Undo is the inverse of redo and redo the inverse of undo on the
      committed values: applying a move whose cells hold its source values,
      then applying it in the other direction, gives the values back, and
      the cells then hold the source values of the reverse direction. */
  lemma ApplyNumsRoundTrip(v: seq<seq<int>>, mv: Move, forward: bool)
    requires forall i :: 0 <= i < |v| ==> |v[i]| == |v|
    requires StepsOnBoard(mv, |v|) && DistinctSteps(mv) && Holds(v, mv, forward)
    ensures Holds(ApplyNums(v, mv, forward), mv, !forward)
    ensures ApplyNums(ApplyNums(v, mv, forward), mv, !forward) == v
  {
    var v1 := ApplyNums(v, mv, forward);
    ApplyNumsEffect(v, mv, forward);
    ApplyNumsEffect(v1, mv, !forward);
    var v2 := ApplyNums(v1, mv, !forward);
    forall i | 0 <= i < |v| ensures v2[i] == v[i] {
      forall j | 0 <= j < |v| ensures v2[i][j] == v[i][j] {
        if Names(mv, i, j) {
          var k :| 0 <= k < |mv| && mv[k].row == i && mv[k].col == j;
        }
      }
    }
  }

  /** The steps after the first name cells of the board, no two the same,
      and none the first step's cell. */
  lemma TailSteps(mv: Move, size: int)
    requires |mv| > 0 && StepsOnBoard(mv, size) && DistinctSteps(mv)
    ensures StepsOnBoard(mv[1..], size) && DistinctSteps(mv[1..])
    ensures forall k :: 0 <= k < |mv| - 1 ==> mv[1..][k] == mv[k + 1] && (mv[k + 1].row, mv[k + 1].col) != (mv[0].row, mv[0].col)
  {
    var rest := mv[1..];
    forall k | 0 <= k < |rest| ensures 0 <= rest[k].row < size && 0 <= rest[k].col < size {
      assert rest[k] == mv[k + 1];
    }
    forall k, l | 0 <= k < l < |rest| ensures (rest[k].row, rest[k].col) != (rest[l].row, rest[l].col) {
      assert rest[k] == mv[k + 1] && rest[l] == mv[l + 1];
    }
  }

  /** One step whose cell holds its source value follows the reference and
      keeps count_hid in step with the empty cells. */
  lemma ApplyChangeTracks(g: Grid, cnt: int, c: Change, forward: bool, m: int, n: int)
    requires IsGrid(g, |g|) && OnBoard(g, c.row, c.col) && g[c.row][c.col].num == From(c, forward)
    ensures Nums(ApplyChange(g, cnt, c, forward, m, n).0) == Nums(g)[c.row := Nums(g)[c.row][c.col := To(c, forward)]]
    ensures ApplyChange(g, cnt, c, forward, m, n).1 - Zeros(ApplyChange(g, cnt, c, forward, m, n).0) == cnt - Zeros(g)
  {
    var v := Nums(g);
    ApplyChangeEffect(g, cnt, c, forward, m, n);
    if From(c, forward) == To(c, forward) {
      assert v[c.row][c.col := To(c, forward)] == v[c.row];
    } else {
      WroteNums(g, ApplyChange(g, cnt, c, forward, m, n).0, c.row, c.col, To(c, forward));
    }
  }

  /** undo and redo on the whole board follow the reference on the committed
      values, and keep count_hid in step with the number of empty cells. */
  lemma {:induction false} ApplyMoveTracks(g: Grid, cnt: int, mv: Move, forward: bool, m: int, n: int)
    requires IsGrid(g, |g|) && StepsOnBoard(mv, |g|) && DistinctSteps(mv) && Holds(Nums(g), mv, forward)
    ensures Nums(ApplyMove(g, cnt, mv, forward, m, n).0) == ApplyNums(Nums(g), mv, forward)
    ensures ApplyMove(g, cnt, mv, forward, m, n).1 - Zeros(ApplyMove(g, cnt, mv, forward, m, n).0) == cnt - Zeros(g)
    decreases |mv|
  {
    if |mv| > 0 {
      var c := mv[0];
      var rest := mv[1..];
      var r1 := ApplyChange(g, cnt, c, forward, m, n);
      var v := Nums(g);
      var v0 := v[c.row := v[c.row][c.col := To(c, forward)]];
      ApplyChangeTracks(g, cnt, c, forward, m, n);
      HoldsTail(v, mv, forward);
      ApplyMoveTracks(r1.0, r1.1, rest, forward, m, n);
      assert ApplyNums(v, mv, forward) == ApplyNums(v0, rest, forward);
    }
  }

  /** The reference for a whole move: each step that changes a value is
      set's board change to its target value, taken in list order. */
  function SetSteps(g: Grid, mv: Move, forward: bool, m: int, n: int): (g': Grid)
    requires IsGrid(g, |g|) && StepsOnBoard(mv, |g|)
    ensures IsGrid(g', |g|)
    decreases |mv|
  {
    if |mv| == 0 then g
    else
      var c := mv[0];
      var g1 := if From(c, forward) == To(c, forward) then g else SetBoard(g, c.row, c.col, To(c, forward), m, n);
      assert StepsOnBoard(mv[1..], |g|) by {
        forall k | 0 <= k < |mv| - 1 ensures 0 <= mv[1..][k].row < |g| && 0 <= mv[1..][k].col < |g| {
          assert mv[1..][k] == mv[k + 1];
        }
      }
      SetSteps(g1, mv[1..], forward, m, n)
  }

  /** undo and redo of a move whose cells hold the values the steps move
      away from re-run set's status rules on every step: the board is the
      one SetSteps builds. */
  lemma {:induction false} ApplyMoveIsSets(g: Grid, cnt: int, mv: Move, forward: bool, m: int, n: int)
    requires IsGrid(g, |g|) && StepsOnBoard(mv, |g|) && DistinctSteps(mv) && Holds(Nums(g), mv, forward)
    ensures ApplyMove(g, cnt, mv, forward, m, n).0 == SetSteps(g, mv, forward, m, n)
    decreases |mv|
  {
    if |mv| > 0 {
      var c := mv[0];
      var r1 := ApplyChange(g, cnt, c, forward, m, n);
      var v := Nums(g);
      assert g[c.row][c.col].num == From(c, forward) by { assert v[c.row][c.col] == From(mv[0], forward); }
      if From(c, forward) != To(c, forward) {
        ApplyChangeIsSet(g, cnt, c, forward, m, n);
      }
      ApplyChangeTracks(g, cnt, c, forward, m, n);
      HoldsTail(v, mv, forward);
      ApplyMoveIsSets(r1.0, r1.1, mv[1..], forward, m, n);
    }
  }

  /** After the first step is applied, the other steps still find their
      source values. */
  lemma HoldsTail(v: seq<seq<int>>, mv: Move, forward: bool)
    requires forall i :: 0 <= i < |v| ==> |v[i]| == |v|
    requires |mv| > 0 && StepsOnBoard(mv, |v|) && DistinctSteps(mv) && Holds(v, mv, forward)
    ensures StepsOnBoard(mv[1..], |v|) && DistinctSteps(mv[1..])
    ensures Holds(v[mv[0].row := v[mv[0].row][mv[0].col := To(mv[0], forward)]], mv[1..], forward)
  {
    TailSteps(mv, |v|);
  }

  /** undo and redo keep every empty cell HIDDEN and every HIDDEN cell
      empty, keep the scratch values, never touch a FIXED cell that no step
      names and never make a cell FIXED. */
  lemma {:induction false} ApplyMoveKeeps(g: Grid, cnt: int, mv: Move, forward: bool, m: int, n: int)
    requires IsGrid(g, |g|) && StepsOnBoard(mv, |g|)
    ensures StatusMatchesValue(g) ==> StatusMatchesValue(ApplyMove(g, cnt, mv, forward, m, n).0)
    ensures AltClear(g) ==> AltClear(ApplyMove(g, cnt, mv, forward, m, n).0)
    ensures forall i, j :: OnBoard(g, i, j) && g[i][j].status == Fixed && !Names(mv, i, j) ==>
              ApplyMove(g, cnt, mv, forward, m, n).0[i][j] == g[i][j]
    ensures forall i, j :: OnBoard(g, i, j) && g[i][j].status != Fixed ==>
              ApplyMove(g, cnt, mv, forward, m, n).0[i][j].status != Fixed
    decreases |mv|
  {
    if |mv| > 0 {
      var c := mv[0];
      var rest := mv[1..];
      var r1 := ApplyChange(g, cnt, c, forward, m, n);
      ApplyChangeKeeps(g, cnt, c, forward, m, n);
      assert StepsOnBoard(rest, |g|) by {
        forall k | 0 <= k < |rest| ensures 0 <= rest[k].row < |g| && 0 <= rest[k].col < |g| {
          assert rest[k] == mv[k + 1];
        }
      }
      ApplyMoveKeeps(r1.0, r1.1, rest, forward, m, n);
      var r := ApplyMove(g, cnt, mv, forward, m, n);
      assert r == ApplyMove(r1.0, r1.1, rest, forward, m, n);
      forall i, j | OnBoard(g, i, j) && g[i][j].status == Fixed && !Names(mv, i, j) ensures r.0[i][j] == g[i][j] {
        assert mv[0] == c;
        forall l | 0 <= l < |rest| ensures !(rest[l].row == i && rest[l].col == j) {
          assert rest[l] == mv[l + 1];
        }
      }
    }
  }

  /** One step of undo or redo keeps the status and scratch invariants,
      leaves every FIXED cell other than its own alone and makes no cell
      FIXED. */
  lemma ApplyChangeKeeps(g: Grid, cnt: int, c: Change, forward: bool, m: int, n: int)
    requires IsGrid(g, |g|) && OnBoard(g, c.row, c.col)
    ensures var g' := ApplyChange(g, cnt, c, forward, m, n).0;
            && IsGrid(g', |g|)
            && (StatusMatchesValue(g) ==> StatusMatchesValue(g'))
            && (AltClear(g) ==> AltClear(g'))
            && (forall i, j :: OnBoard(g, i, j) && g[i][j].status == Fixed && (i, j) != (c.row, c.col) ==> g'[i][j] == g[i][j])
            && (forall i, j :: OnBoard(g, i, j) && g[i][j].status != Fixed ==> g'[i][j].status != Fixed)
  {
    var g' := ApplyChange(g, cnt, c, forward, m, n).0;
    ApplyChangeEffect(g, cnt, c, forward, m, n);
    if From(c, forward) != To(c, forward) {
      if StatusMatchesValue(g) { WroteStatusMatches(g, g', c.row, c.col, To(c, forward)); }
      if AltClear(g) { WroteAltClear(g, g', c.row, c.col, To(c, forward)); }
    }
  }
}
