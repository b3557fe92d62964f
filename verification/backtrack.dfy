/** The exhaustive solution counter of solver.c: a depth-first search over
    the scratch values (`alt`) of the board, driven by an explicit stack.

    The search is proved to compute `Count`, the size of its own search tree
    defined recursively: the empty cells are filled in row-major order, each
    with every digit the probe-mode validator accepts, except that once the
    last empty cell gets a legal digit the larger digits for that cell are not
    tried (ex_backtrack pops the solved frame without incrementing it). */
module Backtrack {
  import opened Structs
  import opened StructFunctions
  import opened Validation

  /** (i, j) comes before (r, c) in row-major order. */
  predicate RowMajorBefore(i: int, j: int, r: int, c: int)
  {
    i < r || (i == r && j < c)
  }

  /** The scan of find_first_empty resumed at (r, c). */
  function FirstEmptyFrom(b: Grid, r: int, c: int): (p: Option<(int, int)>)
    requires IsGrid(b, |b|) && 0 <= r <= |b| && 0 <= c <= |b|
    ensures p.Some? ==> OnBoard(b, p.value.0, p.value.1) && b[p.value.0][p.value.1].alt == 0
                        && !RowMajorBefore(p.value.0, p.value.1, r, c)
    ensures forall i, j :: (&& OnBoard(b, i, j) && !RowMajorBefore(i, j, r, c)
                            && (p.Some? ==> RowMajorBefore(i, j, p.value.0, p.value.1))) ==> b[i][j].alt != 0
    decreases |b| - r, |b| - c
  {
    if r == |b| then None
    else if c == |b| then FirstEmptyFrom(b, r + 1, 0)
    else if b[r][c].alt == 0 then Some((r, c))
    else FirstEmptyFrom(b, r, c + 1)
  }

  /** find_first_empty: the first cell in row-major order whose scratch value
      is 0, or None when there is none. */
  function FindFirstEmpty(b: Grid): (p: Option<(int, int)>)
    requires IsGrid(b, |b|)
    ensures p.Some? ==> OnBoard(b, p.value.0, p.value.1) && b[p.value.0][p.value.1].alt == 0
    ensures p.Some? ==> forall i, j :: OnBoard(b, i, j) && RowMajorBefore(i, j, p.value.0, p.value.1) ==> b[i][j].alt != 0
    ensures p.None? <==> EmptyCells(b, Scratch) == {}
  {
    var p := FirstEmptyFrom(b, 0, 0);
    if p.Some? then
      assert p.value in EmptyCells(b, Scratch);
      p
    else
      p
  }

  /** clear_fill_alt_board: every scratch value becomes the committed value
      (fill) or 0 (clear); nothing else changes. */
  function ClearFillAlt(g: Grid, fill: bool): (g': Grid)
    ensures |g'| == |g| && forall i :: 0 <= i < |g| ==> |g'[i]| == |g[i]|
    ensures forall i, j :: OnBoard(g, i, j) ==> g'[i][j] == g[i][j].(alt := if fill then g[i][j].num else 0)
  {
    seq(|g|, i requires 0 <= i < |g| =>
      seq(|g[i]|, j requires 0 <= j < |g[i]| => g[i][j].(alt := if fill then g[i][j].num else 0)))
  }

  /** The scratch value at (r, c) replaced by v. */
  function SetAlt(b: Grid, r: int, c: int, v: int): (b': Grid)
    requires OnBoard(b, r, c)
  {
    Put(b, r, c, b[r][c].(alt := v))
  }

  lemma PutTwice(g: Grid, r: int, c: int, x: Cell, y: Cell)
    requires OnBoard(g, r, c)
    ensures Put(Put(g, r, c, x), r, c, y) == Put(g, r, c, y)
  {
    assert g[r][c := x][c := y] == g[r][c := y];
  }

  lemma PutSame(g: Grid, r: int, c: int)
    requires OnBoard(g, r, c)
    ensures Put(g, r, c, g[r][c]) == g
  {
    assert g[r][c := g[r][c]] == g[r];
    assert g[r := g[r]] == g;
  }

  /** Setting a scratch value and clearing it again restores a cell that was clear. */
  lemma SetAltUndone(b: Grid, r: int, c: int, v: int)
    requires OnBoard(b, r, c) && b[r][c].alt == 0
    ensures SetAlt(SetAlt(b, r, c, v), r, c, 0) == b
  {
    PutTwice(b, r, c, b[r][c].(alt := v), b[r][c]);
    PutSame(b, r, c);
  }

  // ------------------------------------------------- the search tree count

  /** What a search-tree count measures: the leaves (solutions reported) or
      the iterations of the search loop. */
  datatype Tally = Solutions | Steps

  /** The weight of a leaf: a board with no empty cell left. */
  function Leaf(t: Tally): nat
  {
    if t == Solutions then 1 else 0
  }

  /** The weight of a node: one digit tried at one cell. */
  function Node(t: Tally): nat
  {
    if t == Steps then 1 else 0
  }

  /** The search tree below scratch board b: the first empty cell in
      row-major order is tried with every digit from 1. */
  ghost function Count(b: Grid, m: int, n: int, t: Tally): nat
    requires IsGrid(b, |b|)
    decreases |EmptyCells(b, Scratch)|, |b| + 2
  {
    match FindFirstEmpty(b)
    case None => Leaf(t)
    case Some(p) => RestFrom(b, m, n, p.0, p.1, 1, t)
  }

  /** The search tree below the empty cell (r, c) of b when the digits v .. N
      are still to be tried there.  A legal digit at the last empty cell
      ends the trials at that cell. */
  ghost function RestFrom(b: Grid, m: int, n: int, r: int, c: int, v: int, t: Tally): nat
    requires IsGrid(b, |b|) && OnBoard(b, r, c) && b[r][c].alt == 0 && 1 <= v <= |b| + 1
    decreases |EmptyCells(b, Scratch)|, |b| + 1 - v
  {
    if v > |b| then 0
    else
      var legal := Legal(b, Scratch, v, r, c, m, n);
      EmptyCellsPut(b, r, c, b[r][c].(alt := v), Scratch);
      Node(t)
        + (if legal then Count(SetAlt(b, r, c, v), m, n, t) else 0)
        + (if legal && |EmptyCells(b, Scratch)| == 1 then 0 else RestFrom(b, m, n, r, c, v + 1, t))
  }

  /** A frame names a cell of b and a digit 1 .. N. */
  predicate FrameOn(b: Grid, f: Frame)
  {
    OnBoard(b, f.row, f.col) && 1 <= f.val <= |b|
  }

  /** Every frame of s is on the board and holds its digit in b. */
  ghost predicate AllCommitted(b: Grid, s: Stack)
  {
    forall k :: 0 <= k < |s| ==> FrameOn(b, s[k]) && b[s[k].row][s[k].col].alt == s[k].val
  }

  /** No two frames of s name the same cell. */
  ghost predicate DistinctCells(s: Stack)
  {
    forall k, l :: 0 <= k < l < |s| ==> (s[k].row, s[k].col) != (s[l].row, s[l].col)
  }

  /** The part of the search tree still to be visited below the committed
      frames of s: below each frame, the digits above its own. */
  ghost function Pending(b: Grid, m: int, n: int, s: Stack, t: Tally): nat
    requires IsGrid(b, |b|) && AllCommitted(b, s) && DistinctCells(s)
    decreases |s|
  {
    if |s| == 0 then 0
    else
      var f := Top(s);
      var b' := SetAlt(b, f.row, f.col, 0);
      assert AllCommitted(b', Pop(s)) by {
        forall k | 0 <= k < |Pop(s)| ensures FrameOn(b', s[k]) && b'[s[k].row][s[k].col].alt == s[k].val {
          assert (s[k].row, s[k].col) != (f.row, f.col);
        }
      }
      RestFrom(b', m, n, f.row, f.col, f.val + 1, t) + Pending(b', m, n, Pop(s), t)
  }

  /** The shape of the search between iterations: the top frame names an
      empty cell, the frames below it are committed. */
  ghost predicate SearchState(b: Grid, s: Stack)
  {
    && IsGrid(b, |b|)
    && (|s| > 0 ==>
          && FrameOn(b, Top(s)) && b[Top(s).row][Top(s).col].alt == 0
          && AllCommitted(b, Pop(s)) && DistinctCells(Pop(s)))
  }

  /** The part of the search tree still to be visited from state (b, s). */
  ghost function Remaining(b: Grid, m: int, n: int, s: Stack, t: Tally): nat
    requires SearchState(b, s)
  {
    if |s| == 0 then 0
    else RestFrom(b, m, n, Top(s).row, Top(s).col, Top(s).val, t) + Pending(b, m, n, Pop(s), t)
  }

  /** b' differs from b in scratch values only. */
  ghost predicate SameExceptAlt(b: Grid, b': Grid)
  {
    && |b'| == |b| && (forall i :: 0 <= i < |b| ==> |b'[i]| == |b[i]|)
    && forall i, j :: OnBoard(b, i, j) ==> b'[i][j].(alt := 0) == b[i][j].(alt := 0)
  }

  /** Some frame of s at index lo or above names cell (i, j). */
  ghost predicate CellFrom(s: Stack, lo: int, i: int, j: int)
  {
    exists k :: 0 <= k < |s| && lo <= k && s[k].row == i && s[k].col == j
  }

  /** b' is b with the cells of the frames of s from index lo cleared. */
  ghost predicate ClearedFrom(b: Grid, b': Grid, s: Stack, lo: int)
  {
    && IsGrid(b, |b|) && IsGrid(b', |b|)
    && forall i, j :: OnBoard(b, i, j) ==>
         b'[i][j] == if CellFrom(s, lo, i, j) then b[i][j].(alt := 0) else b[i][j]
  }

  /** Clearing the top frame's cell leaves the frames below it committed. */
  lemma ClearTop(b: Grid, s: Stack)
    requires IsGrid(b, |b|) && AllCommitted(b, s) && DistinctCells(s) && |s| > 0
    ensures AllCommitted(SetAlt(b, Top(s).row, Top(s).col, 0), Pop(s)) && DistinctCells(Pop(s))
    ensures |EmptyCells(SetAlt(b, Top(s).row, Top(s).col, 0), Scratch)| == |EmptyCells(b, Scratch)| + 1
  {
    var f := Top(s);
    var b' := SetAlt(b, f.row, f.col, 0);
    EmptyCellsPut(b, f.row, f.col, b[f.row][f.col].(alt := 0), Scratch);
    forall k | 0 <= k < |Pop(s)| ensures FrameOn(b', s[k]) && b'[s[k].row][s[k].col].alt == s[k].val {
      assert (s[k].row, s[k].col) != (f.row, f.col);
    }
  }

  /** A popped frame holding N has nothing left to visit. */
  lemma PendingPopFull(b: Grid, m: int, n: int, s: Stack)
    requires IsGrid(b, |b|) && AllCommitted(b, s) && DistinctCells(s) && |s| > 0 && Top(s).val == |b|
    ensures AllCommitted(SetAlt(b, Top(s).row, Top(s).col, 0), Pop(s)) && DistinctCells(Pop(s))
    ensures forall t :: Pending(b, m, n, s, t) == Pending(SetAlt(b, Top(s).row, Top(s).col, 0), m, n, Pop(s), t)
  {
    ClearTop(b, s);
  }

  /** A popped frame below N comes back one digit higher on an empty cell. */
  lemma PendingPopInc(b: Grid, m: int, n: int, s: Stack)
    requires IsGrid(b, |b|) && AllCommitted(b, s) && DistinctCells(s) && |s| > 0 && Top(s).val < |b|
    ensures var f := Top(s);
            var s' := Push(Pop(s), f.val + 1, f.row, f.col);
            var b' := SetAlt(b, f.row, f.col, 0);
            SearchState(b', s') && forall t :: Pending(b, m, n, s, t) == Remaining(b', m, n, s', t)
  {
    ClearTop(b, s);
    var f := Top(s);
    PushPop(Pop(s), f.val + 1, f.row, f.col);
  }

  /** One more frame popped: the cleared cells grow by that frame's cell. */
  lemma ClearOneMore(stk: Stack, b: Grid, before: Grid, j: int)
    requires IsGrid(b, |b|) && AllCommitted(b, stk) && DistinctCells(stk) && 0 <= j < |stk|
    requires ClearedFrom(b, before, stk, j + 1)
    ensures ClearedFrom(b, SetAlt(before, stk[j].row, stk[j].col, 0), stk, j)
    ensures AllCommitted(before, stk[..j + 1])
  {
    var f := stk[j];
    var after := SetAlt(before, f.row, f.col, 0);
    assert !CellFrom(stk, j + 1, f.row, f.col);
    forall i, c | OnBoard(b, i, c)
      ensures after[i][c] == if CellFrom(stk, j, i, c) then b[i][c].(alt := 0) else b[i][c]
    {
      if (i, c) != (f.row, f.col) {
        assert CellFrom(stk, j, i, c) == CellFrom(stk, j + 1, i, c);
      }
    }
    forall k | 0 <= k < j + 1
      ensures FrameOn(before, stk[..j + 1][k]) && before[stk[k].row][stk[k].col].alt == stk[k].val
    {
      assert !CellFrom(stk, j + 1, stk[k].row, stk[k].col);
    }
  }

  /** The loop of pop_till_inc: frames holding N are popped and their cells
      cleared until the top frame holds less or the stack is empty. */
  method PopFull(stk: Stack, b: Grid, cnt: int, ghost m: int, ghost n: int)
    returns (stk': Stack, b': Grid, cnt': int)
    requires IsGrid(b, |b|) && AllCommitted(b, stk) && DistinctCells(stk)
    ensures |stk'| <= |stk| && stk' == stk[..|stk'|]
    ensures |stk'| > 0 ==> Top(stk').val != |b|
    ensures forall k :: |stk'| <= k < |stk| ==> stk[k].val == |b|
    ensures ClearedFrom(b, b', stk, |stk'|)
    ensures AllCommitted(b', stk') && DistinctCells(stk')
    ensures cnt' - |EmptyCells(b', Scratch)| == cnt - |EmptyCells(b, Scratch)|
    ensures forall t :: Pending(b, m, n, stk, t) == Pending(b', m, n, stk', t)
  {
    stk', b', cnt' := stk, b, cnt;
    while |stk'| > 0 && Top(stk').val == |b|
      invariant |stk'| <= |stk| && stk' == stk[..|stk'|]
      invariant ClearedFrom(b, b', stk, |stk'|)
      invariant AllCommitted(b', stk') && DistinctCells(stk')
      invariant forall k :: |stk'| <= k < |stk| ==> stk[k].val == |b|
      invariant cnt' - |EmptyCells(b', Scratch)| == cnt - |EmptyCells(b, Scratch)|
      invariant forall t :: Pending(b, m, n, stk, t) == Pending(b', m, n, stk', t)
    {
      var f := Top(stk');
      PendingPopFull(b', m, n, stk');
      ClearTop(b', stk');
      ClearOneMore(stk, b, b', |stk'| - 1);
      b' := SetAlt(b', f.row, f.col, 0);
      cnt' := cnt' + 1;
      stk' := Pop(stk');
    }
  }

  /** pop_till_inc: frames holding N are popped and their cells cleared; the
      first frame below them, if any, is cleared and comes back one digit
      higher.  The search tree still to be visited is unchanged. */
  method PopTillInc(stk: Stack, b: Grid, cnt: int, ghost m: int, ghost n: int)
    returns (stk': Stack, b': Grid, cnt': int)
    requires IsGrid(b, |b|) && AllCommitted(b, stk) && DistinctCells(stk)
    ensures |stk'| == 0 ==> forall k :: 0 <= k < |stk| ==> stk[k].val == |b|
    ensures |stk'| > 0 ==>
              && |stk'| <= |stk|
              && stk'[..|stk'| - 1] == stk[..|stk'| - 1]
              && stk'[|stk'| - 1] == stk[|stk'| - 1].(val := stk[|stk'| - 1].val + 1)
              && stk[|stk'| - 1].val < |b|
              && forall k :: |stk'| <= k < |stk| ==> stk[k].val == |b|
    ensures ClearedFrom(b, b', stk, if |stk'| == 0 then 0 else |stk'| - 1)
    ensures cnt' - |EmptyCells(b', Scratch)| == cnt - |EmptyCells(b, Scratch)|
    ensures SearchState(b', stk')
    ensures forall t :: Pending(b, m, n, stk, t) == Remaining(b', m, n, stk', t)
  {
    stk', b', cnt' := PopFull(stk, b, cnt, m, n);
    if |stk'| > 0 {
      var f := Top(stk');
      PopIncEffect(stk, b, stk', b', m, n);
      stk' := Pop(stk');
      cnt' := cnt' + 1;
      b' := SetAlt(b', f.row, f.col, 0);
      stk' := Push(stk', f.val + 1, f.row, f.col);
    }
  }

  /** The last step of pop_till_inc, once the frames holding N are gone from
      the original stack stk: the top frame mid's cell is cleared and the
      frame comes back one digit higher. */
  lemma PopIncEffect(stk: Stack, b: Grid, mid: Stack, bm: Grid, m: int, n: int)
    requires IsGrid(b, |b|) && AllCommitted(b, stk) && DistinctCells(stk)
    requires 0 < |mid| <= |stk| && mid == stk[..|mid|] && Top(mid).val != |b|
    requires ClearedFrom(b, bm, stk, |mid|) && AllCommitted(bm, mid) && DistinctCells(mid)
    requires forall t :: Pending(b, m, n, stk, t) == Pending(bm, m, n, mid, t)
    ensures var f := Top(mid);
            var s' := Push(Pop(mid), f.val + 1, f.row, f.col);
            var b' := SetAlt(bm, f.row, f.col, 0);
            && s'[..|s'| - 1] == stk[..|s'| - 1]
            && s'[|s'| - 1] == stk[|s'| - 1].(val := stk[|s'| - 1].val + 1)
            && stk[|s'| - 1].val < |b|
            && ClearedFrom(b, b', stk, |mid| - 1)
            && |EmptyCells(b', Scratch)| == |EmptyCells(bm, Scratch)| + 1
            && SearchState(b', s')
            && forall t :: Pending(b, m, n, stk, t) == Remaining(b', m, n, s', t)
  {
    var f := Top(mid);
    assert f == stk[|mid| - 1];
    PendingPopInc(bm, m, n, mid);
    ClearTop(bm, mid);
    ClearOneMore(stk, b, bm, |mid| - 1);
  }

  // ------------------------------------------------- one iteration of the search

  lemma SameExceptAltTrans(a: Grid, b: Grid, c: Grid)
    requires SameExceptAlt(a, b) && SameExceptAlt(b, c)
    ensures SameExceptAlt(a, c)
  {
  }

  lemma SetAltSame(b: Grid, r: int, c: int, v: int)
    requires OnBoard(b, r, c)
    ensures SameExceptAlt(b, SetAlt(b, r, c, v))
  {
  }

  lemma ClearedSame(b: Grid, b': Grid, s: Stack)
    requires exists lo :: ClearedFrom(b, b', s, lo)
    ensures SameExceptAlt(b, b')
  {
  }

  /** Filling the scratch values and clearing them again, whatever happened to
      the scratch values in between, clears the scratch values of g. */
  lemma ClearAfterFill(g: Grid, b0: Grid, b: Grid)
    requires b0 == ClearFillAlt(g, true) && SameExceptAlt(b0, b)
    ensures ClearFillAlt(b, false) == ClearFillAlt(g, false)
  {
    SameGrid(ClearFillAlt(b, false), ClearFillAlt(g, false));
  }

  /** A legal digit at a cell that is not the last empty one: the search
      descends to the next empty cell, on a board in search shape. */
  lemma DescendShape(b: Grid, s: Stack)
    requires SearchState(b, s) && |s| > 0 && |EmptyCells(b, Scratch)| > 1
    ensures var f := Top(s);
            var b' := SetAlt(b, f.row, f.col, f.val);
            && IsGrid(b', |b|)
            && |EmptyCells(b', Scratch)| == |EmptyCells(b, Scratch)| - 1
            && FindFirstEmpty(b').Some?
            && AllCommitted(b', s) && DistinctCells(s)
            && SetAlt(b', f.row, f.col, 0) == b
            && var e := FindFirstEmpty(b').value;
               SearchState(b', Push(s, 1, e.0, e.1))
  {
    var f := Top(s);
    var b' := SetAlt(b, f.row, f.col, f.val);
    EmptyCellsPut(b, f.row, f.col, b[f.row][f.col].(alt := f.val), Scratch);
    var e := FindFirstEmpty(b').value;
    PushPop(s, 1, e.0, e.1);
    forall k | 0 <= k < |Pop(s)| ensures FrameOn(b', s[k]) && b'[s[k].row][s[k].col].alt == s[k].val {
      assert (s[k].row, s[k].col) != (f.row, f.col);
    }
    assert AllCommitted(b', s);
    SetAltUndone(b, f.row, f.col, f.val);
  }

  /** Below a committed frame: its cell's later digits, then the frames
      underneath. */
  lemma PendingUnfold(b: Grid, b': Grid, m: int, n: int, s: Stack, t: Tally)
    requires SearchState(b, s) && |s| > 0
    requires b' == SetAlt(b, Top(s).row, Top(s).col, Top(s).val)
    requires SetAlt(b', Top(s).row, Top(s).col, 0) == b
    requires IsGrid(b', |b|) && AllCommitted(b', s) && DistinctCells(s)
    ensures Pending(b', m, n, s, t) ==
              RestFrom(b, m, n, Top(s).row, Top(s).col, Top(s).val + 1, t) + Pending(b, m, n, Pop(s), t)
  {
  }

  /** A legal digit at a cell that is not the last empty one: that digit's
      subtree, then the later digits. */
  lemma RestFromLegal(b: Grid, m: int, n: int, r: int, c: int, v: int, t: Tally)
    requires IsGrid(b, |b|) && OnBoard(b, r, c) && b[r][c].alt == 0 && 1 <= v <= |b|
    requires Legal(b, Scratch, v, r, c, m, n) && |EmptyCells(b, Scratch)| > 1
    ensures IsGrid(SetAlt(b, r, c, v), |b|)
    ensures RestFrom(b, m, n, r, c, v, t) == Node(t) + Count(SetAlt(b, r, c, v), m, n, t) + RestFrom(b, m, n, r, c, v + 1, t)
  {
  }

  /** Descending to the next empty cell e visits one node and leaves the
      rest of the tree to visit. */
  lemma DescendTally(b: Grid, b': Grid, e: (int, int), m: int, n: int, s: Stack, t: Tally)
    requires SearchState(b, s) && |s| > 0 && |EmptyCells(b, Scratch)| > 1
    requires Legal(b, Scratch, Top(s).val, Top(s).row, Top(s).col, m, n)
    requires b' == SetAlt(b, Top(s).row, Top(s).col, Top(s).val)
    requires IsGrid(b', |b|) && FindFirstEmpty(b') == Some(e)
    requires SetAlt(b', Top(s).row, Top(s).col, 0) == b
    requires AllCommitted(b', s) && DistinctCells(s) && SearchState(b', Push(s, 1, e.0, e.1))
    ensures Remaining(b, m, n, s, t) == Node(t) + Remaining(b', m, n, Push(s, 1, e.0, e.1), t)
  {
    DescendUnfold(b, b', m, n, s, t);
    CountFirst(b', e, m, n, t);
    RemainingPushed(b', e, m, n, s, t);
  }

  /** Committing a legal digit that does not complete the board: its node,
      the subtree below it, then what is left below the committed frames. */
  lemma DescendUnfold(b: Grid, b': Grid, m: int, n: int, s: Stack, t: Tally)
    requires SearchState(b, s) && |s| > 0 && |EmptyCells(b, Scratch)| > 1
    requires Legal(b, Scratch, Top(s).val, Top(s).row, Top(s).col, m, n)
    requires b' == SetAlt(b, Top(s).row, Top(s).col, Top(s).val)
    requires IsGrid(b', |b|) && SetAlt(b', Top(s).row, Top(s).col, 0) == b
    requires AllCommitted(b', s) && DistinctCells(s)
    ensures Remaining(b, m, n, s, t) == Node(t) + Count(b', m, n, t) + Pending(b', m, n, s, t)
  {
    var f := Top(s);
    PendingUnfold(b, b', m, n, s, t);
    RestFromLegal(b, m, n, f.row, f.col, f.val, t);
    RemainingTop(b, m, n, s, t);
  }

  /** The search tree still to be visited: the top frame's digits, then the
      frames underneath. */
  lemma RemainingTop(b: Grid, m: int, n: int, s: Stack, t: Tally)
    requires SearchState(b, s) && |s| > 0
    ensures Remaining(b, m, n, s, t) == RestFrom(b, m, n, Top(s).row, Top(s).col, Top(s).val, t) + Pending(b, m, n, Pop(s), t)
  {
  }

  /** Right after a push of digit 1 at the first empty cell e. */
  lemma RemainingPushed(b: Grid, e: (int, int), m: int, n: int, s: Stack, t: Tally)
    requires IsGrid(b, |b|) && FindFirstEmpty(b) == Some(e)
    requires AllCommitted(b, s) && DistinctCells(s) && SearchState(b, Push(s, 1, e.0, e.1))
    ensures Remaining(b, m, n, Push(s, 1, e.0, e.1), t) == RestFrom(b, m, n, e.0, e.1, 1, t) + Pending(b, m, n, s, t)
  {
    PushPop(s, 1, e.0, e.1);
    RemainingTop(b, m, n, Push(s, 1, e.0, e.1), t);
  }

  /** The tree below a board with an empty cell starts at its first empty cell. */
  lemma CountFirst(b: Grid, e: (int, int), m: int, n: int, t: Tally)
    requires IsGrid(b, |b|) && FindFirstEmpty(b) == Some(e)
    ensures Count(b, m, n, t) == RestFrom(b, m, n, e.0, e.1, 1, t)
  {
  }

  /** A legal digit at the last empty cell completes the board. */
  lemma SolvedShape(b: Grid, s: Stack)
    requires SearchState(b, s) && |s| > 0 && |EmptyCells(b, Scratch)| == 1
    ensures var f := Top(s);
            var b' := SetAlt(b, f.row, f.col, f.val);
            && IsGrid(b', |b|)
            && |EmptyCells(b', Scratch)| == 0
            && FindFirstEmpty(b').None?
            && SetAlt(b', f.row, f.col, 0) == b
  {
    var f := Top(s);
    var b' := SetAlt(b, f.row, f.col, f.val);
    EmptyCellsPut(b, f.row, f.col, b[f.row][f.col].(alt := f.val), Scratch);
    SetAltUndone(b, f.row, f.col, f.val);
  }

  /** The completed board is one leaf; the search goes on below the frames
      underneath. */
  lemma SolvedTally(b: Grid, m: int, n: int, s: Stack, t: Tally)
    requires SearchState(b, s) && |s| > 0 && |EmptyCells(b, Scratch)| == 1
    requires Legal(b, Scratch, Top(s).val, Top(s).row, Top(s).col, m, n)
    ensures Remaining(b, m, n, s, t) == Node(t) + Leaf(t) + Pending(b, m, n, Pop(s), t)
  {
    SolvedShape(b, s);
    var f := Top(s);
    var b' := SetAlt(b, f.row, f.col, f.val);
    assert Count(b', m, n, t) == Leaf(t);
    assert RestFrom(b, m, n, f.row, f.col, f.val, t) == Node(t) + Count(b', m, n, t);
  }

  /** An illegal digit below N: the same cell is tried with the next digit. */
  lemma NextTally(b: Grid, m: int, n: int, s: Stack, t: Tally)
    requires SearchState(b, s) && |s| > 0 && Top(s).val < |b|
    requires !Legal(b, Scratch, Top(s).val, Top(s).row, Top(s).col, m, n)
    ensures var f := Top(s);
            var s' := Push(Pop(s), f.val + 1, f.row, f.col);
            && SearchState(b, s')
            && Remaining(b, m, n, s, t) == Node(t) + Remaining(b, m, n, s', t)
  {
    var f := Top(s);
    PushPop(Pop(s), f.val + 1, f.row, f.col);
    assert RestFrom(b, m, n, f.row, f.col, f.val, t) == Node(t) + RestFrom(b, m, n, f.row, f.col, f.val + 1, t);
  }

  /** An illegal N: back to the frames underneath. */
  lemma ExhaustedTally(b: Grid, m: int, n: int, s: Stack, t: Tally)
    requires SearchState(b, s) && |s| > 0 && Top(s).val == |b|
    requires !Legal(b, Scratch, Top(s).val, Top(s).row, Top(s).col, m, n)
    ensures Remaining(b, m, n, s, t) == Node(t) + Pending(b, m, n, Pop(s), t)
  {
    var f := Top(s);
    assert RestFrom(b, m, n, f.row, f.col, f.val + 1, t) == 0;
    assert RestFrom(b, m, n, f.row, f.col, f.val, t) == Node(t) + RestFrom(b, m, n, f.row, f.col, f.val + 1, t);
  }

  /** A legal digit at the last empty cell (solver.c:238-245): a solution is
      counted, the cell is cleared again and the search backtracks. */
  method CountSolution(stk: Stack, b: Grid, cnt: int, m: int, n: int)
    returns (stk': Stack, b': Grid, cnt': int)
    requires m >= 1 && n >= 1 && IsGrid(b, m * n)
    requires SearchState(b, stk) && |stk| > 0 && cnt == |EmptyCells(b, Scratch)| && cnt == 1
    requires Legal(b, Scratch, Top(stk).val, Top(stk).row, Top(stk).col, m, n)
    ensures IsGrid(b', m * n) && SearchState(b', stk') && SameExceptAlt(b, b')
    ensures cnt' == |EmptyCells(b', Scratch)|
    ensures Remaining(b, m, n, stk, Solutions) == 1 + Remaining(b', m, n, stk', Solutions)
    ensures Remaining(b, m, n, stk, Steps) == 1 + Remaining(b', m, n, stk', Steps)
  {
    var f := Top(stk);
    SolvedShape(b, stk);
    SolvedTally(b, m, n, stk, Solutions);
    SolvedTally(b, m, n, stk, Steps);
    cnt' := cnt - 1;
    b' := SetAlt(b, f.row, f.col, f.val);
    stk' := Pop(stk);
    cnt' := cnt' + 1;
    b' := SetAlt(b', f.row, f.col, 0);
    stk', b', cnt' := PopTillInc(stk', b', cnt', m, n);
    ClearedSame(b, b', Pop(stk));
  }

  /** A legal digit with more empty cells left (solver.c:238-249): the digit
      is committed as the cell's scratch value and digit 1 is pushed for the
      first empty cell. */
  method Descend(stk: Stack, b: Grid, cnt: int, m: int, n: int)
    returns (stk': Stack, b': Grid, cnt': int)
    requires m >= 1 && n >= 1 && IsGrid(b, m * n)
    requires SearchState(b, stk) && |stk| > 0 && cnt == |EmptyCells(b, Scratch)| && cnt > 1
    requires Legal(b, Scratch, Top(stk).val, Top(stk).row, Top(stk).col, m, n)
    ensures IsGrid(b', m * n) && SearchState(b', stk') && SameExceptAlt(b, b')
    ensures cnt' == |EmptyCells(b', Scratch)|
    ensures Remaining(b, m, n, stk, Solutions) == Remaining(b', m, n, stk', Solutions)
    ensures Remaining(b, m, n, stk, Steps) == 1 + Remaining(b', m, n, stk', Steps)
  {
    var f := Top(stk);
    DescendShape(b, stk);
    cnt' := cnt - 1;
    b' := SetAlt(b, f.row, f.col, f.val);
    SetAltSame(b, f.row, f.col, f.val);
    var e := FindFirstEmpty(b');
    DescendTally(b, b', e.value, m, n, stk, Solutions);
    DescendTally(b, b', e.value, m, n, stk, Steps);
    stk' := Push(stk, 1, e.value.0, e.value.1);
  }

  /** An illegal digit (solver.c:252-260): the next digit replaces it, or,
      after N, the search backtracks. */
  method Reject(stk: Stack, b: Grid, cnt: int, m: int, n: int)
    returns (stk': Stack, b': Grid, cnt': int)
    requires m >= 1 && n >= 1 && IsGrid(b, m * n)
    requires SearchState(b, stk) && |stk| > 0 && cnt == |EmptyCells(b, Scratch)|
    requires !Legal(b, Scratch, Top(stk).val, Top(stk).row, Top(stk).col, m, n)
    ensures IsGrid(b', m * n) && SearchState(b', stk') && SameExceptAlt(b, b')
    ensures cnt' == |EmptyCells(b', Scratch)|
    ensures Remaining(b, m, n, stk, Solutions) == Remaining(b', m, n, stk', Solutions)
    ensures Remaining(b, m, n, stk, Steps) == 1 + Remaining(b', m, n, stk', Steps)
  {
    var f := Top(stk);
    b', cnt' := b, cnt;
    if f.val < |b| {
      NextTally(b, m, n, stk, Solutions);
      NextTally(b, m, n, stk, Steps);
      stk' := Pop(stk);
      stk' := Push(stk', f.val + 1, f.row, f.col);
    } else {
      ExhaustedTally(b, m, n, stk, Solutions);
      ExhaustedTally(b, m, n, stk, Steps);
      stk' := Pop(stk);
      stk', b', cnt' := PopTillInc(stk', b', cnt', m, n);
      ClearedSame(b, b', Pop(stk));
    }
  }

  /** One iteration of the loop of ex_backtrack (solver.c:234-261): the top
      frame's digit is probed at its cell in probe mode; a legal digit is
      committed and the search descends, or, on the last empty cell, a
      solution is counted; an illegal one is replaced or backtracked.
      Exactly one node of the search tree is visited. */
  method SearchStep(stk: Stack, b: Grid, cnt: int, m: int, n: int)
    returns (stk': Stack, b': Grid, cnt': int, found: bool)
    requires m >= 1 && n >= 1 && IsGrid(b, m * n)
    requires SearchState(b, stk) && |stk| > 0 && cnt == |EmptyCells(b, Scratch)|
    ensures IsGrid(b', m * n) && SearchState(b', stk') && SameExceptAlt(b, b')
    ensures cnt' == |EmptyCells(b', Scratch)|
    ensures Remaining(b, m, n, stk, Solutions) == (if found then 1 else 0) + Remaining(b', m, n, stk', Solutions)
    ensures Remaining(b, m, n, stk, Steps) == 1 + Remaining(b', m, n, stk', Steps)
  {
    var f := Top(stk);
    assert (f.row, f.col) in EmptyCells(b, Scratch);
    var valid, _ := ValidateDig(f.val, f.row, f.col, m, n, b, false, Scratch);
    if valid && cnt - 1 == 0 {
      found := true;
      stk', b', cnt' := CountSolution(stk, b, cnt, m, n);
    } else if valid {
      found := false;
      stk', b', cnt' := Descend(stk, b, cnt, m, n);
    } else {
      found := false;
      stk', b', cnt' := Reject(stk, b, cnt, m, n);
    }
  }

  /** ex_backtrack: the number of solutions the exhaustive search reports for
      board g, whose committed values seed the scratch values.  The search
      visits exactly the tree Count describes; the scratch values are clear
      afterwards. */
  method ExBacktrack(g: Grid, m: int, n: int, countHid: int) returns (sols: int, g': Grid)
    requires m >= 1 && n >= 1 && IsGrid(g, m * n)
    requires countHid == Zeros(g)
    ensures sols == Count(ClearFillAlt(g, true), m, n, Solutions)
    ensures Zeros(g) == 0 ==> sols == 1
    ensures g' == ClearFillAlt(g, false)
  {
    var b := ClearFillAlt(g, true);
    ghost var b0 := b;
    assert EmptyCells(b, Scratch) == EmptyCells(g, Committed);
    var p := FindFirstEmpty(b);
    if p.None? {
      g' := ClearFillAlt(b, false);
      ClearAfterFill(g, b0, b);
      return 1, g';
    }
    var stk := Push(CreateStack(), 1, p.value.0, p.value.1);
    var cnt := countHid;
    sols := 0;
    assert Remaining(b, m, n, stk, Solutions) == Count(b0, m, n, Solutions);
    while |stk| > 0
      invariant IsGrid(b, m * n) && SearchState(b, stk) && SameExceptAlt(b0, b)
      invariant cnt == |EmptyCells(b, Scratch)|
      invariant sols + Remaining(b, m, n, stk, Solutions) == Count(b0, m, n, Solutions)
      decreases Remaining(b, m, n, stk, Steps)
    {
      ghost var b1 := b;
      var found;
      stk, b, cnt, found := SearchStep(stk, b, cnt, m, n);
      if found {
        sols := sols + 1;
      }
      SameExceptAltTrans(b0, b1, b);
    }
    g' := ClearFillAlt(b, false);
    ClearAfterFill(g, b0, b);
  }
}
