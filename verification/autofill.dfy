/** The sweep of autofill (game.c:729-760).  Every empty cell whose value is
    forced (exactly one digit passes validate_dig on the committed values) is
    staged in its scratch value; the committed values do not change during
    the sweep, so every decision is made against the board as it was before
    autofill.  A staged cell is checked in mark mode against the scratch
    values, i.e. against the cells staged before it, which it marks
    ERRONEOUS when they hold the same digit; it becomes ERRONEOUS itself when
    one of them does. */
module AutoFill {
  import opened Structs
  import opened Validation
  import opened Backtrack
  import opened Edits
  import opened Moves

  /** d is the only digit of 1..N that validate_dig accepts at (i, j). */
  ghost predicate OnlyLegal(g: Grid, i: int, j: int, m: int, n: int, d: int)
  {
    && 1 <= d <= m * n && Legal(g, Committed, d, i, j, m, n)
    && forall e :: 1 <= e <= m * n && Legal(g, Committed, e, i, j, m, n) ==> e == d
  }

  /** The digit loop of autofill from digit d on, carrying the number of
      legal digits found and the last one found; it stops as soon as a
      second legal digit turns up. */
  function ScanDigits(g: Grid, i: int, j: int, m: int, n: int, d: int, found: int, sol: int): (int, int)
    decreases m * n + 1 - d
  {
    if d > m * n then (found, sol)
    else
      var legal := Legal(g, Committed, d, i, j, m, n);
      var found' := if legal then found + 1 else found;
      var sol' := if legal then d else sol;
      if found' > 1 then (found', sol') else ScanDigits(g, i, j, m, n, d + 1, found', sol')
  }

  /** The digit loop finds exactly one legal digit exactly when there is one
      and only one, and then it is that digit. */
  lemma {:induction false} ScanDigitsMeans(g: Grid, i: int, j: int, m: int, n: int, d: int, found: int, sol: int)
    requires 1 <= d && (d <= m * n + 1 || found == 0)
    requires found == 0 ==> forall e :: 1 <= e < d ==> !Legal(g, Committed, e, i, j, m, n)
    requires found == 1 ==> 1 <= sol < d && Legal(g, Committed, sol, i, j, m, n)
                            && forall e :: 1 <= e < d && Legal(g, Committed, e, i, j, m, n) ==> e == sol
    requires found == 0 || found == 1
    ensures ScanDigits(g, i, j, m, n, d, found, sol).0 == 1 <==> exists e :: OnlyLegal(g, i, j, m, n, e)
    ensures ScanDigits(g, i, j, m, n, d, found, sol).0 == 1 ==> OnlyLegal(g, i, j, m, n, ScanDigits(g, i, j, m, n, d, found, sol).1)
    decreases m * n + 1 - d
  {
    if d > m * n {
      if found == 0 {
        forall e | OnlyLegal(g, i, j, m, n, e) ensures false {
        }
      } else {
        assert OnlyLegal(g, i, j, m, n, sol);
      }
    } else {
      var legal := Legal(g, Committed, d, i, j, m, n);
      var found' := if legal then found + 1 else found;
      var sol' := if legal then d else sol;
      if found' > 1 {
        assert 1 <= sol < d <= m * n && Legal(g, Committed, sol, i, j, m, n) && Legal(g, Committed, d, i, j, m, n);
        forall e | OnlyLegal(g, i, j, m, n, e) ensures false {
        }
      } else {
        ScanDigitsMeans(g, i, j, m, n, d + 1, found', sol');
      }
    }
  }

  /** The digit autofill stages at (i, j), or 0 when it leaves the cell. */
  function Single(g: Grid, i: int, j: int, m: int, n: int): int
    requires OnBoard(g, i, j)
  {
    var r := ScanDigits(g, i, j, m, n, 1, 0, 0);
    if g[i][j].num == 0 && r.0 == 1 then r.1 else 0
  }

  /** A cell is staged exactly when it is empty and has a single legal digit,
      and it is staged with that digit. */
  lemma SingleMeans(g: Grid, i: int, j: int, m: int, n: int)
    requires OnBoard(g, i, j)
    ensures Single(g, i, j, m, n) != 0 <==> g[i][j].num == 0 && exists e :: OnlyLegal(g, i, j, m, n, e)
    ensures Single(g, i, j, m, n) != 0 ==> OnlyLegal(g, i, j, m, n, Single(g, i, j, m, n))
  {
    ScanDigitsMeans(g, i, j, m, n, 1, 0, 0);
  }

  /** Legality on the committed values depends on the committed values only,
      so the decision for a cell does not change while the sweep stages. */
  lemma SingleSameNums(g: Grid, g': Grid, i: int, j: int, m: int, n: int)
    requires |g'| == |g| && forall k :: 0 <= k < |g| ==> |g'[k]| == |g[k]|
    requires forall r, c :: OnBoard(g, r, c) ==> g'[r][c].num == g[r][c].num
    requires OnBoard(g, i, j)
    ensures Single(g', i, j, m, n) == Single(g, i, j, m, n)
  {
    assert forall r, c :: OnBoard(g, r, c) ==> Value(g'[r][c], Committed) == Value(g[r][c], Committed);
    forall d ensures Legal(g', Committed, d, i, j, m, n) == Legal(g, Committed, d, i, j, m, n) {
      ConflictSameValues(g, g', Committed, d, RowOf(i));
      ConflictSameValues(g, g', Committed, d, ColOf(j));
      ConflictSameValues(g, g', Committed, d, BlockOf(i, j, m, n));
    }
    SingleMeans(g, i, j, m, n);
    SingleMeans(g', i, j, m, n);
    if Single(g, i, j, m, n) != 0 {
      assert OnlyLegal(g', i, j, m, n, Single(g, i, j, m, n));
    }
    if Single(g', i, j, m, n) != 0 {
      assert OnlyLegal(g, i, j, m, n, Single(g', i, j, m, n));
    }
  }

  /** Staging digit d at (i, j): the cell is checked in mark mode against
      the scratch values, then takes d as its scratch value and SHOWN or
      ERRONEOUS as its status (game.c:753-758). */
  function StageCell(g: Grid, i: int, j: int, d: int, m: int, n: int): (g': Grid)
    requires OnBoard(g, i, j)
    ensures |g'| == |g| && forall k :: 0 <= k < |g| ==> |g'[k]| == |g[k]|
  {
    var g1 := MarkAll(g, Scratch, d, i, j, m, n);
    assert |g1| == |g| && |g1[i]| == |g[i]| by { MarkAllKeepsValuesAndFixed(g, Scratch, d, i, j, m, n); }
    Put(g1, i, j, g1[i][j].(alt := d, status := Verdict(Legal(g, Scratch, d, i, j, m, n))))
  }

  /** One step of the sweep at (i, j): past the end of a row it moves to the
      next row; a cell with a single candidate is staged and count_hid drops
      by one; any other cell is passed over (game.c:747-759). */
  function SweepNext(g: Grid, cnt: int, i: int, j: int, m: int, n: int): (r: (Grid, int, int, int))
    requires IsGrid(g, |g|) && 0 <= i < |g| && 0 <= j <= |g|
    ensures IsGrid(r.0, |g|)
    ensures (j == |g| && r.2 == i + 1 && r.3 == 0) || (j < |g| && r.2 == i && r.3 == j + 1)
  {
    if j == |g| then (g, cnt, i + 1, 0)
    else if Single(g, i, j, m, n) != 0 then (StageCell(g, i, j, Single(g, i, j, m, n), m, n), cnt - 1, i, j + 1)
    else (g, cnt, i, j + 1)
  }

  /** The sweep over the cells from (i, j) on, in row-major order, with
      count_hid. */
  function SweepFrom(g: Grid, cnt: int, i: int, j: int, m: int, n: int): (r: (Grid, int))
    requires IsGrid(g, |g|) && 0 <= i <= |g| && 0 <= j <= |g|
    ensures IsGrid(r.0, |g|)
    decreases |g| - i, |g| - j
  {
    if i == |g| then (g, cnt)
    else
      var (g', cnt', i', j') := SweepNext(g, cnt, i, j, m, n);
      SweepFrom(g', cnt', i', j', m, n)
  }

  // ------------------------------------------------------------ meaning

  /** Some other cell staged before (i, j) in the row, column or block of
      (r, c) is staged with the same digit as (r, c). */
  ghost predicate Clash(g0: Grid, m: int, n: int, r: int, c: int, i: int, j: int)
    requires OnBoard(g0, r, c)
  {
    exists a, b :: && OnBoard(g0, a, b) && RowMajorBefore(a, b, i, j) && (a, b) != (r, c)
                   && Sees(r, c, m, n, a, b) && Single(g0, a, b, m, n) == Single(g0, r, c, m, n)
  }

  /** The board g is g0 swept up to (not including) (i, j). */
  ghost predicate SweptTo(g0: Grid, g: Grid, m: int, n: int, i: int, j: int)
  {
    && |g| == |g0| && (forall k :: 0 <= k < |g0| ==> |g[k]| == |g0[k]|)
    && forall r, c :: OnBoard(g0, r, c) ==>
         && g[r][c].num == g0[r][c].num
         && g[r][c].alt == (if RowMajorBefore(r, c, i, j) then Single(g0, r, c, m, n) else 0)
         && g[r][c].status == (if RowMajorBefore(r, c, i, j) && Single(g0, r, c, m, n) != 0
                               then (if Clash(g0, m, n, r, c, i, j) then Erroneous else Shown)
                               else g0[r][c].status)
  }

  /** Being in the same row, column or block is symmetric. */
  lemma SeesSymmetric(row: int, col: int, m: int, n: int, r: int, c: int)
    requires Sees(row, col, m, n, r, c)
    ensures Sees(r, c, m, n, row, col)
  {
    if InBlock(m, n, row, col, r, c) {
      BlockStart(row, m);
      BlockStart(r, m);
      BlockStart(col, n);
      BlockStart(c, n);
      SameStart(row, r, m);
      SameStart(col, c, n);
    }
  }

  lemma BlockStart(x: int, k: int)
    requires k > 0
    ensures x - x % k == k * (x / k) && 0 <= x % k < k
  {
  }

  /** Two numbers in the same window [k*q, k*q + k) have the same quotient. */
  lemma SameStart(x: int, y: int, k: int)
    requires k > 0 && x - x % k <= y < x - x % k + k
    ensures y - y % k == x - x % k
  {
    var q := x / k;
    assert x - x % k == k * q;
    var t := y - k * q;
    assert 0 <= t < k;
    assert y == k * q + t;
    assert y / k == q && y % k == t by {
      DivUnique(y, k, q, t);
    }
  }

  lemma DivUnique(y: int, k: int, q: int, t: int)
    requires k > 0 && 0 <= t < k && y == k * q + t
    ensures y / k == q && y % k == t
  {
    var q', t' := y / k, y % k;
    assert y == k * q' + t';
    if q' > q {
      assert k * q' >= k * (q + 1) by { MulLe(k, q + 1, q'); }
    } else if q' < q {
      assert k * q >= k * (q' + 1) by { MulLe(k, q' + 1, q); }
    }
  }

  /** Staging (i, j) with d advances the sweep by one cell. */
  lemma StageStep(g0: Grid, g: Grid, m: int, n: int, i: int, j: int)
    requires IsGrid(g0, |g0|) && 0 <= i < |g0| && 0 <= j < |g0|
    requires StatusMatchesValue(g0) && AltClear(g0)
    requires SweptTo(g0, g, m, n, i, j)
    ensures SweptTo(g0, if Single(g, i, j, m, n) != 0 then StageCell(g, i, j, Single(g, i, j, m, n), m, n) else g, m, n, i, j + 1)
  {
    SingleSameNums(g0, g, i, j, m, n);
    var d := Single(g0, i, j, m, n);
    if d == 0 {
      StageStepEmpty(g0, g, m, n, i, j);
    } else {
      StageStepFilled(g0, g, m, n, i, j, d);
    }
  }

  /** A cell with no single candidate is passed over: the sweep advances
      without changing the board. */
  lemma StageStepEmpty(g0: Grid, g: Grid, m: int, n: int, i: int, j: int)
    requires IsGrid(g0, |g0|) && 0 <= i < |g0| && 0 <= j < |g0|
    requires SweptTo(g0, g, m, n, i, j) && Single(g0, i, j, m, n) == 0
    ensures SweptTo(g0, g, m, n, i, j + 1)
  {
    forall r, c | OnBoard(g0, r, c) && RowMajorBefore(r, c, i, j) && Single(g0, r, c, m, n) != 0
      ensures Clash(g0, m, n, r, c, i, j + 1) == Clash(g0, m, n, r, c, i, j)
    {
      ClashGrow(g0, m, n, r, c, i, j);
    }
  }

  lemma StageStepFilled(g0: Grid, g: Grid, m: int, n: int, i: int, j: int, d: int)
    requires IsGrid(g0, |g0|) && 0 <= i < |g0| && 0 <= j < |g0|
    requires StatusMatchesValue(g0) && AltClear(g0)
    requires SweptTo(g0, g, m, n, i, j)
    requires d == Single(g0, i, j, m, n) && d != 0
    ensures SweptTo(g0, StageCell(g, i, j, d, m, n), m, n, i, j + 1)
  {
    var g': Grid := StageCell(g, i, j, d, m, n);
    var g1 := MarkAll(g, Scratch, d, i, j, m, n);
    SingleMeans(g0, i, j, m, n);
    assert g0[i][j].num == 0 && g0[i][j].status == Hidden;
    // the new cell: ERRONEOUS exactly when a cell staged before it in its
    // scopes holds the same digit
    StagedVerdict(g0, g, m, n, i, j, d);
    forall r, c | OnBoard(g0, r, c)
      ensures && g'[r][c].num == g0[r][c].num
              && g'[r][c].alt == (if RowMajorBefore(r, c, i, j + 1) then Single(g0, r, c, m, n) else 0)
              && g'[r][c].status == (if RowMajorBefore(r, c, i, j + 1) && Single(g0, r, c, m, n) != 0
                                     then (if Clash(g0, m, n, r, c, i, j + 1) then Erroneous else Shown)
                                     else g0[r][c].status)
    {
      if (r, c) != (i, j) {
        MarkAllEffect(g, Scratch, d, i, j, m, n, r, c);
        assert g'[r][c] == g1[r][c];
        ClashExtend(g0, g, m, n, i, j, d, r, c);
      }
    }
  }

  /** The verdict for the staged cell itself. */
  lemma StagedVerdict(g0: Grid, g: Grid, m: int, n: int, i: int, j: int, d: int)
    requires IsGrid(g0, |g0|) && 0 <= i < |g0| && 0 <= j < |g0|
    requires SweptTo(g0, g, m, n, i, j)
    requires d == Single(g0, i, j, m, n) && d != 0
    ensures !Legal(g, Scratch, d, i, j, m, n) <==> Clash(g0, m, n, i, j, i, j + 1)
  {
    if !Legal(g, Scratch, d, i, j, m, n) {
      IllegalClash(g0, g, m, n, i, j, d);
    }
    if Clash(g0, m, n, i, j, i, j + 1) {
      ClashIllegal(g0, g, m, n, i, j, d);
    }
  }

  /** A scratch conflict at (i, j) comes from a cell staged earlier. */
  lemma IllegalClash(g0: Grid, g: Grid, m: int, n: int, i: int, j: int, d: int)
    requires IsGrid(g0, |g0|) && 0 <= i < |g0| && 0 <= j < |g0|
    requires SweptTo(g0, g, m, n, i, j)
    requires d == Single(g0, i, j, m, n) && d != 0
    requires !Legal(g, Scratch, d, i, j, m, n)
    ensures Clash(g0, m, n, i, j, i, j + 1)
  {
    var s := if Conflict(g, Scratch, d, RowOf(i)) then RowOf(i)
             else if Conflict(g, Scratch, d, ColOf(j)) then ColOf(j)
             else BlockOf(i, j, m, n);
    assert Conflict(g, Scratch, d, s);
    var a, b :| 0 <= a < |g| && 0 <= b < |g[a]| && InScope(s, a, b) && Value(g[a][b], Scratch) == d;
    assert OnBoard(g0, a, b) && RowMajorBefore(a, b, i, j);
    assert Sees(i, j, m, n, a, b);
  }

  /** A cell staged earlier with the same digit in a scope of (i, j) makes
      (i, j) a scratch conflict. */
  lemma ClashIllegal(g0: Grid, g: Grid, m: int, n: int, i: int, j: int, d: int)
    requires IsGrid(g0, |g0|) && 0 <= i < |g0| && 0 <= j < |g0|
    requires SweptTo(g0, g, m, n, i, j)
    requires d == Single(g0, i, j, m, n) && d != 0
    requires Clash(g0, m, n, i, j, i, j + 1)
    ensures !Legal(g, Scratch, d, i, j, m, n)
  {
    var a, b :| && OnBoard(g0, a, b) && RowMajorBefore(a, b, i, j + 1) && (a, b) != (i, j)
                && Sees(i, j, m, n, a, b) && Single(g0, a, b, m, n) == d;
    assert g[a][b].alt == d;
    if a == i {
      assert InScope(RowOf(i), a, b);
    } else if b == j {
      assert InScope(ColOf(j), a, b);
    } else {
      assert InScope(BlockOf(i, j, m, n), a, b);
    }
  }

  /** Every other cell after staging (i, j) with d. */
  lemma ClashExtend(g0: Grid, g: Grid, m: int, n: int, i: int, j: int, d: int, r: int, c: int)
    requires IsGrid(g0, |g0|) && 0 <= i < |g0| && 0 <= j < |g0|
    requires StatusMatchesValue(g0)
    requires SweptTo(g0, g, m, n, i, j)
    requires d == Single(g0, i, j, m, n) && d != 0
    requires OnBoard(g0, r, c) && (r, c) != (i, j)
    ensures var g1 := MarkAll(g, Scratch, d, i, j, m, n);
            && g1[r][c].num == g0[r][c].num
            && g1[r][c].alt == (if RowMajorBefore(r, c, i, j + 1) then Single(g0, r, c, m, n) else 0)
            && g1[r][c].status == (if RowMajorBefore(r, c, i, j + 1) && Single(g0, r, c, m, n) != 0
                                   then (if Clash(g0, m, n, r, c, i, j + 1) then Erroneous else Shown)
                                   else g0[r][c].status)
  {
    MarkAllEffect(g, Scratch, d, i, j, m, n, r, c);
    if RowMajorBefore(r, c, i, j) && Single(g0, r, c, m, n) != 0 {
      SingleMeans(g0, r, c, m, n);
      assert g0[r][c].status == Hidden;
      ClashGrow(g0, m, n, r, c, i, j);
      if Sees(i, j, m, n, r, c) {
        SeesSymmetric(i, j, m, n, r, c);
      }
      if Sees(r, c, m, n, i, j) {
        SeesSymmetric(r, c, m, n, i, j);
      }
    }
  }

  /** Moving the sweep past (i, j) adds (i, j) to the cells a cell other than
      (i, j) can clash with. */
  lemma ClashGrow(g0: Grid, m: int, n: int, r: int, c: int, i: int, j: int)
    requires OnBoard(g0, r, c) && OnBoard(g0, i, j) && (r, c) != (i, j)
    ensures Clash(g0, m, n, r, c, i, j + 1) <==>
              Clash(g0, m, n, r, c, i, j) || (Sees(r, c, m, n, i, j) && Single(g0, i, j, m, n) == Single(g0, r, c, m, n))
  {
    if Clash(g0, m, n, r, c, i, j + 1) {
      var a, b :| && OnBoard(g0, a, b) && RowMajorBefore(a, b, i, j + 1) && (a, b) != (r, c)
                  && Sees(r, c, m, n, a, b) && Single(g0, a, b, m, n) == Single(g0, r, c, m, n);
      if (a, b) != (i, j) {
        assert RowMajorBefore(a, b, i, j);
      }
    }
    if Clash(g0, m, n, r, c, i, j) {
      var a, b :| && OnBoard(g0, a, b) && RowMajorBefore(a, b, i, j) && (a, b) != (r, c)
                  && Sees(r, c, m, n, a, b) && Single(g0, a, b, m, n) == Single(g0, r, c, m, n);
      assert RowMajorBefore(a, b, i, j + 1);
    }
    if Sees(r, c, m, n, i, j) && Single(g0, i, j, m, n) == Single(g0, r, c, m, n) {
      assert RowMajorBefore(i, j, i, j + 1);
    }
  }

  /** One step of the sweep keeps the sweep invariant. */
  lemma SweepAdvance(g0: Grid, g: Grid, cnt: int, m: int, n: int, i: int, j: int)
    requires IsGrid(g0, |g0|) && 0 <= i < |g0| && 0 <= j <= |g0|
    requires StatusMatchesValue(g0) && AltClear(g0)
    requires SweptTo(g0, g, m, n, i, j)
    ensures var (g', cnt', i', j') := SweepNext(g, cnt, i, j, m, n);
            SweptTo(g0, g', m, n, i', j')
  {
    if j == |g0| {
      SweptRowEnd(g0, g, m, n, i);
    } else {
      StageStep(g0, g, m, n, i, j);
    }
  }

  /** The end of a row is the start of the next. */
  lemma SweptRowEnd(g0: Grid, g: Grid, m: int, n: int, i: int)
    requires IsGrid(g0, |g0|) && SweptTo(g0, g, m, n, i, |g0|)
    ensures SweptTo(g0, g, m, n, i + 1, 0)
  {
    forall r, c | OnBoard(g0, r, c)
      ensures Clash(g0, m, n, r, c, i, |g0|) == Clash(g0, m, n, r, c, i + 1, 0)
    {
      ClashRowEnd(g0, m, n, r, c, i);
    }
  }

  lemma ClashRowEnd(g0: Grid, m: int, n: int, r: int, c: int, i: int)
    requires IsGrid(g0, |g0|) && OnBoard(g0, r, c)
    ensures Clash(g0, m, n, r, c, i, |g0|) <==> Clash(g0, m, n, r, c, i + 1, 0)
  {
    if Clash(g0, m, n, r, c, i, |g0|) {
      var a, b :| && OnBoard(g0, a, b) && RowMajorBefore(a, b, i, |g0|) && (a, b) != (r, c)
                  && Sees(r, c, m, n, a, b) && Single(g0, a, b, m, n) == Single(g0, r, c, m, n);
      assert RowMajorBefore(a, b, i + 1, 0);
    }
    if Clash(g0, m, n, r, c, i + 1, 0) {
      var a, b :| && OnBoard(g0, a, b) && RowMajorBefore(a, b, i + 1, 0) && (a, b) != (r, c)
                  && Sees(r, c, m, n, a, b) && Single(g0, a, b, m, n) == Single(g0, r, c, m, n);
      assert RowMajorBefore(a, b, i, |g0|);
    }
  }

  /** The sweep from (i, j) on completes the sweep. */
  lemma {:induction false} SweepFromSpec(g0: Grid, g: Grid, cnt: int, m: int, n: int, i: int, j: int)
    requires IsGrid(g0, |g0|) && 0 <= i <= |g0| && 0 <= j <= |g0|
    requires StatusMatchesValue(g0) && AltClear(g0)
    requires SweptTo(g0, g, m, n, i, j)
    ensures SweptTo(g0, SweepFrom(g, cnt, i, j, m, n).0, m, n, |g0|, 0)
    decreases |g0| - i, |g0| - j
  {
    if i < |g0| {
      var (g', cnt', i', j') := SweepNext(g, cnt, i, j, m, n);
      SweepAdvance(g0, g, cnt, m, n, i, j);
      SweepFromSpec(g0, g', cnt', m, n, i', j');
      assert SweepFrom(g, cnt, i, j, m, n) == SweepFrom(g', cnt', i', j', m, n);
    }
  }

  /** The sweep over the whole board (game.c:737-760). */
  function Sweep(g: Grid, cnt: int, m: int, n: int): (r: (Grid, int))
    requires IsGrid(g, |g|)
    ensures IsGrid(r.0, |g|)
  {
    SweepFrom(g, cnt, 0, 0, m, n)
  }

  /** What the sweep stages, judged against the board before the sweep:
      every committed value is kept; the scratch value of a cell is its
      forced digit (or 0); a staged cell is ERRONEOUS exactly when another
      staged cell of its row, column or block has the same digit, SHOWN
      otherwise; every other cell keeps its status. */
  lemma SweepEffect(g: Grid, cnt: int, m: int, n: int)
    requires IsGrid(g, |g|) && StatusMatchesValue(g) && AltClear(g)
    ensures var g' := Sweep(g, cnt, m, n).0;
            forall r, c :: OnBoard(g, r, c) ==>
              && g'[r][c].num == g[r][c].num
              && g'[r][c].alt == Single(g, r, c, m, n)
              && g'[r][c].status == (if Single(g, r, c, m, n) != 0
                                     then (if Clash(g, m, n, r, c, |g|, 0) then Erroneous else Shown)
                                     else g[r][c].status)
  {
    SweepFromSpec(g, g, cnt, m, n, 0, 0);
  }

  /** Staging one empty cell fills one cell of the committed board the sweep
      leads to. */
  lemma StageZeros(g: Grid, i: int, j: int, d: int, m: int, n: int)
    requires OnBoard(g, i, j) && g[i][j].num == 0 && g[i][j].alt == 0 && d != 0
    ensures Zeros(CommitStaged(StageCell(g, i, j, d, m, n))) == Zeros(CommitStaged(g)) - 1
  {
    var a: Grid := CommitStaged(g);
    var g': Grid := StageCell(g, i, j, d, m, n);
    var b := CommitStaged(g');
    var p := Put(a, i, j, a[i][j].(num := d));
    MarkAllKeepsValuesAndFixed(g, Scratch, d, i, j, m, n);
    forall r, c | OnBoard(b, r, c) ensures Value(b[r][c], Committed) == Value(p[r][c], Committed) {
    }
    EmptyCellsSameValues(b, p, Committed);
    EmptyCellsPut(a, i, j, a[i][j].(num := d), Committed);
  }

  /** No cell from (i, j) on holds a scratch value yet. */
  ghost predicate AltClearFrom(g: Grid, i: int, j: int)
  {
    forall r, c :: OnBoard(g, r, c) && !RowMajorBefore(r, c, i, j) ==> g[r][c].alt == 0
  }

  /** Staging (i, j) writes the scratch value of (i, j) only. */
  lemma StageAltClearFrom(g: Grid, i: int, j: int, d: int, m: int, n: int)
    requires OnBoard(g, i, j) && AltClearFrom(g, i, j)
    ensures AltClearFrom(StageCell(g, i, j, d, m, n), i, j + 1)
  {
    MarkAllKeepsValuesAndFixed(g, Scratch, d, i, j, m, n);
  }

  /** How far count_hid is from the number of empty cells of the committed
      board the staged values lead to. */
  ghost function Gap(r: (Grid, int)): int
  {
    r.1 - Zeros(CommitStaged(r.0))
  }

  /** One step of the sweep keeps the gap between count_hid and the empty
      cells of the committed board, and leaves no scratch value ahead. */
  lemma SweepCountAdvance(g: Grid, cnt: int, m: int, n: int, i: int, j: int)
    requires IsGrid(g, |g|) && 0 <= i < |g| && 0 <= j <= |g|
    requires AltClearFrom(g, i, j)
    ensures var (g', cnt', i', j') := SweepNext(g, cnt, i, j, m, n);
            AltClearFrom(g', i', j') && Gap((g', cnt')) == Gap((g, cnt))
  {
    if j < |g| && Single(g, i, j, m, n) != 0 {
      var d := Single(g, i, j, m, n);
      SingleMeans(g, i, j, m, n);
      StageZeros(g, i, j, d, m, n);
      StageAltClearFrom(g, i, j, d, m, n);
    }
  }

  /** count_hid drops by one per staged cell: it keeps its distance to the
      number of empty cells of the committed board the sweep leads to. */
  lemma {:induction false} SweepFromCount(g: Grid, cnt: int, m: int, n: int, i: int, j: int)
    requires IsGrid(g, |g|) && 0 <= i <= |g| && 0 <= j <= |g|
    requires AltClearFrom(g, i, j)
    ensures Gap(SweepFrom(g, cnt, i, j, m, n)) == Gap((g, cnt))
    decreases |g| - i, |g| - j
  {
    if i < |g| {
      var (g', cnt', i', j') := SweepNext(g, cnt, i, j, m, n);
      SweepCountAdvance(g, cnt, m, n, i, j);
      SweepFromCount(g', cnt', m, n, i', j');
      assert SweepFrom(g, cnt, i, j, m, n) == SweepFrom(g', cnt', i', j', m, n);
    }
  }

  /** After the sweep and the commit of create_move_from_board, count_hid is
      the number of empty cells again. */
  lemma SweepCount(g: Grid, cnt: int, m: int, n: int)
    requires IsGrid(g, |g|) && StatusMatchesValue(g) && AltClear(g) && cnt == Zeros(g)
    ensures Sweep(g, cnt, m, n).1 == Zeros(CommitStaged(Sweep(g, cnt, m, n).0))
  {
    SweepFromCount(g, cnt, m, n, 0, 0);
    assert Gap(Sweep(g, cnt, m, n)) == Gap((g, cnt));
    EmptyCellsSameValues(g, CommitStaged(g), Committed);
  }
}
