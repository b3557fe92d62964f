/** The constraint validator of solver.c: does a digit placed at (row, col)
    collide with another cell of the same row, column or m x n block?

    Probe mode (change_err = 0) answers and leaves the board alone; mark mode
    (change_err = 1) also flags every conflicting non-FIXED cell ERRONEOUS.
    The methods follow the C loops; the functions and predicates are the
    declarative meaning the loops are proved against. */
module Validation {
  import opened Structs

  /** The three scopes a placement is checked against; a block scope carries
      the block geometry it was scanned with (m rows, n columns). */
  datatype Scope = RowOf(row: int) | ColOf(col: int) | BlockOf(row: int, col: int, m: int, n: int)

  /** (r, c) lies in the m x n rectangle whose top-left corner is
      (row - row % m, col - col % n). */
  predicate InBlock(m: int, n: int, row: int, col: int, r: int, c: int)
  {
    && m > 0 && n > 0
    && row - row % m <= r < row - row % m + m
    && col - col % n <= c < col - col % n + n
  }

  predicate InScope(s: Scope, r: int, c: int)
  {
    match s
    case RowOf(row) => r == row
    case ColOf(col) => c == col
    case BlockOf(row, col, m, n) => InBlock(m, n, row, col, r, c)
  }

  /** Some cell of scope s holds dig in channel ch. */
  predicate Conflict(g: Grid, ch: Channel, dig: int, s: Scope)
  {
    exists r, c | 0 <= r < |g| && 0 <= c < |g[r]| :: InScope(s, r, c) && Value(g[r][c], ch) == dig
  }

  /** Mark mode flags (r, c) while scanning scope s: the cell is in the scope,
      holds dig and is not FIXED; validate_row additionally skips dig == 0. */
  predicate Flags(g: Grid, ch: Channel, dig: int, s: Scope, r: int, c: int)
    requires OnBoard(g, r, c)
  {
    && InScope(s, r, c)
    && Value(g[r][c], ch) == dig
    && g[r][c].status != Fixed
    && (s.RowOf? ==> dig != 0)
  }

  function Flag(x: Cell): Cell
  {
    x.(status := Erroneous)
  }

  /** The board after a mark-mode scan of one scope. */
  function MarkScope(g: Grid, ch: Channel, dig: int, s: Scope): (g': Grid)
    ensures |g'| == |g| && forall i :: 0 <= i < |g| ==> |g'[i]| == |g[i]|
    ensures forall i, j :: OnBoard(g, i, j) ==>
              g'[i][j] == if Flags(g, ch, dig, s, i, j) then Flag(g[i][j]) else g[i][j]
  {
    seq(|g|, i requires 0 <= i < |g| =>
      seq(|g[i]|, j requires 0 <= j < |g[i]| =>
        if Flags(g, ch, dig, s, i, j) then Flag(g[i][j]) else g[i][j]))
  }

  /** validate_dig's verdict: dig is 0, or neither the row, the column nor the
      block holds it. */
  predicate Legal(g: Grid, ch: Channel, dig: int, row: int, col: int, m: int, n: int)
  {
    || dig == 0
    || (&& !Conflict(g, ch, dig, RowOf(row))
        && !Conflict(g, ch, dig, ColOf(col))
        && !Conflict(g, ch, dig, BlockOf(row, col, m, n)))
  }

  /** validate_dig's board in mark mode: the row, then the column, then the
      block are scanned, each flagging its conflicting cells. */
  function MarkAll(g: Grid, ch: Channel, dig: int, row: int, col: int, m: int, n: int): Grid
  {
    if dig == 0 then g
    else MarkScope(MarkScope(MarkScope(g, ch, dig, RowOf(row)), ch, dig, ColOf(col)), ch, dig, BlockOf(row, col, m, n))
  }

  /** Cell (r, c) is in the row, column or block of (row, col). */
  predicate Sees(row: int, col: int, m: int, n: int, r: int, c: int)
  {
    r == row || c == col || InBlock(m, n, row, col, r, c)
  }

  // ------------------------------------------------------------ lemmas

  lemma SameGrid(a: Grid, b: Grid)
    requires |a| == |b| && forall i :: 0 <= i < |a| ==> |a[i]| == |b[i]|
    requires forall i, j :: OnBoard(a, i, j) ==> a[i][j] == b[i][j]
    ensures a == b
  {
    forall i | 0 <= i < |a| ensures a[i] == b[i] {
      assert forall j :: 0 <= j < |a[i]| ==> a[i][j] == b[i][j];
    }
  }

  /** What a scope sees depends on the values of the scanned channel only. */
  lemma ConflictSameValues(g: Grid, g': Grid, ch: Channel, dig: int, s: Scope)
    requires |g'| == |g| && forall i :: 0 <= i < |g| ==> |g'[i]| == |g[i]|
    requires forall i, j :: OnBoard(g, i, j) ==> Value(g'[i][j], ch) == Value(g[i][j], ch)
    ensures Conflict(g', ch, dig, s) == Conflict(g, ch, dig, s)
  {
    if Conflict(g, ch, dig, s) {
      var r, c :| 0 <= r < |g| && 0 <= c < |g[r]| && InScope(s, r, c) && Value(g[r][c], ch) == dig;
      assert Value(g'[r][c], ch) == dig;
    }
    if Conflict(g', ch, dig, s) {
      var r, c :| 0 <= r < |g'| && 0 <= c < |g'[r]| && InScope(s, r, c) && Value(g'[r][c], ch) == dig;
      assert Value(g[r][c], ch) == dig;
    }
  }

  /** Marking changes statuses only, so it does not change what any scope sees. */
  lemma MarkScopeKeepsConflicts(g: Grid, ch: Channel, dig: int, s: Scope, ch': Channel, dig': int, s': Scope)
    ensures Conflict(MarkScope(g, ch, dig, s), ch', dig', s') == Conflict(g, ch', dig', s')
  {
    ConflictSameValues(g, MarkScope(g, ch, dig, s), ch', dig', s');
  }

  /** The combined effect of mark mode, cell by cell: a cell becomes ERRONEOUS
      exactly when dig is nonzero, the cell sees (row, col), holds dig in the
      scanned channel and is not FIXED; every other cell, and every value, is
      unchanged. */
  lemma MarkAllEffect(g: Grid, ch: Channel, dig: int, row: int, col: int, m: int, n: int, i: int, j: int)
    requires OnBoard(g, i, j)
    ensures |MarkAll(g, ch, dig, row, col, m, n)| == |g|
    ensures forall k :: 0 <= k < |g| ==> |MarkAll(g, ch, dig, row, col, m, n)[k]| == |g[k]|
    ensures MarkAll(g, ch, dig, row, col, m, n)[i][j] ==
              if dig != 0 && Sees(row, col, m, n, i, j) && Value(g[i][j], ch) == dig && g[i][j].status != Fixed
              then Flag(g[i][j]) else g[i][j]
  {
    if dig != 0 {
      var g1 := MarkScope(g, ch, dig, RowOf(row));
      var g2 := MarkScope(g1, ch, dig, ColOf(col));
      var g3 := MarkScope(g2, ch, dig, BlockOf(row, col, m, n));
      assert g3[i][j] == if Flags(g2, ch, dig, BlockOf(row, col, m, n), i, j) then Flag(g2[i][j]) else g2[i][j];
    }
  }

  /** Mark mode never changes a value and never touches a FIXED cell. */
  lemma MarkAllKeepsValuesAndFixed(g: Grid, ch: Channel, dig: int, row: int, col: int, m: int, n: int)
    ensures |MarkAll(g, ch, dig, row, col, m, n)| == |g|
    ensures forall i :: 0 <= i < |g| ==> |MarkAll(g, ch, dig, row, col, m, n)[i]| == |g[i]|
    ensures forall i, j :: OnBoard(g, i, j) ==>
              && MarkAll(g, ch, dig, row, col, m, n)[i][j].num == g[i][j].num
              && MarkAll(g, ch, dig, row, col, m, n)[i][j].alt == g[i][j].alt
              && (g[i][j].status == Fixed ==> MarkAll(g, ch, dig, row, col, m, n)[i][j] == g[i][j])
              && (MarkAll(g, ch, dig, row, col, m, n)[i][j].status == g[i][j].status
                  || MarkAll(g, ch, dig, row, col, m, n)[i][j].status == Erroneous)
  {
    forall i, j | OnBoard(g, i, j)
      ensures MarkAll(g, ch, dig, row, col, m, n)[i][j].num == g[i][j].num
      ensures MarkAll(g, ch, dig, row, col, m, n)[i][j].alt == g[i][j].alt
      ensures g[i][j].status == Fixed ==> MarkAll(g, ch, dig, row, col, m, n)[i][j] == g[i][j]
      ensures MarkAll(g, ch, dig, row, col, m, n)[i][j].status == g[i][j].status
              || MarkAll(g, ch, dig, row, col, m, n)[i][j].status == Erroneous
    {
      MarkAllEffect(g, ch, dig, row, col, m, n, i, j);
    }
  }

  lemma MulLe(k: int, a: int, b: int)
    requires k >= 0 && a <= b
    ensures k * a <= k * b
  {
    assert k * b - k * a == k * (b - a);
  }

  /** The block of a cell of an (k * l)-sized board lies inside the board. */
  lemma BlockFits(x: int, k: int, l: int)
    requires k >= 1 && l >= 1 && 0 <= x < k * l
    ensures 0 <= x - x % k && x - x % k + k <= k * l
  {
    var q := x / k;
    var rem := x % k;
    assert x == k * q + rem && 0 <= rem < k;
    if q >= l {
      MulLe(k, l, q);
      assert false;
    }
    MulLe(k, q + 1, l);
    assert k * (q + 1) == k * q + k;
    assert 0 <= k * q by {
      MulLe(k, 0, q);
    }
  }

  // ------------------------------------------------------------ the scans

  /** validate_row: scans row `row` for dig. */
  method ValidateRow(dig: int, row: int, g: Grid, changeErr: bool, ch: Channel) returns (valid: bool, g': Grid)
    requires IsGrid(g, |g|) && 0 <= row < |g|
    ensures valid <==> !Conflict(g, ch, dig, RowOf(row))
    ensures g' == if changeErr then MarkScope(g, ch, dig, RowOf(row)) else g
  {
    valid := true;
    g' := g;
    var c := 0;
    while c < |g|
      invariant 0 <= c <= |g|
      invariant valid <==> forall j :: 0 <= j < c ==> Value(g[row][j], ch) != dig
      invariant !changeErr ==> valid && g' == g
      invariant |g'| == |g| && forall i :: 0 <= i < |g| ==> |g'[i]| == |g[i]|
      invariant forall i, j :: OnBoard(g, i, j) ==>
                  g'[i][j] == if i == row && j < c && Flags(g, ch, dig, RowOf(row), i, j) then Flag(g[i][j]) else g[i][j]
    {
      if Value(g'[row][c], ch) == dig {
        if !changeErr {
          return false, g;
        }
        valid := false;
        if g'[row][c].status != Fixed && dig != 0 {
          g' := Put(g', row, c, Flag(g'[row][c]));
        }
      }
      c := c + 1;
    }
    if changeErr {
      SameGrid(g', MarkScope(g, ch, dig, RowOf(row)));
    }
  }

  /** validate_col: scans column `col` for dig. */
  method ValidateCol(dig: int, col: int, g: Grid, changeErr: bool, ch: Channel) returns (valid: bool, g': Grid)
    requires IsGrid(g, |g|) && 0 <= col < |g|
    ensures valid <==> !Conflict(g, ch, dig, ColOf(col))
    ensures g' == if changeErr then MarkScope(g, ch, dig, ColOf(col)) else g
  {
    valid := true;
    g' := g;
    var r := 0;
    while r < |g|
      invariant 0 <= r <= |g|
      invariant valid <==> forall i :: 0 <= i < r ==> Value(g[i][col], ch) != dig
      invariant !changeErr ==> valid && g' == g
      invariant |g'| == |g| && forall i :: 0 <= i < |g| ==> |g'[i]| == |g[i]|
      invariant forall i, j :: OnBoard(g, i, j) ==>
                  g'[i][j] == if j == col && i < r && Flags(g, ch, dig, ColOf(col), i, j) then Flag(g[i][j]) else g[i][j]
    {
      if Value(g'[r][col], ch) == dig {
        if !changeErr {
          return false, g;
        }
        valid := false;
        if g'[r][col].status != Fixed {
          g' := Put(g', r, col, Flag(g'[r][col]));
        }
      }
      r := r + 1;
    }
    if changeErr {
      SameGrid(g', MarkScope(g, ch, dig, ColOf(col)));
    }
  }

  /** (a, b) lies in the h x w rectangle with top-left corner (r0, c0). */
  predicate InRect(a: int, b: int, r0: int, c0: int, h: int, w: int)
  {
    r0 <= a < r0 + h && c0 <= b < c0 + w
  }

  /** A flagged copy of g: the cells of the rectangle that hold dig and are not
      FIXED are ERRONEOUS, every other cell is as in g. */
  ghost predicate FlaggedIn(g: Grid, g': Grid, ch: Channel, dig: int, r0: int, c0: int, h: int, w: int)
  {
    && |g'| == |g| && (forall k :: 0 <= k < |g| ==> |g'[k]| == |g[k]|)
    && forall a, b :: OnBoard(g, a, b) ==>
         g'[a][b] == if InRect(a, b, r0, c0, h, w) && Value(g[a][b], ch) == dig && g[a][b].status != Fixed
                     then Flag(g[a][b]) else g[a][b]
  }

  /** The block of (row, col) is the m x n rectangle at (row - row % m, col - col % n),
      and it lies inside an (m * n)-sized board. */
  lemma BlockIsRect(row: int, col: int, m: int, n: int)
    requires m >= 1 && n >= 1 && 0 <= row < m * n && 0 <= col < m * n
    ensures 0 <= row - row % m && row - row % m + m <= m * n
    ensures 0 <= col - col % n && col - col % n + n <= m * n
    ensures forall a, b :: InScope(BlockOf(row, col, m, n), a, b) <==>
              InRect(a, b, row - row % m, col - col % n, m, n)
  {
    BlockFits(row, m, n);
    assert n * m == m * n;
    BlockFits(col, n, m);
  }

  /** One row of the block scan: the inner loop of validate_block over the
      columns c0 .. c0 + w - 1 of row a.  In probe mode it stops at the first hit. */
  method ScanBlockRow(dig: int, a: int, c0: int, w: int, g: Grid, changeErr: bool, ch: Channel)
    returns (hit: bool, g': Grid)
    requires IsGrid(g, |g|) && 0 <= a < |g| && 0 <= c0 && 0 <= w && c0 + w <= |g|
    ensures hit <==> exists b | c0 <= b < c0 + w :: Value(g[a][b], ch) == dig
    ensures !changeErr ==> g' == g
    ensures changeErr ==> FlaggedIn(g, g', ch, dig, a, c0, 1, w)
  {
    hit := false;
    g' := g;
    var j := 0;
    while j < w
      invariant 0 <= j <= w
      invariant hit <==> exists b | c0 <= b < c0 + j :: Value(g[a][b], ch) == dig
      invariant !changeErr ==> !hit && g' == g
      invariant FlaggedIn(g, g', ch, dig, a, c0, 1, j)
    {
      var x := g'[a][c0 + j];
      if Value(x, ch) == dig {
        hit := true;
        if !changeErr {
          return;
        }
        if x.status != Fixed {
          g' := Put(g', a, c0 + j, Flag(x));
        }
      }
      j := j + 1;
    }
  }

  /** validate_block: scans the m x n block of (row, col) for dig. */
  method ValidateBlock(dig: int, row: int, col: int, m: int, n: int, g: Grid, changeErr: bool, ch: Channel)
    returns (valid: bool, g': Grid)
    requires m >= 1 && n >= 1 && IsGrid(g, m * n)
    requires 0 <= row < m * n && 0 <= col < m * n
    ensures valid <==> !Conflict(g, ch, dig, BlockOf(row, col, m, n))
    ensures g' == if changeErr then MarkScope(g, ch, dig, BlockOf(row, col, m, n)) else g
  {
    var rStart := row - row % m;
    var cStart := col - col % n;
    BlockIsRect(row, col, m, n);
    valid := true;
    g' := g;
    var i := 0;
    while i < m
      invariant 0 <= i <= m
      invariant valid <==> forall a, b :: InRect(a, b, rStart, cStart, i, n) ==> Value(g[a][b], ch) != dig
      invariant !changeErr ==> valid && g' == g
      invariant FlaggedIn(g, g', ch, dig, rStart, cStart, i, n)
    {
      var hit, g1 := ScanBlockRow(dig, rStart + i, cStart, n, g', changeErr, ch);
      if hit {
        if !changeErr {
          return false, g;
        }
        valid := false;
      }
      g' := g1;
      i := i + 1;
    }
    if changeErr {
      SameGrid(g', MarkScope(g, ch, dig, BlockOf(row, col, m, n)));
    }
  }

  /** validate_dig: the conjunction of the three scans; all three run even
      after one has failed, and dig == 0 is accepted without scanning. */
  method ValidateDig(dig: int, row: int, col: int, m: int, n: int, g: Grid, changeErr: bool, ch: Channel)
    returns (valid: bool, g': Grid)
    requires m >= 1 && n >= 1 && IsGrid(g, m * n)
    requires 0 <= row < m * n && 0 <= col < m * n
    ensures valid == Legal(g, ch, dig, row, col, m, n)
    ensures g' == if changeErr then MarkAll(g, ch, dig, row, col, m, n) else g
    ensures dig == 0 ==> valid && g' == g
  {
    valid := true;
    if dig == 0 {
      return true, g;
    }
    var ok;
    var g1, g2;
    ok, g1 := ValidateRow(dig, row, g, changeErr, ch);
    if !ok {
      valid := false;
    }
    ok, g2 := ValidateCol(dig, col, g1, changeErr, ch);
    MarkScopeKeepsConflicts(g, ch, dig, RowOf(row), ch, dig, ColOf(col));
    if !ok {
      valid := false;
    }
    ok, g' := ValidateBlock(dig, row, col, m, n, g2, changeErr, ch);
    MarkScopeKeepsConflicts(g, ch, dig, RowOf(row), ch, dig, BlockOf(row, col, m, n));
    MarkScopeKeepsConflicts(g1, ch, dig, ColOf(col), ch, dig, BlockOf(row, col, m, n));
    if !ok {
      valid := false;
    }
  }
}
