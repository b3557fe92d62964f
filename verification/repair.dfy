/** The error-status repair helpers of game.c (parse_row, parse_col,
    parse_block, parse_legitimate).  When a digit leaves a cell, cells that
    were ERRONEOUS because of it may have become legal again: every non-FIXED
    cell of the scanned scope that holds the digit is re-validated with its
    own value set aside, and promoted to SHOWN when it passes.

    Re-validation reads committed values only and promotion changes statuses
    only, so every cell's verdict depends on the board before the scan; the
    in-place loops of the C code are therefore the cellwise maps below. */
module Repair {
  import opened Structs
  import opened Validation

  /** Cell (r, c) passes validate_dig(dig, r, c, bm, bn) on the committed
      values while its own value is set to 0. */
  predicate Unique(g: Grid, dig: int, r: int, c: int, bm: int, bn: int)
    requires OnBoard(g, r, c)
  {
    Legal(Put(g, r, c, g[r][c].(num := 0)), Committed, dig, r, c, bm, bn)
  }

  /** A scan of scope s with block geometry bm x bn promotes cell (r, c). */
  predicate Promotes(g: Grid, dig: int, s: Scope, bm: int, bn: int, r: int, c: int)
    requires OnBoard(g, r, c)
  {
    && InScope(s, r, c)
    && g[r][c].num == dig
    && g[r][c].status != Fixed
    && Unique(g, dig, r, c, bm, bn)
  }

  /** The board after one repair scan of scope s. */
  function RepairScope(g: Grid, dig: int, s: Scope, bm: int, bn: int): (g': Grid)
    ensures |g'| == |g| && forall i :: 0 <= i < |g| ==> |g'[i]| == |g[i]|
    ensures forall i, j :: OnBoard(g, i, j) ==>
              g'[i][j] == if Promotes(g, dig, s, bm, bn, i, j) then g[i][j].(status := Shown) else g[i][j]
  {
    seq(|g|, i requires 0 <= i < |g| =>
      seq(|g[i]|, j requires 0 <= j < |g[i]| =>
        if Promotes(g, dig, s, bm, bn, i, j) then g[i][j].(status := Shown) else g[i][j]))
  }

  /** Only statuses change, FIXED cells are untouched, and a changed cell is
      a cell of the scope holding dig that became SHOWN. */
  ghost predicate OnlyPromotes(g: Grid, g': Grid, dig: int, s: Scope)
  {
    && |g'| == |g| && (forall i :: 0 <= i < |g| ==> |g'[i]| == |g[i]|)
    && forall i, j :: OnBoard(g, i, j) ==>
         && g'[i][j].num == g[i][j].num
         && g'[i][j].alt == g[i][j].alt
         && (g[i][j].status == Fixed ==> g'[i][j] == g[i][j])
         && (g'[i][j] != g[i][j] ==> InScope(s, i, j) && g[i][j].num == dig && g'[i][j].status == Shown)
  }

  /** parse_row: the row is re-validated with the block geometry passed as
      validate_dig(dig, row, col, n, m) at game.c:238, that is, with the roles
      of m and n exchanged. */
  function ParseRow(dig: int, row: int, g: Grid, m: int, n: int): (g': Grid)
    ensures OnlyPromotes(g, g', dig, RowOf(row))
  {
    RepairScope(g, dig, RowOf(row), n, m)
  }

  /** parse_col: the column is re-validated with the board's own geometry. */
  function ParseCol(dig: int, col: int, g: Grid, m: int, n: int): (g': Grid)
    ensures OnlyPromotes(g, g', dig, ColOf(col))
  {
    RepairScope(g, dig, ColOf(col), m, n)
  }

  /** parse_block: the m x n block of (row, col) is re-validated. */
  function ParseBlock(dig: int, row: int, col: int, m: int, n: int, g: Grid): (g': Grid)
    ensures OnlyPromotes(g, g', dig, BlockOf(row, col, m, n))
  {
    RepairScope(g, dig, BlockOf(row, col, m, n), m, n)
  }

  /** parse_legitimate: for a nonzero digit, the row, then the column, then
      the block of (row, col) are repaired. */
  function ParseLegitimate(col: int, row: int, dig: int, g: Grid, m: int, n: int): (g': Grid)
    ensures dig == 0 ==> g' == g
  {
    if dig != 0 then
      ParseBlock(dig, row, col, m, n, ParseCol(dig, col, ParseRow(dig, row, g, m, n), m, n))
    else g
  }

  // ------------------------------------------------------------ lemmas

  /** A cell's repair verdict ignores statuses other than FIXED-ness. */
  lemma PromotesSameNums(g: Grid, g': Grid, dig: int, s: Scope, bm: int, bn: int, r: int, c: int)
    requires |g'| == |g| && forall i :: 0 <= i < |g| ==> |g'[i]| == |g[i]|
    requires forall i, j :: OnBoard(g, i, j) ==> g'[i][j].num == g[i][j].num
    requires OnBoard(g, r, c) && (g'[r][c].status == Fixed <==> g[r][c].status == Fixed)
    ensures Promotes(g', dig, s, bm, bn, r, c) == Promotes(g, dig, s, bm, bn, r, c)
  {
    var h, h' := Put(g, r, c, g[r][c].(num := 0)), Put(g', r, c, g'[r][c].(num := 0));
    forall i, j | OnBoard(h, i, j) ensures Value(h'[i][j], Committed) == Value(h[i][j], Committed) {
    }
    ConflictSameValues(h, h', Committed, dig, RowOf(r));
    ConflictSameValues(h, h', Committed, dig, ColOf(c));
    ConflictSameValues(h, h', Committed, dig, BlockOf(r, c, bm, bn));
  }

  /** A scan of one scope, cell by cell. */
  lemma RepairScopeAt(g: Grid, dig: int, s: Scope, bm: int, bn: int, g1: Grid, s': Scope, bm': int, bn': int, i: int, j: int)
    requires g1 == RepairScope(g, dig, s, bm, bn) && OnBoard(g, i, j)
    ensures Promotes(g1, dig, s', bm', bn', i, j) == Promotes(g, dig, s', bm', bn', i, j)
  {
    PromotesSameNums(g, g1, dig, s', bm', bn', i, j);
  }

  /** parse_legitimate, cell by cell: a nonzero digit promotes to SHOWN
      exactly the cells that one of the three scans promotes, each judged
      against the board before the repair; nothing else changes. */
  lemma ParseLegitimateEffect(col: int, row: int, dig: int, g: Grid, m: int, n: int, i: int, j: int)
    requires OnBoard(g, i, j)
    ensures |ParseLegitimate(col, row, dig, g, m, n)| == |g|
    ensures ParseLegitimate(col, row, dig, g, m, n)[i][j] ==
              if dig != 0 && (|| Promotes(g, dig, RowOf(row), n, m, i, j)
                              || Promotes(g, dig, ColOf(col), m, n, i, j)
                              || Promotes(g, dig, BlockOf(row, col, m, n), m, n, i, j))
              then g[i][j].(status := Shown) else g[i][j]
  {
    if dig != 0 {
      var g1 := ParseRow(dig, row, g, m, n);
      var g2 := ParseCol(dig, col, g1, m, n);
      RepairScopeAt(g, dig, RowOf(row), n, m, g1, ColOf(col), m, n, i, j);
      RepairScopeAt(g, dig, RowOf(row), n, m, g1, BlockOf(row, col, m, n), m, n, i, j);
      PromotesSameNums(g1, g2, dig, BlockOf(row, col, m, n), m, n, i, j);
    }
  }

  /** parse_legitimate never changes a value, never touches a FIXED cell and
      only ever turns a cell holding dig into SHOWN. */
  lemma ParseLegitimateOnlyPromotes(col: int, row: int, dig: int, g: Grid, m: int, n: int)
    ensures var g' := ParseLegitimate(col, row, dig, g, m, n);
            && |g'| == |g| && (forall i :: 0 <= i < |g| ==> |g'[i]| == |g[i]|)
            && forall i, j :: OnBoard(g, i, j) ==>
                 && g'[i][j].num == g[i][j].num && g'[i][j].alt == g[i][j].alt
                 && (g[i][j].status == Fixed ==> g'[i][j] == g[i][j])
                 && (g'[i][j] != g[i][j] ==> g[i][j].num == dig && dig != 0 && g'[i][j].status == Shown)
  {
    var res: Grid := ParseLegitimate(col, row, dig, g, m, n);
    if dig != 0 {
      var g1 := ParseRow(dig, row, g, m, n);
      var g2 := ParseCol(dig, col, g1, m, n);
      assert |res| == |g| && forall i :: 0 <= i < |g| ==> |res[i]| == |g[i]|;
    }
    forall i: int, j: int | OnBoard(g, i, j)
      ensures && res[i][j].num == g[i][j].num && res[i][j].alt == g[i][j].alt
              && (g[i][j].status == Fixed ==> res[i][j] == g[i][j])
              && (res[i][j] != g[i][j] ==> g[i][j].num == dig && dig != 0 && res[i][j].status == Shown)
    {
      ParseLegitimateEffect(col, row, dig, g, m, n, i, j);
    }
  }

  /** What "no longer conflicts" means: for a nonzero digit, a cell passes the
      repair check exactly when no OTHER cell of its row, its column or its
      bm x bn block holds the digit. */
  lemma UniqueMeans(g: Grid, dig: int, r: int, c: int, bm: int, bn: int)
    requires OnBoard(g, r, c) && dig != 0
    ensures Unique(g, dig, r, c, bm, bn) <==>
              forall i, j :: OnBoard(g, i, j) && (i, j) != (r, c) && Sees(r, c, bm, bn, i, j) ==> g[i][j].num != dig
  {
    var h := Put(g, r, c, g[r][c].(num := 0));
    if Unique(g, dig, r, c, bm, bn) {
      forall i, j | OnBoard(g, i, j) && (i, j) != (r, c) && Sees(r, c, bm, bn, i, j)
        ensures g[i][j].num != dig
      {
        assert h[i][j] == g[i][j];
        if i == r {
          assert !(InScope(RowOf(r), i, j) && Value(h[i][j], Committed) == dig);
        } else if j == c {
          assert !(InScope(ColOf(c), i, j) && Value(h[i][j], Committed) == dig);
        } else {
          assert !(InScope(BlockOf(r, c, bm, bn), i, j) && Value(h[i][j], Committed) == dig);
        }
      }
    } else {
      var s := if Conflict(h, Committed, dig, RowOf(r)) then RowOf(r)
               else if Conflict(h, Committed, dig, ColOf(c)) then ColOf(c)
               else BlockOf(r, c, bm, bn);
      assert Conflict(h, Committed, dig, s);
      var i, j :| 0 <= i < |h| && 0 <= j < |h[i]| && InScope(s, i, j) && Value(h[i][j], Committed) == dig;
      assert (i, j) != (r, c) && h[i][j] == g[i][j];
      assert Sees(r, c, bm, bn, i, j);
    }
  }
}
