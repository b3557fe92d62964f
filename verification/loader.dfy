/** Loading a board from a file (parse_file, parser.c:102-150) and writing
    one back (write_num and the cell loop of save, game.c:24-38, 846-880).

    The file is seen as its sequence of whitespace-separated tokens, each
    read by atoi: its integer value and whether it ends with '.'.  The first
    two tokens are m and n; the k-th token after them goes to row k / N,
    column k % N of a fresh N x N board, N = m * n. */
module Loader {
  import opened Structs
  import opened StructFunctions
  import opened Validation
  import opened Repair
  import opened Edits
  import opened AutoFill
  import opened Timeline
  import opened Game

  datatype Token = Token(value: int, dot: bool)

  /** What parse_file leaves: the block shape, the board and count_hid. */
  datatype Loaded = Loaded(m: int, n: int, board: Grid, countHid: int)

  // ------------------------------------------------------------ positions

  /** The row-major index of cell (i, j). */
  function Index(i: int, j: int, size: int): int
  {
    i * size + j
  }

  lemma IndexRoundTrip(i: int, j: int, size: int)
    requires 0 <= i < size && 0 <= j < size
    ensures 0 <= Index(i, j, size) < size * size
    ensures Index(i, j, size) / size == i && Index(i, j, size) % size == j
  {
    MulLe(size, 0, i);
    MulLe(size, i, size - 1);
    assert size * (size - 1) + size == size * size;
    assert Index(i, j, size) == size * i + j;
    DivUnique(Index(i, j, size), size, i, j);
  }

  lemma PositionRoundTrip(k: int, size: int)
    requires size >= 1 && 0 <= k < size * size
    ensures 0 <= k / size < size && 0 <= k % size < size && Index(k / size, k % size, size) == k
  {
    var q := k / size;
    assert k == size * q + k % size;
    if q >= size {
      MulLe(size, size, q);
      assert false;
    }
    if q < 0 {
      MulLe(size, q, -1);
      assert false;
    }
  }

  // ------------------------------------------------------------ loading

  /** One cell token placed at (r, c): a zero token leaves the fresh cell;
      any other token is checked against the cells loaded so far in mark
      mode, then stored, FIXED when it ends with '.' in SOLVE, else
      ERRONEOUS when the check failed, else SHOWN; count_hid drops by one. */
  function LoadToken(g: Grid, cnt: int, t: Token, r: int, c: int, m: int, n: int, mode: Mode): (res: (Grid, int))
    requires OnBoard(g, r, c)
    ensures |res.0| == |g| && forall i :: 0 <= i < |g| ==> |res.0[i]| == |g[i]|
  {
    if t.value == 0 then (g, cnt)
    else
      var valid := Legal(g, Committed, t.value, r, c, m, n);
      var g1 := MarkAll(g, Committed, t.value, r, c, m, n);
      MarkAllKeepsValuesAndFixed(g, Committed, t.value, r, c, m, n);
      var st := if t.dot && mode == Solve then Fixed else if !valid then Erroneous else Shown;
      (Put(g1, r, c, g1[r][c].(num := t.value, status := st)), cnt - 1)
  }

  /** The cell tokens from the k-th on. */
  function LoadFrom(g: Grid, cnt: int, cells: seq<Token>, k: nat, m: int, n: int, mode: Mode): (res: (Grid, int))
    requires m >= 1 && n >= 1 && IsGrid(g, m * n) && k <= |cells| <= (m * n) * (m * n)
    ensures IsGrid(res.0, m * n)
    decreases |cells| - k
  {
    if k == |cells| then (g, cnt)
    else
      PositionRoundTrip(k, m * n);
      var p := LoadToken(g, cnt, cells[k], k / (m * n), k % (m * n), m, n, mode);
      LoadFrom(p.0, p.1, cells, k + 1, m, n, mode)
  }

  /** parse_file on the tokens of a file.  None stands for fewer than three
      tokens (no cell token, so no board is created), more than N * N cell
      tokens (which the source would write past the board), or a block side
      below 1.  The source cannot load a zero side or exactly one negative
      side either; two negative sides it loads with empty block scans, a
      geometry this model does not cover. */
  function ParseFile(toks: seq<Token>, mode: Mode): (r: Option<Loaded>)
  {
    if |toks| < 3 then None
    else
      var m, n := toks[0].value, toks[1].value;
      if m < 1 || n < 1 || |toks| - 2 > (m * n) * (m * n) then None
      else
        var p := LoadFrom(CreateEmptyBoard(m, n), (m * n) * (m * n), toks[2..], 0, m, n, mode);
        Some(Loaded(m, n, p.0, p.1))
  }

  // ------------------------------------------------------------ what loading promises

  /** A loaded cell agrees with its token: it holds the token's value with
      nothing staged, it is FIXED exactly for a nonzero token ending with
      '.' in SOLVE, and HIDDEN exactly for a zero token. */
  predicate Matches(x: Cell, t: Token, mode: Mode)
  {
    && x.num == t.value && x.alt == 0
    && (x.status == Fixed <==> t.value != 0 && t.dot && mode == Solve)
    && (x.status == Hidden <==> t.value == 0)
  }

  /** Another cell of the row, column or block of (i, j) holds its value. */
  ghost predicate Duplicated(g: Grid, m: int, n: int, i: int, j: int)
    requires OnBoard(g, i, j)
  {
    exists a, b :: OnBoard(g, a, b) && (a, b) != (i, j) && Sees(i, j, m, n, a, b) && g[a][b].num == g[i][j].num
  }

  /** The error marking of a loaded board: a nonzero cell that is not FIXED
      is ERRONEOUS exactly when it is duplicated. */
  ghost predicate Marked(g: Grid, m: int, n: int)
  {
    forall i, j :: OnBoard(g, i, j) && g[i][j].num != 0 && g[i][j].status != Fixed ==>
      (g[i][j].status == Erroneous <==> Duplicated(g, m, n, i, j))
  }

  /** The cells before index k hold their tokens, the others are fresh. */
  ghost predicate PlacedUpTo(g: Grid, cells: seq<Token>, k: int, mode: Mode)
  {
    forall i, j :: OnBoard(g, i, j) ==>
      var p := Index(i, j, |g|);
      (0 <= p < k && p < |cells| ==> Matches(g[i][j], cells[p], mode))
      && (p >= k ==> g[i][j] == CreateNum(0))
  }

  /** Loading one token into a fresh cell: the cell agrees with the token,
      count_hid keeps counting the empty cells, and every other cell keeps
      its value, its scratch value and whether it is FIXED; it either stays
      as it was or, holding a nonzero value, becomes ERRONEOUS. */
  lemma LoadTokenStep(g: Grid, cnt: int, t: Token, r: int, c: int, m: int, n: int, mode: Mode)
    requires IsGrid(g, |g|) && OnBoard(g, r, c) && g[r][c] == CreateNum(0) && cnt == Zeros(g)
    ensures var res := LoadToken(g, cnt, t, r, c, m, n, mode);
            && res.1 == Zeros(res.0) && Matches(res.0[r][c], t, mode)
            && forall i, j :: OnBoard(g, i, j) && (i, j) != (r, c) ==>
                 && res.0[i][j].num == g[i][j].num && res.0[i][j].alt == g[i][j].alt
                 && (res.0[i][j].status == Fixed <==> g[i][j].status == Fixed)
                 && (res.0[i][j] == g[i][j] || (g[i][j].num != 0 && res.0[i][j].status == Erroneous))
  {
    if t.value != 0 {
      var d := t.value;
      var g1 := MarkAll(g, Committed, d, r, c, m, n);
      MarkAllKeepsValuesAndFixed(g, Committed, d, r, c, m, n);
      MarkAllEffect(g, Committed, d, r, c, m, n, r, c);
      EmptyCellsSameValues(g, g1, Committed);
      var st := if t.dot && mode == Solve then Fixed else if !Legal(g, Committed, d, r, c, m, n) then Erroneous else Shown;
      EmptyCellsPut(g1, r, c, g1[r][c].(num := d, status := st), Committed);
      forall i, j | OnBoard(g, i, j) && (i, j) != (r, c)
        ensures g1[i][j] == g[i][j] || (g[i][j].num != 0 && g1[i][j].status == Erroneous)
      {
        MarkAllEffect(g, Committed, d, r, c, m, n, i, j);
      }
    }
  }

  /** Loading one token keeps the error marking. */
  lemma LoadTokenMarks(g: Grid, cnt: int, t: Token, r: int, c: int, m: int, n: int, mode: Mode)
    requires IsGrid(g, |g|) && OnBoard(g, r, c) && g[r][c] == CreateNum(0) && Marked(g, m, n)
    ensures Marked(LoadToken(g, cnt, t, r, c, m, n, mode).0, m, n)
  {
    if t.value != 0 {
      var g': Grid := LoadToken(g, cnt, t, r, c, m, n, mode).0;
      forall i, j | OnBoard(g', i, j) && g'[i][j].num != 0 && g'[i][j].status != Fixed
        ensures g'[i][j].status == Erroneous <==> Duplicated(g', m, n, i, j)
      {
        if (i, j) == (r, c) {
          LoadedCellMarked(g, cnt, t, r, c, m, n, mode);
        } else {
          OtherCellMarked(g, cnt, t, r, c, m, n, mode, i, j);
        }
      }
    }
  }

  /** The loaded cell is ERRONEOUS (unless FIXED) exactly when it is
      duplicated among the cells loaded before it. */
  lemma LoadedCellMarked(g: Grid, cnt: int, t: Token, r: int, c: int, m: int, n: int, mode: Mode)
    requires IsGrid(g, |g|) && OnBoard(g, r, c) && g[r][c] == CreateNum(0) && t.value != 0
    ensures var g' := LoadToken(g, cnt, t, r, c, m, n, mode).0;
            g'[r][c].status != Fixed ==> (g'[r][c].status == Erroneous <==> Duplicated(g', m, n, r, c))
  {
    var d := t.value;
    var g': Grid := LoadToken(g, cnt, t, r, c, m, n, mode).0;
    var g1 := MarkAll(g, Committed, d, r, c, m, n);
    MarkAllKeepsValuesAndFixed(g, Committed, d, r, c, m, n);
    LegalIgnoresCell(g, g, d, r, c, m, n);
    UniqueMeans(g, d, r, c, m, n);
    assert forall a, b :: OnBoard(g, a, b) && (a, b) != (r, c) ==> g'[a][b].num == g[a][b].num;
    if Duplicated(g', m, n, r, c) {
      var a, b :| OnBoard(g', a, b) && (a, b) != (r, c) && Sees(r, c, m, n, a, b) && g'[a][b].num == g'[r][c].num;
      assert g[a][b].num == d;
    }
    if !Unique(g, d, r, c, m, n) {
      var a, b :| OnBoard(g, a, b) && (a, b) != (r, c) && Sees(r, c, m, n, a, b) && g[a][b].num == d;
      assert g'[a][b].num == g'[r][c].num;
    }
  }

  /** A cell loaded earlier becomes ERRONEOUS when the new cell duplicates
      it, and is otherwise marked as before. */
  lemma OtherCellMarked(g: Grid, cnt: int, t: Token, r: int, c: int, m: int, n: int, mode: Mode, i: int, j: int)
    requires IsGrid(g, |g|) && OnBoard(g, r, c) && g[r][c] == CreateNum(0) && t.value != 0 && Marked(g, m, n)
    requires OnBoard(g, i, j) && (i, j) != (r, c)
    ensures var g' := LoadToken(g, cnt, t, r, c, m, n, mode).0;
            g'[i][j].num != 0 && g'[i][j].status != Fixed ==>
              (g'[i][j].status == Erroneous <==> Duplicated(g', m, n, i, j))
  {
    var d := t.value;
    var g': Grid := LoadToken(g, cnt, t, r, c, m, n, mode).0;
    var g1 := MarkAll(g, Committed, d, r, c, m, n);
    MarkAllKeepsValuesAndFixed(g, Committed, d, r, c, m, n);
    MarkAllEffect(g, Committed, d, r, c, m, n, i, j);
    assert g'[i][j] == g1[i][j];
    if g'[i][j].num != 0 && g'[i][j].status != Fixed {
      var v := g[i][j].num;
      assert forall a, b :: OnBoard(g, a, b) && (a, b) != (r, c) ==> g'[a][b].num == g[a][b].num;
      if Duplicated(g, m, n, i, j) {
        var a, b :| OnBoard(g, a, b) && (a, b) != (i, j) && Sees(i, j, m, n, a, b) && g[a][b].num == v;
        assert (a, b) != (r, c);
        assert g'[a][b].num == g'[i][j].num;
      }
      if Sees(r, c, m, n, i, j) && v == d {
        SeesSymmetric(r, c, m, n, i, j);
        assert g'[r][c].num == g'[i][j].num;
      }
      if Duplicated(g', m, n, i, j) {
        var a, b :| OnBoard(g', a, b) && (a, b) != (i, j) && Sees(i, j, m, n, a, b) && g'[a][b].num == g'[i][j].num;
        if (a, b) == (r, c) {
          SeesSymmetric(i, j, m, n, r, c);
        } else {
          assert g[a][b].num == v;
        }
      }
    }
  }

  /** Loading the cell tokens from the k-th on keeps count_hid counting the
      empty cells, places every token and keeps the error marking. */
  lemma {:induction false} LoadFromSpec(g: Grid, cnt: int, cells: seq<Token>, k: nat, m: int, n: int, mode: Mode)
    requires m >= 1 && n >= 1 && IsGrid(g, m * n) && k <= |cells| <= (m * n) * (m * n)
    requires cnt == Zeros(g) && PlacedUpTo(g, cells, k, mode) && Marked(g, m, n)
    ensures var res := LoadFrom(g, cnt, cells, k, m, n, mode);
            res.1 == Zeros(res.0) && PlacedUpTo(res.0, cells, |cells|, mode) && Marked(res.0, m, n)
    decreases |cells| - k
  {
    if k < |cells| {
      var size := m * n;
      PositionRoundTrip(k, size);
      var r, c := k / size, k % size;
      assert g[r][c] == CreateNum(0);
      LoadTokenStep(g, cnt, cells[k], r, c, m, n, mode);
      LoadTokenMarks(g, cnt, cells[k], r, c, m, n, mode);
      var res := LoadToken(g, cnt, cells[k], r, c, m, n, mode);
      var g': Grid := res.0;
      forall i, j | OnBoard(g', i, j)
        ensures var p := Index(i, j, |g'|);
                (0 <= p < k + 1 && p < |cells| ==> Matches(g'[i][j], cells[p], mode))
                && (p >= k + 1 ==> g'[i][j] == CreateNum(0))
      {
        IndexRoundTrip(i, j, size);
        if (i, j) != (r, c) {
          assert Index(i, j, size) != k;
          assert OnBoard(g, i, j);
        }
      }
      LoadFromSpec(g', res.1, cells, k + 1, m, n, mode);
    }
  }

  /** parse_file: a file loads exactly when it has at least one cell token,
      block sides of at least 1 and at most N * N cell tokens.  The loaded
      board is N x N with the k-th cell token at row k / N, column k % N and
      every cell without a token empty and HIDDEN; count_hid counts the
      empty cells; FIXED marks exactly the nonzero tokens ending with '.'
      in SOLVE; and every other nonzero cell is ERRONEOUS exactly when
      another cell of its row, column or block holds the same value. */
  lemma ParseFileEffect(toks: seq<Token>, mode: Mode)
    ensures ParseFile(toks, mode).Some? <==>
              && |toks| >= 3 && toks[0].value >= 1 && toks[1].value >= 1
              && |toks| - 2 <= (toks[0].value * toks[1].value) * (toks[0].value * toks[1].value)
    ensures ParseFile(toks, mode).Some? ==>
              var l := ParseFile(toks, mode).value;
              var size := l.m * l.n;
              && l.m == toks[0].value && l.n == toks[1].value
              && IsGrid(l.board, size) && l.countHid == Zeros(l.board)
              && (forall i, j :: OnBoard(l.board, i, j) ==>
                    var p := Index(i, j, size);
                    Matches(l.board[i][j], if p < |toks| - 2 then toks[p + 2] else Token(0, false), mode))
              && Marked(l.board, l.m, l.n)
  {
    if ParseFile(toks, mode).Some? {
      var m, n := toks[0].value, toks[1].value;
      var size := m * n;
      var cells := toks[2..];
      var g0 := CreateEmptyBoard(m, n);
      EmptyBoardConsistent(m, n);
      var res := LoadFrom(g0, size * size, cells, 0, m, n, mode);
      assert ParseFile(toks, mode) == Some(Loaded(m, n, res.0, res.1));
      LoadFromSpec(g0, size * size, cells, 0, m, n, mode);
      PlacedAll(res.0, toks, size, mode);
    }
  }

  /** Once every cell token is placed, each cell matches the token at its
      index, and a cell past the last token matches a 0 token. */
  lemma PlacedAll(g: Grid, toks: seq<Token>, size: int, mode: Mode)
    requires size >= 1 && IsGrid(g, size) && |toks| >= 2
    requires PlacedUpTo(g, toks[2..], |toks| - 2, mode)
    ensures forall i, j :: OnBoard(g, i, j) ==>
              var p := Index(i, j, size);
              Matches(g[i][j], if p < |toks| - 2 then toks[p + 2] else Token(0, false), mode)
  {
    var cells := toks[2..];
    forall i, j | OnBoard(g, i, j)
      ensures var p := Index(i, j, size);
              Matches(g[i][j], if p < |toks| - 2 then toks[p + 2] else Token(0, false), mode)
    {
      IndexRoundTrip(i, j, size);
      var p := Index(i, j, size);
      if p < |cells| {
        assert cells[p] == toks[p + 2];
      }
    }
  }

  /** A loaded board, with a history holding only the sentinel, makes a
      consistent session in the mode it was loaded for. */
  lemma LoadedConsistent(toks: seq<Token>, mode: Mode)
    requires ParseFile(toks, mode).Some?
    ensures var l := ParseFile(toks, mode).value;
            Consistent(Session(mode, l.m, l.n, l.board, l.countHid, InitialHistory()))
  {
    ParseFileEffect(toks, mode);
    var l := ParseFile(toks, mode).value;
    var s := Session(mode, l.m, l.n, l.board, l.countHid, InitialHistory());
    var size := l.m * l.n;
    forall i, j | OnBoard(l.board, i, j)
      ensures (l.board[i][j].num == 0 <==> l.board[i][j].status == Hidden) && l.board[i][j].alt == 0
    {
    }
    CoherentSentinel(Nums(l.board), s.history);
  }

  // ------------------------------------------------------------ saving

  /** write_num (game.c:24-38): the token of one cell.  EDIT writes every
      nonzero value with '.', SOLVE marks the FIXED cells with '.', and
      INIT writes nothing. */
  function WriteNum(x: Cell, mode: Mode): (t: Option<Token>)
    ensures t.Some? <==> mode != Init
  {
    match mode
    case Edit => Some(Token(x.num, x.num != 0))
    case Solve => Some(Token(x.num, x.status == Fixed))
    case Init => None
  }

  /** save (game.c:846-880) without the file: the guards, then "m n" and
      the cells in row-major order.  The ILP verdict for the board is the
      parameter `solvable`. */
  function Save(s: Session, solvable: bool): (r: Outcome<seq<Token>>)
    requires WellFormed(s)
  {
    var size := Size(s);
    if s.mode == Init then Err(InvalidCommand)
    else if s.mode == Edit && !NoErroneous(s.board) then Err(ContainsErrors)
    else if s.mode == Edit && ValidateCode(s.mode, s.board, false, solvable) == 3 then Err(Unsolvable)
    else
      Ok([Token(s.m, false), Token(s.n, false)]
         + seq(size * size, p requires 0 <= p < size * size =>
                 PositionRoundTrip(p, size);
                 WriteNum(s.board[p / size][p % size], s.mode).value))
  }

  /** Saving then loading gives back the board: the same block shape and
      values, count_hid counting the empty cells, and, when loaded in SOLVE,
      FIXED exactly on the nonzero cells of a board saved in EDIT, or on the
      FIXED cells of a board saved in SOLVE; loaded in EDIT nothing is
      FIXED.  Save fails exactly in INIT, or in EDIT on an erroneous or
      unsolvable board. */
  lemma SaveThenLoad(s: Session, solvable: bool, loadMode: Mode)
    requires WellFormed(s)
    ensures Save(s, solvable).Err? <==> s.mode == Init || (s.mode == Edit && (!NoErroneous(s.board) || !solvable))
    ensures Save(s, solvable).Ok? ==>
              var l := ParseFile(Save(s, solvable).value, loadMode);
              && l.Some? && l.value.m == s.m && l.value.n == s.n
              && Nums(l.value.board) == Nums(s.board) && l.value.countHid == Zeros(s.board)
              && forall i, j :: OnBoard(s.board, i, j) ==>
                   (l.value.board[i][j].status == Fixed <==>
                      loadMode == Solve && s.board[i][j].num != 0 && (s.mode == Edit || s.board[i][j].status == Fixed))
  {
    if Save(s, solvable).Ok? {
      var toks := Save(s, solvable).value;
      var size := Size(s);
      ParseFileEffect(toks, loadMode);
      var l := ParseFile(toks, loadMode).value;
      forall i, j | OnBoard(s.board, i, j)
        ensures l.board[i][j].num == s.board[i][j].num
        ensures l.board[i][j].status == Fixed <==>
                  loadMode == Solve && s.board[i][j].num != 0 && (s.mode == Edit || s.board[i][j].status == Fixed)
      {
        IndexRoundTrip(i, j, size);
        var p := Index(i, j, size);
        assert toks[p + 2] == WriteNum(s.board[i][j], s.mode).value;
      }
      NumsEqual(l.board, s.board);
      EmptyCellsSameValues(l.board, s.board, Committed);
    }
  }
}
