/** The data types of the Sudoku engine (structs.h) and the grid helpers every
    other module shares.  A board is an N x N grid of cells, N = m * n, where a
    block has m rows and n columns. */
module Structs {

  /** STAT: the status tag of a cell. */
  datatype Status = Hidden | Shown | Fixed | Erroneous

  /** Num: the committed value `num`, the scratch value `alt` used only while
      counting solutions or staging an autofill, and the status. */
  datatype Cell = Cell(num: int, alt: int, status: Status)

  /** MODE: the session mode. */
  datatype Mode = Init | Solve | Edit

  /** SingleSet: one cell changing from `prevVal` to `newVal`. */
  datatype Change = Change(prevVal: int, newVal: int, col: int, row: int)

  /** Move: the ordered list of single-cell changes of one user action.  The
      empty move stands for the sentinel node whose head_move is NULL. */
  type Move = seq<Change>

  /** Elem: one frame of the exhaustive-search stack. */
  datatype Frame = Frame(row: int, col: int, val: int)

  /** Stack: the frames of the exhaustive search; the top is the LAST element. */
  type Stack = seq<Frame>

  type Grid = seq<seq<Cell>>

  datatype Option<T> = None | Some(value: T)

  /** Which value of a cell a validation reads: `num` (num_alt = 1) or
      `alt_num` (num_alt = 0). */
  datatype Channel = Committed | Scratch

  function Value(x: Cell, ch: Channel): int
  {
    match ch
    case Committed => x.num
    case Scratch => x.alt
  }

  /** g is an N x N grid. */
  predicate IsGrid(g: Grid, size: int)
  {
    |g| == size && forall r :: 0 <= r < |g| ==> |g[r]| == size
  }

  /** (r, c) is a cell of the square grid g. */
  predicate OnBoard(g: Grid, r: int, c: int)
  {
    0 <= r < |g| && 0 <= c < |g[r]|
  }

  /** Replaces the cell at (r, c). */
  function Put(g: Grid, r: int, c: int, x: Cell): (g': Grid)
    requires OnBoard(g, r, c)
    ensures |g'| == |g| && (forall i :: 0 <= i < |g| ==> |g'[i]| == |g[i]|)
    ensures g'[r][c] == x
    ensures forall i, j :: OnBoard(g, i, j) && (i, j) != (r, c) ==> g'[i][j] == g[i][j]
  {
    g[r := g[r][c := x]]
  }

  /** The positions whose value in channel ch is 0. */
  function EmptyCells(g: Grid, ch: Channel): set<(int, int)>
  {
    set r, c | 0 <= r < |g| && 0 <= c < |g[r]| && Value(g[r][c], ch) == 0 :: (r, c)
  }

  /** count_hid's meaning: the number of cells whose committed value is 0. */
  function Zeros(g: Grid): nat
  {
    |EmptyCells(g, Committed)|
  }

  /** Changing one cell changes the set of empty positions at that position only. */
  lemma EmptyCellsPutSet(g: Grid, r: int, c: int, x: Cell, ch: Channel)
    requires OnBoard(g, r, c)
    ensures EmptyCells(Put(g, r, c, x), ch) - {(r, c)} == EmptyCells(g, ch) - {(r, c)}
    ensures (r, c) in EmptyCells(g, ch) <==> Value(g[r][c], ch) == 0
    ensures (r, c) in EmptyCells(Put(g, r, c, x), ch) <==> Value(x, ch) == 0
  {
    var g' := Put(g, r, c, x);
    var before, after := EmptyCells(g, ch), EmptyCells(g', ch);
    forall p | p in after && p != (r, c) ensures p in before {
      var (i, j) := p;
      assert g'[i][j] == g[i][j];
    }
    forall p | p in before && p != (r, c) ensures p in after {
      var (i, j) := p;
      assert g'[i][j] == g[i][j];
    }
  }

  /** Changing one cell changes the empty count by the change in that cell's
      emptiness. */
  lemma EmptyCellsPut(g: Grid, r: int, c: int, x: Cell, ch: Channel)
    requires OnBoard(g, r, c)
    ensures |EmptyCells(Put(g, r, c, x), ch)| ==
              |EmptyCells(g, ch)| - (if Value(g[r][c], ch) == 0 then 1 else 0)
                                  + (if Value(x, ch) == 0 then 1 else 0)
  {
    EmptyCellsPutSet(g, r, c, x, ch);
    var before, after := EmptyCells(g, ch), EmptyCells(Put(g, r, c, x), ch);
    var rest := before - {(r, c)};
    if (r, c) in before {
      assert before == rest + {(r, c)};
    } else {
      assert before == rest;
    }
    if (r, c) in after {
      assert after == rest + {(r, c)};
    } else {
      assert after == rest;
    }
  }

  /** Two grids of the same shape whose channel-ch values agree have the same
      empty cells in that channel. */
  lemma EmptyCellsSameValues(g: Grid, g': Grid, ch: Channel)
    requires |g| == |g'| && forall i :: 0 <= i < |g| ==> |g[i]| == |g'[i]|
    requires forall i, j :: OnBoard(g, i, j) ==> Value(g[i][j], ch) == Value(g'[i][j], ch)
    ensures EmptyCells(g, ch) == EmptyCells(g', ch)
  {
  }

  /** The committed values of a grid, statuses and scratch values forgotten. */
  function Nums(g: Grid): (v: seq<seq<int>>)
    ensures |v| == |g| && forall i :: 0 <= i < |g| ==> |v[i]| == |g[i]|
    ensures forall i, j :: OnBoard(g, i, j) ==> v[i][j] == g[i][j].num
  {
    seq(|g|, i requires 0 <= i < |g| => seq(|g[i]|, j requires 0 <= j < |g[i]| => g[i][j].num))
  }

  /** The grid holds no ERRONEOUS cell. */
  predicate NoErroneous(g: Grid)
  {
    forall i, j | 0 <= i < |g| && 0 <= j < |g[i]| :: g[i][j].status != Erroneous
  }

  /** Every scratch value is 0, as between commands. */
  predicate AltClear(g: Grid)
  {
    forall i, j | 0 <= i < |g| && 0 <= j < |g[i]| :: g[i][j].alt == 0
  }

  /** A cell is empty exactly when it is HIDDEN. */
  predicate StatusMatchesValue(g: Grid)
  {
    forall i, j | 0 <= i < |g| && 0 <= j < |g[i]| :: (g[i][j].num == 0 <==> g[i][j].status == Hidden)
  }

  /** Two grids of the same shape whose cells agree on the committed value
      have the same committed values. */
  lemma NumsEqual(a: Grid, b: Grid)
    requires |a| == |b| && forall i :: 0 <= i < |a| ==> |a[i]| == |b[i]|
    requires forall i, j :: OnBoard(a, i, j) ==> a[i][j].num == b[i][j].num
    ensures Nums(a) == Nums(b)
  {
    var x, y := Nums(a), Nums(b);
    forall i | 0 <= i < |x| ensures x[i] == y[i] {
      forall j | 0 <= j < |x[i]| ensures x[i][j] == y[i][j] {
        assert OnBoard(a, i, j);
      }
    }
  }
}
