/** The move history (the doubly linked MoveList of struct_functions.c) and the
    stack of the exhaustive search, as values.

    The linked list of MoveList nodes becomes a sequence of moves plus a cursor:
    index 0 is the sentinel node (head_move == NULL, an empty move), the prev
    and next pointers become cursor - 1 and cursor + 1, and freeing a run of
    nodes becomes cutting the sequence. */
module StructFunctions {
  import opened Structs

  /** create_num: a fresh cell holding v, nothing staged, HIDDEN. */
  function CreateNum(v: int): (x: Cell)
    ensures x.num == v && x.alt == 0 && x.status == Hidden
  {
    Cell(v, 0, Hidden)
  }

  /** create_empty_board: an N x N grid of create_num(0) cells. */
  function CreateEmptyBoard(m: int, n: int): (g: Grid)
    requires m >= 1 && n >= 1
    ensures IsGrid(g, m * n)
    ensures forall i, j :: OnBoard(g, i, j) ==> g[i][j] == CreateNum(0)
  {
    seq(m * n, i => seq(m * n, j => CreateNum(0)))
  }

  /** A fresh board is consistent: every cell empty and HIDDEN, count_hid = N * N. */
  lemma EmptyBoardConsistent(m: int, n: int)
    requires m >= 1 && n >= 1
    ensures StatusMatchesValue(CreateEmptyBoard(m, n))
    ensures AltClear(CreateEmptyBoard(m, n)) && NoErroneous(CreateEmptyBoard(m, n))
    ensures Zeros(CreateEmptyBoard(m, n)) == (m * n) * (m * n)
  {
    var g := CreateEmptyBoard(m, n);
    var size := m * n;
    assert EmptyCells(g, Committed) == Rect(size, size);
    RectCount(size, size);
  }

  /** The positions of the first `rows` rows and `cols` columns. */
  function Rect(rows: nat, cols: nat): set<(int, int)>
  {
    set r, c | 0 <= r < rows && 0 <= c < cols :: (r, c)
  }

  /** The positions of row k up to column cols. */
  function RowPositions(k: int, cols: nat): set<(int, int)>
  {
    set c | 0 <= c < cols :: (k, c)
  }

  lemma {:induction false} RowPositionsCount(k: int, cols: nat)
    ensures |RowPositions(k, cols)| == cols
  {
    if cols > 0 {
      RowPositionsCount(k, cols - 1);
      assert RowPositions(k, cols) == RowPositions(k, cols - 1) + {(k, cols - 1)};
    } else {
      assert RowPositions(k, cols) == {};
    }
  }

  lemma {:induction false} RectCount(rows: nat, cols: nat)
    ensures |Rect(rows, cols)| == rows * cols
  {
    if rows > 0 {
      RectCount(rows - 1, cols);
      RowPositionsCount(rows - 1, cols);
      RectSplit(rows, cols);
      MulStep(rows, cols);
    } else {
      assert Rect(rows, cols) == {};
    }
  }

  /** The rectangle is the one above its last row, and that row. */
  lemma RectSplit(rows: nat, cols: nat)
    requires rows > 0
    ensures Rect(rows, cols) == Rect(rows - 1, cols) + RowPositions(rows - 1, cols)
    ensures Rect(rows - 1, cols) !! RowPositions(rows - 1, cols)
  {
    var upper, last := Rect(rows - 1, cols), RowPositions(rows - 1, cols);
    forall p | p in Rect(rows, cols) ensures p in upper + last {
      var (r, c) := p;
      if r < rows - 1 { assert (r, c) in upper; } else { assert (r, c) in last; }
    }
  }

  lemma MulStep(rows: nat, cols: nat)
    requires rows > 0
    ensures rows * cols == (rows - 1) * cols + cols
  {
  }

  // ---------------------------------------------------------------- history

  /** The undo/redo list and the current node. */
  datatype History = History(moves: seq<Move>, cursor: nat)

  /** The shape of the list: the sentinel first and only first, the cursor on
      a node. */
  predicate ValidHistory(h: History)
  {
    && 0 < |h.moves|
    && h.cursor < |h.moves|
    && h.moves[0] == []
    && forall i :: 0 < i < |h.moves| ==> h.moves[i] != []
  }

  /** create_move_list(NULL, NULL) at start-up: the sentinel alone. */
  function InitialHistory(): (h: History)
    ensures ValidHistory(h) && !CanUndo(h) && !CanRedo(h)
  {
    History([[]], 0)
  }

  /** The current node holds a move (head_move != NULL). */
  predicate CanUndo(h: History)
    requires ValidHistory(h)
  {
    h.moves[h.cursor] != []
  }

  /** The current node has a successor (next != NULL). */
  predicate CanRedo(h: History)
    requires ValidHistory(h)
  {
    h.cursor + 1 < |h.moves|
  }

  /** empty_move_list_forward(node k): node k and every node after it are gone. */
  function DropFrom(h: History, k: nat): (h': History)
    requires ValidHistory(h) && h.cursor < k <= |h.moves|
    ensures ValidHistory(h') && h'.cursor == h.cursor
    ensures |h'.moves| == k && h'.moves == h.moves[..k]
    ensures !CanRedo(h') <==> k == h.cursor + 1
  {
    History(h.moves[..k], h.cursor)
  }

  /** create_move_list(curr, move) linked in after the current node once the
      forward nodes are dropped (game.c:451-455, 553-556, 768-771): the move
      becomes the new tail and the current node. */
  function Record(h: History, mv: Move): (h': History)
    requires ValidHistory(h) && mv != []
    ensures ValidHistory(h')
    ensures h'.cursor == h.cursor + 1 && |h'.moves| == h'.cursor + 1
    ensures h'.moves[..h'.cursor] == h.moves[..h.cursor + 1]
    ensures h'.moves[h'.cursor] == mv
    ensures CanUndo(h') && !CanRedo(h')
  {
    var kept := DropFrom(h, h.cursor + 1);
    History(kept.moves + [mv], h.cursor + 1)
  }

  /** empty_move_list_backward: walking prev pointers from node k, the first
      node whose head_move is NULL. */
  function SentinelBefore(moves: seq<Move>, k: nat): (s: nat)
    requires k < |moves| && moves[0] == []
    ensures s <= k && moves[s] == []
    ensures forall i :: s < i <= k ==> moves[i] != []
    decreases k
  {
    if moves[k] == [] then k else SentinelBefore(moves, k - 1)
  }

  /** empty_move_list: only the sentinel is left, and it is current. */
  function Clear(h: History): (h': History)
    requires ValidHistory(h)
    ensures ValidHistory(h') && |h'.moves| == 1 && h'.cursor == 0
    ensures !CanUndo(h') && !CanRedo(h')
  {
    var s := SentinelBefore(h.moves, h.cursor);
    History([h.moves[s]], 0)
  }

  /** Walking back from any node of a valid history reaches node 0. */
  lemma SentinelIsFirst(h: History)
    requires ValidHistory(h)
    ensures SentinelBefore(h.moves, h.cursor) == 0
  {
  }

  /** The cursor moves back one node (undo's *curr_move = prev). */
  function StepBack(h: History): (h': History)
    requires ValidHistory(h) && CanUndo(h)
    ensures ValidHistory(h') && h'.moves == h.moves && h'.cursor + 1 == h.cursor
    ensures CanRedo(h')
  {
    History(h.moves, h.cursor - 1)
  }

  /** The cursor moves forward one node (redo's *curr_move = next). */
  function StepForward(h: History): (h': History)
    requires ValidHistory(h) && CanRedo(h)
    ensures ValidHistory(h') && h'.moves == h.moves && h'.cursor == h.cursor + 1
    ensures CanUndo(h')
  {
    History(h.moves, h.cursor + 1)
  }

  /** Stepping back then forward returns to the same node. */
  lemma StepBackForward(h: History)
    requires ValidHistory(h) && CanUndo(h)
    ensures StepForward(StepBack(h)) == h
  {
  }

  /** After a new move is recorded behind an undone one, nothing is left to redo. */
  lemma RecordAfterUndoDropsRedo(h: History, mv: Move)
    requires ValidHistory(h) && CanUndo(h) && mv != []
    ensures CanRedo(StepBack(h))
    ensures !CanRedo(Record(StepBack(h), mv))
    ensures |Record(StepBack(h), mv).moves| == h.cursor + 1
  {
  }

  // ------------------------------------------------------------------ stack

  /** create_stack: no frames. */
  function CreateStack(): (s: Stack)
    ensures |s| == 0
  {
    []
  }

  /** push_to_stack(dig, row, col): a new top frame. */
  function Push(s: Stack, dig: int, row: int, col: int): (s': Stack)
    ensures |s'| == |s| + 1 && s'[..|s|] == s
    ensures s'[|s|] == Frame(row, col, dig)
  {
    s + [Frame(row, col, dig)]
  }

  /** pop_stack: the top frame removed; the stack must not be empty. */
  function Pop(s: Stack): (s': Stack)
    requires |s| > 0
    ensures |s'| == |s| - 1 && s' == s[..|s| - 1]
  {
    s[..|s| - 1]
  }

  /** The top frame. */
  function Top(s: Stack): Frame
    requires |s| > 0
  {
    s[|s| - 1]
  }

  /** The stack is LIFO: popping a push restores the stack, and the pushed
      frame is on top. */
  lemma PushPop(s: Stack, dig: int, row: int, col: int)
    ensures Pop(Push(s, dig, row, col)) == s
    ensures Top(Push(s, dig, row, col)) == Frame(row, col, dig)
  {
  }
}
