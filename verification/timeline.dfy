/** How the move history relates to the board: the committed values at
    every node of the history are determined by the values at the current
    node, by undoing the moves back to the sentinel and redoing them forward
    to the tail.  A history is coherent with the current values when every
    such undo and redo finds each step's cell holding the value the step
    moves away from, and no move names a cell twice.  This is what makes
    undo and redo inverse to each other (game.c:586-716). */
module Timeline {
  import opened Structs
  import opened StructFunctions
  import opened Edits

  /** The committed values of a board. */
  type Values = seq<seq<int>>

  predicate Square(v: Values)
  {
    forall i :: 0 <= i < |v| ==> |v[i]| == |v|
  }

  /** A move fits values v: its cells are on the board, no two the same, and
      each holds the value the step moves away from. */
  ghost predicate Fits(v: Values, mv: Move, forward: bool)
  {
    Square(v) && StepsOnBoard(mv, |v|) && DistinctSteps(mv) && Holds(v, mv, forward)
  }

  /** From values v at node c, the moves down to the sentinel can be undone
      one after the other. */
  ghost predicate Back(v: Values, moves: seq<Move>, c: nat)
    requires c < |moves|
    decreases c
  {
    && Square(v)
    && (c > 0 ==> Fits(v, moves[c], false) && Back(ApplyNums(v, moves[c], false), moves, c - 1))
  }

  /** From values v at node c, the moves up to the tail can be redone one
      after the other. */
  ghost predicate Fwd(v: Values, moves: seq<Move>, c: nat)
    requires c < |moves|
    decreases |moves| - c
  {
    && Square(v)
    && (c + 1 < |moves| ==> Fits(v, moves[c + 1], true) && Fwd(ApplyNums(v, moves[c + 1], true), moves, c + 1))
  }

  ghost predicate Coherent(v: Values, h: History)
  {
    ValidHistory(h) && Back(v, h.moves, h.cursor) && Fwd(v, h.moves, h.cursor)
  }

  /** The committed values at the sentinel, reached from values v at node c
      by undoing every move from c down to 1 in turn. */
  ghost function Rewound(v: Values, moves: seq<Move>, c: nat): (r: Values)
    requires c < |moves| && Back(v, moves, c)
    ensures Square(r) && |r| == |v|
    decreases c
  {
    if c == 0 then v else Rewound(ApplyNums(v, moves[c], false), moves, c - 1)
  }

  /** Walking back only looks at the moves up to the current node. */
  lemma {:induction false} BackPrefix(v: Values, moves: seq<Move>, moves': seq<Move>, c: nat)
    requires c < |moves| && c < |moves'| && moves[..c + 1] == moves'[..c + 1]
    requires Back(v, moves, c)
    ensures Back(v, moves', c)
    decreases c
  {
    if c > 0 {
      assert moves[c] == moves[..c + 1][c] == moves'[..c + 1][c] == moves'[c];
      assert moves[..c] == moves'[..c] by {
        assert moves[..c] == moves[..c + 1][..c];
        assert moves'[..c] == moves'[..c + 1][..c];
      }
      BackPrefix(ApplyNums(v, moves[c], false), moves, moves', c - 1);
    }
  }

  /** undo on a coherent history: the current move fits the values
      backwards, and the values it leads to are coherent with the history
      one node back. */
  lemma CoherentStepBack(v: Values, h: History)
    requires Coherent(v, h) && CanUndo(h)
    ensures Fits(v, h.moves[h.cursor], false)
    ensures Coherent(ApplyNums(v, h.moves[h.cursor], false), StepBack(h))
  {
    var mv := h.moves[h.cursor];
    var v' := ApplyNums(v, mv, false);
    ApplyNumsRoundTrip(v, mv, false);
    assert Fwd(v', h.moves, h.cursor - 1);
  }

  /** redo on a coherent history. */
  lemma CoherentStepForward(v: Values, h: History)
    requires Coherent(v, h) && CanRedo(h)
    ensures Fits(v, h.moves[h.cursor + 1], true)
    ensures Coherent(ApplyNums(v, h.moves[h.cursor + 1], true), StepForward(h))
  {
    var mv := h.moves[h.cursor + 1];
    var v' := ApplyNums(v, mv, true);
    ApplyNumsRoundTrip(v, mv, true);
    assert Back(v', h.moves, h.cursor + 1);
  }

  /** Recording a move that fits the values forward, after dropping the
      forward part of the history, keeps the history coherent with the
      values the move leads to. */
  lemma CoherentRecord(v: Values, h: History, mv: Move)
    requires Coherent(v, h) && mv != [] && Fits(v, mv, true)
    ensures Coherent(ApplyNums(v, mv, true), Record(h, mv))
  {
    var h' := Record(h, mv);
    var v' := ApplyNums(v, mv, true);
    ApplyNumsRoundTrip(v, mv, true);
    assert h'.moves[..h.cursor + 1] == h.moves[..h.cursor + 1] by {
      assert h'.moves[..h.cursor + 1] == h'.moves[..h'.cursor];
    }
    BackPrefix(v, h.moves, h'.moves, h.cursor);
    assert Back(v', h'.moves, h'.cursor);
  }

  /** A history holding only the sentinel is coherent with any board. */
  lemma CoherentSentinel(v: Values, h: History)
    requires Square(v) && ValidHistory(h) && |h.moves| == 1
    ensures Coherent(v, h)
  {
  }
}
