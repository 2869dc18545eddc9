/** The selection loop shared by Find_Best_Move and Find_Best_Move_Optimize,
    for any way of scoring a move: try every valid move in row-major order and
    keep the first one with the highest score. */
module Selection {
  import opened Grid

  /** The selection's running best move: none yet, or the cell (row, col). */
  datatype MaybeMove = None | Some(row: int, col: int)

  /** The selection loop from (row, col) on, with the running best score and
      move: each valid move is scored by `score`, and replaces the running best
      only when its score is strictly greater. */
  function SelectFrom(b: Board, score: (int, int) -> int, row: int, col: int,
                      bestScore: int, bestMove: MaybeMove): (m: MaybeMove)
    requires 0 <= row <= 3 && 0 <= col <= 3
    decreases 3 - row, 3 - col
  {
    if row == 3 then bestMove
    else if col == 3 then SelectFrom(b, score, row + 1, 0, bestScore, bestMove)
    else if IsMoveValid(b, row, col) && score(row, col) > bestScore then
      SelectFrom(b, score, row, col + 1, score(row, col), Some(row, col))
    else SelectFrom(b, score, row, col + 1, bestScore, bestMove)
  }

  /** One iteration of the selection loop at (row, col): the next cell in
      row-major order, and the running best score and move after (row, col). */
  function Step(b: Board, score: (int, int) -> int, row: int, col: int,
                bestScore: int, bestMove: MaybeMove): (next: (int, int, int, MaybeMove))
    requires 0 <= row < 3 && 0 <= col <= 3
  {
    var better := col < 3 && IsMoveValid(b, row, col) && score(row, col) > bestScore;
    (if col == 3 then row + 1 else row,
     if col == 3 then 0 else col + 1,
     if better then score(row, col) else bestScore,
     if better then Some(row, col) else bestMove)
  }

  /** The selection loop from (row, col) is the loop from the next cell, after
      one iteration. */
  lemma SelectFromStep(b: Board, score: (int, int) -> int, row: int, col: int,
                       bestScore: int, bestMove: MaybeMove)
    requires 0 <= row < 3 && 0 <= col <= 3
    ensures var (nextRow, nextCol, bs, bm) := Step(b, score, row, col, bestScore, bestMove);
            SelectFrom(b, score, row, col, bestScore, bestMove) == SelectFrom(b, score, nextRow, nextCol, bs, bm)
  {
  }

  /** `m` is a move, and a valid one. */
  predicate IsValidMove(b: Board, m: MaybeMove) {
    m.Some? && InRange(m.row, m.col) && IsMoveValid(b, m.row, m.col)
  }

  /** The running best move, if any, is a valid move scoring the running best
      score. */
  predicate RunningBest(b: Board, score: (int, int) -> int, bestScore: int, bestMove: MaybeMove) {
    bestMove.Some? ==> IsValidMove(b, bestMove) && score(bestMove.row, bestMove.col) == bestScore
  }

  /** The state the selection loop keeps: a running best move as above, and,
      while there is none, a running best score below every valid move's. */
  ghost predicate SelectionState(b: Board, score: (int, int) -> int, bestScore: int, bestMove: MaybeMove) {
    && (bestMove.None? ==> forall r, c :: InRange(r, c) && IsMoveValid(b, r, c) ==> score(r, c) > bestScore)
    && RunningBest(b, score, bestScore, bestMove)
  }

  /** The selection loop from (row, col) returns None only when it started
      with none and meets no valid move. */
  lemma {:induction false} SelectFromNone(b: Board, score: (int, int) -> int, row: int, col: int,
                                          bestScore: int, bestMove: MaybeMove)
    requires 0 <= row <= 3 && 0 <= col <= 3
    requires SelectionState(b, score, bestScore, bestMove)
    ensures SelectFrom(b, score, row, col, bestScore, bestMove).None? ==>
              bestMove.None? && !HasBlankFrom(b, 3 * row + col)
    decreases 3 - row, 3 - col
  {
    if row < 3 {
      var (nextRow, nextCol, bs, bm) := Step(b, score, row, col, bestScore, bestMove);
      SelectFromStep(b, score, row, col, bestScore, bestMove);
      SelectFromNone(b, score, nextRow, nextCol, bs, bm);
    }
  }

  /** A running best move is kept or replaced, never dropped. */
  lemma {:induction false} SelectFromKeeps(b: Board, score: (int, int) -> int, row: int, col: int,
                                           bestScore: int, bestMove: MaybeMove)
    requires 0 <= row <= 3 && 0 <= col <= 3
    ensures bestMove.Some? ==> SelectFrom(b, score, row, col, bestScore, bestMove).Some?
    decreases 3 - row, 3 - col
  {
    if row < 3 {
      var (nextRow, nextCol, bs, bm) := Step(b, score, row, col, bestScore, bestMove);
      SelectFromStep(b, score, row, col, bestScore, bestMove);
      SelectFromKeeps(b, score, nextRow, nextCol, bs, bm);
    }
  }

  /** The returned move is valid and scores at least the running best. */
  lemma {:induction false} SelectFromSome(b: Board, score: (int, int) -> int, row: int, col: int,
                                          bestScore: int, bestMove: MaybeMove)
    requires 0 <= row <= 3 && 0 <= col <= 3
    requires RunningBest(b, score, bestScore, bestMove)
    ensures var m := SelectFrom(b, score, row, col, bestScore, bestMove);
            m.Some? ==> IsValidMove(b, m) && score(m.row, m.col) >= bestScore
    decreases 3 - row, 3 - col
  {
    if row < 3 {
      var (nextRow, nextCol, bs, bm) := Step(b, score, row, col, bestScore, bestMove);
      SelectFromStep(b, score, row, col, bestScore, bestMove);
      SelectFromSome(b, score, nextRow, nextCol, bs, bm);
    }
  }

  /** A move other than the running best is returned only if it lies at or
      after (row, col) and beats the running best strictly. */
  lemma {:induction false} SelectFromOvertakes(b: Board, score: (int, int) -> int, row: int, col: int,
                                               bestScore: int, bestMove: MaybeMove)
    requires 0 <= row <= 3 && 0 <= col <= 3
    ensures var m := SelectFrom(b, score, row, col, bestScore, bestMove);
            m.Some? && m != bestMove ==>
              3 * row + col <= 3 * m.row + m.col && score(m.row, m.col) > bestScore
    decreases 3 - row, 3 - col
  {
    if row < 3 {
      var (nextRow, nextCol, bs, bm) := Step(b, score, row, col, bestScore, bestMove);
      SelectFromStep(b, score, row, col, bestScore, bestMove);
      SelectFromOvertakes(b, score, nextRow, nextCol, bs, bm);
    }
  }

  /** The valid move (r, c), at or after (row, col), scores no more than the
      returned move. */
  lemma {:induction false} SelectFromBeats(b: Board, score: (int, int) -> int, row: int, col: int,
                                           bestScore: int, bestMove: MaybeMove, r: int, c: int)
    requires 0 <= row <= 3 && 0 <= col <= 3
    requires SelectionState(b, score, bestScore, bestMove)
    requires InRange(r, c) && 3 * row + col <= 3 * r + c && IsMoveValid(b, r, c)
    ensures var m := SelectFrom(b, score, row, col, bestScore, bestMove);
            m.Some? && score(r, c) <= score(m.row, m.col)
    decreases 3 - row, 3 - col
  {
    var (nextRow, nextCol, bs, bm) := Step(b, score, row, col, bestScore, bestMove);
    SelectFromStep(b, score, row, col, bestScore, bestMove);
    if (r, c) == (row, col) {
      SelectFromKeeps(b, score, nextRow, nextCol, bs, bm);
      SelectFromSome(b, score, nextRow, nextCol, bs, bm);
    } else {
      SelectFromBeats(b, score, nextRow, nextCol, bs, bm, r, c);
    }
  }

  /** The valid move (r, c), at or after (row, col) and before the returned
    move, scores strictly less than it. */
  lemma {:induction false} SelectFromFirst(b: Board, score: (int, int) -> int, row: int, col: int,
                                           bestScore: int, bestMove: MaybeMove, r: int, c: int)
    requires 0 <= row <= 3 && 0 <= col <= 3
    requires SelectionState(b, score, bestScore, bestMove)
    requires bestMove.Some? ==> 3 * bestMove.row + bestMove.col < 3 * row + col
    requires InRange(r, c) && 3 * row + col <= 3 * r + c && IsMoveValid(b, r, c)
    ensures var m := SelectFrom(b, score, row, col, bestScore, bestMove);
            m.Some? && (3 * r + c < 3 * m.row + m.col ==> score(r, c) < score(m.row, m.col))
    decreases 3 - row, 3 - col
  {
    var (nextRow, nextCol, bs, bm) := Step(b, score, row, col, bestScore, bestMove);
    SelectFromStep(b, score, row, col, bestScore, bestMove);
    if (r, c) == (row, col) {
      SelectFromKeeps(b, score, nextRow, nextCol, bs, bm);
      SelectFromSome(b, score, nextRow, nextCol, bs, bm);
      SelectFromOvertakes(b, score, nextRow, nextCol, bs, bm);
    } else {
      SelectFromFirst(b, score, nextRow, nextCol, bs, bm, r, c);
    }
  }
}
