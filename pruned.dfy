/** Alpha-beta minimax (Minimax_Optimize).  AlphaBetaValue is the
    specification, with the program's cut-off exactly as written: `break`
    leaves only the loop over the columns, so after a cut-off the search goes
    on with the next row.  The method MinimaxOptimize runs the loops over an
    array. */
module Pruned {
  import opened Grid
  import opened Rules
  import opened Search

  /** The value of a board under the window (alpha, beta): the base cases of
      plain minimax, then the pruned fold. */
  function AlphaBetaValue(b: Board, maximizing: bool, alpha: int, beta: int): (v: int)
    ensures IsScore(v)
    decreases CountBlank(b), 1, 0, 0
  {
    if IsWinner(b, X) then -1
    else if IsWinner(b, O) then 1
    else if IsGameOver(b) then 0
    else if maximizing then MaxScanAB(b, 0, 0, NegInf, alpha, beta)
    else MinScanAB(b, 0, 0, PosInf, alpha, beta)
  }

  /** The maximising loop: after each blank, alpha is raised to the best
      value so far, and once beta <= alpha the rest of the row is skipped. */
  function MaxScanAB(b: Board, row: int, col: int, best: int, alpha: int, beta: int): (r: int)
    requires 0 <= row <= 3 && 0 <= col <= 3
    requires best == NegInf || IsScore(best)
    ensures best <= r
    ensures IsScore(best) || HasBlankFrom(b, 3 * row + col) ==> IsScore(r)
    decreases CountBlank(b), 0, 3 - row, 3 - col
  {
    if row == 3 then best
    else if col == 3 then MaxScanAB(b, row + 1, 0, best, alpha, beta)
    else if IsMoveValid(b, row, col) then
      PlaceLowersBlanks(b, row, col, O);
      var score := AlphaBetaValue(Place(b, row, col, O), false, alpha, beta);
      var best' := Max(score, best);
      var alpha' := Max(alpha, best');
      if beta <= alpha' then MaxScanAB(b, row + 1, 0, best', alpha', beta)
      else MaxScanAB(b, row, col + 1, best', alpha', beta)
    else MaxScanAB(b, row, col + 1, best, alpha, beta)
  }

  /** The minimising loop: beta is lowered to the best value so far. */
  function MinScanAB(b: Board, row: int, col: int, best: int, alpha: int, beta: int): (r: int)
    requires 0 <= row <= 3 && 0 <= col <= 3
    requires best == PosInf || IsScore(best)
    ensures r <= best
    ensures IsScore(best) || HasBlankFrom(b, 3 * row + col) ==> IsScore(r)
    decreases CountBlank(b), 0, 3 - row, 3 - col
  {
    if row == 3 then best
    else if col == 3 then MinScanAB(b, row + 1, 0, best, alpha, beta)
    else if IsMoveValid(b, row, col) then
      PlaceLowersBlanks(b, row, col, X);
      var score := AlphaBetaValue(Place(b, row, col, X), true, alpha, beta);
      var best' := Min(score, best);
      var beta' := Min(beta, best');
      if beta' <= alpha then MinScanAB(b, row + 1, 0, best', alpha, beta')
      else MinScanAB(b, row, col + 1, best', alpha, beta')
    else MinScanAB(b, row, col + 1, best, alpha, beta)
  }

  /** What a search under the window (alpha, beta) promises about the true
      value v when it returns r: a result at or below alpha bounds v from
      above, one at or above beta bounds it from below, and one strictly inside
      the window is exact. */
  predicate WindowSound(alpha: int, beta: int, r: int, v: int) {
    && (r <= alpha ==> v <= alpha)
    && (r >= beta ==> v >= beta)
    && (alpha < r < beta ==> r == v)
  }

  /** The terminal values are those of plain minimax, whatever the window. */
  lemma TerminalValuesAgree(b: Board, maximizing: bool, alpha: int, beta: int)
    requires IsGameOver(b)
    ensures AlphaBetaValue(b, maximizing, alpha, beta) == MinimaxValue(b, maximizing)
  {
  }

  /** Alpha-beta is sound for every window with alpha < beta inside the
      sentinels. */
  lemma {:induction false} AlphaBetaSound(b: Board, maximizing: bool, alpha: int, beta: int)
    requires NegInf <= alpha < beta <= PosInf
    ensures WindowSound(alpha, beta, AlphaBetaValue(b, maximizing, alpha, beta), MinimaxValue(b, maximizing))
    decreases CountBlank(b), 1, 0, 0, 0
  {
    if IsGameOver(b) {
    } else if maximizing {
      MaxScanSound(b, 0, 0, NegInf, alpha, alpha, beta, NegInf);
    } else {
      MinScanSound(b, 0, 0, PosInf, alpha, beta, beta, PosInf);
    }
  }

  /** The pruned maximising fold against the plain one, before any cut-off:
      `alpha0` is the window's lower end on entry, `alpha` the raised one, and
      `acc` the plain fold over the same cells so far. */
  lemma {:induction false} MaxScanSound(b: Board, row: int, col: int, best: int,
                                        alpha0: int, alpha: int, beta: int, acc: int)
    requires 0 <= row <= 3 && 0 <= col <= 3
    requires best == NegInf || IsScore(best)
    requires acc == NegInf || IsScore(acc)
    requires NegInf <= alpha0 < beta <= PosInf
    requires best < beta && alpha == Max(alpha0, best)
    requires best <= alpha0 ==> acc <= alpha0
    requires best > alpha0 ==> acc == best
    ensures WindowSound(alpha0, beta, MaxScanAB(b, row, col, best, alpha, beta), MaxScan(b, row, col, acc))
    decreases CountBlank(b), 0, 3 - row, 3 - col, 1
  {
    if row == 3 {
    } else if col == 3 {
      MaxScanSound(b, row + 1, 0, best, alpha0, alpha, beta, acc);
    } else if IsMoveValid(b, row, col) {
      MaxScanSoundAt(b, row, col, best, alpha0, alpha, beta, acc);
    } else {
      MaxScanSound(b, row, col + 1, best, alpha0, alpha, beta, acc);
    }
  }

  /** The step of MaxScanSound at a blank: the child's soundness under the
      raised window carries the invariant to the next cell, or, at a cut-off,
      bounds both folds from below by beta. */
  lemma {:induction false} MaxScanSoundAt(b: Board, row: int, col: int, best: int,
                                          alpha0: int, alpha: int, beta: int, acc: int)
    requires InRange(row, col) && IsMoveValid(b, row, col)
    requires best == NegInf || IsScore(best)
    requires acc == NegInf || IsScore(acc)
    requires NegInf <= alpha0 < beta <= PosInf
    requires best < beta && alpha == Max(alpha0, best)
    requires best <= alpha0 ==> acc <= alpha0
    requires best > alpha0 ==> acc == best
    ensures WindowSound(alpha0, beta, MaxScanAB(b, row, col, best, alpha, beta), MaxScan(b, row, col, acc))
    decreases CountBlank(b), 0, 3 - row, 3 - col, 0
  {
    var child := Place(b, row, col, O);
    PlaceLowersBlanks(b, row, col, O);
    AlphaBetaSound(child, false, alpha, beta);
    var score := AlphaBetaValue(child, false, alpha, beta);
    var value := MinimaxValue(child, false);
    var best' := Max(score, best);
    var alpha' := Max(alpha, best');
    if beta > alpha' {
      MaxScanSound(b, row, col + 1, best', alpha0, alpha', beta, Max(value, acc));
    }
  }

  /** The pruned minimising fold against the plain one, before any cut-off. */
  lemma {:induction false} MinScanSound(b: Board, row: int, col: int, best: int,
                                        alpha: int, beta0: int, beta: int, acc: int)
    requires 0 <= row <= 3 && 0 <= col <= 3
    requires best == PosInf || IsScore(best)
    requires acc == PosInf || IsScore(acc)
    requires NegInf <= alpha < beta0 <= PosInf
    requires alpha < best && beta == Min(beta0, best)
    requires best >= beta0 ==> acc >= beta0
    requires best < beta0 ==> acc == best
    ensures WindowSound(alpha, beta0, MinScanAB(b, row, col, best, alpha, beta), MinScan(b, row, col, acc))
    decreases CountBlank(b), 0, 3 - row, 3 - col, 1
  {
    if row == 3 {
    } else if col == 3 {
      MinScanSound(b, row + 1, 0, best, alpha, beta0, beta, acc);
    } else if IsMoveValid(b, row, col) {
      MinScanSoundAt(b, row, col, best, alpha, beta0, beta, acc);
    } else {
      MinScanSound(b, row, col + 1, best, alpha, beta0, beta, acc);
    }
  }

  /** The step of MinScanSound at a blank. */
  lemma {:induction false} MinScanSoundAt(b: Board, row: int, col: int, best: int,
                                          alpha: int, beta0: int, beta: int, acc: int)
    requires InRange(row, col) && IsMoveValid(b, row, col)
    requires best == PosInf || IsScore(best)
    requires acc == PosInf || IsScore(acc)
    requires NegInf <= alpha < beta0 <= PosInf
    requires alpha < best && beta == Min(beta0, best)
    requires best >= beta0 ==> acc >= beta0
    requires best < beta0 ==> acc == best
    ensures WindowSound(alpha, beta0, MinScanAB(b, row, col, best, alpha, beta), MinScan(b, row, col, acc))
    decreases CountBlank(b), 0, 3 - row, 3 - col, 0
  {
    var child := Place(b, row, col, X);
    PlaceLowersBlanks(b, row, col, X);
    AlphaBetaSound(child, true, alpha, beta);
    var score := AlphaBetaValue(child, true, alpha, beta);
    var value := MinimaxValue(child, true);
    var best' := Min(score, best);
    var beta' := Min(beta, best');
    if beta' > alpha {
      MinScanSound(b, row, col + 1, best', alpha, beta0, beta', Min(value, acc));
    }
  }

  /** With the full window (-inf, +inf) the pruned search returns exactly the
      plain minimax value. */
  lemma FullWindowAgrees(b: Board, maximizing: bool)
    ensures AlphaBetaValue(b, maximizing, NegInf, PosInf) == MinimaxValue(b, maximizing)
  {
    AlphaBetaSound(b, maximizing, NegInf, PosInf);
  }

  /** The board _ X X / _ O O / O X X, O to move. */
  const RowRestart: Board := [Blank, X, X, Blank, O, O, O, X, X]

  /** RowRestart has no line for either player and two blanks. */
  lemma RowRestartOpen()
    ensures !IsGameOver(RowRestart)
  {
    assert !RowFilled(RowRestart, 1, O) && !ColFilled(RowRestart, 0, O);
    assert !RowFilled(RowRestart, 0, X) && !RowFilled(RowRestart, 2, X);
    assert !ColFilled(RowRestart, 1, X) && !ColFilled(RowRestart, 2, X);
    assert RowRestart[0] == Blank;
  }

  /** On RowRestart, O's move at (0, 0) leaves X one blank, at (1, 0), which
      fills the board with no line: the move scores 0, which is already beta
      under the window (-inf, 0). */
  lemma RowRestartFirstScores()
    ensures AlphaBetaValue(Place(RowRestart, 0, 0, O), false, NegInf, 0) == 0
  {
    var first := Place(RowRestart, 0, 0, O);
    var last := Place(first, 1, 0, X);
    assert !RowFilled(first, 1, O) && !ColFilled(first, 0, O);
    assert !RowFilled(first, 0, X) && !RowFilled(first, 2, X);
    assert !ColFilled(first, 1, X) && !ColFilled(first, 2, X);
    assert first[3] == Blank;
    assert !RowFilled(last, 0, X) && !RowFilled(last, 1, X) && !RowFilled(last, 2, X);
    assert !ColFilled(last, 0, X) && !ColFilled(last, 1, X) && !ColFilled(last, 2, X);
    assert !RowFilled(last, 0, O) && !RowFilled(last, 1, O) && !RowFilled(last, 2, O);
    assert !ColFilled(last, 0, O) && !ColFilled(last, 1, O) && !ColFilled(last, 2, O);
    assert AlphaBetaValue(last, true, NegInf, 0) == 0;
    assert MinScanAB(first, 0, 2, PosInf, NegInf, 0) == MinScanAB(first, 1, 0, PosInf, NegInf, 0);
    assert MinScanAB(first, 0, 0, PosInf, NegInf, 0) == MinScanAB(first, 0, 2, PosInf, NegInf, 0);
    assert MinScanAB(first, 1, 0, PosInf, NegInf, 0) == MinScanAB(first, 1, 1, 0, NegInf, 0);
    assert MinScanAB(first, 2, 3, 0, NegInf, 0) == 0;
    assert MinScanAB(first, 2, 1, 0, NegInf, 0) == 0;
    assert MinScanAB(first, 2, 0, 0, NegInf, 0) == 0;
    assert MinScanAB(first, 1, 2, 0, NegInf, 0) == 0;
    assert MinScanAB(first, 1, 1, 0, NegInf, 0) == 0;
  }

  /** On RowRestart, O's move at (1, 0) completes row 1 and scores 1. */
  lemma RowRestartSecondScores()
    ensures AlphaBetaValue(Place(RowRestart, 1, 0, O), false, 0, 0) == 1
  {
    var won := Place(RowRestart, 1, 0, O);
    assert RowFilled(won, 1, O);
    assert !RowFilled(won, 0, X) && !RowFilled(won, 1, X) && !RowFilled(won, 2, X);
    assert !ColFilled(won, 0, X) && !ColFilled(won, 1, X) && !ColFilled(won, 2, X);
  }

  /** After the cut-off at (0, 0) the search goes on with row 1, where O's
      move at (1, 0) completes a row, so the result is 1 and not the 0 found
      before the cut-off.  Both are at or above beta, which is all WindowSound
      asks. */
  lemma RowRestartScenario()
    ensures AlphaBetaValue(RowRestart, true, NegInf, 0) == 1
  {
    RowRestartFirstScores();
    RowRestartSecondScores();
    RowRestartOpen();
    assert MaxScanAB(RowRestart, 0, 0, NegInf, NegInf, 0) == MaxScanAB(RowRestart, 1, 0, 0, 0, 0);
    assert MaxScanAB(RowRestart, 1, 0, 0, 0, 0) == MaxScanAB(RowRestart, 2, 0, 1, 1, 0);
    assert MaxScanAB(RowRestart, 2, 2, 1, 1, 0) == 1;
    assert MaxScanAB(RowRestart, 2, 0, 1, 1, 0) == 1;
  }

  /** Minimax_Optimize: the recursive alpha-beta search over an array. */
  method MinimaxOptimize(board: array<Cell>, depth: int, maximizing: bool, alpha: int, beta: int)
    returns (score: int)
    requires IsGrid(board)
    modifies board
    ensures Cells(board) == old(Cells(board))
    ensures score == AlphaBetaValue(old(Cells(board)), maximizing, alpha, beta)
    decreases CountBlank(Cells(board))
  {
    ghost var b0 := Cells(board);
    if IsWinner(Cells(board), X) {
      return -1;
    }
    if IsWinner(Cells(board), O) {
      return 1;
    }
    if IsGameOver(Cells(board)) {
      return 0;
    }
    // The program rebinds its parameters alpha and beta; here they are
    // copied into locals of the same names.
    ghost var alpha0, beta0 := alpha, beta;
    var alpha, beta := alpha, beta;
    if maximizing {
      var best := NegInf;
      for row := 0 to 3
        invariant Cells(board) == b0
        invariant best == NegInf || IsScore(best)
        invariant MaxScanAB(b0, row, 0, best, alpha, beta) == AlphaBetaValue(b0, true, alpha0, beta0)
      {
        for col := 0 to 3
          invariant Cells(board) == b0
          invariant best == NegInf || IsScore(best)
          invariant MaxScanAB(b0, row, col, best, alpha, beta) == AlphaBetaValue(b0, true, alpha0, beta0)
        {
          if IsMoveValid(Cells(board), row, col) {
            board[3 * row + col] := O;
            PlaceLowersBlanks(b0, row, col, O);
            var s := MinimaxOptimize(board, depth + 1, false, alpha, beta);
            board[3 * row + col] := Blank;
            UndoPlace(b0, row, col, O);
            best := Max(s, best);
            alpha := Max(alpha, best);
            if beta <= alpha {
              break;
            }
          }
        }
      }
      return best;
    } else {
      var best := PosInf;
      for row := 0 to 3
        invariant Cells(board) == b0
        invariant best == PosInf || IsScore(best)
        invariant MinScanAB(b0, row, 0, best, alpha, beta) == AlphaBetaValue(b0, false, alpha0, beta0)
      {
        for col := 0 to 3
          invariant Cells(board) == b0
          invariant best == PosInf || IsScore(best)
          invariant MinScanAB(b0, row, col, best, alpha, beta) == AlphaBetaValue(b0, false, alpha0, beta0)
        {
          if IsMoveValid(Cells(board), row, col) {
            board[3 * row + col] := X;
            PlaceLowersBlanks(b0, row, col, X);
            var s := MinimaxOptimize(board, depth + 1, true, alpha, beta);
            board[3 * row + col] := Blank;
            UndoPlace(b0, row, col, X);
            best := Min(s, best);
            beta := Min(beta, best);
            if beta <= alpha {
              break;
            }
          }
        }
      }
      return best;
    }
  }
}
