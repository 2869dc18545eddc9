/** Find_Best_Move and Find_Best_Move_Optimize: try O on every blank in
    row-major order, value the result with X to move, and keep the first cell
    with the highest value. */
module Selector {
  import opened Grid
  import opened Rules
  import opened Search
  import opened Pruned
  import opened Selection

  /** The value of O playing at (row, col), as both selectors score it; a
      cell that is not a valid move is never scored. */
  function MoveScore(b: Board, row: int, col: int): (s: int)
    ensures InRange(row, col) && IsMoveValid(b, row, col) ==> IsScore(s)
  {
    if InRange(row, col) && IsMoveValid(b, row, col) then MinimaxValue(Place(b, row, col, O), false)
    else NegInf
  }

  function Scorer(b: Board): (score: (int, int) -> int) {
    (row, col) => MoveScore(b, row, col)
  }

  /** The move both selectors return. */
  function BestMove(b: Board): (m: MaybeMove) {
    SelectFrom(b, Scorer(b), 0, 0, NegInf, None)
  }

  /** The chosen move: None exactly when the board is full; otherwise a blank
      whose score is maximal, and the first such blank in row-major order. */
  lemma BestMoveIsFirstMaximal(b: Board)
    ensures BestMove(b).None? <==> IsFull(b)
    ensures BestMove(b).Some? ==>
              var m := BestMove(b);
              && IsValidMove(b, m)
              && (forall r, c :: InRange(r, c) && IsMoveValid(b, r, c) ==>
                    MoveScore(b, r, c) <= MoveScore(b, m.row, m.col))
              && (forall r, c :: InRange(r, c) && IsMoveValid(b, r, c) && 3 * r + c < 3 * m.row + m.col ==>
                    MoveScore(b, r, c) < MoveScore(b, m.row, m.col))
  {
    SelectFromNone(b, Scorer(b), 0, 0, NegInf, None);
    SelectFromSome(b, Scorer(b), 0, 0, NegInf, None);
    if BestMove(b).None? {
      assert !HasBlankFrom(b, 0);
    } else {
      var m := BestMove(b);
      assert b[3 * m.row + m.col] == Blank;
      forall r, c | InRange(r, c) && IsMoveValid(b, r, c)
        ensures MoveScore(b, r, c) <= MoveScore(b, m.row, m.col)
        ensures 3 * r + c < 3 * m.row + m.col ==> MoveScore(b, r, c) < MoveScore(b, m.row, m.col)
      {
        SelectFromBeats(b, Scorer(b), 0, 0, NegInf, None, r, c);
        SelectFromFirst(b, Scorer(b), 0, 0, NegInf, None, r, c);
      }
    }
  }

  /** The board O O _ / X X _ / _ _ _ with O to move. */
  const TwoInARow: Board := [O, O, Blank, X, X, Blank, Blank, Blank, Blank]

  /** On TwoInARow, completing the top row scores a win for O. */
  lemma ImmediateWinScores()
    ensures MoveScore(TwoInARow, 0, 2) == 1
  {
    var won := Place(TwoInARow, 0, 2, O);
    assert RowFilled(won, 0, O);
    assert !RowFilled(won, 0, X) && !RowFilled(won, 1, X) && !RowFilled(won, 2, X);
    assert !ColFilled(won, 0, X) && !ColFilled(won, 1, X) && !ColFilled(won, 2, X);
  }

  /** On TwoInARow both selectors take the immediate win at (0, 2) rather
      than the block at (1, 2). */
  lemma ImmediateWinIsChosen()
    ensures BestMove(TwoInARow) == Some(0, 2)
  {
    ImmediateWinScores();
    BestMoveIsFirstMaximal(TwoInARow);
    var m := BestMove(TwoInARow);
    assert IsValidMove(TwoInARow, m);
    assert 3 * m.row + m.col == 2;
  }

  /** Find_Best_Move: the selection loop with plain minimax; the board is given
      back unchanged. */
  method FindBestMove(board: array<Cell>) returns (move: MaybeMove)
    requires IsGrid(board)
    modifies board
    ensures Cells(board) == old(Cells(board))
    ensures move == BestMove(old(Cells(board)))
  {
    ghost var b0 := Cells(board);
    var bestScore := NegInf;
    var bestMove := None;
    for row := 0 to 3
      invariant Cells(board) == b0
      invariant SelectFrom(b0, Scorer(b0), row, 0, bestScore, bestMove) == BestMove(b0)
    {
      for col := 0 to 3
        invariant Cells(board) == b0
        invariant SelectFrom(b0, Scorer(b0), row, col, bestScore, bestMove) == BestMove(b0)
      {
        if IsMoveValid(Cells(board), row, col) {
          board[3 * row + col] := O;
          var score := Minimax(board, 0, false);
          board[3 * row + col] := Blank;
          UndoPlace(b0, row, col, O);
          assert Scorer(b0)(row, col) == score;
          if score > bestScore {
            bestScore := score;
            bestMove := Some(row, col);
          }
        }
      }
    }
    return bestMove;
  }

  /** Find_Best_Move_Optimize: the same loop with alpha-beta search under the
      full window; it returns the same move as FindBestMove. */
  method FindBestMoveOptimize(board: array<Cell>) returns (move: MaybeMove)
    requires IsGrid(board)
    modifies board
    ensures Cells(board) == old(Cells(board))
    ensures move == BestMove(old(Cells(board)))
  {
    ghost var b0 := Cells(board);
    var bestScore := NegInf;
    var bestMove := None;
    for row := 0 to 3
      invariant Cells(board) == b0
      invariant SelectFrom(b0, Scorer(b0), row, 0, bestScore, bestMove) == BestMove(b0)
    {
      for col := 0 to 3
        invariant Cells(board) == b0
        invariant SelectFrom(b0, Scorer(b0), row, col, bestScore, bestMove) == BestMove(b0)
      {
        if IsMoveValid(Cells(board), row, col) {
          board[3 * row + col] := O;
          var score := MinimaxOptimize(board, 0, false, NegInf, PosInf);
          FullWindowAgrees(Place(b0, row, col, O), false);
          board[3 * row + col] := Blank;
          UndoPlace(b0, row, col, O);
          assert Scorer(b0)(row, col) == score;
          if score > bestScore {
            bestScore := score;
            bestMove := Some(row, col);
          }
        }
      }
    }
    return bestMove;
  }
}
