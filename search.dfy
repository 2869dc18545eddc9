/** Plain minimax (Minimax): a full-depth search in which O maximises and X
    minimises.  MinimaxValue is the specification; the method Minimax runs
    the program's nested loops over an array, placing and undoing marks. */
module Search {
  import opened Grid
  import opened Rules

  /** The program starts its folds from -inf and +inf; any integer outside
      the score range stands for them, since they are only compared with
      scores. */
  const NegInf := -2
  const PosInf := 2

  /** -1: X wins, 0: draw, +1: O wins. */
  predicate IsScore(s: int) {
    -1 <= s <= 1
  }

  function Max(a: int, b: int): (m: int) {
    if a >= b then a else b
  }

  function Min(a: int, b: int): (m: int) {
    if a <= b then a else b
  }

  /** The mark the mover places: O when maximising, X otherwise. */
  function Mark(maximizing: bool): (p: Cell) {
    if maximizing then O else X
  }

  /** The value of a board with `maximizing` telling whose turn it is.  The
      base cases come in the program's order: X's line, O's line, a finished
      (hence full) board.  Otherwise the cells are folded in row-major order. */
  function MinimaxValue(b: Board, maximizing: bool): (v: int)
    ensures IsScore(v)
    decreases CountBlank(b), 1, 0, 0
  {
    if IsWinner(b, X) then -1
    else if IsWinner(b, O) then 1
    else if IsGameOver(b) then 0
    else if maximizing then MaxScan(b, 0, 0, NegInf)
    else MinScan(b, 0, 0, PosInf)
  }

  /** The maximising loop from (row, col) on with running best `best`:
      each blank gets an O, is valued with X to move, and is folded by max. */
  function MaxScan(b: Board, row: int, col: int, best: int): (r: int)
    requires 0 <= row <= 3 && 0 <= col <= 3
    requires best == NegInf || IsScore(best)
    ensures best <= r
    ensures IsScore(best) || HasBlankFrom(b, 3 * row + col) ==> IsScore(r)
    decreases CountBlank(b), 0, 3 - row, 3 - col
  {
    if row == 3 then best
    else if col == 3 then MaxScan(b, row + 1, 0, best)
    else if IsMoveValid(b, row, col) then
      PlaceLowersBlanks(b, row, col, O);
      MaxScan(b, row, col + 1, Max(MinimaxValue(Place(b, row, col, O), false), best))
    else MaxScan(b, row, col + 1, best)
  }

  /** The minimising loop: each blank gets an X, is valued with O to move,
      and is folded by min. */
  function MinScan(b: Board, row: int, col: int, best: int): (r: int)
    requires 0 <= row <= 3 && 0 <= col <= 3
    requires best == PosInf || IsScore(best)
    ensures r <= best
    ensures IsScore(best) || HasBlankFrom(b, 3 * row + col) ==> IsScore(r)
    decreases CountBlank(b), 0, 3 - row, 3 - col
  {
    if row == 3 then best
    else if col == 3 then MinScan(b, row + 1, 0, best)
    else if IsMoveValid(b, row, col) then
      PlaceLowersBlanks(b, row, col, X);
      MinScan(b, row, col + 1, Min(MinimaxValue(Place(b, row, col, X), true), best))
    else MinScan(b, row, col + 1, best)
  }

  /** The value of the board after the mover plays (row, col). */
  function Reply(b: Board, row: int, col: int, maximizing: bool): (v: int)
    requires InRange(row, col) && IsMoveValid(b, row, col)
  {
    MinimaxValue(Place(b, row, col, Mark(maximizing)), !maximizing)
  }

  /** The terminal values, in the program's order of checks. */
  lemma TerminalValues(b: Board, maximizing: bool)
    ensures IsWinner(b, X) ==> MinimaxValue(b, maximizing) == -1
    ensures !IsWinner(b, X) && IsWinner(b, O) ==> MinimaxValue(b, maximizing) == 1
    ensures !IsWinner(b, X) && !IsWinner(b, O) && IsGameOver(b) ==>
              IsFull(b) && MinimaxValue(b, maximizing) == 0
  {
  }

  /** The maximising fold from (row, col) is the largest of `best` and the
      replies at the blanks from there on. */
  lemma {:induction false} MaxScanIsMax(b: Board, row: int, col: int, best: int)
    requires 0 <= row <= 3 && 0 <= col <= 3
    requires best == NegInf || IsScore(best)
    ensures forall r, c :: InRange(r, c) && 3 * row + col <= 3 * r + c && IsMoveValid(b, r, c) ==>
              Reply(b, r, c, true) <= MaxScan(b, row, col, best)
    ensures MaxScan(b, row, col, best) == best ||
            exists r, c :: InRange(r, c) && 3 * row + col <= 3 * r + c && IsMoveValid(b, r, c) &&
              Reply(b, r, c, true) == MaxScan(b, row, col, best)
    decreases 3 - row, 3 - col
  {
    if row == 3 {
    } else if col == 3 {
      MaxScanIsMax(b, row + 1, 0, best);
    } else if IsMoveValid(b, row, col) {
      MaxScanIsMax(b, row, col + 1, Max(Reply(b, row, col, true), best));
    } else {
      MaxScanIsMax(b, row, col + 1, best);
    }
  }

  lemma {:induction false} MinScanIsMin(b: Board, row: int, col: int, best: int)
    requires 0 <= row <= 3 && 0 <= col <= 3
    requires best == PosInf || IsScore(best)
    ensures forall r, c :: InRange(r, c) && 3 * row + col <= 3 * r + c && IsMoveValid(b, r, c) ==>
              MinScan(b, row, col, best) <= Reply(b, r, c, false)
    ensures MinScan(b, row, col, best) == best ||
            exists r, c :: InRange(r, c) && 3 * row + col <= 3 * r + c && IsMoveValid(b, r, c) &&
              Reply(b, r, c, false) == MinScan(b, row, col, best)
    decreases 3 - row, 3 - col
  {
    if row == 3 {
    } else if col == 3 {
      MinScanIsMin(b, row + 1, 0, best);
    } else if IsMoveValid(b, row, col) {
      MinScanIsMin(b, row, col + 1, Min(Reply(b, row, col, false), best));
    } else {
      MinScanIsMin(b, row, col + 1, best);
    }
  }

  /** On a board that is not over, the value is the maximum (O to move) or
      the minimum (X to move) of the values after each of the mover's moves. */
  lemma BestReply(b: Board, maximizing: bool)
    requires !IsGameOver(b)
    ensures forall row, col :: InRange(row, col) && IsMoveValid(b, row, col) ==>
              if maximizing then Reply(b, row, col, true) <= MinimaxValue(b, true)
              else MinimaxValue(b, false) <= Reply(b, row, col, false)
    ensures exists row, col :: InRange(row, col) && IsMoveValid(b, row, col) &&
              Reply(b, row, col, maximizing) == MinimaxValue(b, maximizing)
  {
    if maximizing {
      MaxScanIsMax(b, 0, 0, NegInf);
    } else {
      MinScanIsMin(b, 0, 0, PosInf);
    }
  }

  /** Minimax: the program's recursive search over an array.  Each blank gets
      the mover's mark, is searched one level deeper, and is blanked again. */
  method Minimax(board: array<Cell>, depth: int, maximizing: bool) returns (score: int)
    requires IsGrid(board)
    modifies board
    ensures Cells(board) == old(Cells(board))
    ensures score == MinimaxValue(old(Cells(board)), maximizing)
    decreases CountBlank(Cells(board))
  {
    ghost var b0 := Cells(board);
    if IsWinner(Cells(board), X) {
      return -1;
    }
    if IsWinner(Cells(board), O) {
      return 1;
    }
    if IsGameOver(Cells(board)) {
      return 0;
    }
    if maximizing {
      var best := NegInf;
      for row := 0 to 3
        invariant Cells(board) == b0
        invariant best == NegInf || IsScore(best)
        invariant MaxScan(b0, row, 0, best) == MinimaxValue(b0, true)
      {
        for col := 0 to 3
          invariant Cells(board) == b0
          invariant best == NegInf || IsScore(best)
          invariant MaxScan(b0, row, col, best) == MinimaxValue(b0, true)
        {
          if IsMoveValid(Cells(board), row, col) {
            board[3 * row + col] := O;
            PlaceLowersBlanks(b0, row, col, O);
            var s := Minimax(board, depth + 1, false);
            board[3 * row + col] := Blank;
            UndoPlace(b0, row, col, O);
            best := Max(s, best);
          }
        }
      }
      return best;
    } else {
      var best := PosInf;
      for row := 0 to 3
        invariant Cells(board) == b0
        invariant best == PosInf || IsScore(best)
        invariant MinScan(b0, row, 0, best) == MinimaxValue(b0, false)
      {
        for col := 0 to 3
          invariant Cells(board) == b0
          invariant best == PosInf || IsScore(best)
          invariant MinScan(b0, row, col, best) == MinimaxValue(b0, false)
        {
          if IsMoveValid(Cells(board), row, col) {
            board[3 * row + col] := X;
            PlaceLowersBlanks(b0, row, col, X);
            var s := Minimax(board, depth + 1, true);
            board[3 * row + col] := Blank;
            UndoPlace(b0, row, col, X);
            best := Min(s, best);
          }
        }
      }
      return best;
    }
  }
}
