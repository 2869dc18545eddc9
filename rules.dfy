/** Terminal tests: Is_Winner and Is_Game_Over. */
module Rules {
  import opened Grid

  /** Row i is entirely p. */
  predicate RowFilled(b: Board, i: int, p: Cell)
    requires 0 <= i < 3
  {
    b[3 * i] == p && b[3 * i + 1] == p && b[3 * i + 2] == p
  }

  /** Column i is entirely p. */
  predicate ColFilled(b: Board, i: int, p: Cell)
    requires 0 <= i < 3
  {
    b[i] == p && b[3 + i] == p && b[6 + i] == p
  }

  /** Is_Winner: for each i, row i or column i is all p; otherwise one of the
      two diagonals is. */
  predicate IsWinner(b: Board, p: Cell) {
    (exists i :: 0 <= i < 3 && (RowFilled(b, i, p) || ColFilled(b, i, p)))
    || (b[0] == b[4] && b[4] == b[8] && b[8] == p)
    || (b[2] == b[4] && b[4] == b[6] && b[6] == p)
  }

  /** No cell is blank. */
  predicate IsFull(b: Board) {
    Blank !in b
  }

  /** Is_Game_Over: X has a line, or O has a line, or the board is full. */
  predicate IsGameOver(b: Board) {
    IsWinner(b, X) || IsWinner(b, O) || IsFull(b)
  }

  /** The eight winning lines, as triples of row-major cell indices. */
  const WinLines: seq<(int, int, int)> :=
    [(0, 1, 2), (3, 4, 5), (6, 7, 8),
     (0, 3, 6), (1, 4, 7), (2, 5, 8),
     (0, 4, 8), (2, 4, 6)]

  predicate OwnsLine(b: Board, l: int, p: Cell)
    requires 0 <= l < |WinLines|
  {
    b[WinLines[l].0] == p && b[WinLines[l].1] == p && b[WinLines[l].2] == p
  }

  /** Is_Winner agrees with the table of the eight lines, in both directions. */
  lemma WinnerIffOwnsLine(b: Board, p: Cell)
    ensures IsWinner(b, p) <==> exists l :: 0 <= l < |WinLines| && OwnsLine(b, l, p)
  {
    if IsWinner(b, p) {
      if exists i :: 0 <= i < 3 && (RowFilled(b, i, p) || ColFilled(b, i, p)) {
        var i :| 0 <= i < 3 && (RowFilled(b, i, p) || ColFilled(b, i, p));
        if RowFilled(b, i, p) {
          assert OwnsLine(b, i, p);
        } else {
          assert OwnsLine(b, 3 + i, p);
        }
      } else if b[0] == b[4] && b[4] == b[8] && b[8] == p {
        assert OwnsLine(b, 6, p);
      } else {
        assert OwnsLine(b, 7, p);
      }
    }
    if exists l :: 0 <= l < |WinLines| && OwnsLine(b, l, p) {
      var l :| 0 <= l < |WinLines| && OwnsLine(b, l, p);
      if l < 3 {
        assert RowFilled(b, l, p);
      } else if l < 6 {
        assert ColFilled(b, l - 3, p);
      }
    }
  }

  /** A board that is not over has a valid move. */
  lemma NotOverHasMove(b: Board)
    requires !IsGameOver(b)
    ensures exists row, col :: InRange(row, col) && IsMoveValid(b, row, col)
  {
    var k :| 0 <= k < 9 && b[k] == Blank;
    assert InRange(k / 3, k % 3) && IsMoveValid(b, k / 3, k % 3);
  }

  /** The board is full exactly when no cell is a valid move. */
  lemma FullIffNoMove(b: Board)
    ensures IsFull(b) <==> forall row, col :: InRange(row, col) ==> !IsMoveValid(b, row, col)
  {
    if !IsFull(b) {
      var k :| 0 <= k < 9 && b[k] == Blank;
      assert InRange(k / 3, k % 3) && IsMoveValid(b, k / 3, k % 3);
    }
  }

  /** The empty board is not over. */
  lemma EmptyBoardNotOver()
    ensures !IsGameOver(EmptyBoard())
  {
  }

  /** A full board whose main diagonal is X (and has no O line): X wins, the
      game is over and O has not won. */
  lemma DiagonalWinScenario()
    ensures var b: Board := [X, O, X, O, X, O, O, X, X];
            IsWinner(b, X) && IsGameOver(b) && !IsWinner(b, O)
  {
  }
}
