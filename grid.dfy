/** The 3x3 board: cells, the row-major value view of a board, and the two
    operations that build and write it (Create_Board, Is_Move_Valid, Make_Move). */
module Grid {

  /** A cell holds a blank (the string " " in the program), an X or an O. */
  datatype Cell = Blank | X | O

  /** A board as a value: the nine cells in row-major order, so that cell
      (row, col) sits at index 3 * row + col. */
  type Board = b: seq<Cell> | |b| == 9
    witness [Blank, Blank, Blank, Blank, Blank, Blank, Blank, Blank, Blank]

  predicate InRange(row: int, col: int) {
    0 <= row < 3 && 0 <= col < 3
  }

  /** The board Create_Board builds: every cell blank. */
  function EmptyBoard(): (b: Board)
    ensures forall k :: 0 <= k < 9 ==> b[k] == Blank
    ensures forall row, col :: InRange(row, col) ==> IsMoveValid(b, row, col)
  {
    seq(9, _ => Blank)
  }

  /** Is_Move_Valid: a move is valid when the addressed cell is blank.  Like the
      program, it does not check bounds; its callers pass coordinates in range. */
  predicate IsMoveValid(b: Board, row: int, col: int)
    requires InRange(row, col)
  {
    b[3 * row + col] == Blank
  }

  /** The value of a board after `p` is written at (row, col). */
  function Place(b: Board, row: int, col: int, p: Cell): (r: Board)
    requires InRange(row, col)
    ensures r[3 * row + col] == p
    ensures forall k :: 0 <= k < 9 && k != 3 * row + col ==> r[k] == b[k]
  {
    b[3 * row + col := p]
  }

  /** Some cell at row-major index k or later is blank. */
  predicate HasBlankFrom(b: Board, k: int) {
    exists j :: k <= j < 9 && 0 <= j && b[j] == Blank
  }

  /** The number of blank cells: the measure that every search step lowers. */
  function CountBlank(s: seq<Cell>): (n: nat) {
    if s == [] then 0 else (if s[0] == Blank then 1 else 0) + CountBlank(s[1..])
  }

  /** Writing a mark over a blank at index k lowers the blank count by one. */
  lemma {:induction false} WriteLowersBlanks(s: seq<Cell>, k: int, p: Cell)
    requires 0 <= k < |s| && s[k] == Blank && p != Blank
    ensures CountBlank(s[k := p]) == CountBlank(s) - 1
  {
    if k > 0 {
      WriteLowersBlanks(s[1..], k - 1, p);
      assert s[k := p][1..] == s[1..][k - 1 := p];
    }
  }

  lemma PlaceLowersBlanks(b: Board, row: int, col: int, p: Cell)
    requires InRange(row, col) && IsMoveValid(b, row, col) && p != Blank
    ensures CountBlank(Place(b, row, col, p)) == CountBlank(b) - 1
  {
    WriteLowersBlanks(b, 3 * row + col, p);
  }

  /** Undoing a placement on a blank cell gives the board back. */
  lemma UndoPlace(b: Board, row: int, col: int, p: Cell)
    requires InRange(row, col) && IsMoveValid(b, row, col)
    ensures Place(Place(b, row, col, p), row, col, Blank) == b
  {
  }

  /** A board held in memory: an array of the nine cells in row-major order,
      so that board[row][col] of the program is board[3 * row + col] here. */
  predicate IsGrid(a: array<Cell>) {
    a.Length == 9
  }

  /** The value held by a board in memory. */
  function Cells(a: array<Cell>): (b: Board)
    requires IsGrid(a)
    reads a
  {
    a[..]
  }

  /** Create_Board: a fresh grid of blanks. */
  method CreateBoard() returns (board: array<Cell>)
    ensures fresh(board) && IsGrid(board)
    ensures Cells(board) == EmptyBoard()
  {
    board := new Cell[9](_ => Blank);
  }

  /** Make_Move: write `player` at (row, col), unconditionally; no other cell
      changes. */
  method MakeMove(board: array<Cell>, row: int, col: int, player: Cell)
    requires IsGrid(board) && InRange(row, col)
    modifies board
    ensures board[3 * row + col] == player
    ensures forall k :: 0 <= k < 9 && k != 3 * row + col ==> board[k] == old(board[k])
    ensures Cells(board) == Place(old(Cells(board)), row, col, player)
  {
    board[3 * row + col] := player;
  }
}
