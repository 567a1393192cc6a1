/** The 9x9 board shared by the solver, the generator and the answer check,
    together with the vocabulary their contracts are stated in: cells,
    peers (cells sharing a row, a column or a 3x3 block), empty cells and
    completions. */
module Grid {

  /** A board is a list of rows; 0 marks an empty cell. Like the Python
      lists it models, a cell may hold any integer. */
  type Board = seq<seq<int>>

  /** A (row, column) coordinate. */
  type Cell = (int, int)

  predicate InRange(r: int, c: int) {
    0 <= r < 9 && 0 <= c < 9
  }

  /** The board has the 9x9 shape every operation indexes into. */
  predicate IsGrid(b: Board) {
    |b| == 9 && forall i | 0 <= i < 9 :: |b[i]| == 9
  }

  /** The board `SudokuGenerator.__init__` starts with: 81 zeros. */
  function EmptyBoard(): (b: Board)
    ensures IsGrid(b)
    ensures forall i, j | 0 <= i < 9 && 0 <= j < 9 :: b[i][j] == 0
  {
    seq(9, _ => seq(9, _ => 0))
  }

  /** The in-place write `board[r][c] = v`, as a new board. */
  function Assign(b: Board, r: int, c: int, v: int): (b': Board)
    requires IsGrid(b) && InRange(r, c)
    ensures IsGrid(b')
    ensures b'[r][c] == v
    ensures forall i, j | 0 <= i < 9 && 0 <= j < 9 && (i, j) != (r, c) :: b'[i][j] == b[i][j]
  {
    b[r := b[r][c := v]]
  }

  /** No cell of the board is empty. */
  predicate NoZeros(b: Board)
    requires IsGrid(b)
  {
    forall i, j | 0 <= i < 9 && 0 <= j < 9 :: b[i][j] != 0
  }

  /** The coordinates of the empty cells. */
  function EmptyCells(b: Board): (e: set<Cell>)
    requires IsGrid(b)
    ensures forall i, j :: (i, j) in e <==> InRange(i, j) && b[i][j] == 0
  {
    set i, j | 0 <= i < 9 && 0 <= j < 9 && b[i][j] == 0 :: (i, j)
  }

  /** (i, j) lies in the same row, column or 3x3 block as (r, c); a cell
      shares a unit with itself. */
  predicate SameUnit(r: int, c: int, i: int, j: int) {
    r == i || c == j || (r / 3 == i / 3 && c / 3 == j / 3)
  }

  /** (i, j) is another cell of a unit of (r, c). */
  predicate Peer(r: int, c: int, i: int, j: int) {
    (r, c) != (i, j) && SameUnit(r, c, i, j)
  }

  /** No peer of (r, c) holds the value (r, c) holds. */
  predicate NoClash(s: Board, r: int, c: int)
    requires IsGrid(s) && InRange(r, c)
  {
    forall i, j | 0 <= i < 9 && 0 <= j < 9 && Peer(r, c, i, j) :: s[i][j] != s[r][c]
  }

  /** `s` completes `b`: every non-empty cell of `b` (a given) is kept, and
      every empty cell of `b` holds a digit 1..9 that none of its peers in
      `s` repeats. Nothing is demanded of the givens among themselves. */
  predicate Completes(b: Board, s: Board)
    requires IsGrid(b) && IsGrid(s)
  {
    && (forall i, j | 0 <= i < 9 && 0 <= j < 9 && b[i][j] != 0 :: s[i][j] == b[i][j])
    && (forall i, j | 0 <= i < 9 && 0 <= j < 9 && b[i][j] == 0 :: 1 <= s[i][j] <= 9 && NoClash(s, i, j))
  }

  /** Some completion of `b` exists. */
  ghost predicate Solvable(b: Board)
    requires IsGrid(b)
  {
    exists s :: IsGrid(s) && Completes(b, s)
  }

  /** A solved Sudoku: every cell holds 1..9 and no unit repeats a value. */
  predicate ValidGrid(s: Board)
    requires IsGrid(s)
  {
    forall i, j | 0 <= i < 9 && 0 <= j < 9 :: 1 <= s[i][j] <= 9 && NoClash(s, i, j)
  }

  /** A completion of the empty board is exactly a solved Sudoku. */
  lemma CompletesEmptyIffValid(s: Board)
    requires IsGrid(s)
    ensures Completes(EmptyBoard(), s) <==> ValidGrid(s)
  {
  }

  /** Writing a value and then writing 0 back restores a cell that was empty. */
  lemma AssignUndo(b: Board, r: int, c: int, v: int)
    requires IsGrid(b) && InRange(r, c) && b[r][c] == 0
    ensures Assign(Assign(b, r, c, v), r, c, 0) == b
  {
    assert b[r][c := v][c := 0] == b[r];
  }

  /** A write changes the set of empty cells only at the written cell. */
  lemma AssignEmptyCells(b: Board, r: int, c: int, v: int)
    requires IsGrid(b) && InRange(r, c)
    ensures v != 0 ==> EmptyCells(Assign(b, r, c, v)) == EmptyCells(b) - {(r, c)}
    ensures v == 0 ==> EmptyCells(Assign(b, r, c, v)) == EmptyCells(b) + {(r, c)}
  {
  }

  /** Boards of the grid shape that agree on every cell are equal. */
  lemma CellwiseEqual(a: Board, b: Board)
    requires IsGrid(a) && IsGrid(b)
    requires forall i, j | 0 <= i < 9 && 0 <= j < 9 :: a[i][j] == b[i][j]
    ensures a == b
  {
    forall i | 0 <= i < 9
      ensures a[i] == b[i]
    {
      assert forall j | 0 <= j < 9 :: a[i][j] == b[i][j];
    }
  }

  /** A completion leaves no cell empty. */
  lemma CompletionHasNoZeros(b: Board, s: Board)
    requires IsGrid(b) && IsGrid(s) && Completes(b, s)
    ensures NoZeros(s)
  {
    forall i, j | 0 <= i < 9 && 0 <= j < 9
      ensures s[i][j] != 0
    {
      if b[i][j] == 0 {
        assert 1 <= s[i][j];
      }
    }
  }
}
