/** The placement predicates of `SudokuGenerator`: may `num` be written at
    (row, col)? Both the solver's `_is_valid` and the generator's inner
    `is_valid` are modelled, each as the source computes it, and both are
    related to one reference statement: `num` occurs in no cell of the
    row, the column or the 3x3 block of (row, col). */
module Constraints {
  import opened Grid

  /** `_is_valid_row`: `num` is not an element of the row list. */
  predicate IsValidRow(b: Board, row: int, num: int)
    requires IsGrid(b) && 0 <= row < 9
  {
    num !in b[row]
  }

  /** The column list `[board[row][col] for row in range(9)]`. */
  function Column(b: Board, col: int): (column: seq<int>)
    requires IsGrid(b) && 0 <= col < 9
    ensures |column| == 9
  {
    seq(9, i requires 0 <= i < 9 => b[i][col])
  }

  /** `_is_valid_col`: `num` is not an element of the column list. */
  predicate IsValidCol(b: Board, col: int, num: int)
    requires IsGrid(b) && 0 <= col < 9
  {
    num !in Column(b, col)
  }

  /** `_is_valid_subgrid`: the 3x3 block whose origin is
      `(row - row % 3, col - col % 3)` does not hold `num`. */
  predicate IsValidSubgrid(b: Board, row: int, col: int, num: int)
    requires IsGrid(b) && InRange(row, col)
  {
    var startRow, startCol := row - row % 3, col - col % 3;
    forall i, j | startRow <= i < startRow + 3 && startCol <= j < startCol + 3 :: b[i][j] != num
  }

  /** `_is_valid`: the conjunction of the row, column and block checks. */
  predicate IsValid(b: Board, row: int, col: int, num: int)
    requires IsGrid(b) && InRange(row, col)
  {
    IsValidRow(b, row, num) && IsValidCol(b, col, num) && IsValidSubgrid(b, row, col, num)
  }

  /** The inner `is_valid` of `_fill_cells`: one loop over the row and the
      column together, then the block with origin `(3 * (row // 3), 3 * (col // 3))`. */
  predicate FillIsValid(b: Board, num: int, row: int, col: int)
    requires IsGrid(b) && InRange(row, col)
  {
    && (forall i | 0 <= i < 9 :: b[row][i] != num && b[i][col] != num)
    && var startRow, startCol := 3 * (row / 3), 3 * (col / 3);
       forall i, j | startRow <= i < startRow + 3 && startCol <= j < startCol + 3 :: b[i][j] != num
  }

  /** The reference statement: no cell sharing a unit with (row, col),
      the cell itself included, holds `num`. */
  predicate Unused(b: Board, row: int, col: int, num: int)
    requires IsGrid(b) && InRange(row, col)
  {
    forall i, j | 0 <= i < 9 && 0 <= j < 9 && SameUnit(row, col, i, j) :: b[i][j] != num
  }

  /** Both block origins name the block `SameUnit` describes. */
  lemma BlockOrigin(row: int, i: int)
    requires 0 <= row < 9 && 0 <= i < 9
    ensures row - row % 3 == 3 * (row / 3)
    ensures (3 * (row / 3) <= i < 3 * (row / 3) + 3) <==> row / 3 == i / 3
  {
  }

  /** `_is_valid(board, row, col, num)` holds exactly when `num` occurs in
      none of the row, the column and the block of (row, col). */
  lemma IsValidIffUnused(b: Board, row: int, col: int, num: int)
    requires IsGrid(b) && InRange(row, col)
    ensures IsValid(b, row, col, num) <==> Unused(b, row, col, num)
  {
    if IsValid(b, row, col, num) {
      forall i, j | 0 <= i < 9 && 0 <= j < 9 && SameUnit(row, col, i, j)
        ensures b[i][j] != num
      {
        BlockOrigin(row, i);
        BlockOrigin(col, j);
        if i == row {
          assert b[row][j] in b[row];
        } else if j == col {
          assert Column(b, col)[i] == b[i][col];
        }
      }
    }
    if Unused(b, row, col, num) {
      forall j | 0 <= j < 9
        ensures b[row][j] != num
      {
        assert SameUnit(row, col, row, j);
      }
      forall i | 0 <= i < 9
        ensures Column(b, col)[i] != num
      {
        assert SameUnit(row, col, i, col);
      }
      forall i, j | row - row % 3 <= i < row - row % 3 + 3 && col - col % 3 <= j < col - col % 3 + 3
        ensures b[i][j] != num
      {
        BlockOrigin(row, i);
        BlockOrigin(col, j);
        assert SameUnit(row, col, i, j);
      }
    }
  }

  /** The generator's `is_valid` and the solver's `_is_valid` agree on
      every cell and every value. */
  lemma FillIsValidIffIsValid(b: Board, num: int, row: int, col: int)
    requires IsGrid(b) && InRange(row, col)
    ensures FillIsValid(b, num, row, col) <==> IsValid(b, row, col, num)
  {
    IsValidIffUnused(b, row, col, num);
    BlockOrigin(row, 0);
    BlockOrigin(col, 0);
    if FillIsValid(b, num, row, col) {
      forall i, j | 0 <= i < 9 && 0 <= j < 9 && SameUnit(row, col, i, j)
        ensures b[i][j] != num
      {
        BlockOrigin(row, i);
        BlockOrigin(col, j);
      }
    }
    if Unused(b, row, col, num) {
      forall i | 0 <= i < 9
        ensures b[row][i] != num && b[i][col] != num
      {
        assert SameUnit(row, col, row, i);
        assert SameUnit(row, col, i, col);
      }
      forall i, j | 3 * (row / 3) <= i < 3 * (row / 3) + 3 && 3 * (col / 3) <= j < 3 * (col / 3) + 3
        ensures b[i][j] != num
      {
        BlockOrigin(row, i);
        BlockOrigin(col, j);
        assert SameUnit(row, col, i, j);
      }
    }
  }
}
