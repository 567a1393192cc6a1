/** The backtracking solver of `SudokuGenerator`: `_find_empty_cell`,
    `_solve` and `solve_sudoku`.

    `_solve` mutates the board it is given and answers a boolean. The model
    passes that board explicitly: `Solve(b)` returns the answer together
    with the board as `_solve` leaves it, so that what a failed call leaves
    behind is something the contracts can speak about. */
module Solver {
  import opened Wrappers
  import opened Grid
  import opened Constraints

  /** Row-major order: (i, j) is visited strictly before (r, c). */
  predicate Before(i: int, j: int, r: int, c: int) {
    i < r || (i == r && j < c)
  }

  /** The nested scan of `_find_empty_cell`, resumed at (r, c). */
  function ScanFrom(b: Board, r: int, c: int): (found: Option<Cell>)
    requires IsGrid(b) && 0 <= r <= 9 && 0 <= c <= 9
    ensures found.None? <==>
      forall i, j | 0 <= i < 9 && 0 <= j < 9 && !Before(i, j, r, c) :: b[i][j] != 0
    ensures found.Some? ==>
      && InRange(found.value.0, found.value.1)
      && b[found.value.0][found.value.1] == 0
      && !Before(found.value.0, found.value.1, r, c)
      && forall i, j | 0 <= i < 9 && 0 <= j < 9 && !Before(i, j, r, c)
                         && Before(i, j, found.value.0, found.value.1) :: b[i][j] != 0
    decreases 9 - r, 9 - c
  {
    if r == 9 then None
    else if c == 9 then ScanFrom(b, r + 1, 0)
    else if b[r][c] == 0 then Some((r, c))
    else ScanFrom(b, r, c + 1)
  }

  /** `_find_empty_cell`: nothing when the board has no 0, otherwise the
      first 0 in row-major order. */
  function FindEmptyCell(b: Board): (found: Option<Cell>)
    requires IsGrid(b)
    ensures found.None? <==> NoZeros(b)
    ensures found.Some? ==>
      && InRange(found.value.0, found.value.1)
      && b[found.value.0][found.value.1] == 0
      && forall i, j | 0 <= i < 9 && 0 <= j < 9 && Before(i, j, found.value.0, found.value.1) :: b[i][j] != 0
  {
    ScanFrom(b, 0, 0)
  }

  /** `_solve(board)`: the boolean it returns and the board it leaves.
      On failure the board is exactly the one it was given: every digit
      written was reset to 0. What success means is `SolveIsSound`. */
  function Solve(b: Board): (result: (bool, Board))
    requires IsGrid(b)
    ensures IsGrid(result.1)
    ensures !result.0 ==> result.1 == b
    decreases EmptyCells(b), 1, 0
  {
    match FindEmptyCell(b)
    case None => (true, b)
    case Some((r, c)) => TryDigits(b, r, c, 1)
  }

  /** The `for num in range(1, 10)` loop of `_solve` at the empty cell
      (r, c), from digit `n` on: place the first digit `_is_valid` admits,
      recurse, and on failure write 0 back and go on with the next digit. */
  function TryDigits(b: Board, r: int, c: int, n: int): (result: (bool, Board))
    requires IsGrid(b) && InRange(r, c) && b[r][c] == 0 && 1 <= n <= 10
    ensures IsGrid(result.1)
    ensures !result.0 ==> result.1 == b
    decreases EmptyCells(b), 0, 10 - n
  {
    if n == 10 then (false, b)
    else if IsValid(b, r, c, n) then
      var placed := Assign(b, r, c, n);
      AssignEmptyCells(b, r, c, n);
      var (solved, after) := Solve(placed);
      if solved then (true, after)
      else
        AssignUndo(b, r, c, n);
        TryDigits(Assign(after, r, c, 0), r, c, n + 1)
    else TryDigits(b, r, c, n + 1)
  }

  /** `solve_sudoku`: solve a copy of the board; `None` exactly when no
      completion exists, and otherwise a completion of the board. */
  function SolveSudoku(b: Board): (r: Option<Board>)
    requires IsGrid(b)
    ensures r.Some? ==> IsGrid(r.value) && NoZeros(r.value) && Completes(b, r.value)
    ensures r.None? <==> !Solvable(b)
  {
    var copy := b;
    var (solved, after) := Solve(copy);
    SolveDecidesSolvable(b);
    if solved then Some(after) else None
  }

  /** A board without empty cells is a completion of itself. */
  lemma FullBoardCompletesItself(b: Board)
    requires IsGrid(b) && NoZeros(b)
    ensures Completes(b, b)
  {
  }

  /** Writing a digit `_is_valid` admits into an empty cell and completing
      the result completes the board before the write: the new digit clashes
      neither with a given (`_is_valid` looked) nor with a later digit (the
      later cell's own check looked). */
  lemma PlacementExtendsCompletion(b: Board, r: int, c: int, n: int, s: Board)
    requires IsGrid(b) && IsGrid(s) && InRange(r, c) && b[r][c] == 0 && 1 <= n <= 9
    requires IsValid(b, r, c, n)
    requires Completes(Assign(b, r, c, n), s)
    ensures Completes(b, s)
  {
    var placed := Assign(b, r, c, n);
    IsValidIffUnused(b, r, c, n);
    assert s[r][c] == n;
    forall i, j | 0 <= i < 9 && 0 <= j < 9 && Peer(r, c, i, j)
      ensures s[i][j] != s[r][c]
    {
      if b[i][j] == 0 {
        assert placed[i][j] == 0;
        assert NoClash(s, i, j);
        assert Peer(i, j, r, c);
      } else {
        assert placed[i][j] == b[i][j];
      }
    }
    assert NoClash(s, r, c);
  }

  /** `_solve` is sound: whatever it returns as solved completes its input.
      Each digit it writes is a digit 1..9 that no cell of its row, column
      or block repeats, even when the givens contradict each other. */
  lemma {:induction false} SolveIsSound(b: Board)
    requires IsGrid(b) && Solve(b).0
    ensures Completes(b, Solve(b).1)
    ensures NoZeros(Solve(b).1)
    decreases EmptyCells(b), 1, 0, 0
  {
    match FindEmptyCell(b)
    case None =>
      FullBoardCompletesItself(b);
    case Some((r, c)) =>
      TryDigitsIsSound(b, r, c, 1);
      CompletionHasNoZeros(b, Solve(b).1);
  }

  lemma {:induction false} TryDigitsIsSound(b: Board, r: int, c: int, n: int)
    requires IsGrid(b) && InRange(r, c) && b[r][c] == 0 && 1 <= n <= 10
    requires TryDigits(b, r, c, n).0
    ensures Completes(b, TryDigits(b, r, c, n).1)
    decreases EmptyCells(b), 0, 10 - n, 1
  {
    if n < 10 {
      if IsValid(b, r, c, n) && Solve(Assign(b, r, c, n)).0 {
        PlacedDigitIsSound(b, r, c, n);
      } else {
        PassedDigitIsSound(b, r, c, n);
      }
    }
  }

  /** Soundness at a digit that is placed and whose search succeeds. */
  lemma {:induction false} PlacedDigitIsSound(b: Board, r: int, c: int, n: int)
    requires IsGrid(b) && InRange(r, c) && b[r][c] == 0 && 1 <= n < 10
    requires IsValid(b, r, c, n) && Solve(Assign(b, r, c, n)).0
    ensures Completes(b, TryDigits(b, r, c, n).1)
    decreases EmptyCells(b), 0, 10 - n, 0
  {
    var placed := Assign(b, r, c, n);
    AssignEmptyCells(b, r, c, n);
    TryDigitsTakes(b, r, c, n);
    SolveIsSound(placed);
    PlacementExtendsCompletion(b, r, c, n, Solve(placed).1);
  }

  /** Soundness at a digit the loop goes past: rejected by `_is_valid`, or
      placed and then written back to 0. */
  lemma {:induction false} PassedDigitIsSound(b: Board, r: int, c: int, n: int)
    requires IsGrid(b) && InRange(r, c) && b[r][c] == 0 && 1 <= n < 10
    requires !(IsValid(b, r, c, n) && Solve(Assign(b, r, c, n)).0)
    requires TryDigits(b, r, c, n).0
    ensures Completes(b, TryDigits(b, r, c, n).1)
    decreases EmptyCells(b), 0, 10 - n, 0
  {
    if IsValid(b, r, c, n) {
      TryDigitsRetries(b, r, c, n);
    } else {
      TryDigitsSkips(b, r, c, n);
    }
    TryDigitsIsSound(b, r, c, n + 1);
  }

  /** The digit loop keeps the first admitted digit whose search succeeds. */
  lemma TryDigitsTakes(b: Board, r: int, c: int, n: int)
    requires IsGrid(b) && InRange(r, c) && b[r][c] == 0 && 1 <= n < 10
    requires IsValid(b, r, c, n) && Solve(Assign(b, r, c, n)).0
    ensures TryDigits(b, r, c, n) == Solve(Assign(b, r, c, n))
  {
  }

  /** After a failed search the digit loop resumes, from the next digit, on
      the board it started from. */
  lemma TryDigitsRetries(b: Board, r: int, c: int, n: int)
    requires IsGrid(b) && InRange(r, c) && b[r][c] == 0 && 1 <= n < 10
    requires IsValid(b, r, c, n) && !Solve(Assign(b, r, c, n)).0
    ensures TryDigits(b, r, c, n) == TryDigits(b, r, c, n + 1)
  {
    AssignUndo(b, r, c, n);
  }

  /** The digit loop passes over a digit `_is_valid` rejects. */
  lemma TryDigitsSkips(b: Board, r: int, c: int, n: int)
    requires IsGrid(b) && InRange(r, c) && b[r][c] == 0 && 1 <= n < 10
    requires !IsValid(b, r, c, n)
    ensures TryDigits(b, r, c, n) == TryDigits(b, r, c, n + 1)
  {
  }

  /** The digit a completion puts into an empty cell passes `_is_valid`. */
  lemma CompletionDigitIsValid(b: Board, s: Board, r: int, c: int)
    requires IsGrid(b) && IsGrid(s) && Completes(b, s) && InRange(r, c) && b[r][c] == 0
    ensures IsValid(b, r, c, s[r][c])
    ensures Completes(Assign(b, r, c, s[r][c]), s)
  {
    assert NoClash(s, r, c);
    forall i, j | 0 <= i < 9 && 0 <= j < 9 && SameUnit(r, c, i, j)
      ensures b[i][j] != s[r][c]
    {
      if (i, j) != (r, c) && b[i][j] != 0 {
        assert Peer(r, c, i, j);
      }
    }
    IsValidIffUnused(b, r, c, s[r][c]);
  }

  /** `_solve` is complete: when some completion of the board exists, the
      search does not give up. */
  lemma {:induction false} SolveFindsCompletion(b: Board, s: Board)
    requires IsGrid(b) && IsGrid(s) && Completes(b, s)
    ensures Solve(b).0
    decreases EmptyCells(b), 1, 0, 0
  {
    match FindEmptyCell(b)
    case None =>
    case Some((r, c)) =>
      TryDigitsFindsCompletion(b, r, c, 1, s);
  }

  lemma {:induction false} TryDigitsFindsCompletion(b: Board, r: int, c: int, n: int, s: Board)
    requires IsGrid(b) && InRange(r, c) && b[r][c] == 0 && 1 <= n <= 10
    requires IsGrid(s) && Completes(b, s) && n <= s[r][c]
    ensures TryDigits(b, r, c, n).0
    decreases EmptyCells(b), 0, 10 - n, 1
  {
    if n == s[r][c] {
      CompletionDigitIsFound(b, r, c, s);
    } else {
      EarlierDigitFinds(b, r, c, n, s);
    }
  }

  /** At the digit the completion holds, the search below succeeds. */
  lemma {:induction false} CompletionDigitIsFound(b: Board, r: int, c: int, s: Board)
    requires IsGrid(b) && InRange(r, c) && b[r][c] == 0
    requires IsGrid(s) && Completes(b, s)
    ensures 1 <= s[r][c] <= 9 && TryDigits(b, r, c, s[r][c]).0
    decreases EmptyCells(b), 0, 10 - s[r][c], 0
  {
    var n := s[r][c];
    CompletionDigitIsValid(b, s, r, c);
    AssignEmptyCells(b, r, c, n);
    SolveFindsCompletion(Assign(b, r, c, n), s);
    TryDigitsTakes(b, r, c, n);
  }

  /** At a digit below the completion's, the loop either succeeds there or
      goes on to the next digit. */
  lemma {:induction false} EarlierDigitFinds(b: Board, r: int, c: int, n: int, s: Board)
    requires IsGrid(b) && InRange(r, c) && b[r][c] == 0 && 1 <= n
    requires IsGrid(s) && Completes(b, s) && n < s[r][c]
    ensures TryDigits(b, r, c, n).0
    decreases EmptyCells(b), 0, 10 - n, 0
  {
    assert s[r][c] <= 9;
    if IsValid(b, r, c, n) && Solve(Assign(b, r, c, n)).0 {
      TryDigitsTakes(b, r, c, n);
    } else {
      if IsValid(b, r, c, n) {
        TryDigitsRetries(b, r, c, n);
      } else {
        TryDigitsSkips(b, r, c, n);
      }
      TryDigitsFindsCompletion(b, r, c, n + 1, s);
    }
  }

  /** `_solve` succeeds exactly on the boards that have a completion. */
  lemma SolveDecidesSolvable(b: Board)
    requires IsGrid(b)
    ensures Solve(b).0 <==> Solvable(b)
    ensures Solve(b).0 ==> Completes(b, Solve(b).1) && NoZeros(Solve(b).1)
  {
    if Solve(b).0 {
      SolveIsSound(b);
    }
    if Solvable(b) {
      var s :| IsGrid(s) && Completes(b, s);
      SolveFindsCompletion(b, s);
    }
  }

  /** Any board without an empty cell is reported solved and returned as
      is, including one whose givens contradict each other. */
  lemma SolveAcceptsFullBoard(b: Board)
    requires IsGrid(b) && NoZeros(b)
    ensures Solve(b) == (true, b)
  {
  }

  /** The board of all ones repeats a value in every row and is still
      reported solved by `solve_sudoku`. */
  lemma SolveSudokuAcceptsAllOnes()
    ensures var ones := seq(9, _ => seq(9, _ => 1));
      IsGrid(ones) && !ValidGrid(ones) && SolveSudoku(ones) == Some(ones)
  {
    var ones := seq(9, _ => seq(9, _ => 1));
    assert Peer(0, 0, 0, 1);
    assert !NoClash(ones, 0, 0);
    SolveAcceptsFullBoard(ones);
  }

  /** When the givens do not clash with each other, a solved board is a
      solved Sudoku. */
  lemma SolvedConsistentBoardIsValid(b: Board)
    requires IsGrid(b)
    requires forall i, j | 0 <= i < 9 && 0 <= j < 9 && b[i][j] != 0 :: 1 <= b[i][j] <= 9 && NoClash(b, i, j)
    ensures Solve(b).0 ==> ValidGrid(Solve(b).1)
  {
    if !Solve(b).0 {
      return;
    }
    var s := Solve(b).1;
    SolveIsSound(b);
    forall i, j | 0 <= i < 9 && 0 <= j < 9 && b[i][j] != 0
      ensures NoClash(s, i, j)
    {
      assert NoClash(b, i, j);
      forall i', j' | 0 <= i' < 9 && 0 <= j' < 9 && Peer(i, j, i', j')
        ensures s[i'][j'] != s[i][j]
      {
        if b[i'][j'] == 0 {
          assert NoClash(s, i', j');
          assert Peer(i', j', i, j);
        }
      }
    }
  }
}
