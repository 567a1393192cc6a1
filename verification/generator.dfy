/** The generating half of `SudokuGenerator`: the backtracking fill of
    `_fill_cells`, the carving of `_remove_cells` and the `generate` round
    that ties them together with the solution snapshot.

    `random.shuffle` is not modelled; the shuffled coordinate list is a
    parameter that may be any ordering of the 81 cells. */
module Generator {
  import opened Wrappers
  import opened Grid
  import opened Constraints
  import opened Solver

  /** The exception `_remove_cells` raises: `ValueError("Invalid difficulty level")`. */
  datatype Error = InvalidDifficulty

  /** The generator object: the board shown to the player and the
      snapshot of the full grid (`None` until the first `generate`). */
  datatype SudokuGenerator = SudokuGenerator(board: Board, solution: Option<Board>)

  /** `SudokuGenerator()`: an empty board and no solution yet. */
  function NewGenerator(): (g: SudokuGenerator)
    ensures IsGrid(g.board) && forall i, j | 0 <= i < 9 && 0 <= j < 9 :: g.board[i][j] == 0
    ensures g.solution.None?
  {
    SudokuGenerator(EmptyBoard(), None)
  }

  // ---------------------------------------------------------------------
  // The fill of `_fill_cells`

  /** The inner `solve` of `_fill_cells`: the same row-major search for the
      first 0 as `_find_empty_cell`, then the digits 1..9 tried with the
      inner `is_valid`. Returns the boolean and the board it leaves. */
  function Fill(b: Board): (result: (bool, Board))
    requires IsGrid(b)
    ensures IsGrid(result.1)
    ensures !result.0 ==> result.1 == b
    decreases EmptyCells(b), 1, 0
  {
    match FindEmptyCell(b)
    case None => (true, b)
    case Some((r, c)) => FillDigits(b, r, c, 1)
  }

  /** The digit loop of the inner `solve` at the empty cell (r, c). */
  function FillDigits(b: Board, r: int, c: int, n: int): (result: (bool, Board))
    requires IsGrid(b) && InRange(r, c) && b[r][c] == 0 && 1 <= n <= 10
    ensures IsGrid(result.1)
    ensures !result.0 ==> result.1 == b
    decreases EmptyCells(b), 0, 10 - n
  {
    if n == 10 then (false, b)
    else if FillIsValid(b, n, r, c) then
      var placed := Assign(b, r, c, n);
      AssignEmptyCells(b, r, c, n);
      var (solved, after) := Fill(placed);
      if solved then (true, after)
      else
        AssignUndo(b, r, c, n);
        FillDigits(Assign(after, r, c, 0), r, c, n + 1)
    else FillDigits(b, r, c, n + 1)
  }

  /** The generator's fill is the solver's search: on every board it
      answers the same and leaves the same board behind. */
  lemma {:induction false} FillIsSolve(b: Board)
    requires IsGrid(b)
    ensures Fill(b) == Solve(b)
    decreases EmptyCells(b), 1, 0, 0
  {
    match FindEmptyCell(b)
    case None =>
    case Some((r, c)) =>
      FillDigitsIsTryDigits(b, r, c, 1);
  }

  lemma {:induction false} FillDigitsIsTryDigits(b: Board, r: int, c: int, n: int)
    requires IsGrid(b) && InRange(r, c) && b[r][c] == 0 && 1 <= n <= 10
    ensures FillDigits(b, r, c, n) == TryDigits(b, r, c, n)
    decreases EmptyCells(b), 0, 10 - n, 1
  {
    if n < 10 {
      FillIsValidIffIsValid(b, n, r, c);
      if IsValid(b, r, c, n) {
        AdmittedDigitStep(b, r, c, n);
      } else {
        RejectedDigitStep(b, r, c, n);
      }
    }
  }

  /** Both digit loops at a digit both checks admit. */
  lemma {:induction false} AdmittedDigitStep(b: Board, r: int, c: int, n: int)
    requires IsGrid(b) && InRange(r, c) && b[r][c] == 0 && 1 <= n < 10
    requires IsValid(b, r, c, n) && FillIsValid(b, n, r, c)
    ensures FillDigits(b, r, c, n) == TryDigits(b, r, c, n)
    decreases EmptyCells(b), 0, 10 - n, 0
  {
    var placed := Assign(b, r, c, n);
    AssignEmptyCells(b, r, c, n);
    FillIsSolve(placed);
    if !Solve(placed).0 {
      AssignUndo(b, r, c, n);
      FillDigitsIsTryDigits(b, r, c, n + 1);
    }
  }

  /** Both digit loops at a digit both checks reject. */
  lemma {:induction false} RejectedDigitStep(b: Board, r: int, c: int, n: int)
    requires IsGrid(b) && InRange(r, c) && b[r][c] == 0 && 1 <= n < 10
    requires !IsValid(b, r, c, n) && !FillIsValid(b, n, r, c)
    ensures FillDigits(b, r, c, n) == TryDigits(b, r, c, n)
    decreases EmptyCells(b), 0, 10 - n, 0
  {
    FillDigitsIsTryDigits(b, r, c, n + 1);
    FillDigitsSkips(b, r, c, n);
    TryDigitsSkips(b, r, c, n);
  }

  /** The generator's digit loop passes over a digit its check rejects. */
  lemma FillDigitsSkips(b: Board, r: int, c: int, n: int)
    requires IsGrid(b) && InRange(r, c) && b[r][c] == 0 && 1 <= n < 10
    requires !FillIsValid(b, n, r, c)
    ensures FillDigits(b, r, c, n) == FillDigits(b, r, c, n + 1)
  {
  }

  /** `(3 * (i % 3) + i / 3 + j) % 9 + 1`: a solved Sudoku, the witness that
      the empty board can be completed. */
  function PatternGrid(): (s: Board)
    ensures IsGrid(s)
  {
    seq(9, i => seq(9, j => (3 * (i % 3) + i / 3 + j) % 9 + 1))
  }

  /** Two numbers closer than 9 and different leave different remainders. */
  lemma DistinctRemainders(x: int, y: int)
    requires 0 <= x && 0 <= y && x != y && -9 < x - y < 9
    ensures x % 9 != y % 9
  {
  }

  /** Peers of the pattern grid hold different values. */
  lemma PatternPeersDiffer(i: int, j: int, i': int, j': int)
    requires InRange(i, j) && InRange(i', j') && Peer(i, j, i', j')
    ensures PatternGrid()[i][j] != PatternGrid()[i'][j']
  {
    var x := 3 * (i % 3) + i / 3 + j;
    var y := 3 * (i' % 3) + i' / 3 + j';
    assert x - y == 3 * (i % 3 - i' % 3) + (i / 3 - i' / 3) + (j - j');
    if i == i' {
      assert x - y == j - j';
    } else if j == j' {
      assert i == 3 * (i / 3) + i % 3 && i' == 3 * (i' / 3) + i' % 3;
    } else {
      assert i / 3 == i' / 3 && j / 3 == j' / 3;
      assert j == 3 * (j / 3) + j % 3 && j' == 3 * (j' / 3) + j' % 3;
      assert i % 3 != i' % 3;
    }
    DistinctRemainders(x, y);
  }

  lemma PatternGridIsValid()
    ensures ValidGrid(PatternGrid())
  {
    var s := PatternGrid();
    forall i, j | 0 <= i < 9 && 0 <= j < 9
      ensures 1 <= s[i][j] <= 9 && NoClash(s, i, j)
    {
      forall i', j' | 0 <= i' < 9 && 0 <= j' < 9 && Peer(i, j, i', j')
        ensures s[i'][j'] != s[i][j]
      {
        PatternPeersDiffer(i, j, i', j');
      }
    }
  }

  /** `_fill_cells` on the cleared board always succeeds, and what it
      produces is a solved Sudoku. */
  lemma FillOfEmptyIsValid()
    ensures Fill(EmptyBoard()).0
    ensures ValidGrid(Fill(EmptyBoard()).1)
  {
    PatternGridIsValid();
    CompletesEmptyIffValid(PatternGrid());
    SolveFindsCompletion(EmptyBoard(), PatternGrid());
    FillIsSolve(EmptyBoard());
    SolveIsSound(EmptyBoard());
    CompletesEmptyIffValid(Fill(EmptyBoard()).1);
  }

  // ---------------------------------------------------------------------
  // Carving

  /** Every coordinate in the list is on the board. */
  predicate OnBoard(cells: seq<Cell>) {
    forall k | 0 <= k < |cells| :: InRange(cells[k].0, cells[k].1)
  }

  /** No coordinate is listed twice. */
  predicate Distinct(cells: seq<Cell>) {
    forall k, l | 0 <= k < l < |cells| :: cells[k] != cells[l]
  }

  /** An ordering of the 81 coordinates, as `random.shuffle` leaves the list. */
  predicate IsCellOrder(cells: seq<Cell>) {
    |cells| == 81 && OnBoard(cells) && Distinct(cells)
  }

  /** The list `[(i, j) for i in range(9) for j in range(9)]`. */
  function RowMajorCells(): (cells: seq<Cell>)
    ensures IsCellOrder(cells)
    ensures forall i, j | 0 <= i < 9 && 0 <= j < 9 :: (i, j) in cells
  {
    var cells := seq(81, k requires 0 <= k < 81 => (k / 9, k % 9));
    forall i, j | 0 <= i < 9 && 0 <= j < 9
      ensures (i, j) in cells
    {
      assert cells[9 * i + j] == (i, j);
    }
    forall k, l | 0 <= k < l < 81
      ensures cells[k] != cells[l]
    {
      assert k == 9 * (k / 9) + k % 9 && l == 9 * (l / 9) + l % 9;
    }
    cells
  }

  /** The `for i, j in cells: board[i][j] = 0` loop: every listed cell
      becomes empty, every other cell is kept. */
  function ClearCells(b: Board, cells: seq<Cell>): (b': Board)
    requires IsGrid(b) && OnBoard(cells)
    ensures IsGrid(b')
    ensures forall i, j | 0 <= i < 9 && 0 <= j < 9 ::
      b'[i][j] == if (i, j) in cells then 0 else b[i][j]
    ensures EmptyCells(b') == EmptyCells(b) + (set x | x in cells)
    decreases |cells|
  {
    if |cells| == 0 then b
    else
      AssignEmptyCells(b, cells[0].0, cells[0].1, 0);
      assert (set x | x in cells) == {cells[0]} + (set x | x in cells[1..]);
      ClearCells(Assign(b, cells[0].0, cells[0].1, 0), cells[1..])
  }

  /** A list without repetitions has as many elements as its length. */
  lemma {:induction false} DistinctCount(cells: seq<Cell>)
    requires Distinct(cells)
    ensures |set x | x in cells| == |cells|
  {
    if |cells| > 0 {
      DistinctCount(cells[1..]);
      assert (set x | x in cells) == {cells[0]} + (set x | x in cells[1..]);
      assert cells[0] !in cells[1..];
    }
  }

  /** Emptying the first `count` cells of an ordering on a full board
      leaves exactly `count` empty cells. */
  lemma ClearedPrefixCount(b: Board, order: seq<Cell>, count: nat)
    requires IsGrid(b) && IsCellOrder(order) && count <= 81
    ensures NoZeros(b) ==> |EmptyCells(ClearCells(b, order[..count]))| == count
  {
    var removed := order[..count];
    assert Distinct(removed);
    DistinctCount(removed);
    assert NoZeros(b) ==> EmptyCells(b) == {};
  }

  /** The difficulty table of `_remove_cells`. */
  predicate IsDifficulty(difficulty: string) {
    difficulty == "easy" || difficulty == "medium" || difficulty == "hard"
  }

  /** The number of cells `_remove_cells` empties for a label; `None` for
      a label it rejects. Every count leaves at least 21 givens. */
  function RemovalCount(difficulty: string): (count: Option<nat>)
    ensures count.None? <==> !IsDifficulty(difficulty)
    ensures count.Some? ==> 40 <= count.value <= 60
  {
    if difficulty == "easy" then Some(40)
    else if difficulty == "medium" then Some(50)
    else if difficulty == "hard" then Some(60)
    else None
  }

  /** `p` is `b` with exactly the listed cells emptied. */
  predicate CarvedFrom(b: Board, p: Board, removed: seq<Cell>)
    requires IsGrid(b)
  {
    IsGrid(p) && forall i, j | 0 <= i < 9 && 0 <= j < 9 ::
      p[i][j] == if (i, j) in removed then 0 else b[i][j]
  }

  /** `_remove_cells(difficulty)` with the shuffled list `order`: an unknown
      label raises; otherwise the first 40, 50 or 60 listed cells are
      emptied, nothing else changes, and a full board ends up with exactly
      that many empty cells. */
  function RemoveCells(b: Board, difficulty: string, order: seq<Cell>): (r: Result<Board, Error>)
    requires IsGrid(b) && IsCellOrder(order)
    ensures r.Err? <==> !IsDifficulty(difficulty)
    ensures r.Err? ==> r.error == InvalidDifficulty
    ensures difficulty == "easy" ==> r.Ok? && CarvedFrom(b, r.value, order[..40])
    ensures difficulty == "medium" ==> r.Ok? && CarvedFrom(b, r.value, order[..50])
    ensures difficulty == "hard" ==> r.Ok? && CarvedFrom(b, r.value, order[..60])
    ensures r.Ok? && NoZeros(b) ==>
      |EmptyCells(r.value)| == (if difficulty == "easy" then 40 else if difficulty == "medium" then 50 else 60)
  {
    match RemovalCount(difficulty)
    case None => Err(InvalidDifficulty)
    case Some(count) =>
      ClearedPrefixCount(b, order, count);
      Ok(ClearCells(b, order[..count]))
  }

  // ---------------------------------------------------------------------
  // A generation round

  /** Clearing a list that names every cell leaves the empty board. */
  lemma ClearingAllCells(b: Board, cells: seq<Cell>)
    requires IsGrid(b) && OnBoard(cells)
    requires forall i, j | 0 <= i < 9 && 0 <= j < 9 :: (i, j) in cells
    ensures ClearCells(b, cells) == EmptyBoard()
  {
    var cleared := ClearCells(b, cells);
    forall i, j | 0 <= i < 9 && 0 <= j < 9
      ensures cleared[i][j] == 0
    {
      assert (i, j) in cells;
    }
    CellwiseEqual(cleared, EmptyBoard());
  }

  /** `_generate_solution`: write 0 into all 81 cells, run the fill, keep
      whatever board it leaves. The fill cannot fail here, so the board is a
      solved Sudoku. */
  function GenerateSolution(b: Board): (s: Board)
    requires IsGrid(b)
    ensures IsGrid(s) && ValidGrid(s)
  {
    var cells := RowMajorCells();
    ClearingAllCells(b, cells);
    var cleared := ClearCells(b, cells);
    FillOfEmptyIsValid();
    Fill(cleared).1
  }

  /** `generate(difficulty)` with the shuffled list `order`. The solution is
      snapshotted before carving. An unknown label raises after the fill
      and the snapshot, so the board is then left full. Otherwise the board
      is the solution with the first 40, 50 or 60 listed cells emptied. */
  function Generate(g: SudokuGenerator, difficulty: string, order: seq<Cell>): (r: (SudokuGenerator, Outcome<Error>))
    requires IsGrid(g.board) && IsCellOrder(order)
    ensures IsGrid(r.0.board) && r.0.solution.Some? && IsGrid(r.0.solution.value)
    ensures ValidGrid(r.0.solution.value)
    ensures Completes(r.0.board, r.0.solution.value)
    ensures r.1.Fail? <==> !IsDifficulty(difficulty)
    ensures r.1.Fail? ==> r.1.error == InvalidDifficulty && r.0.board == r.0.solution.value
    ensures r.1.Pass? ==>
      var count := if difficulty == "easy" then 40 else if difficulty == "medium" then 50 else 60;
      && CarvedFrom(r.0.solution.value, r.0.board, order[..count])
      && |EmptyCells(r.0.board)| == count
  {
    var filled := GenerateSolution(g.board);
    var solution := filled;
    match RemoveCells(filled, difficulty, order)
    case Ok(puzzle) =>
      (SudokuGenerator(puzzle, Some(solution)), Pass)
    case Err(e) =>
      (SudokuGenerator(filled, Some(solution)), Fail(e))
  }

  /** The end-to-end round: the puzzle a successful `generate` leaves can be
      solved, and `solve_sudoku` returns a solved Sudoku that keeps every
      given of the puzzle (not necessarily the stored solution, since a
      puzzle may have several). */
  lemma GeneratedPuzzleIsSolved(g: SudokuGenerator, difficulty: string, order: seq<Cell>)
    requires IsGrid(g.board) && IsCellOrder(order)
    ensures var g' := Generate(g, difficulty, order).0;
      && SolveSudoku(g'.board).Some?
      && ValidGrid(SolveSudoku(g'.board).value)
      && Completes(g'.board, SolveSudoku(g'.board).value)
  {
    var g' := Generate(g, difficulty, order).0;
    var puzzle, solution := g'.board, g'.solution.value;
    SolveDecidesSolvable(puzzle);
    forall i, j | 0 <= i < 9 && 0 <= j < 9 && puzzle[i][j] != 0
      ensures 1 <= puzzle[i][j] <= 9 && NoClash(puzzle, i, j)
    {
      assert NoClash(solution, i, j);
      forall i', j' | 0 <= i' < 9 && 0 <= j' < 9 && Peer(i, j, i', j') && puzzle[i'][j'] != 0
        ensures puzzle[i'][j'] != puzzle[i][j]
      {
      }
    }
    SolvedConsistentBoardIsValid(puzzle);
  }
}
