# Sudoku constraint engine — a Dafny model

This project models the constraint engine of a small Sudoku game: the
`SudokuGenerator` class (`sudoku_generator.py`) and the three pure helpers
of the `SudokuGUI` window (`start.py`) that decide what a player may type
and whether a filled-in grid is accepted.

The board is an immutable 9x9 `seq<seq<int>>` in which 0 marks an empty
cell. The in-place writes of the Python code become functions that return
the board as the code leaves it. For `_solve`, that means `Solve(b)`
returns the pair (answer, board afterwards). The promise that a failed
search leaves the board exactly as it found it is therefore a proved
statement, not a by-product of immutability.

Modules, one file each:

- `Wrappers` (`wrappers.dfy`): `Option`, `Result`, `Outcome`.
- `Grid` (`grid.dfy`): the board and its vocabulary. Peers are the other
  cells of a cell's row, column or 3x3 block. `Completes(b, s)` says that
  `s` keeps every non-zero cell of `b` (a *given*) and fills every empty
  cell of `b` with a digit 1..9 that none of its peers repeats.
  `ValidGrid` is a solved Sudoku.
- `Constraints` (`constraints.dfy`): `_is_valid_row`, `_is_valid_col`,
  `_is_valid_subgrid` and `_is_valid`, and the inner `is_valid` of
  `_fill_cells`. Each is written the way the code computes it, and each
  is related to the reference statement `Unused`: the value occurs in no
  cell of the row, the column or the block.
- `Solver` (`solver.dfy`): `_find_empty_cell`, `_solve` with its digit
  loop (`TryDigits`), and `solve_sudoku`. Termination follows from the set
  of empty cells, which shrinks with every placement. The solver is proved
  both sound and complete: it succeeds exactly when a completion exists,
  and what it returns is one.
- `Generator` (`generator.dfy`): the inner `solve` of `_fill_cells`, proved
  equal to `_solve` on every board. It also holds `_generate_solution`,
  `_remove_cells` and `generate`. The fill of the empty board is proved to
  succeed: a concrete solved grid is a completion of the empty board, and
  the solver is complete.
- `Gui` (`gui.dfy`): `validate_input`, the density gate of
  `check_solution`, `is_solution_correct`, and a corrected comparison
  (see Findings).

`random.shuffle` is not modelled. The shuffled coordinate list is a
parameter `order`, which may be any ordering of the 81 cells
(`IsCellOrder`). There is no other I/O, clock or randomness in the core.

## Design notes

- The code never checks the givens against each other. `_solve` returns
  True for a full board, whatever it holds (`Solver.SolveAcceptsFullBoard`,
  `Solver.SolveSudokuAcceptsAllOnes`), even when a row repeats a value.
  The validity statement (`Completes`) therefore covers only the cells the
  solver fills. `Solver.SolvedConsistentBoardIsValid`
  adds the whole-grid statement for givens that do not clash.
- The fill is deterministic: digits are tried in ascending order and cells
  in row-major order, so `_generate_solution` always produces the same
  solved grid. Only the choice of cells to empty depends on the shuffle.
- `generate` raises `ValueError` for an unknown difficulty only after it
  has filled the board and taken the snapshot. `Generator.Generate`
  therefore leaves the full grid on the board in that case.
- `solve_sudoku` works on a copy of `generator.board`. Boards are values
  here, so the caller's board is never changed, and every operation is a
  function: the same input always gives the same output.
- `_fill_cells` ignores the answer of its inner `solve`. The model proves
  that on the cleared board this answer is always True.

## Model

| member | source | states |
|---|---|---|
| Grid.Assign | sudoku_generator.py:85 | `board[row][col] = num` changes that cell and no other |
| Grid.AssignUndo | sudoku_generator.py:85-90 | writing a digit into an empty cell and then writing 0 back gives back the same board |
| Constraints.IsValidIffUnused | sudoku_generator.py:101-121 | `_is_valid(board, row, col, num)` holds exactly when `num` occurs in no cell of the row, the column or the 3x3 block of (row, col); the block found from origin `(row - row % 3, col - col % 3)` is the block of `SameUnit` |
| Constraints.FillIsValidIffIsValid | sudoku_generator.py:25-34 | the inner `is_valid` of `_fill_cells`, with block origin `3 * (row // 3)`, agrees with `_is_valid` for every in-range cell and every value |
| Solver.ScanFrom | sudoku_generator.py:95-99 | the nested scan resumed at (r, c) finds nothing exactly when no cell from (r, c) on in row-major order is 0; otherwise it finds the first such 0 |
| Solver.FindEmptyCell | sudoku_generator.py:94-99 | `None` exactly when the board has no 0; otherwise an empty cell, and every cell before it in row-major order is non-zero |
| Solver.Solve | sudoku_generator.py:77-92 | when `_solve` returns False the board equals its state on entry |
| Solver.TryDigits | sudoku_generator.py:83-92 | the digit loop returns False only with the board as it was: every digit tried is reset to 0 |
| Solver.TryDigitsRetries | sudoku_generator.py:85-90 | after an admitted digit's search fails, writing 0 back resumes the loop at the next digit on the original board |
| Solver.SolveIsSound | sudoku_generator.py:77-92 | when `_solve` returns True, no cell is empty, every given is unchanged, and every cell it filled holds 1..9 and differs from every other cell of its row, column and block |
| Solver.PlacementExtendsCompletion | sudoku_generator.py:84-88 | a digit admitted by `_is_valid`, plus any completion of the board with that digit placed, completes the board before the write |
| Solver.CompletionDigitIsValid | sudoku_generator.py:83-84 | the digit any completion puts into an empty cell passes `_is_valid` there |
| Solver.SolveFindsCompletion | sudoku_generator.py:77-92 | when some completion of the board exists, `_solve` returns True |
| Solver.SolveDecidesSolvable | sudoku_generator.py:77-92 | `_solve` returns True exactly when the board has a completion, and then returns one |
| Solver.SolveSudoku | sudoku_generator.py:67-75 | `solve_sudoku` answers `None` exactly when no completion exists; otherwise its board has no empty cell and completes the input |
| Solver.SolveAcceptsFullBoard | sudoku_generator.py:78-80 | a board without an empty cell is reported solved and returned unchanged |
| Solver.SolveSudokuAcceptsAllOnes | sudoku_generator.py:78-80 | the all-ones board repeats values in every row and is still returned as solved |
| Solver.SolvedConsistentBoardIsValid | sudoku_generator.py:77-92 | if the givens hold 1..9 and do not clash, a solved board is a solved Sudoku |
| Generator.NewGenerator | sudoku_generator.py:6-8 | a new generator holds 81 empty cells and no solution |
| Generator.Fill | sudoku_generator.py:36-47 | when the inner `solve` returns False the board equals its state on entry |
| Generator.FillDigits | sudoku_generator.py:40-46 | the inner `solve`'s digit loop returns False only with the board as it was: every digit tried is reset to 0 |
| Generator.FillIsSolve | sudoku_generator.py:36-47 | the inner `solve` of `_fill_cells` returns the same answer and leaves the same board as `_solve`, on every board |
| Generator.FillOfEmptyIsValid | sudoku_generator.py:36-49 | on the empty board the fill succeeds and leaves a solved Sudoku |
| Generator.ClearingAllCells | sudoku_generator.py:18-20 | writing 0 into every listed cell, when every cell is listed, leaves the empty board whatever it held |
| Generator.GenerateSolution | sudoku_generator.py:17-22 | `_generate_solution` leaves a solved Sudoku on the board |
| Generator.RowMajorCells | sudoku_generator.py:62 | the coordinate list has 81 distinct on-board entries and names every cell |
| Generator.ClearCells | sudoku_generator.py:64-65 | every listed cell becomes 0 and every other cell is kept; the empty cells are the old ones plus the listed ones |
| Generator.ClearedPrefixCount | sudoku_generator.py:64-65 | emptying the first `count` cells of an ordering of all cells leaves exactly `count` empty cells on a full board |
| Generator.RemovalCount | sudoku_generator.py:52-59 | a cell count exactly for the labels easy, medium and hard, and none for any other label; each count is between 40 and 60 |
| Generator.RemoveCells | sudoku_generator.py:51-65 | `ValueError` exactly for a label other than easy, medium and hard; otherwise exactly the first 40, 50 or 60 cells of the order are emptied and no other cell changes, and a full board ends with exactly that many empty cells |
| Generator.Generate | sudoku_generator.py:10-15 | the solution snapshot is a solved Sudoku and the board never disagrees with it on a non-empty cell; an unknown label raises with the full grid on the board; otherwise exactly 40, 50 or 60 cells are empty, namely the first ones of the order |
| Generator.GeneratedPuzzleIsSolved | sudoku_generator.py:67-75 | after any `generate`, `solve_sudoku` on the board succeeds with a solved Sudoku that keeps every given of the puzzle |
| Gui.ValidateInputIffPaddedDigit | start.py:55-58 | `validate_input` accepts exactly the empty text and a digit 1..9 preceded by any number of '0's |
| Gui.ValidateInputExamples | start.py:56 | "", "7" and "05" are accepted; "0", "10" and "a" are rejected |
| Gui.Show | start.py:47 | `str(v)` of a digit is a digit string that `int` reads back as `v` |
| Gui.Render | start.py:45-47 | a grid of digits 1..9 shown cell by cell with `str` fills every entry and reads back, through `check_solution`, as the same grid |
| Gui.ReadEntries | start.py:116-122 | the grid read from the entries holds `int(entry)` in every cell |
| Gui.MatchFrom | start.py:133-137 | the comparison loop returns True exactly when every cell from the resume point on matches |
| Gui.IsSolutionCorrect | start.py:132-137 | `is_solution_correct` is True exactly when the answer equals `generator.board` in all 81 cells |
| Gui.CheckSolution | start.py:115-130 | "incomplete" exactly when some entry is empty or not all digits; otherwise "correct" exactly when every entry reads as the value of the board's cell |
| Gui.AnswerAfterGenerateIsRejected | start.py:135 | after any successful `generate`, every full grid of entries that pass `validate_input` is judged wrong |
| Gui.SolutionIsRejected | start.py:135 | after any successful `generate`, the stored solution typed in full is judged wrong |
| Gui.IsSolutionCorrectFixed | start.py:132-137 | the corrected comparison is True exactly when the answer equals `generator.solution` |
| Gui.CheckSolutionFixed | start.py:115-130 | the gate is unchanged; "correct" exactly when the grid read from the entries is the stored solution |
| Gui.FixedCheckAcceptsSolution | start.py:135 | with the corrected comparison the stored solution is accepted, and any accepted answer is a solved Sudoku keeping every given of the puzzle |

## Left out

- The tkinter window: layout, entry widgets, buttons, dialogs, colours, message boxes (`create_*`, `show_*`, `update_sudoku_board`, `solve_and_show_solution`, `main`). They are UI plumbing with no statable behaviour. An entry widget is modelled as its text.
- `random.shuffle`: a library call. Its result is the `order` parameter, any ordering of the 81 coordinates.
- `main()` of `sudoku_generator.py`: it only prints.
- Gui.ValidateInputIffPaddedDigit: `str.isdigit` is modelled on ASCII '0'..'9' only. Python also accepts other Unicode decimal digits, and superscript digits for which `int` raises. Those texts are outside the model.
- Gui.CheckSolution: the same ASCII-only reading of `str.isdigit`.
- Gui.ReadEntries: the same ASCII-only reading. An entry such as "٣", which `int` reads as 3, is outside the model.
- Gui.Render: it covers only full grids of digits 1..9. A 0 cell's entry stays empty (start.py:46), and such a window stops at "incomplete" (`Gui.CheckSolution`).
- Gui.FixedCheckAcceptsSolution: proves only that the stored solution is accepted and that an accepted answer is a solved Sudoku. The converse does not hold. Emptying cells does not keep the solution unique, so another valid completion of the puzzle is still judged wrong.
- The aliasing between `SudokuGUI.board` and `generator.board`: the board is a value here, and `Generate` returns the new generator state.
- Boards of another shape, or cells holding non-integers: every operation requires the 9x9 shape the code indexes into. Cell values are otherwise unconstrained integers.
- Running time: the search is exponential in the worst case, and nothing in the code bounds it.
- Uniqueness of a puzzle's solution: the code never checks it, and the model does not claim it.

## Findings

| source | as written | input that shows it | evidently intended | confidence | as-written member | corrected member |
|---|---|---|---|---|---|---|
| start.py:135 | `is_solution_correct` compares the answer with `generator.board`, the carved puzzle, which still holds at least 40 zeros | any successful `generate`, then the stored solution typed into every cell | compare with `generator.solution`, the full grid snapshotted at sudoku_generator.py:13 and otherwise never read; this corrected check still rejects a valid completion that differs from the stored solution, because the carved puzzle need not have a unique solution | not executed; high | Gui.SolutionIsRejected | Gui.FixedCheckAcceptsSolution |
