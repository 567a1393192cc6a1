/** The statable helpers of the `SudokuGUI` window: the per-keystroke
    check `validate_input`, the density gate of `check_solution`, and the
    answer comparison `is_solution_correct`. Widgets, dialogs and message
    boxes are not modelled; an entry widget is its text. */
module Gui {
  import opened Grid
  import opened Solver
  import opened Generator

  predicate IsDigitChar(ch: char) {
    '0' <= ch <= '9'
  }

  /** `str.isdigit()` over ASCII: at least one character, all digits. */
  predicate IsDigits(s: string) {
    |s| > 0 && forall k | 0 <= k < |s| :: IsDigitChar(s[k])
  }

  /** `int(s)` for a string of decimal digits, leading zeros allowed. */
  function DigitsValue(s: string): nat
    requires forall k | 0 <= k < |s| :: IsDigitChar(s[k])
  {
    if |s| == 0 then 0
    else
      assert IsDigitChar(s[|s| - 1]);
      DigitsValue(s[..|s| - 1]) * 10 + (s[|s| - 1] as int - '0' as int)
  }

  /** `str(v)` for a single digit, as the board cells are shown. */
  function Show(v: int): (s: string)
    requires 0 <= v <= 9
    ensures IsDigits(s) && DigitsValue(s) == v
  {
    var s := [(('0' as int) + v) as char];
    assert s[..0] == [];
    s
  }

  /** `validate_input(new_value)`: the text an entry may hold after a
      keystroke. */
  predicate ValidateInput(newValue: string) {
    newValue == "" || (IsDigits(newValue) && 1 <= DigitsValue(newValue) <= 9)
  }

  /** The digits of a string are all '0' exactly when its value is 0. */
  lemma {:induction false} ValueZeroIffAllZeros(s: string)
    requires forall k | 0 <= k < |s| :: IsDigitChar(s[k])
    ensures DigitsValue(s) == 0 <==> forall k | 0 <= k < |s| :: s[k] == '0'
    decreases |s|
  {
    if |s| > 0 {
      var init := s[..|s| - 1];
      ValueZeroIffAllZeros(init);
      assert forall k | 0 <= k < |init| :: init[k] == s[k];
    }
  }

  /** The accepted texts are the empty text and a digit 1..9 after any
      number of '0's: "" and "05" pass, "0", "10" and "a" do not. */
  lemma ValidateInputIffPaddedDigit(s: string)
    ensures ValidateInput(s) <==>
      s == "" || ('1' <= s[|s| - 1] <= '9' && forall k | 0 <= k < |s| - 1 :: s[k] == '0')
  {
    if s != "" {
      var init := s[..|s| - 1];
      assert forall k | 0 <= k < |init| :: init[k] == s[k];
      if forall k | 0 <= k < |s| :: IsDigitChar(s[k]) {
        ValueZeroIffAllZeros(init);
      }
    }
  }

  lemma ValidateInputExamples()
    ensures ValidateInput("") && ValidateInput("7") && ValidateInput("05")
    ensures !ValidateInput("0") && !ValidateInput("10") && !ValidateInput("a")
  {
    ValidateInputIffPaddedDigit("05");
    ValidateInputIffPaddedDigit("10");
  }

  // ---------------------------------------------------------------------
  // Checking an answer

  /** The row-major comparison loop of `is_solution_correct`, resumed at
      (i, j): false at the first differing cell. */
  function MatchFrom(user: Board, board: Board, i: int, j: int): (ok: bool)
    requires IsGrid(user) && IsGrid(board) && 0 <= i <= 9 && 0 <= j <= 9
    ensures ok <==>
      forall i', j' | 0 <= i' < 9 && 0 <= j' < 9 && !Before(i', j', i, j) :: user[i'][j'] == board[i'][j']
    decreases 9 - i, 9 - j
  {
    if i == 9 then true
    else if j == 9 then MatchFrom(user, board, i + 1, 0)
    else if user[i][j] != board[i][j] then false
    else MatchFrom(user, board, i, j + 1)
  }

  /** Two grids are equal exactly when all 81 cells agree. */
  function SameGrid(user: Board, board: Board): (ok: bool)
    requires IsGrid(user) && IsGrid(board)
    ensures ok <==> user == board
  {
    var ok := MatchFrom(user, board, 0, 0);
    if ok then CellwiseEqual(user, board); ok else ok
  }

  /** `is_solution_correct(user_solution)` as written: the answer is
      compared with `generator.board`, the carved puzzle. */
  function IsSolutionCorrect(g: SudokuGenerator, user: Board): (ok: bool)
    requires IsGrid(g.board) && IsGrid(user)
    ensures ok <==> user == g.board
  {
    SameGrid(user, g.board)
  }

  /** The 81 entry widgets, each reduced to its text. */
  predicate IsEntryGrid(entries: seq<seq<string>>) {
    |entries| == 9 && forall i | 0 <= i < 9 :: |entries[i]| == 9
  }

  /** `value and value.isdigit()`: the entry may be read as a number. */
  predicate Filled(entry: string) {
    entry != "" && IsDigits(entry)
  }

  predicate AllFilled(entries: seq<seq<string>>)
    requires IsEntryGrid(entries)
  {
    forall i, j | 0 <= i < 9 && 0 <= j < 9 :: Filled(entries[i][j])
  }

  /** `user_solution[i][j] = int(value)` for every entry. */
  function ReadEntries(entries: seq<seq<string>>): (user: Board)
    requires IsEntryGrid(entries) && AllFilled(entries)
    ensures IsGrid(user)
    ensures forall i, j | 0 <= i < 9 && 0 <= j < 9 :: user[i][j] == DigitsValue(entries[i][j])
  {
    seq(9, i requires 0 <= i < 9 =>
      seq(9, j requires 0 <= j < 9 => assert Filled(entries[i][j]); DigitsValue(entries[i][j])))
  }

  /** The message `check_solution` ends with. */
  datatype Verdict = Incomplete | Correct | Incorrect

  /** `check_solution`: any empty or non-numeric entry stops the check
      before any comparison; otherwise the numbers read are compared with
      `generator.board`. */
  function CheckSolution(g: SudokuGenerator, entries: seq<seq<string>>): (v: Verdict)
    requires IsGrid(g.board) && IsEntryGrid(entries)
    ensures v == Incomplete <==> exists i, j | 0 <= i < 9 && 0 <= j < 9 :: !Filled(entries[i][j])
    ensures v == Correct <==>
      AllFilled(entries) && forall i, j | 0 <= i < 9 && 0 <= j < 9 :: DigitsValue(entries[i][j]) == g.board[i][j]
  {
    if !AllFilled(entries) then Incomplete
    else
      var user := ReadEntries(entries);
      if IsSolutionCorrect(g, user) then Correct else Incorrect
  }

  /** The entries of a full window: every cell of `s` shown with `str`.
      Only a grid of digits 1..9 fills every entry; a 0 cell is left empty. */
  function Render(s: Board): (entries: seq<seq<string>>)
    requires IsGrid(s) && forall i, j | 0 <= i < 9 && 0 <= j < 9 :: 1 <= s[i][j] <= 9
    ensures IsEntryGrid(entries) && AllFilled(entries)
    ensures ReadEntries(entries) == s
  {
    var entries := seq(9, i requires 0 <= i < 9 => seq(9, j requires 0 <= j < 9 => Show(s[i][j])));
    CellwiseEqual(ReadEntries(entries), s);
    entries
  }

  /** After any successful `generate`, no full window of entries that pass
      `validate_input` is judged correct, the stored solution included: each
      entry reads as 1..9 while the carved board still holds 0s. */
  lemma AnswerAfterGenerateIsRejected(g: SudokuGenerator, difficulty: string, order: seq<Cell>, entries: seq<seq<string>>)
    requires IsGrid(g.board) && IsCellOrder(order) && IsDifficulty(difficulty)
    requires IsEntryGrid(entries)
    requires forall i, j | 0 <= i < 9 && 0 <= j < 9 :: entries[i][j] != "" && ValidateInput(entries[i][j])
    ensures CheckSolution(Generate(g, difficulty, order).0, entries) == Incorrect
  {
    var g' := Generate(g, difficulty, order).0;
    assert |EmptyCells(g'.board)| >= 40;
    var e :| e in EmptyCells(g'.board);
    assert AllFilled(entries);
    assert DigitsValue(entries[e.0][e.1]) != g'.board[e.0][e.1];
  }

  /** The stored solution, shown in full, is rejected by the check as written. */
  lemma SolutionIsRejected(g: SudokuGenerator, difficulty: string, order: seq<Cell>)
    requires IsGrid(g.board) && IsCellOrder(order) && IsDifficulty(difficulty)
    ensures var g' := Generate(g, difficulty, order).0;
      CheckSolution(g', Render(g'.solution.value)) == Incorrect
  {
    var g' := Generate(g, difficulty, order).0;
    var entries := Render(g'.solution.value);
    forall i, j | 0 <= i < 9 && 0 <= j < 9
      ensures entries[i][j] != "" && ValidateInput(entries[i][j])
    {
      assert 1 <= g'.solution.value[i][j] <= 9;
      assert ReadEntries(entries)[i][j] == DigitsValue(entries[i][j]);
    }
    AnswerAfterGenerateIsRejected(g, difficulty, order, entries);
  }

  // ---------------------------------------------------------------------
  // The comparison as intended

  /** `is_solution_correct` compared with `generator.solution`, the full
      grid snapshotted before carving. */
  function IsSolutionCorrectFixed(g: SudokuGenerator, user: Board): (ok: bool)
    requires g.solution.Some? && IsGrid(g.solution.value) && IsGrid(user)
    ensures ok <==> user == g.solution.value
  {
    SameGrid(user, g.solution.value)
  }

  /** `check_solution` with the intended comparison. */
  function CheckSolutionFixed(g: SudokuGenerator, entries: seq<seq<string>>): (v: Verdict)
    requires g.solution.Some? && IsGrid(g.solution.value) && IsEntryGrid(entries)
    ensures v == Incomplete <==> exists i, j | 0 <= i < 9 && 0 <= j < 9 :: !Filled(entries[i][j])
    ensures v == Correct <==> AllFilled(entries) && ReadEntries(entries) == g.solution.value
  {
    if !AllFilled(entries) then Incomplete
    else
      var user := ReadEntries(entries);
      if IsSolutionCorrectFixed(g, user) then Correct else Incorrect
  }

  /** With the intended comparison, after any successful `generate` the
      stored solution shown in full is judged correct, and any answer judged
      correct keeps every given of the puzzle and is a solved Sudoku. */
  lemma FixedCheckAcceptsSolution(g: SudokuGenerator, difficulty: string, order: seq<Cell>, entries: seq<seq<string>>)
    requires IsGrid(g.board) && IsCellOrder(order) && IsDifficulty(difficulty)
    requires IsEntryGrid(entries)
    ensures var g' := Generate(g, difficulty, order).0;
      && CheckSolutionFixed(g', Render(g'.solution.value)) == Correct
      && (CheckSolutionFixed(g', entries) == Correct ==>
            ValidGrid(ReadEntries(entries)) && Completes(g'.board, ReadEntries(entries)))
  {
  }
}
