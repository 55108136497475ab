/** The game around the puzzle: the board of cells with its new-game, solved,
    hint and guess rules, and the window's counters (hint budget, score,
    clock, pause). The two classes refer to each other, so they share a module. */
module SudokuGame {
  import opened Options
  import opened DecimalText
  import opened SudokuConstants
  import opened SudokuGrid
  import opened SudokuPuzzle
  import opened SudokuCell

  /** Points a correct guess earns. */
  const CorrectGuessPoints: int := 10

  /** A cell keeps the board from being solved while it is to be guessed or
      wrongly guessed. */
  predicate Open(s: Option<CellStatus>) {
    s == Some(ToGuess) || s == Some(WrongGuess)
  }

  /** The number of cells the window asks the board to empty for a chosen
      difficulty: the level itself, or Easy for any other value. */
  function CellsToGuess(difficulty: int): (n: int)
    ensures IsLevel(n)
    ensures IsLevel(difficulty) ==> n == difficulty
    ensures !IsLevel(difficulty) ==> n == Easy
  {
    if difficulty == Easy then Easy
    else if difficulty == Medium then Medium
    else if difficulty == Hard then Hard
    else Easy
  }

  /** The hint budget of a difficulty: 3 for Easy, 5 for Medium, 7 for Hard,
      and 3 for any other value. */
  function MaxHintsFor(difficulty: int): (h: int)
    ensures 3 <= h <= 7
    ensures h == 5 <==> difficulty == Medium
    ensures h == 7 <==> difficulty == Hard
    ensures difficulty != Medium && difficulty != Hard ==> h == 3
  {
    if difficulty == Easy then 3
    else if difficulty == Medium then 5
    else if difficulty == Hard then 7
    else 3
  }

  /** Harder levels get more hints. */
  lemma HarderLevelsGetMoreHints(d1: int, d2: int)
    requires IsLevel(d1) && IsLevel(d2) && d1 < d2
    ensures MaxHintsFor(d1) < MaxHintsFor(d2)
  {
  }

  /** The clock display of `elapsed` seconds: whole minutes and the seconds left over. */
  function ClockFace(elapsed: int): (mmss: (int, int))
    requires elapsed >= 0
    ensures 0 <= mmss.1 < 60 && mmss.0 >= 0
    ensures mmss.0 * 60 + mmss.1 == elapsed
  {
    (elapsed / 60, elapsed % 60)
  }

  /** The cell holds `number` as a new game leaves it: with the status,
      text and editability that number calls for. */
  ghost predicate Shows(cell: Cell, number: int)
    reads cell
  {
    cell.number == number && cell.status == Some(StatusFor(number)) &&
    cell.editable == (number == 0) &&
    cell.text == (if number == 0 then "" else IntToString(number))
  }

  class GameBoardPanel {
    var cells: array2<Cell>
    var puzzle: Puzzle
    var sudoku: Sudoku

    /** The cell objects on the board. */
    ghost function CellSet(): set<Cell>
      reads this, cells
    {
      set r, c | 0 <= r < cells.Length0 && 0 <= c < cells.Length1 :: cells[r, c]
    }

    /** What a new game changes: the puzzle's boards and the cells. */
    ghost var State: set<object>

    /** A 9x9 board in which the cell at (r, c) knows it is at (r, c), so the
        cells are distinct objects; `State` holds them and the puzzle's boards
        and nothing else of the board. */
    ghost predicate Valid()
      reads this, cells, puzzle, State
    {
      cells.Length0 == GridSize && cells.Length1 == GridSize && puzzle.Valid() &&
      this !in State && cells !in State && puzzle !in State &&
      puzzle.solution in State && puzzle.numbers in State && puzzle.isGiven in State &&
      forall r, c :: OnBoard(r, c) ==> cells[r, c] in State && cells[r, c].row == r && cells[r, c].col == c
    }

    /** The board shows the puzzle: an empty cell for each cell that is not
        given, the puzzle's number for each given one. */
    ghost predicate Dealt()
      reads this, cells, puzzle, State
      requires Valid()
    {
      forall r, c :: OnBoard(r, c) ==> DealtAt(r, c)
    }

    /** No cell is to be guessed or wrongly guessed. */
    ghost predicate Solved()
      reads this, cells, puzzle, State
      requires Valid()
    {
      forall r, c :: OnBoard(r, c) ==> !Open(cells[r, c].status)
    }

    /** (r, c) is the first cell to be guessed in row-major order. */
    ghost predicate FirstToGuess(r: int, c: int)
      reads this, cells, puzzle, State
      requires Valid()
    {
      OnBoard(r, c) && cells[r, c].status == Some(ToGuess) &&
      forall r', c' :: OnBoard(r', c') && Before(r', c', r, c) ==> cells[r', c'].status != Some(ToGuess)
    }

    /** A board of 81 fresh cells, each with an empty, editable text field,
        and a fresh puzzle. */
    constructor (sudoku: Sudoku)
      ensures Valid() && this.sudoku == sudoku && fresh(puzzle) && fresh(cells)
      ensures fresh(State)
      ensures forall r, c :: OnBoard(r, c) ==>
        cells[r, c].number == 0 && cells[r, c].status == None && cells[r, c].text == "" && cells[r, c].editable
    {
      var rows: seq<seq<Cell>> := [];
      for row := 0 to GridSize
        modifies {}
        invariant |rows| == row
        invariant forall r :: 0 <= r < row ==> |rows[r]| == GridSize
        invariant forall r, c :: 0 <= r < row && 0 <= c < GridSize ==>
          fresh(rows[r][c]) && rows[r][c].row == r && rows[r][c].col == c &&
          rows[r][c].number == 0 && rows[r][c].status == None && rows[r][c].text == "" && rows[r][c].editable
      {
        var line: seq<Cell> := [];
        for col := 0 to GridSize
          modifies {}
          invariant |line| == col
          invariant forall c :: 0 <= c < col ==>
            fresh(line[c]) && line[c].row == row && line[c].col == c &&
            line[c].number == 0 && line[c].status == None && line[c].text == "" && line[c].editable
        {
          var cell := new Cell(row, col);
          line := line + [cell];
        }
        rows := rows + [line];
      }
      var board := new Cell[GridSize, GridSize]((r, c) requires 0 <= r < |rows| && 0 <= c < |rows[r]| => rows[r][c]);
      var p := new Puzzle();
      cells := board;
      puzzle := p;
      this.sudoku := sudoku;
      State := {p.solution as object, p.numbers, p.isGiven} +
        set r, c | 0 <= r < GridSize && 0 <= c < GridSize :: board[r, c] as object;
    }

    /** Generates a puzzle with `difficulty` empty cells and deals it onto the
        cells: a cell that is not given gets 0, a given one the puzzle's number. */
    method NewGame(difficulty: int)
      requires Valid()
      modifies State
      ensures Valid() && Dealt()
      ensures NoConflict(GridOf(puzzle.solution))
      ensures Complete(GridOf(puzzle.solution)) ==>
        forall r, c :: OnBoard(r, c) ==> (cells[r, c].status == Some(ToGuess) <==> !puzzle.isGiven[r, c])
      ensures difficulty <= 0 ==> Cleared(MaskOf(puzzle.isGiven), CellCount) == 0
      ensures Complete(GridOf(puzzle.solution)) && 0 < difficulty <= CellCount ==>
        Cleared(MaskOf(puzzle.isGiven), CellCount) == difficulty && !Solved()
    {
      puzzle.NewPuzzle(difficulty);
      Deal();
      if Complete(GridOf(puzzle.solution)) {
        DealtCompletePuzzle();
      }
    }

    /** Once a complete solution is dealt, exactly the cells the puzzle does
        not give are to be guessed, and a board with one of them is not solved. */
    lemma DealtCompletePuzzle()
      requires Valid() && Dealt() && Complete(GridOf(puzzle.solution))
      ensures forall r, c :: OnBoard(r, c) ==> (cells[r, c].status == Some(ToGuess) <==> !puzzle.isGiven[r, c])
      ensures Cleared(MaskOf(puzzle.isGiven), CellCount) > 0 ==> !Solved()
    {
      if Cleared(MaskOf(puzzle.isGiven), CellCount) > 0 {
        SomeCleared(MaskOf(puzzle.isGiven), CellCount);
        var r, c :| OnBoard(r, c) && !MaskOf(puzzle.isGiven)[r][c];
        assert Open(cells[r, c].status);
      }
    }

    /** The loop of NewGame that resets each cell: with 0 where the puzzle
        does not give the cell, with the puzzle's number where it does. */
    method Deal()
      requires Valid()
      modifies CellSet()
      ensures Valid()
      ensures forall r, c :: OnBoard(r, c) ==>
        Shows(cells[r, c], if puzzle.isGiven[r, c] then puzzle.numbers[r, c] else 0)
    {
      for row := 0 to GridSize
        invariant Valid()
        invariant forall r, c :: OnBoard(r, c) && r < row ==>
          Shows(cells[r, c], if puzzle.isGiven[r, c] then puzzle.numbers[r, c] else 0)
      {
        for col := 0 to GridSize
          invariant Valid()
          invariant forall r, c :: OnBoard(r, c) && Before(r, c, row, col) ==>
            Shows(cells[r, c], if puzzle.isGiven[r, c] then puzzle.numbers[r, c] else 0)
        {
          if !puzzle.isGiven[row, col] {
            cells[row, col].NewGame(0, false);
          } else {
            cells[row, col].NewGame(puzzle.numbers[row, col], true);
          }
        }
      }
    }

    /** The cell at (r, c) shows what the puzzle holds there. */
    ghost predicate DealtAt(r: int, c: int)
      reads this, cells, puzzle, State
      requires Valid() && OnBoard(r, c)
    {
      (puzzle.isGiven[r, c] ==> puzzle.numbers[r, c] == puzzle.solution[r, c]) &&
      (!puzzle.isGiven[r, c] ==> puzzle.numbers[r, c] == 0) &&
      Shows(cells[r, c], puzzle.numbers[r, c])
    }

    /** True when no cell is to be guessed or wrongly guessed. Reads the board
        and writes nothing. */
    method IsSolved() returns (solved: bool)
      requires Valid()
      ensures solved == Solved()
    {
      for row := 0 to GridSize
        invariant forall r, c :: OnBoard(r, c) && r < row ==> !Open(cells[r, c].status)
      {
        for col := 0 to GridSize
          invariant forall r, c :: OnBoard(r, c) && Before(r, c, row, col) ==> !Open(cells[r, c].status)
        {
          if cells[row, col].status == Some(ToGuess) || cells[row, col].status == Some(WrongGuess) {
            return false;
          }
        }
      }
      return true;
    }

    /** Reveals the first cell to be guessed, in row-major order: it shows the
        solution's digit, counts as correctly guessed and is locked. With no
        cell to be guessed nothing changes (the source shows a message). The
        revealed cell is reported in `hint`. */
    method ProvideHint() returns (ghost hint: Option<(int, int)>)
      requires Valid()
      modifies CellSet()
      ensures Valid()
      ensures hint == None <==> forall r, c :: OnBoard(r, c) ==> old(cells[r, c].status) != Some(ToGuess)
      ensures hint == None ==> forall r, c :: OnBoard(r, c) ==> unchanged(cells[r, c])
      ensures hint.Some? ==>
        var (hr, hc) := hint.value;
        old(FirstToGuess(hr, hc)) &&
        cells[hr, hc].status == Some(CorrectGuess) &&
        cells[hr, hc].text == IntToString(puzzle.solution[hr, hc]) &&
        !cells[hr, hc].editable && cells[hr, hc].number == old(cells[hr, hc].number) &&
        forall r, c :: OnBoard(r, c) && (r, c) != (hr, hc) ==> unchanged(cells[r, c])
    {
      for row := 0 to GridSize
        invariant forall r, c :: OnBoard(r, c) ==> unchanged(cells[r, c])
        invariant forall r, c :: OnBoard(r, c) && r < row ==> cells[r, c].status != Some(ToGuess)
      {
        for col := 0 to GridSize
          invariant forall r, c :: OnBoard(r, c) ==> unchanged(cells[r, c])
          invariant forall r, c :: OnBoard(r, c) && Before(r, c, row, col) ==> cells[r, c].status != Some(ToGuess)
        {
          var cell := cells[row, col];
          if cell.status == Some(ToGuess) {
            var correctNumber := puzzle.solution[row, col];
            cell.text := IntToString(correctNumber);
            cell.status := Some(CorrectGuess);
            cell.editable := false;
            cell.Paint();
            hint := Some((row, col));
            return;
          }
        }
      }
      hint := None;
    }

    /** The player pressed Enter in `cell`. Text that is not a number in 1..9
        is cleared and nothing else changes. A number equal to the solution's
        digit makes the cell correctly guessed and earns 10 points; any other
        makes it wrongly guessed. The text stays as typed in both cases. */
    method ActionPerformed(cell: Cell)
      requires Valid() && cell in CellSet()
      modifies cell, sudoku
      ensures Valid()
      ensures cell.number == old(cell.number)
      ensures var guess := ParseInt(old(cell.text));
        if guess.None? || !(1 <= guess.value <= GridSize) then
          cell.text == "" && cell.status == old(cell.status) && cell.editable == old(cell.editable) &&
          unchanged(sudoku)
        else if guess.value == puzzle.solution[cell.row, cell.col] then
          cell.status == Some(CorrectGuess) && cell.text == old(cell.text) && cell.editable == old(cell.editable) &&
          sudoku.score == old(sudoku.score) + CorrectGuessPoints && sudoku.Counters() == old(sudoku.Counters())
        else
          cell.status == Some(WrongGuess) && cell.text == old(cell.text) && cell.editable == old(cell.editable) &&
          unchanged(sudoku)
    {
      var numberIn := ParseInt(cell.text);
      if numberIn.None? {
        cell.text := "";
        return;
      }
      if numberIn.value < 1 || numberIn.value > GridSize {
        cell.text := "";
        return;
      }
      if numberIn.value == puzzle.solution[cell.row, cell.col] {
        cell.status := Some(CorrectGuess);
        sudoku.UpdateScore(CorrectGuessPoints);
      } else {
        cell.status := Some(WrongGuess);
      }
      cell.Paint();
    }
  }

  /** The window: difficulty, hint budget, score, the one-second clock and
      its pause flag, around a board. `clock` is the timer label's
      (minutes, seconds). */
  class Sudoku {
    var board: GameBoardPanel?
    var currentDifficulty: int
    var elapsedTime: int
    var clock: (int, int)
    var isPaused: bool
    /** Whether the one-second timer is running; it is stopped and restarted
        around every new game. */
    var timerRunning: bool
    var hintCounter: int
    var maxHints: int
    var score: int

    /** Everything but the score, for stating what an operation leaves alone. */
    function Counters(): (GameBoardPanel?, int, int, (int, int), bool, bool, int, int)
      reads this
    {
      (board, currentDifficulty, elapsedTime, clock, isPaused, timerRunning, hintCounter, maxHints)
    }

    /** The hints used stay within the budget. */
    ghost predicate HintBudget()
      reads this
    {
      0 <= hintCounter <= maxHints
    }

    ghost predicate Valid()
      reads this, board
      reads if board != null then {board, board.cells, board.puzzle} + board.State else {}
    {
      board != null && board.sudoku == this && board.Valid() && this !in board.State &&
      HintBudget() && elapsedTime >= 0 && clock == ClockFace(elapsedTime)
    }

    /** Opens the window at `difficulty`: the hint budget of that difficulty,
        score 0, no hints used, and a first game. */
    constructor (difficulty: int)
      ensures Valid() && board.Dealt()
      ensures currentDifficulty == difficulty && maxHints == MaxHintsFor(difficulty)
      ensures score == 0 && hintCounter == 0 && elapsedTime == 0 && !isPaused && timerRunning
    {
      currentDifficulty := difficulty;
      score := 0;
      hintCounter := 0;
      elapsedTime := 0;
      clock := (0, 0);
      isPaused := false;
      timerRunning := false;
      board := null;
      new;
      SetMaxHints(difficulty);
      board := new GameBoardPanel(this);
      StartNewGame(difficulty);
    }

    /** Sets the hint budget for `difficulty`. */
    method SetMaxHints(difficulty: int)
      modifies this
      ensures maxHints == MaxHintsFor(difficulty)
      ensures board == old(board) && currentDifficulty == old(currentDifficulty) && score == old(score)
      ensures elapsedTime == old(elapsedTime) && clock == old(clock) && isPaused == old(isPaused)
      ensures timerRunning == old(timerRunning) && hintCounter == old(hintCounter)
    {
      if difficulty == Easy {
        maxHints := 3;
      } else if difficulty == Medium {
        maxHints := 5;
      } else if difficulty == Hard {
        maxHints := 7;
      } else {
        maxHints := 3;
      }
    }

    /** The number of hints still available, as the hint button shows it. */
    function HintsLeft(): (n: int)
      reads this
      requires HintBudget()
      ensures 0 <= n <= maxHints
      ensures n == 0 <==> hintCounter == maxHints
    {
      maxHints - hintCounter
    }

    /** The hint button: while hints are left, reveals the first cell to be
        guessed (as `ProvideHint` does, reported in `hint`) and uses one hint
        up, even when no cell was left to reveal; otherwise changes nothing.
        The budget, the score, the clock and the difficulty are kept. */
    method HintPressed() returns (ghost hint: Option<(int, int)>)
      requires Valid()
      modifies this, board.CellSet()
      ensures Valid() && board == old(board)
      ensures old(hintCounter) < maxHints ==> hintCounter == old(hintCounter) + 1
      ensures old(hintCounter) >= maxHints ==> hintCounter == old(hintCounter) && hint == None
      ensures hint == None ==> forall r, c :: OnBoard(r, c) ==> unchanged(board.cells[r, c])
      ensures old(hintCounter) < maxHints && hint == None ==>
        forall r, c :: OnBoard(r, c) ==> old(board.cells[r, c].status) != Some(ToGuess)
      ensures hint.Some? ==>
        var (hr, hc) := hint.value;
        old(hintCounter) < maxHints &&
        old(board.FirstToGuess(hr, hc)) &&
        board.cells[hr, hc].status == Some(CorrectGuess) &&
        board.cells[hr, hc].text == IntToString(board.puzzle.solution[hr, hc]) &&
        !board.cells[hr, hc].editable && board.cells[hr, hc].number == old(board.cells[hr, hc].number) &&
        forall r, c :: OnBoard(r, c) && (r, c) != (hr, hc) ==> unchanged(board.cells[r, c])
      ensures maxHints == old(maxHints) && score == old(score) && elapsedTime == old(elapsedTime)
      ensures clock == old(clock) && isPaused == old(isPaused) && timerRunning == old(timerRunning)
      ensures currentDifficulty == old(currentDifficulty)
    {
      hint := None;
      if hintCounter < maxHints {
        hint := board.ProvideHint();
        hintCounter := hintCounter + 1;
      }
    }

    /** Adds `points` to the score. */
    method UpdateScore(points: int)
      modifies this
      ensures score == old(score) + points
      ensures Counters() == old(Counters())
    {
      score := score + points;
    }

    /** One timer period: a running, unpaused clock advances one second and
        shows the new time. */
    method Tick()
      requires Valid()
      modifies this
      ensures Valid() && board == old(board)
      ensures elapsedTime == if timerRunning && !isPaused then old(elapsedTime) + 1 else old(elapsedTime)
      ensures isPaused == old(isPaused) && timerRunning == old(timerRunning)
      ensures hintCounter == old(hintCounter) && maxHints == old(maxHints) && score == old(score)
      ensures currentDifficulty == old(currentDifficulty)
      ensures !(timerRunning && !isPaused) ==> clock == old(clock)
    {
      if timerRunning && !isPaused {
        elapsedTime := elapsedTime + 1;
        clock := (elapsedTime / 60, elapsedTime % 60);
      }
    }

    /** Pauses a running clock or resumes a paused one. */
    method TogglePauseResume()
      requires Valid()
      modifies this
      ensures Valid() && board == old(board)
      ensures isPaused == !old(isPaused)
      ensures elapsedTime == old(elapsedTime) && timerRunning == old(timerRunning)
      ensures hintCounter == old(hintCounter) && maxHints == old(maxHints) && score == old(score)
      ensures clock == old(clock) && currentDifficulty == old(currentDifficulty)
    {
      isPaused := !isPaused;
    }

    /** Restarts the clock and deals a new game at the window's opening
        difficulty. Hints used and the score are kept. */
    method ResetGame()
      requires Valid()
      modifies this, board.State
      ensures Valid()
      ensures board == old(board)
      ensures board.Dealt()
      ensures elapsedTime == 0 && clock == (0, 0) && timerRunning
      ensures hintCounter == old(hintCounter) && maxHints == old(maxHints) && score == old(score)
      ensures isPaused == old(isPaused) && currentDifficulty == old(currentDifficulty)
      ensures Complete(GridOf(board.puzzle.solution)) && 0 < currentDifficulty <= CellCount ==>
        Cleared(MaskOf(board.puzzle.isGiven), CellCount) == currentDifficulty
    {
      timerRunning := false;
      elapsedTime := 0;
      clock := (0, 0);
      board.NewGame(currentDifficulty);
      timerRunning := true;
    }

    /** Restarts the clock and deals a new game with the number of empty
        cells of `difficulty`. The hint budget, the hints used, the score and
        the window's difficulty are kept. */
    method StartNewGame(difficulty: int)
      requires board != null && board.sudoku == this && board.Valid() && this !in board.State
      modifies this, board.State
      ensures board == old(board) && board.sudoku == this && board.Valid() && board.Dealt()
      ensures elapsedTime == 0 && clock == (0, 0) && timerRunning
      ensures hintCounter == old(hintCounter) && maxHints == old(maxHints) && score == old(score)
      ensures isPaused == old(isPaused) && currentDifficulty == old(currentDifficulty)
      ensures Complete(GridOf(board.puzzle.solution)) ==>
        Cleared(MaskOf(board.puzzle.isGiven), CellCount) == CellsToGuess(difficulty)
    {
      timerRunning := false;
      elapsedTime := 0;
      clock := (0, 0);
      var cellsToGuess := CellsToGuess(difficulty);
      ConstantsAgree();
      board.NewGame(cellsToGuess);
      timerRunning := true;
    }
  }
}
