/** The computer player of tic-tac-toe: a heuristic that scores the eight
    lines of the 3x3 board, win detection by bit patterns, move generation,
    and a depth-limited minimax search with alpha-beta cut-offs that plays
    each candidate move on the live board and takes it back afterwards. */
module TicTacToe {
  import opened Options

  datatype Seed = Cross | Nought | NoSeed

  /** Board dimensions; the evaluation hard-codes a 3x3 board. */
  const Rows: int := 3
  const Cols: int := 3

  /** Java's Integer.MIN_VALUE and Integer.MAX_VALUE, the initial window. */
  const MinInt: int := -0x8000_0000
  const MaxInt: int := 0x7FFF_FFFF

  /** The depth `move` searches to. */
  const SearchDepth: nat := 6

  /** A board as a value: its nine seeds in row-major order. */
  predicate IsBoard(b: seq<Seed>) {
    |b| == Rows * Cols
  }

  predicate OnBoard(row: int, col: int) {
    0 <= row < Rows && 0 <= col < Cols
  }

  /** The position of (row, col) in row-major order, which is also the bit
      the win mask uses for that cell. */
  function Index(row: int, col: int): (k: int)
    requires OnBoard(row, col)
    ensures 0 <= k < 9
  {
    row * 3 + col
  }

  /** The opponent of a player: Nought for Cross, Cross for anything else. */
  function Opponent(seed: Seed): (opp: Seed)
    ensures opp != NoSeed
    ensures opp == Nought <==> seed == Cross
    ensures opp != seed
  {
    if seed == Cross then Nought else Cross
  }

  // ---------------------------------------------------------------------
  // Lines and the heuristic

  /** The eight lines in the order the evaluation visits them: rows 0 to 2,
      columns 0 to 2, the main diagonal and the anti-diagonal, each as three
      row-major positions. */
  const Lines: seq<(int, int, int)> :=
    [(0, 1, 2), (3, 4, 5), (6, 7, 8), (0, 3, 6), (1, 4, 7), (2, 5, 8), (0, 4, 8), (2, 4, 6)]

  /** How many of the three seeds are `p`. */
  function Count(x: Seed, y: Seed, z: Seed, p: Seed): (n: nat)
    ensures n <= 3
  {
    (if x == p then 1 else 0) + (if y == p then 1 else 0) + (if z == p then 1 else 0)
  }

  /** 10 to the power n - 1, for the counts 1 to 3 a line can hold. */
  function Magnitude(n: nat): nat
    requires 1 <= n <= 3
  {
    if n == 1 then 1 else if n == 2 then 10 else 100
  }

  /** What a line is worth to the player holding `mine` of its cells against
      an opponent holding `theirs`: nothing if both have a cell there,
      10^(mine-1) if only the player does, -10^(theirs-1) if only the
      opponent does, nothing for an empty line. */
  function LineScore(mine: nat, theirs: nat): int
    requires mine <= 3 && theirs <= 3
  {
    if mine > 0 && theirs > 0 then 0
    else if mine > 0 then Magnitude(mine)
    else if theirs > 0 then -(Magnitude(theirs) as int)
    else 0
  }

  /** The score of the line through (row1, col1), (row2, col2) and
      (row3, col3). */
  function EvaluateLine(b: seq<Seed>, me: Seed, opp: Seed,
                        row1: int, col1: int, row2: int, col2: int, row3: int, col3: int): (score: int)
    requires IsBoard(b)
    requires OnBoard(row1, col1) && OnBoard(row2, col2) && OnBoard(row3, col3)
    ensures -100 <= score <= 100
  {
    ScoreCells(b[Index(row1, col1)], b[Index(row2, col2)], b[Index(row3, col3)], me, opp)
  }

  /** The score of a line holding the seeds `first`, `second` and `third`,
      read in that order: a first seed sets the sign, each further seed of
      the same side multiplies by ten, and a seed of the other side makes the
      line worth nothing. */
  function ScoreCells(first: Seed, second: Seed, third: Seed, me: Seed, opp: Seed): (score: int)
    ensures -100 <= score <= 100
    ensures me != opp ==>
      score == LineScore(Count(first, second, third, me), Count(first, second, third, opp))
  {
    var s1 := if first == me then 1 else if first == opp then -1 else 0;
    if second == me && s1 == -1 then 0
    else if second != me && second == opp && s1 == 1 then 0
    else
      var s2 :=
        if second == me then (if s1 == 1 then 10 else 1)
        else if second == opp then (if s1 == -1 then -10 else -1)
        else s1;
      if third == me then
        (if s2 > 0 then s2 * 10 else if s2 < 0 then 0 else 1)
      else if third == opp then
        (if s2 < 0 then s2 * 10 else if s2 > 0 then 0 else -1)
      else s2
  }

  /** The eight lines the heuristic scores, in the order it scores them,
      each as the coordinates (row1, col1, row2, col2, row3, col3) of its
      cells. */
  const EvaluatedLines: seq<(int, int, int, int, int, int)> :=
    [(0, 0, 0, 1, 0, 2), (1, 0, 1, 1, 1, 2), (2, 0, 2, 1, 2, 2),
     (0, 0, 1, 0, 2, 0), (0, 1, 1, 1, 2, 1), (0, 2, 1, 2, 2, 2),
     (0, 0, 1, 1, 2, 2), (0, 2, 1, 1, 2, 0)]

  /** The heuristic scores exactly the lines of the table, in its order. */
  lemma EvaluatedLinesAreLines()
    ensures |EvaluatedLines| == |Lines|
    ensures forall j :: 0 <= j < |Lines| ==>
      var (r1, c1, r2, c2, r3, c3) := EvaluatedLines[j];
      OnBoard(r1, c1) && OnBoard(r2, c2) && OnBoard(r3, c3) &&
      Lines[j] == (r1 * 3 + c1, r2 * 3 + c2, r3 * 3 + c3)
  {
  }

  /** The heuristic value of a board for `me`: the sum of its eight lines. */
  function Evaluate(b: seq<Seed>, me: Seed, opp: Seed): (score: int)
    requires IsBoard(b)
    ensures -800 <= score <= 800
  {
    EvaluateFrom(b, me, opp, 0)
  }

  /** The heuristic summed over lines j .. 7 of its list. */
  function EvaluateFrom(b: seq<Seed>, me: Seed, opp: Seed, j: int): (score: int)
    requires IsBoard(b) && 0 <= j <= |EvaluatedLines|
    ensures -100 * (|EvaluatedLines| - j) <= score <= 100 * (|EvaluatedLines| - j)
    decreases |EvaluatedLines| - j
  {
    if j == |EvaluatedLines| then 0
    else
      EvaluatedLinesAreLines();
      var (r1, c1, r2, c2, r3, c3) := EvaluatedLines[j];
      EvaluateLine(b, me, opp, r1, c1, r2, c2, r3, c3) + EvaluateFrom(b, me, opp, j + 1)
  }

  /** The value of line `j` by the reference scoring. */
  function LineValue(b: seq<Seed>, me: Seed, opp: Seed, j: int): int
    requires IsBoard(b) && 0 <= j < |Lines|
  {
    var (x, y, z) := Lines[j];
    LineScore(Count(b[x], b[y], b[z], me), Count(b[x], b[y], b[z], opp))
  }

  /** The reference scoring of lines j .. 7. */
  function LinesFrom(b: seq<Seed>, me: Seed, opp: Seed, j: int): int
    requires IsBoard(b) && 0 <= j <= |Lines|
    decreases |Lines| - j
  {
    if j == |Lines| then 0 else LineValue(b, me, opp, j) + LinesFrom(b, me, opp, j + 1)
  }

  /** From any line on, the heuristic agrees with the reference scoring. */
  lemma {:induction false} EvaluateFromSumsLines(b: seq<Seed>, me: Seed, opp: Seed, j: int)
    requires IsBoard(b) && me != opp && 0 <= j <= |Lines|
    ensures |EvaluatedLines| == |Lines|
    ensures EvaluateFrom(b, me, opp, j) == LinesFrom(b, me, opp, j)
    decreases |Lines| - j
  {
    EvaluatedLinesAreLines();
    if j < |Lines| {
      EvaluateFromSumsLines(b, me, opp, j + 1);
    }
  }

  /** The heuristic is the reference line score summed over the three rows,
      the three columns and the two diagonals. */
  lemma EvaluateSumsLines(b: seq<Seed>, me: Seed, opp: Seed)
    requires IsBoard(b) && me != opp
    ensures Evaluate(b, me, opp) == LinesFrom(b, me, opp, 0)
  {
    EvaluateFromSumsLines(b, me, opp, 0);
  }

  /** A line scores the same for one side as it scores, negated, for the
      other. */
  lemma LineScoreAntisymmetric(mine: nat, theirs: nat)
    requires mine <= 3 && theirs <= 3
    ensures LineScore(theirs, mine) == -LineScore(mine, theirs)
  {
  }

  /** Swapping the two sides negates the value of every suffix of lines. */
  lemma {:induction false} LinesFromAntisymmetric(b: seq<Seed>, me: Seed, opp: Seed, j: int)
    requires IsBoard(b) && 0 <= j <= |Lines|
    ensures LinesFrom(b, opp, me, j) == -LinesFrom(b, me, opp, j)
    decreases |Lines| - j
  {
    if j < |Lines| {
      var (x, y, z) := Lines[j];
      var mine, theirs := Count(b[x], b[y], b[z], me), Count(b[x], b[y], b[z], opp);
      LineScoreAntisymmetric(mine, theirs);
      assert LineValue(b, me, opp, j) == LineScore(mine, theirs);
      assert LineValue(b, opp, me, j) == LineScore(theirs, mine);
      LinesFromAntisymmetric(b, me, opp, j + 1);
    }
  }

  /** The heuristic is zero-sum: what the board is worth to one side, it is
      worth negated to the other. */
  lemma EvaluateAntisymmetric(b: seq<Seed>, me: Seed, opp: Seed)
    requires IsBoard(b) && me != opp
    ensures Evaluate(b, opp, me) == -Evaluate(b, me, opp)
  {
    calc {
      Evaluate(b, opp, me);
    == { EvaluateSumsLines(b, opp, me); }
      LinesFrom(b, opp, me, 0);
    == { LinesFromAntisymmetric(b, me, opp, 0); }
      -LinesFrom(b, me, opp, 0);
    == { EvaluateSumsLines(b, me, opp); }
      -Evaluate(b, me, opp);
    }
  }

  // ---------------------------------------------------------------------
  // Winning

  /** `p` holds every cell of some row, column or diagonal. */
  predicate Won(b: seq<Seed>, p: Seed)
    requires IsBoard(b)
  {
    exists j :: 0 <= j < |Lines| && b[Lines[j].0] == p && b[Lines[j].1] == p && b[Lines[j].2] == p
  }

  /** The winning bit patterns, in their declared order (bottom row, middle
      row, top row, right, middle and left column, the two diagonals), each
      written as the set of its bit positions: 0b111000000 is {6, 7, 8}. */
  const WinningPatterns: seq<set<int>> :=
    [{6, 7, 8}, {3, 4, 5}, {0, 1, 2}, {2, 5, 8}, {1, 4, 7}, {0, 3, 6}, {0, 4, 8}, {2, 4, 6}]

  /** The bit positions among the first `n` whose cell holds `p`: the mask
      after the first `n` cells have been scanned. */
  function Mask(b: seq<Seed>, p: Seed, n: int): set<int>
    requires IsBoard(b) && 0 <= n <= 9
  {
    set k | 0 <= k < n && b[k] == p
  }

  /** Some pattern from the i-th on is wholly set in `mask`: what the pattern
      loop finds when it starts at pattern i. */
  predicate CoveredFrom(mask: set<int>, i: int)
    requires 0 <= i <= |WinningPatterns|
    decreases |WinningPatterns| - i
  {
    i < |WinningPatterns| && (WinningPatterns[i] <= mask || CoveredFrom(mask, i + 1))
  }

  /** The loop from pattern i finds a pattern exactly when one of those
      patterns is covered. */
  lemma {:induction false} CoveredFromSome(mask: set<int>, i: int)
    requires 0 <= i <= |WinningPatterns|
    ensures CoveredFrom(mask, i) <==> exists k :: i <= k < |WinningPatterns| && WinningPatterns[k] <= mask
    decreases |WinningPatterns| - i
  {
    if i < |WinningPatterns| {
      CoveredFromSome(mask, i + 1);
    }
  }

  /** A mask covers some winning pattern exactly when its owner holds a
      whole line. */
  lemma PatternsAreLines(b: seq<Seed>, p: Seed)
    requires IsBoard(b)
    ensures CoveredFrom(Mask(b, p, 9), 0) <==> Won(b, p)
  {
    var m := Mask(b, p, 9);
    CoveredFromSome(m, 0);
    if Won(b, p) {
      var j :| 0 <= j < |Lines| && b[Lines[j].0] == p && b[Lines[j].1] == p && b[Lines[j].2] == p;
      var i := if j < 3 then 2 - j else if j < 6 then 8 - j else j;
      assert WinningPatterns[i] <= m;
    }
    if i :| 0 <= i < |WinningPatterns| && WinningPatterns[i] <= m {
      var j := if i < 3 then 2 - i else if i < 6 then 8 - i else i;
      assert Lines[j].0 in WinningPatterns[i] && Lines[j].1 in WinningPatterns[i] && Lines[j].2 in WinningPatterns[i];
    }
  }

  /** Scanning one more cell adds its bit when the cell is the player's. */
  lemma MaskStep(b: seq<Seed>, p: Seed, n: int)
    requires IsBoard(b) && 0 <= n < 9
    ensures Mask(b, p, n + 1) == Mask(b, p, n) + (if b[n] == p then {n} else {})
  {
  }

  // ---------------------------------------------------------------------
  // Moves

  /** The (row, col) of the cell at position `k`. */
  function CellAt(k: int): (cell: (int, int))
    requires 0 <= k < Rows * Cols
    ensures OnBoard(cell.0, cell.1)
  {
    if k < 3 then (0, k) else if k < 6 then (1, k - 3) else (2, k - 6)
  }

  /** The cell at position `k` has position `k`. */
  lemma IndexOfCellAt(k: int)
    requires 0 <= k < Rows * Cols
    ensures Index(CellAt(k).0, CellAt(k).1) == k
  {
  }

  /** Each cell is the cell at its own position. */
  lemma CellAtIndex(row: int, col: int)
    requires OnBoard(row, col)
    ensures CellAt(Index(row, col)) == (row, col)
  {
  }

  /** The empty cells among the first `n` positions, in row-major order. */
  function EmptyCells(b: seq<Seed>, n: int): (moves: seq<(int, int)>)
    requires IsBoard(b) && 0 <= n <= 9
    ensures forall i :: 0 <= i < |moves| ==> OnBoard(moves[i].0, moves[i].1)
  {
    if n == 0 then []
    else EmptyCells(b, n - 1) + (if b[n - 1] == NoSeed then [CellAt(n - 1)] else [])
  }

  /** Scanning the cell at (row, col) appends it when it is empty. */
  lemma EmptyCellsStep(b: seq<Seed>, row: int, col: int)
    requires IsBoard(b) && OnBoard(row, col)
    ensures EmptyCells(b, row * 3 + col + 1) ==
      EmptyCells(b, row * 3 + col) + (if b[row * 3 + col] == NoSeed then [(row, col)] else [])
  {
    CellAtIndex(row, col);
  }

  /** The scan of the first `n` positions lists each empty cell among them,
      only those, and in increasing position. */
  lemma {:induction false} EmptyCellsAreEmpty(b: seq<Seed>, n: int)
    requires IsBoard(b) && 0 <= n <= 9
    ensures forall i :: 0 <= i < |EmptyCells(b, n)| ==>
      Index(EmptyCells(b, n)[i].0, EmptyCells(b, n)[i].1) < n &&
      b[Index(EmptyCells(b, n)[i].0, EmptyCells(b, n)[i].1)] == NoSeed
    ensures forall i, j :: 0 <= i < j < |EmptyCells(b, n)| ==>
      Index(EmptyCells(b, n)[i].0, EmptyCells(b, n)[i].1) < Index(EmptyCells(b, n)[j].0, EmptyCells(b, n)[j].1)
    ensures forall row, col :: OnBoard(row, col) && Index(row, col) < n && b[Index(row, col)] == NoSeed ==>
      (row, col) in EmptyCells(b, n)
  {
    if n > 0 {
      EmptyCellsAreEmpty(b, n - 1);
      var prev := EmptyCells(b, n - 1);
      var moves := EmptyCells(b, n);
      assert moves == prev + (if b[n - 1] == NoSeed then [CellAt(n - 1)] else []);
      IndexOfCellAt(n - 1);
      forall i | 0 <= i < |moves|
        ensures Index(moves[i].0, moves[i].1) < n && b[Index(moves[i].0, moves[i].1)] == NoSeed
      {
        if i < |prev| {
          assert moves[i] == prev[i];
        }
      }
      forall i, j | 0 <= i < j < |moves|
        ensures Index(moves[i].0, moves[i].1) < Index(moves[j].0, moves[j].1)
      {
        assert moves[i] == prev[i];
        if j < |prev| {
          assert moves[j] == prev[j];
        }
      }
      forall row, col | OnBoard(row, col) && Index(row, col) < n && b[Index(row, col)] == NoSeed
        ensures (row, col) in moves
      {
        if Index(row, col) == n - 1 {
          CellAtIndex(row, col);
          assert moves[|moves| - 1] == (row, col);
        } else {
          assert (row, col) in prev;
        }
      }
    }
  }

  /** The moves open on a board: none once either side has won, otherwise
      every empty cell in row-major order. */
  function Moves(b: seq<Seed>, me: Seed, opp: Seed): (moves: seq<(int, int)>)
    requires IsBoard(b)
    ensures forall i :: 0 <= i < |moves| ==> OnBoard(moves[i].0, moves[i].1)
  {
    if Won(b, me) || Won(b, opp) then [] else EmptyCells(b, 9)
  }

  /** A move is open exactly when neither side has won and its cell is
      empty; the open moves come in row-major order. */
  lemma MovesAreEmptyCells(b: seq<Seed>, me: Seed, opp: Seed)
    requires IsBoard(b)
    ensures forall row, col :: (row, col) in Moves(b, me, opp) <==>
      !Won(b, me) && !Won(b, opp) && OnBoard(row, col) && b[Index(row, col)] == NoSeed
    ensures var moves := Moves(b, me, opp);
      forall i, j :: 0 <= i < j < |moves| ==> Index(moves[i].0, moves[i].1) < Index(moves[j].0, moves[j].1)
  {
    EmptyCellsAreEmpty(b, 9);
  }

  /** Each open move is an empty cell of the board. */
  lemma OpenMoveIsEmpty(b: seq<Seed>, me: Seed, opp: Seed, i: int)
    requires IsBoard(b) && 0 <= i < |Moves(b, me, opp)|
    ensures var (row, col) := Moves(b, me, opp)[i]; OnBoard(row, col) && b[Index(row, col)] == NoSeed
  {
    EmptyCellsAreEmpty(b, 9);
  }

  /** Taking back a move played on an empty cell restores the board. */
  lemma TakeBack(b: seq<Seed>, k: int, s: Seed)
    requires 0 <= k < |b| && b[k] == NoSeed
    ensures b[k := s][k := NoSeed] == b
  {
  }

  // ---------------------------------------------------------------------
  // Search

  /** A score with the move that achieves it; (-1, -1) is no move. */
  datatype Outcome = Outcome(score: int, row: int, col: int)

  /** The minimax value of a board and the move that attains it, searching
      `depth` plies with `player` to move inside the window (alpha, beta).
      Leaves are scored by the reference line sum, which is the heuristic
      whenever the two sides differ (`EvaluateSumsLines`). */
  function BestMove(b: seq<Seed>, depth: nat, player: Seed, me: Seed, opp: Seed, alpha: int, beta: int): Outcome
    requires IsBoard(b)
    decreases depth, 1, 0
  {
    var moves := Moves(b, me, opp);
    if |moves| == 0 || depth == 0 then Outcome(LinesFrom(b, me, opp, 0), -1, -1)
    else TryMoves(b, depth, player, me, opp, moves, alpha, beta, -1, -1)
  }

  /** At depth 0, or with no move open, the search scores the board by the
      heuristic and names no move. */
  lemma BestMoveLeaf(b: seq<Seed>, depth: nat, player: Seed, me: Seed, opp: Seed, alpha: int, beta: int)
    requires IsBoard(b) && (depth == 0 || Moves(b, me, opp) == [])
    ensures BestMove(b, depth, player, me, opp, alpha, beta) == Outcome(LinesFrom(b, me, opp, 0), -1, -1)
  {
  }

  /** Otherwise it runs the search loop over the open moves, starting with
      no best move. */
  lemma BestMoveSearches(b: seq<Seed>, depth: nat, player: Seed, me: Seed, opp: Seed, alpha: int, beta: int)
    requires IsBoard(b) && depth > 0 && Moves(b, me, opp) != []
    ensures BestMove(b, depth, player, me, opp, alpha, beta) ==
      TryMoves(b, depth, player, me, opp, Moves(b, me, opp), alpha, beta, -1, -1)
  {
  }

  /** The search loop from a given point on: plays each remaining move in
      turn, scores the reply, narrows the window and stops once it closes. */
  function TryMoves(b: seq<Seed>, depth: nat, player: Seed, me: Seed, opp: Seed,
                    moves: seq<(int, int)>, alpha: int, beta: int, bestRow: int, bestCol: int): Outcome
    requires IsBoard(b) && depth > 0
    requires forall i :: 0 <= i < |moves| ==> OnBoard(moves[i].0, moves[i].1)
    decreases depth, 0, |moves|
  {
    if moves == [] then Outcome(if player == me then alpha else beta, bestRow, bestCol)
    else
      var (row, col) := moves[0];
      var next := b[Index(row, col) := player];
      if player == me then
        var score := BestMove(next, depth - 1, opp, me, opp, alpha, beta).score;
        var (a, r, c) := if score > alpha then (score, row, col) else (alpha, bestRow, bestCol);
        if a >= beta then Outcome(a, r, c)
        else TryMoves(b, depth, player, me, opp, moves[1..], a, beta, r, c)
      else
        var score := BestMove(next, depth - 1, me, me, opp, alpha, beta).score;
        var (t, r, c) := if score < beta then (score, row, col) else (beta, bestRow, bestCol);
        if alpha >= t then Outcome(t, r, c)
        else TryMoves(b, depth, player, me, opp, moves[1..], alpha, t, r, c)
  }

  /** One turn of the search loop, given the score of the reply to its
      first move. */
  lemma TryMovesStep(b: seq<Seed>, depth: nat, player: Seed, me: Seed, opp: Seed,
                     moves: seq<(int, int)>, alpha: int, beta: int, bestRow: int, bestCol: int,
                     row: int, col: int, score: int, lo: int, hi: int, r: int, c: int)
    requires IsBoard(b) && depth > 0 && moves != [] && moves[0] == (row, col)
    requires forall i :: 0 <= i < |moves| ==> OnBoard(moves[i].0, moves[i].1)
    requires score == BestMove(b[Index(row, col) := player], depth - 1,
                               if player == me then opp else me, me, opp, alpha, beta).score
    requires lo == if player == me && score > alpha then score else alpha
    requires hi == if player != me && score < beta then score else beta
    requires (r, c) == if (player == me && score > alpha) || (player != me && score < beta)
                       then (row, col) else (bestRow, bestCol)
    ensures TryMoves(b, depth, player, me, opp, moves, alpha, beta, bestRow, bestCol) ==
      if lo >= hi then Outcome(if player == me then lo else hi, r, c)
      else TryMoves(b, depth, player, me, opp, moves[1..], lo, hi, r, c)
  {
  }

  /** The search loop reports the best move it started with or one of the
      moves it was given, and never leaves its window on the side it
      narrows: the maximiser's score is at least alpha, the minimiser's at
      most beta. */
  lemma {:induction false} TryMovesResult(b: seq<Seed>, depth: nat, player: Seed, me: Seed, opp: Seed,
                                          moves: seq<(int, int)>, alpha: int, beta: int, bestRow: int, bestCol: int)
    requires IsBoard(b) && depth > 0
    requires forall i :: 0 <= i < |moves| ==> OnBoard(moves[i].0, moves[i].1)
    ensures var r := TryMoves(b, depth, player, me, opp, moves, alpha, beta, bestRow, bestCol);
      ((r.row, r.col) == (bestRow, bestCol) || (r.row, r.col) in moves) &&
      (player == me ==> r.score >= alpha) &&
      (player != me ==> r.score <= beta)
    decreases |moves|
  {
    if moves != [] {
      var (row, col) := moves[0];
      var next := b[Index(row, col) := player];
      if player == me {
        var score := BestMove(next, depth - 1, opp, me, opp, alpha, beta).score;
        var (a, r, c) := if score > alpha then (score, row, col) else (alpha, bestRow, bestCol);
        if a < beta {
          TryMovesResult(b, depth, player, me, opp, moves[1..], a, beta, r, c);
        }
      } else {
        var score := BestMove(next, depth - 1, me, me, opp, alpha, beta).score;
        var (t, r, c) := if score < beta then (score, row, col) else (beta, bestRow, bestCol);
        if alpha < t {
          TryMovesResult(b, depth, player, me, opp, moves[1..], alpha, t, r, c);
        }
      }
    }
  }

  /** The move the search returns is no move or an empty cell of a board
      nobody has won, and once it searches, its score keeps to the window's
      side of the player to move. */
  lemma BestMoveResult(b: seq<Seed>, depth: nat, player: Seed, me: Seed, opp: Seed, alpha: int, beta: int)
    requires IsBoard(b)
    ensures var r := BestMove(b, depth, player, me, opp, alpha, beta);
      ((r.row, r.col) == (-1, -1) ||
       (!Won(b, me) && !Won(b, opp) && OnBoard(r.row, r.col) && b[Index(r.row, r.col)] == NoSeed)) &&
      (depth > 0 && Moves(b, me, opp) != [] ==>
        (player == me ==> r.score >= alpha) && (player != me ==> r.score <= beta))
  {
    var moves := Moves(b, me, opp);
    MovesAreEmptyCells(b, me, opp);
    if |moves| != 0 && depth != 0 {
      TryMovesResult(b, depth, player, me, opp, moves, alpha, beta, -1, -1);
    }
  }

  // ---------------------------------------------------------------------
  // The player

  /** The computer player. It shares the game board's cells, so every move
      the search tries is written to the live board and taken back. */
  class AIPlayerMinimax {
    /** The board's 3x3 cells, shared with the board, not copied, stored
        row by row: cell (row, col) is element Index(row, col). */
    var cells: array<Seed>
    /** The computer's seed and the opponent's; None until the first
        `SetSeed`, as Java's fields are null until then. */
    var mySeed: Option<Seed>
    var oppSeed: Option<Seed>

    predicate Valid()
      reads this
    {
      cells.Length == Rows * Cols
    }

    /** After `SetSeed`: both seeds known, the opponent's the other one. */
    predicate Seeded()
      reads this
    {
      mySeed.Some? && oppSeed == Some(Opponent(mySeed.value))
    }

    /** A player for the given board's cells. */
    constructor (board: array<Seed>)
      requires board.Length == Rows * Cols
      ensures Valid()
      ensures cells == board
      ensures mySeed == None && oppSeed == None
    {
      cells := board;
      mySeed := None;
      oppSeed := None;
    }

    /** Sets the computer's seed; the opponent gets the other one, Cross for
        anything but Cross. */
    method SetSeed(seed: Seed)
      modifies this
      ensures cells == old(cells)
      ensures mySeed == Some(seed)
      ensures oppSeed == Some(Opponent(seed))
      ensures Seeded()
    {
      mySeed := Some(seed);
      oppSeed := Some(if seed == Cross then Nought else Cross);
    }

    /** Whether `thePlayer` holds a whole line: the mask of its cells is
        built cell by cell, then tested against each winning pattern. */
    method HasWon(thePlayer: Seed) returns (won: bool)
      requires Valid()
      ensures won == Won(cells[..], thePlayer)
    {
      ghost var b := cells[..];
      var pattern: set<int> := {};
      for row := 0 to Rows
        invariant pattern == Mask(b, thePlayer, row * 3)
      {
        for col := 0 to Cols
          invariant pattern == Mask(b, thePlayer, row * 3 + col)
        {
          MaskStep(b, thePlayer, row * 3 + col);
          if cells[Index(row, col)] == thePlayer {
            pattern := pattern + {row * 3 + col};
          }
        }
      }
      PatternsAreLines(b, thePlayer);
      for i := 0 to |WinningPatterns|
        invariant CoveredFrom(pattern, 0) == CoveredFrom(pattern, i)
      {
        if WinningPatterns[i] <= pattern {
          return true;
        }
      }
      return false;
    }

    /** The open moves: none once either side has won, otherwise the empty
        cells in row-major order. */
    method GenerateMoves() returns (nextMoves: seq<(int, int)>)
      requires Valid() && Seeded()
      ensures nextMoves == Moves(cells[..], mySeed.value, oppSeed.value)
    {
      ghost var b := cells[..];
      nextMoves := [];
      var won := HasWon(mySeed.value);
      if !won {
        won := HasWon(oppSeed.value);
      }
      if won {
        return;
      }
      for row := 0 to Rows
        invariant nextMoves == EmptyCells(b, row * 3)
      {
        for col := 0 to Cols
          invariant nextMoves == EmptyCells(b, row * 3 + col)
        {
          EmptyCellsStep(b, row, col);
          if cells[Index(row, col)] == NoSeed {
            nextMoves := nextMoves + [(row, col)];
          }
        }
      }
    }

    /** The heuristic value of the board for the computer: the reference
        line sum, since the two seeds always differ. */
    method EvaluateBoard() returns (score: int)
      requires Valid() && Seeded()
      ensures score == LinesFrom(cells[..], mySeed.value, oppSeed.value, 0)
    {
      score := Evaluate(cells[..], mySeed.value, oppSeed.value);
      EvaluateSumsLines(cells[..], mySeed.value, oppSeed.value);
    }

    /** The minimax search: at depth 0 or with no move open, the heuristic
        value of the board and no move; otherwise the best of the open moves.
        The board is as it was on return. */
    method Minimax(depth: nat, player: Seed, alpha: int, beta: int) returns (result: Outcome)
      requires Valid() && Seeded()
      modifies cells
      ensures cells[..] == old(cells[..])
      ensures result == BestMove(old(cells[..]), depth, player, mySeed.value, oppSeed.value, alpha, beta)
      decreases depth, 2
    {
      ghost var b := cells[..];
      var nextMoves := GenerateMoves();
      if |nextMoves| == 0 || depth == 0 {
        var score := EvaluateBoard();
        BestMoveLeaf(b, depth, player, mySeed.value, oppSeed.value, alpha, beta);
        return Outcome(score, -1, -1);
      }
      BestMoveSearches(b, depth, player, mySeed.value, oppSeed.value, alpha, beta);
      forall i | 0 <= i < |nextMoves|
        ensures OnBoard(nextMoves[i].0, nextMoves[i].1) && b[Index(nextMoves[i].0, nextMoves[i].1)] == NoSeed
      {
        OpenMoveIsEmpty(b, mySeed.value, oppSeed.value, i);
      }
      result := TryMovesOnBoard(depth, player, nextMoves, alpha, beta);
    }

    /** The search loop: plays each move for `player` on the board, searches
        the reply one ply shallower, takes the move back, keeps the best
        score and its move, and stops once the window closes. */
    method TryMovesOnBoard(depth: nat, player: Seed, moves: seq<(int, int)>, alpha: int, beta: int)
      returns (result: Outcome)
      requires Valid() && Seeded() && depth > 0
      requires forall i :: 0 <= i < |moves| ==>
        OnBoard(moves[i].0, moves[i].1) && cells[Index(moves[i].0, moves[i].1)] == NoSeed
      modifies cells
      ensures cells[..] == old(cells[..])
      ensures result == TryMoves(old(cells[..]), depth, player, mySeed.value, oppSeed.value, moves, alpha, beta, -1, -1)
      decreases depth, 1
    {
      var me, opp := mySeed.value, oppSeed.value;
      ghost var b := cells[..];
      var bestRow, bestCol := -1, -1;
      assert moves[0..] == moves;
      var lo, hi := alpha, beta;
      var i := 0;
      while i < |moves|
        invariant 0 <= i <= |moves|
        invariant cells[..] == b
        invariant TryMoves(b, depth, player, me, opp, moves[i..], lo, hi, bestRow, bestCol)
               == TryMoves(b, depth, player, me, opp, moves, alpha, beta, -1, -1)
      {
        var (row, col) := moves[i];
        ghost var rest := moves[i..];
        ghost var lo0, hi0, bestRow0, bestCol0 := lo, hi, bestRow, bestCol;
        assert rest[0] == (row, col) && rest[1..] == moves[i + 1..];
        ghost var other := if player == me then opp else me;
        var score := Reply(row, col, depth, player, lo, hi);
        assert score == BestMove(b[Index(row, col) := player], depth - 1, other, me, opp, lo0, hi0).score;
        if player == me {
          if score > lo {
            lo := score;
            bestRow := row;
            bestCol := col;
          }
        } else {
          if score < hi {
            hi := score;
            bestRow := row;
            bestCol := col;
          }
        }
        TryMovesStep(b, depth, player, me, opp, rest, lo0, hi0, bestRow0, bestCol0, row, col, score, lo, hi, bestRow, bestCol);
        if lo >= hi {
          break;
        }
        i := i + 1;
      }
      if i == |moves| {
        assert moves[i..] == [];
      }
      result := Outcome(if player == me then lo else hi, bestRow, bestCol);
    }

    /** One turn of the search: plays `player` at the empty cell (row, col),
        scores the reply one ply shallower with the other side to move, and
        takes the move back. */
    method Reply(row: int, col: int, depth: nat, player: Seed, alpha: int, beta: int) returns (score: int)
      requires Valid() && Seeded() && depth > 0
      requires OnBoard(row, col) && cells[Index(row, col)] == NoSeed
      modifies cells
      ensures cells[..] == old(cells[..])
      ensures score == BestMove(old(cells[..])[Index(row, col) := player], depth - 1,
        if player == mySeed.value then oppSeed.value else mySeed.value,
        mySeed.value, oppSeed.value, alpha, beta).score
      decreases depth, 0
    {
      ghost var b := cells[..];
      var other := if player == mySeed.value then oppSeed.value else mySeed.value;
      cells[Index(row, col)] := player;
      var reply := Minimax(depth - 1, other, alpha, beta);
      score := reply.score;
      cells[Index(row, col)] := NoSeed;
      TakeBack(b, Index(row, col), player);
    }

    /** The computer's next move: a depth-6 search over the full integer
        window. The board is as it was on return, and the move is no move
        (-1, -1) or an empty cell of a board neither side has won. */
    method Move() returns (row: int, col: int)
      requires Valid() && Seeded()
      modifies cells
      ensures cells[..] == old(cells[..])
      ensures var r := BestMove(old(cells[..]), SearchDepth, mySeed.value, mySeed.value, oppSeed.value, MinInt, MaxInt);
        row == r.row && col == r.col
      ensures (row, col) == (-1, -1) ||
        (OnBoard(row, col) && old(cells[..])[Index(row, col)] == NoSeed &&
         !Won(old(cells[..]), mySeed.value) && !Won(old(cells[..]), oppSeed.value))
    {
      ghost var b := cells[..];
      var result := Minimax(SearchDepth, mySeed.value, MinInt, MaxInt);
      BestMoveResult(b, SearchDepth, mySeed.value, mySeed.value, oppSeed.value, MinInt, MaxInt);
      ghost var best := BestMove(b, SearchDepth, mySeed.value, mySeed.value, oppSeed.value, MinInt, MaxInt);
      assert result == best;
      row, col := result.row, result.col;
    }
  }
}
