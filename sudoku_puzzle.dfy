/** The puzzle generator. A solved grid is built in `solution` by seeding the
    three diagonal boxes with shuffled digits and filling the other cells by
    backtracking; `numbers` is then a copy of it with `difficulty` cells
    emptied, and `isGiven` marks the cells left filled. */
module SudokuPuzzle {
  import opened SudokuConstants
  import opened SudokuGrid

  /** The values of a 9x9 integer array, as a grid. */
  ghost function GridOf(a: array2<int>): (g: Grid)
    reads a
    requires a.Length0 == GridSize && a.Length1 == GridSize
    ensures IsGrid(g)
    ensures forall r, c :: OnBoard(r, c) ==> g[r][c] == a[r, c]
  {
    seq(GridSize, r requires 0 <= r < GridSize reads a =>
      seq(GridSize, c requires 0 <= c < GridSize reads a => a[r, c]))
  }

  /** The values of a 9x9 boolean array, as a mask. */
  ghost function MaskOf(a: array2<bool>): (m: Mask)
    reads a
    requires a.Length0 == GridSize && a.Length1 == GridSize
    ensures IsMask(m)
    ensures forall r, c :: OnBoard(r, c) ==> m[r][c] == a[r, c]
  {
    seq(GridSize, r requires 0 <= r < GridSize reads a =>
      seq(GridSize, c requires 0 <= c < GridSize reads a => a[r, c]))
  }

  // ---------------------------------------------------------------------------
  // The shuffle, as a function of its random picks

  /** The sequence with positions i and j exchanged. */
  function Swap(s: seq<int>, i: int, j: int): (t: seq<int>)
    requires 0 <= i < |s| && 0 <= j < |s|
    ensures |t| == |s| && t[i] == s[j] && t[j] == s[i]
    ensures forall k :: 0 <= k < |s| && k != i && k != j ==> t[k] == s[k]
  {
    s[i := s[j]][j := s[i]]
  }

  /** An exchange keeps the multiset of elements. */
  lemma SwapPermutes(s: seq<int>, i: int, j: int)
    requires 0 <= i < |s| && 0 <= j < |s|
    ensures multiset(Swap(s, i, j)) == multiset(s)
  {
    var t := s[i := s[j]];
    assert multiset(t) == multiset(s) - multiset{s[i]} + multiset{s[j]};
    assert multiset(t[j := s[i]]) == multiset(t) - multiset{t[j]} + multiset{s[i]};
  }

  /** Random picks a Fisher-Yates shuffle of n elements can draw: step k
      (from 0) exchanges position n-1-k with a position in [0, n-1-k]. */
  predicate ValidPicks(n: int, js: seq<int>) {
    |js| <= n && forall k :: 0 <= k < |js| ==> 0 <= js[k] <= n - 1 - k
  }

  /** The shuffle's effect on s after the steps whose picks are js. */
  function Shuffle(s: seq<int>, js: seq<int>): (t: seq<int>)
    requires ValidPicks(|s|, js)
    ensures |t| == |s|
    decreases |js|
  {
    if js == [] then s
    else Swap(Shuffle(s, js[..|js| - 1]), |s| - |js|, js[|js| - 1])
  }

  /** Shuffling rearranges the elements: it keeps their multiset. */
  lemma {:induction false} ShufflePermutes(s: seq<int>, js: seq<int>)
    requires ValidPicks(|s|, js)
    ensures multiset(Shuffle(s, js)) == multiset(s)
    decreases |js|
  {
    if js != [] {
      ShufflePermutes(s, js[..|js| - 1]);
      SwapPermutes(Shuffle(s, js[..|js| - 1]), |s| - |js|, js[|js| - 1]);
    }
  }

  /** A shuffle of 1..9 holds nine distinct digits. */
  lemma ShuffledDigits(js: seq<int>)
    requires ValidPicks(|Digits|, js)
    ensures var t := Shuffle(Digits, js);
      |t| == GridSize && Distinct(t) && forall i :: 0 <= i < |t| ==> 1 <= t[i] <= GridSize
  {
    ShufflePermutes(Digits, js);
    DigitPermutation(Shuffle(Digits, js));
  }

  // ---------------------------------------------------------------------------
  // Where the backtracking fill may be entered, and what it still has to fill

  /** The arguments the fill is called with: its first call (0, 3), and the
      cell after each cell it fills. */
  predicate Entry(row: int, col: int) {
    0 <= row < GridSize && 0 <= col <= GridSize &&
    (SubgridSize <= row < GridSize - SubgridSize ==> col <= SubgridSize || col >= 2 * SubgridSize) &&
    (row >= GridSize - SubgridSize ==> col <= GridSize - SubgridSize)
  }

  /** The cells left for a fill entered at (row0, col0): those outside the
      diagonal boxes at that cell or after it in row-major order. */
  predicate Pending(row0: int, col0: int, r: int, c: int) {
    OnBoard(r, c) && !OnDiagonalBox(r, c) && !Before(r, c, row0, col0)
  }

  /** Where the fill entered at (row0, col0) works next: past the end of a
      row it moves to the start of the next one, then it skips the diagonal
      box of the row's band; (true, _, _) when it has run past the last cell. */
  function NextCell(row0: int, col0: int): (next: (bool, int, int))
    requires Entry(row0, col0)
    ensures next.0 ==> forall r, c :: !Pending(row0, col0, r, c)
    ensures !next.0 ==>
      OnBoard(next.1, next.2) && !OnDiagonalBox(next.1, next.2) &&
      !Before(next.1, next.2, row0, col0) && Entry(next.1, next.2 + 1) &&
      forall r, c :: Pending(row0, col0, r, c) && Before(r, c, next.1, next.2) ==> false
  {
    var (row, col) := if col0 >= GridSize && row0 < GridSize - 1 then (row0 + 1, 0) else (row0, col0);
    if row >= GridSize && col >= GridSize then
      assert false; (true, row, col)
    else if row < SubgridSize then
      (false, row, if col < SubgridSize then SubgridSize else col)
    else if row < GridSize - SubgridSize then
      (false, row, if col == (row / SubgridSize) * SubgridSize then col + SubgridSize else col)
    else if col == GridSize - SubgridSize then
      (row + 1 >= GridSize, row + 1, 0)
    else
      (false, row, col)
  }

  /** (r, c) comes before (row, col) in row-major order. */
  predicate Before(r: int, c: int, row: int, col: int) {
    r < row || (r == row && c < col)
  }

  /** h is a solved grid (every cell a digit, no repeats) that keeps every
      cell of g a fill entered at (row0, col0) may not change. */
  ghost predicate Completion(h: Grid, g: Grid, row0: int, col0: int)
    requires IsGrid(g)
  {
    IsGrid(h) && Complete(h) && NoConflict(h) &&
    forall r, c :: OnBoard(r, c) && !Pending(row0, col0, r, c) ==> h[r][c] == g[r][c]
  }

  /** Some solved grid completes g: a fill entered at (row0, col0) can succeed. */
  ghost predicate Completable(g: Grid, row0: int, col0: int)
    requires IsGrid(g)
  {
    exists h: Grid :: Completion(h, g, row0, col0)
  }

  /** The digit a completion puts at the fill's current cell is safe there:
      every other cell of its row, column and box is either still empty in g
      or holds what the completion holds. */
  lemma CompletionDigitIsSafe(h: Grid, g: Grid, row: int, col: int)
    requires IsGrid(g) && OnBoard(row, col) && !OnDiagonalBox(row, col)
    requires forall r, c :: Pending(row, col, r, c) ==> g[r][c] == 0
    requires Completion(h, g, row, col)
    ensures Safe(g, row, col, h[row][col])
  {
    var d := h[row][col];
    forall r, c | OnBoard(r, c) && (r == row || c == col || SameBox(r, c, row, col))
      ensures g[r][c] != d
    {
      if !Pending(row, col, r, c) {
        assert Peers(row, col, r, c) && h[r][c] == g[r][c];
      }
    }
    assert forall x :: 0 <= x < GridSize ==> OnBoard(row, x) && OnBoard(x, col);
  }

  /** A completion that puts n at the fill's current cell also completes the
      grid with n written there, for the fill entered at the next cell. */
  lemma CompletionAfterPlace(h: Grid, g: Grid, row: int, col: int, n: int)
    requires IsGrid(g) && OnBoard(row, col)
    requires Completion(h, g, row, col)
    ensures h[row][col] == n ==> Completion(h, Place(g, row, col, n), row, col + 1)
  {
  }

  /** The cells of the 3x3 block whose top-left cell is (row, col). */
  predicate InBlock(row: int, col: int, r: int, c: int) {
    row <= r < row + SubgridSize && col <= c < col + SubgridSize
  }

  /** The position, 0 to 8, of (r, c) in a row-by-row walk of the block at
      (row, col). */
  function BlockIndex(row: int, col: int, r: int, c: int): int {
    (r - row) * SubgridSize + (c - col)
  }

  /** The box holding (row, col) is the block at the start of its bands. */
  lemma BoxIsBlock(row: int, col: int)
    requires OnBoard(row, col)
    ensures 0 <= BoxStart(row) <= GridSize - SubgridSize && 0 <= BoxStart(col) <= GridSize - SubgridSize
    ensures forall r, c :: OnBoard(r, c) && SameBox(r, c, row, col) ==> InBlock(BoxStart(row), BoxStart(col), r, c)
    ensures forall r, c :: InBlock(BoxStart(row), BoxStart(col), r, c) ==> OnBoard(r, c) && SameBox(r, c, row, col)
  {
    BandStart(row / SubgridSize, 0);
    BandStart(row / SubgridSize, 1);
    BandStart(row / SubgridSize, 2);
    BandStart(col / SubgridSize, 0);
    BandStart(col / SubgridSize, 1);
    BandStart(col / SubgridSize, 2);
  }

  /** The walk visits each cell of the block at a different position. */
  lemma BlockIndexInjective(row: int, col: int)
    ensures forall r, c :: InBlock(row, col, r, c) ==> 0 <= BlockIndex(row, col, r, c) < GridSize
    ensures forall r1, c1, r2, c2 {:trigger BlockIndex(row, col, r1, c1), BlockIndex(row, col, r2, c2)} ::
      InBlock(row, col, r1, c1) && InBlock(row, col, r2, c2) && (r1, c1) != (r2, c2)
      ==> BlockIndex(row, col, r1, c1) != BlockIndex(row, col, r2, c2)
  {
  }

  /** A mask array that differs from `before` only by a cleared flag at
      (row, col) reads as `before` with that flag cleared. */
  lemma MaskAfterClear(a: array2<bool>, before: Mask, row: int, col: int)
    requires a.Length0 == GridSize && a.Length1 == GridSize && IsMask(before) && OnBoard(row, col)
    requires !a[row, col]
    requires forall r, c :: OnBoard(r, c) && (r, c) != (row, col) ==> a[r, c] == before[r][c]
    ensures MaskOf(a) == before[row := before[row][col := false]]
  {
    var after := MaskOf(a);
    assert forall i :: 0 <= i < GridSize ==> after[i] == before[row := before[row][col := false]][i];
  }

  /** A block that holds nine distinct digits, one per walk position, holds
      each digit in one cell. */
  lemma BlockHoldsDigits(a: array2<int>, digits: seq<int>, row: int, col: int)
    requires a.Length0 == GridSize && a.Length1 == GridSize
    requires 0 <= row <= GridSize - SubgridSize && 0 <= col <= GridSize - SubgridSize
    requires |digits| == GridSize && Distinct(digits)
    requires forall i :: 0 <= i < |digits| ==> 1 <= digits[i] <= GridSize
    requires forall r, c :: InBlock(row, col, r, c) ==> a[r, c] == digits[BlockIndex(row, col, r, c)]
    ensures forall r, c :: InBlock(row, col, r, c) ==> 1 <= a[r, c] <= GridSize
    ensures forall r1, c1, r2, c2 {:trigger a[r1, c1], a[r2, c2]} ::
      InBlock(row, col, r1, c1) && InBlock(row, col, r2, c2) && (r1, c1) != (r2, c2)
      ==> a[r1, c1] != a[r2, c2]
  {
    BlockIndexInjective(row, col);
  }

  class Puzzle {
    var numbers: array2<int>
    var isGiven: array2<bool>
    var solution: array2<int>

    ghost predicate Valid()
      reads this
    {
      numbers.Length0 == GridSize && numbers.Length1 == GridSize &&
      isGiven.Length0 == GridSize && isGiven.Length1 == GridSize &&
      solution.Length0 == GridSize && solution.Length1 == GridSize &&
      numbers != solution
    }

    /** Cell (r, c) of the puzzle shows the solution when given and is empty
        otherwise. */
    ghost predicate Agrees(r: int, c: int)
      requires Valid() && OnBoard(r, c)
      reads this, numbers, isGiven, solution
    {
      (isGiven[r, c] ==> numbers[r, c] == solution[r, c]) && (!isGiven[r, c] ==> numbers[r, c] == 0)
    }

    /** Three fresh 9x9 boards, all zero and all false, as Java allocates them. */
    constructor ()
      ensures Valid() && fresh(numbers) && fresh(isGiven) && fresh(solution)
      ensures forall r, c :: OnBoard(r, c) ==>
        numbers[r, c] == 0 && !isGiven[r, c] && solution[r, c] == 0
    {
      numbers := new int[GridSize, GridSize]((r, c) => 0);
      isGiven := new bool[GridSize, GridSize]((r, c) => false);
      solution := new int[GridSize, GridSize]((r, c) => 0);
    }

    /** Generates a solution, copies it into `numbers`, then empties
        `difficulty` cells of `numbers`, clearing their `isGiven` flags.
        Where the source's removal loop would spin forever (no filled cell is
        left to empty) the model's loop stops. */
    method NewPuzzle(difficulty: int)
      requires Valid()
      modifies solution, numbers, isGiven
      ensures Valid()
      ensures NoConflict(GridOf(solution))
      ensures forall r, c :: OnBoard(r, c) && OnDiagonalBox(r, c) ==> 1 <= solution[r, c] <= GridSize
      ensures Complete(GridOf(solution)) ||
        forall r, c :: OnBoard(r, c) && !OnDiagonalBox(r, c) ==> solution[r, c] == 0
      // the puzzle agrees with the solution where given and is empty elsewhere
      ensures forall r, c :: OnBoard(r, c) ==>
        (isGiven[r, c] ==> numbers[r, c] == solution[r, c]) &&
        (!isGiven[r, c] ==> numbers[r, c] == 0)
      ensures Complete(GridOf(solution)) ==>
        forall r, c :: OnBoard(r, c) ==> (!isGiven[r, c] <==> numbers[r, c] == 0)
      // exactly `difficulty` cells are emptied
      ensures difficulty <= 0 ==> Cleared(MaskOf(isGiven), CellCount) == 0
      ensures Complete(GridOf(solution)) && 0 < difficulty <= CellCount ==>
        Cleared(MaskOf(isGiven), CellCount) == difficulty
    {
      GenerateSolution();
      CopySolution();
      RemoveCells(difficulty);
    }

    /** The copy loop of NewPuzzle: every cell of the puzzle takes the
        solution's number and is marked given. */
    method CopySolution()
      requires Valid()
      modifies numbers, isGiven
      ensures forall r, c :: OnBoard(r, c) ==> numbers[r, c] == solution[r, c] && isGiven[r, c]
    {
      for i := 0 to GridSize
        modifies numbers, isGiven
        invariant forall r, c :: OnBoard(r, c) && r < i ==>
          numbers[r, c] == solution[r, c] && isGiven[r, c]
      {
        for j := 0 to GridSize
          modifies numbers, isGiven
          invariant forall r, c :: OnBoard(r, c) && Before(r, c, i, j) ==>
            numbers[r, c] == solution[r, c] && isGiven[r, c]
        {
          numbers[i, j] := solution[i, j];
          isGiven[i, j] := true;
        }
      }
    }

    /** The removal loop of NewPuzzle: empties `difficulty` filled cells of
        `numbers` chosen at random, clearing their `isGiven` flags. A draw
        that hits an empty cell is retried in the source; the model draws
        among the filled cells only. */
    method RemoveCells(difficulty: int)
      requires Valid()
      requires forall r, c :: OnBoard(r, c) ==> numbers[r, c] == solution[r, c] && isGiven[r, c]
      modifies numbers, isGiven
      ensures forall r, c :: OnBoard(r, c) ==> Agrees(r, c)
      ensures (forall r, c :: OnBoard(r, c) ==> solution[r, c] != 0) ==>
        forall r, c :: OnBoard(r, c) ==> (!isGiven[r, c] <==> numbers[r, c] == 0)
      ensures difficulty <= 0 ==> Cleared(MaskOf(isGiven), CellCount) == 0
      ensures (forall r, c :: OnBoard(r, c) ==> solution[r, c] != 0) && 0 < difficulty <= CellCount ==>
        Cleared(MaskOf(isGiven), CellCount) == difficulty
    {
      NoneCleared(MaskOf(isGiven), CellCount);

      var cellsToRemove := difficulty;
      while cellsToRemove > 0 &&
            exists r, c :: 0 <= r < GridSize && 0 <= c < GridSize && numbers[r, c] != 0
        modifies numbers, isGiven
        invariant difficulty > 0 ==> 0 <= cellsToRemove <= difficulty
        invariant difficulty <= 0 ==> cellsToRemove == difficulty
        invariant forall r, c :: OnBoard(r, c) ==> Agrees(r, c)
        invariant Cleared(MaskOf(isGiven), CellCount) ==
          if difficulty > 0 then difficulty - cellsToRemove else 0
        decreases cellsToRemove
      {
        // The source draws (row, col) at random and retries when the cell is
        // already empty; the picks that change something are the filled cells.
        var row, col :| 0 <= row < GridSize && 0 <= col < GridSize && numbers[row, col] != 0;
        ghost var before := MaskOf(isGiven);
        label Drawn:
        numbers[row, col] := 0;
        isGiven[row, col] := false;
        cellsToRemove := cellsToRemove - 1;
        forall r, c | OnBoard(r, c)
          ensures Agrees(r, c)
        {
          if (r, c) != (row, col) {
            assert old@Drawn(Agrees(r, c));
          }
        }
        ClearOne(before, row, col, CellCount);
        MaskAfterClear(isGiven, before, row, col);
      }

      if (forall r, c :: OnBoard(r, c) ==> solution[r, c] != 0) && 0 < difficulty <= CellCount && cellsToRemove > 0 {
        SomeGiven(MaskOf(isGiven), CellCount);
        assert false;
      }
    }

    /** Clears the solution board, seeds the diagonal boxes and fills the rest
        by backtracking. The fill's success flag is discarded, as in the source. */
    method GenerateSolution()
      requires Valid()
      modifies solution
      ensures NoConflict(GridOf(solution))
      ensures forall r, c :: OnBoard(r, c) && OnDiagonalBox(r, c) ==> 1 <= solution[r, c] <= GridSize
      ensures Complete(GridOf(solution)) ||
        ((forall r, c :: OnBoard(r, c) && !OnDiagonalBox(r, c) ==> solution[r, c] == 0) &&
         !Completable(GridOf(solution), 0, SubgridSize))
    {
      for i := 0 to GridSize
        invariant forall r, c :: OnBoard(r, c) && r < i ==> solution[r, c] == 0
      {
        for j := 0 to GridSize
          invariant forall r, c :: OnBoard(r, c) && Before(r, c, i, j) ==> solution[r, c] == 0
        {
          solution[i, j] := 0;
        }
      }

      FillDiagonalBoxes();
      DiagonalSeedingIsConflictFree(GridOf(solution));
      ghost var seeded := GridOf(solution);
      var filled := FillRemaining(0, SubgridSize);
      if !filled {
        SameCells(GridOf(solution), seeded);
      }
    }

    /** Seeds the boxes at (0,0), (3,3) and (6,6), each with a shuffle of 1..9. */
    method FillDiagonalBoxes()
      requires Valid()
      modifies solution
      ensures forall r, c :: OnBoard(r, c) && !OnDiagonalBox(r, c) ==> solution[r, c] == old(solution[r, c])
      ensures forall r, c :: OnBoard(r, c) && OnDiagonalBox(r, c) ==> 1 <= solution[r, c] <= GridSize
      ensures forall r1, c1, r2, c2 {:trigger solution[r1, c1], solution[r2, c2]} ::
        OnBoard(r1, c1) && OnBoard(r2, c2) && (r1, c1) != (r2, c2) && OnDiagonalBox(r1, c1) &&
        SameBox(r1, c1, r2, c2)
        ==> solution[r1, c1] != solution[r2, c2]
    {
      var box := 0;
      while box < GridSize
        invariant 0 <= box <= GridSize && box % SubgridSize == 0
        invariant forall r, c :: OnBoard(r, c) && !(OnDiagonalBox(r, c) && r < box) ==>
          solution[r, c] == old(solution[r, c])
        invariant forall r, c :: OnBoard(r, c) && OnDiagonalBox(r, c) && r < box ==> 1 <= solution[r, c] <= GridSize
        invariant forall r1, c1, r2, c2 {:trigger solution[r1, c1], solution[r2, c2]} ::
          OnBoard(r1, c1) && OnBoard(r2, c2) && (r1, c1) != (r2, c2) && OnDiagonalBox(r1, c1) &&
          SameBox(r1, c1, r2, c2) && r1 < box
          ==> solution[r1, c1] != solution[r2, c2]
      {
        BandStart(box / SubgridSize, 0);
        BandStart(box / SubgridSize, 1);
        BandStart(box / SubgridSize, 2);
        FillBox(box, box);
        box := box + SubgridSize;
      }
    }

    /** Writes a shuffle of 1..9 into the 3x3 block at (row, col), row by row. */
    method FillBox(row: int, col: int)
      requires Valid()
      requires 0 <= row <= GridSize - SubgridSize && 0 <= col <= GridSize - SubgridSize
      modifies solution
      ensures forall r, c :: OnBoard(r, c) && !InBlock(row, col, r, c) ==> solution[r, c] == old(solution[r, c])
      // each of 1..9 exactly once: nine distinct digits in nine cells
      ensures forall r, c :: InBlock(row, col, r, c) ==> 1 <= solution[r, c] <= GridSize
      ensures forall r1, c1, r2, c2 {:trigger solution[r1, c1], solution[r2, c2]} ::
        InBlock(row, col, r1, c1) && InBlock(row, col, r2, c2) && (r1, c1) != (r2, c2)
        ==> solution[r1, c1] != solution[r2, c2]
    {
      var numbers := new int[][1, 2, 3, 4, 5, 6, 7, 8, 9];
      assert numbers[..] == Digits;
      ghost var js := ShuffleArray(numbers);
      ShuffledDigits(js);
      CopyToBlock(row, col, numbers);
      BlockHoldsDigits(solution, numbers[..], row, col);
    }

    /** The copy loop of FillBox: writes the nine values of `numbers` into
        the block at (row, col), row by row. */
    method CopyToBlock(row: int, col: int, numbers: array<int>)
      requires Valid() && numbers.Length == GridSize
      requires 0 <= row <= GridSize - SubgridSize && 0 <= col <= GridSize - SubgridSize
      modifies solution
      ensures forall r, c :: OnBoard(r, c) && !InBlock(row, col, r, c) ==> solution[r, c] == old(solution[r, c])
      ensures forall r, c :: InBlock(row, col, r, c) ==> solution[r, c] == numbers[BlockIndex(row, col, r, c)]
    {
      var num := 0;
      for i := 0 to SubgridSize
        invariant num == i * SubgridSize
        invariant forall r, c :: OnBoard(r, c) && !(InBlock(row, col, r, c) && r < row + i) ==>
          solution[r, c] == old(solution[r, c])
        invariant forall r, c :: InBlock(row, col, r, c) && r < row + i ==>
          solution[r, c] == numbers[BlockIndex(row, col, r, c)]
      {
        for j := 0 to SubgridSize
          invariant num == i * SubgridSize + j
          invariant forall r, c :: OnBoard(r, c) && !(InBlock(row, col, r, c) && Before(r, c, row + i, col + j)) ==>
            solution[r, c] == old(solution[r, c])
          invariant forall r, c :: InBlock(row, col, r, c) && Before(r, c, row + i, col + j) ==>
            solution[r, c] == numbers[BlockIndex(row, col, r, c)]
        {
          solution[row + i, col + j] := numbers[num];
          num := num + 1;
        }
      }
    }

    /** Fisher-Yates: for i from the last index down to 1, exchanges position i
        with a position j drawn at random from [0, i]. The draws are recorded
        in js. */
    method ShuffleArray(arr: array<int>) returns (ghost js: seq<int>)
      modifies arr
      ensures ValidPicks(arr.Length, js) && |js| == if arr.Length == 0 then 0 else arr.Length - 1
      ensures arr[..] == Shuffle(old(arr[..]), js)
    {
      js := [];
      var i := arr.Length - 1;
      while i > 0
        invariant -1 <= i < arr.Length && (arr.Length > 0 ==> 0 <= i)
        invariant |js| == if arr.Length == 0 then 0 else arr.Length - 1 - i
        invariant ValidPicks(arr.Length, js)
        invariant arr[..] == Shuffle(old(arr[..]), js)
      {
        var j :| 0 <= j <= i;
        ghost var prev, picks := arr[..], js;
        var temp := arr[i];
        arr[i] := arr[j];
        arr[j] := temp;
        js := js + [j];
        assert js[..|js| - 1] == picks;
        assert arr[..] == Swap(prev, i, j);
        i := i - 1;
      }
    }

    /** Backtracking fill entered at (row0, col0): moves to the next cell
        outside the diagonal boxes in row-major order, tries 1..9 there in
        ascending order, writes each digit that is safe, recurses, and resets
        the cell to 0 when the rest cannot be filled. */
    method FillRemaining(row0: int, col0: int) returns (ok: bool)
      requires Valid() && Entry(row0, col0)
      requires NoConflict(GridOf(solution))
      requires forall r, c :: Pending(row0, col0, r, c) ==> solution[r, c] == 0
      requires forall r, c :: OnBoard(r, c) && !Pending(row0, col0, r, c) ==>
        1 <= solution[r, c] <= GridSize
      modifies solution
      ensures NoConflict(GridOf(solution))
      ensures forall r, c :: OnBoard(r, c) && !Pending(row0, col0, r, c) ==>
        solution[r, c] == old(solution[r, c])
      ensures !ok ==> forall r, c :: OnBoard(r, c) ==> solution[r, c] == old(solution[r, c])
      ensures !ok ==> !Completable(old(GridOf(solution)), row0, col0)
      ensures ok ==> Complete(GridOf(solution))
      decreases GridSize - row0, GridSize - col0, 2
    {
      var (done, row, col) := NextCell(row0, col0);
      if done {
        return true;
      }
      ghost var g := GridOf(solution);
      ok := FillCell(row, col);
      // the fill entered at (row0, col0) has the same cells left as the one at (row, col)
      forall h: Grid | Completion(h, g, row0, col0)
        ensures Completion(h, g, row, col)
      {
      }
    }

    /** The digit loop of the fill at the cell (row, col) outside the diagonal
        boxes: tries 1..9 in ascending order and stops at the first digit
        with which the rest of the grid can be filled. */
    method FillCell(row: int, col: int) returns (ok: bool)
      requires Valid() && OnBoard(row, col) && !OnDiagonalBox(row, col) && Entry(row, col + 1)
      requires NoConflict(GridOf(solution))
      requires forall r, c :: Pending(row, col, r, c) ==> solution[r, c] == 0
      requires forall r, c :: OnBoard(r, c) && !Pending(row, col, r, c) ==>
        1 <= solution[r, c] <= GridSize
      modifies solution
      ensures NoConflict(GridOf(solution))
      ensures forall r, c :: OnBoard(r, c) && !Pending(row, col, r, c) ==>
        solution[r, c] == old(solution[r, c])
      ensures !ok ==> forall r, c :: OnBoard(r, c) ==> solution[r, c] == old(solution[r, c])
      ensures !ok ==> !Completable(old(GridOf(solution)), row, col)
      ensures ok ==> Complete(GridOf(solution))
      decreases GridSize - row, GridSize - col, 1
    {
      ghost var g := GridOf(solution);
      for num := 1 to GridSize + 1
        invariant forall r, c :: OnBoard(r, c) ==> solution[r, c] == old(solution[r, c])
        // every digit below num has been ruled out at (row, col)
        invariant forall h: Grid :: Completion(h, g, row, col) ==> h[row][col] >= num
      {
        SameCells(GridOf(solution), g);
        ok := TryDigit(row, col, num);
        if ok {
          return true;
        }
      }
      SameCells(GridOf(solution), g);
      return false;
    }

    /** One turn of the digit loop: when num is safe at (row, col), writes it,
        continues the fill at the next cell, and resets the cell to 0 when the
        rest cannot be filled. On failure no completion has num there. */
    method TryDigit(row: int, col: int, num: int) returns (ok: bool)
      requires Valid() && OnBoard(row, col) && !OnDiagonalBox(row, col) && Entry(row, col + 1)
      requires 1 <= num <= GridSize
      requires NoConflict(GridOf(solution))
      requires forall r, c :: Pending(row, col, r, c) ==> solution[r, c] == 0
      requires forall r, c :: OnBoard(r, c) && !Pending(row, col, r, c) ==>
        1 <= solution[r, c] <= GridSize
      modifies solution
      ensures NoConflict(GridOf(solution))
      ensures forall r, c :: OnBoard(r, c) && !Pending(row, col, r, c) ==>
        solution[r, c] == old(solution[r, c])
      ensures !ok ==> forall r, c :: OnBoard(r, c) ==> solution[r, c] == old(solution[r, c])
      ensures !ok ==> forall h: Grid :: Completion(h, old(GridOf(solution)), row, col) ==> h[row][col] != num
      ensures ok ==> Complete(GridOf(solution))
      decreases GridSize - row, GridSize - col, 0
    {
      ghost var g := GridOf(solution);
      var safe := IsSafe(row, col, num);
      if safe {
        SafePlacementKeepsNoConflict(g, row, col, num);
        solution[row, col] := num;
        SameCells(GridOf(solution), Place(g, row, col, num));
        ok := FillRemaining(row, col + 1);
        if ok {
          return true;
        }
        forall h: Grid | Completion(h, g, row, col)
          ensures h[row][col] != num
        {
          CompletionAfterPlace(h, g, row, col, num);
        }
        solution[row, col] := 0;
        SameCells(GridOf(solution), g);
      } else {
        forall h: Grid | Completion(h, g, row, col)
          ensures h[row][col] != num
        {
          CompletionDigitIsSafe(h, g, row, col);
        }
        ok := false;
      }
    }

    /** True when num occurs in neither the row, the column nor the box of
        (row, col). Reads the board and writes nothing. */
    method IsSafe(row: int, col: int, num: int) returns (safe: bool)
      requires Valid() && OnBoard(row, col)
      ensures safe == Safe(GridOf(solution), row, col, num)
    {
      for x := 0 to GridSize
        invariant forall x' :: 0 <= x' < x ==> solution[row, x'] != num
      {
        if solution[row, x] == num {
          return false;
        }
      }

      for x := 0 to GridSize
        invariant forall x' :: 0 <= x' < x ==> solution[x', col] != num
      {
        if solution[x, col] == num {
          return false;
        }
      }

      var startRow := row - row % SubgridSize;
      var startCol := col - col % SubgridSize;
      BoxIsBlock(row, col);
      for i := 0 to SubgridSize
        invariant forall r, c :: InBlock(startRow, startCol, r, c) && r < startRow + i ==>
          solution[r, c] != num
      {
        for j := 0 to SubgridSize
          invariant forall r, c :: InBlock(startRow, startCol, r, c) && Before(r, c, startRow + i, startCol + j) ==>
            solution[r, c] != num
        {
          if solution[i + startRow, j + startCol] == num {
            assert InBlock(startRow, startCol, i + startRow, j + startCol);
            return false;
          }
        }
      }
      return true;
    }
  }
}
