/** The rules of Sudoku, stated on values. A grid is nine rows of nine cell
    values, 0 marking an empty cell; a mask is nine rows of nine flags. The
    Puzzle class keeps its boards in arrays and states its contracts through
    snapshots of this kind. */
module SudokuGrid {
  import opened SudokuConstants

  type Grid = seq<seq<int>>
  type Mask = seq<seq<bool>>

  predicate IsGrid(g: Grid) {
    |g| == GridSize && forall r :: 0 <= r < GridSize ==> |g[r]| == GridSize
  }

  predicate IsMask(m: Mask) {
    |m| == GridSize && forall r :: 0 <= r < GridSize ==> |m[r]| == GridSize
  }

  predicate OnBoard(r: int, c: int) {
    0 <= r < GridSize && 0 <= c < GridSize
  }

  /** First row (or column) of the box band that holds row (or column) i:
      the source's `i - i % SUBGRID_SIZE`. */
  function BoxStart(i: int): int {
    i - i % SubgridSize
  }

  predicate SameBox(r1: int, c1: int, r2: int, c2: int) {
    BoxStart(r1) == BoxStart(r2) && BoxStart(c1) == BoxStart(c2)
  }

  /** Two different cells that share a row, a column or a box. */
  predicate Peers(r1: int, c1: int, r2: int, c2: int) {
    (r1 != r2 || c1 != c2) && (r1 == r2 || c1 == c2 || SameBox(r1, c1, r2, c2))
  }

  /** Cells of the three boxes on the main diagonal: (0,0), (3,3) and (6,6). */
  predicate OnDiagonalBox(r: int, c: int) {
    BoxStart(r) == BoxStart(c)
  }

  /** No row, column or box holds the same non-zero digit twice. */
  ghost predicate NoConflict(g: Grid)
    requires IsGrid(g)
  {
    forall r1, c1, r2, c2 {:trigger g[r1][c1], g[r2][c2]} ::
      OnBoard(r1, c1) && OnBoard(r2, c2) && Peers(r1, c1, r2, c2) && g[r1][c1] != 0
      ==> g[r1][c1] != g[r2][c2]
  }

  /** Every cell holds a digit 1..9. */
  ghost predicate Complete(g: Grid)
    requires IsGrid(g)
  {
    forall r, c :: OnBoard(r, c) ==> 1 <= g[r][c] <= GridSize
  }

  /** `num` occurs neither in row `row`, nor in column `col`, nor in the box
      holding (row, col). */
  ghost predicate Safe(g: Grid, row: int, col: int, num: int)
    requires IsGrid(g) && OnBoard(row, col)
  {
    (forall x :: 0 <= x < GridSize ==> g[row][x] != num) &&
    (forall x :: 0 <= x < GridSize ==> g[x][col] != num) &&
    (forall r, c :: OnBoard(r, c) && SameBox(r, c, row, col) ==> g[r][c] != num)
  }

  /** The grid with cell (r, c) set to v. */
  function Place(g: Grid, r: int, c: int, v: int): (h: Grid)
    requires IsGrid(g) && OnBoard(r, c)
    ensures IsGrid(h) && h[r][c] == v
    ensures forall r', c' :: OnBoard(r', c') && (r', c') != (r, c) ==> h[r'][c'] == g[r'][c']
  {
    g[r := g[r][c := v]]
  }

  /** Grids are equal when they agree cell by cell. */
  lemma SameCells(g: Grid, h: Grid)
    requires IsGrid(g) && IsGrid(h)
    requires forall r, c :: OnBoard(r, c) ==> g[r][c] == h[r][c]
    ensures g == h
  {
    forall r | 0 <= r < GridSize
      ensures g[r] == h[r]
    {
      assert forall c :: 0 <= c < GridSize ==> g[r][c] == h[r][c];
    }
  }

  /** The digits 1..9 in ascending order, the array the source shuffles. */
  const Digits: seq<int> := [1, 2, 3, 4, 5, 6, 7, 8, 9]

  predicate Distinct(s: seq<int>) {
    forall i, j :: 0 <= i < |s| && 0 <= j < |s| && i != j ==> s[i] != s[j]
  }

  /** Column c, top to bottom. */
  function Column(g: Grid, c: int): (s: seq<int>)
    requires IsGrid(g) && 0 <= c < GridSize
    ensures |s| == GridSize && forall r :: 0 <= r < GridSize ==> s[r] == g[r][c]
  {
    seq(GridSize, r requires 0 <= r < GridSize => g[r][c])
  }

  /** Box b (numbered 0..8 in row-major order), its cells in row-major order. */
  function Box(g: Grid, b: int): (s: seq<int>)
    requires IsGrid(g) && 0 <= b < GridSize
    ensures |s| == GridSize
    ensures forall k :: 0 <= k < GridSize ==>
      s[k] == g[b / SubgridSize * SubgridSize + k / SubgridSize][b % SubgridSize * SubgridSize + k % SubgridSize]
  {
    seq(GridSize, k requires 0 <= k < GridSize =>
      g[b / SubgridSize * SubgridSize + k / SubgridSize][b % SubgridSize * SubgridSize + k % SubgridSize])
  }

  // ---------------------------------------------------------------------------
  // Placement and seeding keep the grid free of conflicts

  /** Writing a digit where Safe holds cannot create a repeated digit. */
  lemma SafePlacementKeepsNoConflict(g: Grid, r: int, c: int, n: int)
    requires IsGrid(g) && OnBoard(r, c)
    requires NoConflict(g) && Safe(g, r, c, n)
    ensures NoConflict(Place(g, r, c, n))
  {
    var h := Place(g, r, c, n);
    forall r1, c1, r2, c2 | OnBoard(r1, c1) && OnBoard(r2, c2) && Peers(r1, c1, r2, c2) && h[r1][c1] != 0
      ensures h[r1][c1] != h[r2][c2]
    {
      if (r1, c1) == (r, c) {
        assert h[r2][c2] == g[r2][c2];
        assert r2 == r || c2 == c || SameBox(r2, c2, r, c);
      } else if (r2, c2) == (r, c) {
        assert h[r1][c1] == g[r1][c1];
        assert r1 == r || c1 == c || SameBox(r1, c1, r, c);
      } else {
        assert h[r1][c1] == g[r1][c1] && h[r2][c2] == g[r2][c2];
      }
    }
  }

  /** A grid whose only non-zero cells lie in the three diagonal boxes, each of
      which repeats no digit, is free of conflicts: no two diagonal boxes share
      a row, a column or a box. */
  lemma DiagonalSeedingIsConflictFree(g: Grid)
    requires IsGrid(g)
    requires forall r, c :: OnBoard(r, c) && !OnDiagonalBox(r, c) ==> g[r][c] == 0
    requires forall r1, c1, r2, c2 {:trigger g[r1][c1], g[r2][c2]} ::
      OnBoard(r1, c1) && OnBoard(r2, c2) && (r1, c1) != (r2, c2) &&
      SameBox(r1, c1, r2, c2) && g[r1][c1] != 0
      ==> g[r1][c1] != g[r2][c2]
    ensures NoConflict(g)
  {
    forall r1, c1, r2, c2 | OnBoard(r1, c1) && OnBoard(r2, c2) && Peers(r1, c1, r2, c2) && g[r1][c1] != 0
      ensures g[r1][c1] != g[r2][c2]
    {
      assert OnDiagonalBox(r1, c1);
      if g[r2][c2] != 0 {
        assert OnDiagonalBox(r2, c2);
        assert SameBox(r1, c1, r2, c2);
      }
    }
  }

  /** A rearrangement of 1..9 holds each digit 1..9 exactly once. */
  lemma {:induction false} DigitPermutation(s: seq<int>)
    requires multiset(s) == multiset(Digits)
    ensures |s| == GridSize
    ensures forall i :: 0 <= i < |s| ==> 1 <= s[i] <= GridSize
    ensures Distinct(s)
  {
    calc {
      |s|;
      |multiset(s)|;
      |multiset(Digits)|;
      GridSize;
    }
    forall i | 0 <= i < |s| ensures 1 <= s[i] <= GridSize {
      assert s[i] in multiset(s);
      assert s[i] in multiset(Digits);
    }
    forall i, j | 0 <= i < |s| && 0 <= j < |s| && i != j ensures s[i] != s[j] {
      if s[i] == s[j] {
        TwiceInSeq(s, i, j);
        DigitsDistinct();
        DistinctOnce(Digits, s[i]);
        assert false;
      }
    }
  }

  /** The digits 1..9 are listed without repeats. */
  lemma DigitsDistinct()
    ensures Distinct(Digits)
  {
    forall i | 0 <= i < |Digits|
      ensures Digits[i] == i + 1
    {
    }
  }

  /** No value occurs twice in a sequence without repeats. */
  lemma {:induction false} DistinctOnce(s: seq<int>, v: int)
    requires Distinct(s)
    ensures multiset(s)[v] <= 1
  {
    if s != [] {
      var init := s[..|s| - 1];
      assert s == init + [s[|s| - 1]];
      assert Distinct(init);
      DistinctOnce(init, v);
    }
  }

  /** A value found at two positions of a sequence occurs there at least twice. */
  lemma {:induction false} TwiceInSeq(s: seq<int>, i: int, j: int)
    requires 0 <= i < |s| && 0 <= j < |s| && i != j && s[i] == s[j]
    ensures multiset(s)[s[i]] >= 2
  {
    var lo, hi := if i < j then i else j, if i < j then j else i;
    assert s == s[..lo] + [s[lo]] + s[lo + 1..hi] + [s[hi]] + s[hi + 1..];
  }

  // ---------------------------------------------------------------------------
  // A completed grid without conflicts is a solved Sudoku

  /** The digits 1..n. */
  function DigitSet(n: nat): (S: set<int>)
    ensures forall d :: d in S <==> 1 <= d <= n
  {
    if n == 0 then {} else DigitSet(n - 1) + {n}
  }

  lemma {:induction false} DigitSetSize(n: nat)
    ensures |DigitSet(n)| == n
  {
    if n > 0 {
      DigitSetSize(n - 1);
    }
  }

  /** Pigeonhole: distinct values drawn from S are at most |S| many. */
  lemma {:induction false} DistinctFitsIn(s: seq<int>, S: set<int>)
    requires Distinct(s)
    requires forall i :: 0 <= i < |s| ==> s[i] in S
    ensures |s| <= |S|
  {
    if s != [] {
      var t := s[1..];
      assert forall i :: 0 <= i < |t| ==> t[i] == s[i + 1];
      DistinctFitsIn(t, S - {s[0]});
    }
  }

  /** Nine distinct digits from 1..9 are all of them. */
  lemma NineDistinctDigits(s: seq<int>)
    requires |s| == GridSize && Distinct(s)
    requires forall i :: 0 <= i < |s| ==> 1 <= s[i] <= GridSize
    ensures forall d :: 1 <= d <= GridSize ==> d in s
  {
    forall d | 1 <= d <= GridSize ensures d in s {
      if d !in s {
        DigitSetSize(GridSize);
        assert forall i :: 0 <= i < |s| ==> s[i] in DigitSet(GridSize) - {d};
        DistinctFitsIn(s, DigitSet(GridSize) - {d});
        assert false;
      }
    }
  }

  /** A cell 3q + j with 0 <= j < 3 lies in the box band starting at 3q. */
  lemma BandStart(q: int, j: int)
    requires 0 <= j < SubgridSize
    ensures BoxStart(SubgridSize * q + j) == SubgridSize * q
  {
    var x := SubgridSize * q + j;
    assert x == SubgridSize * (x / SubgridSize) + x % SubgridSize;
  }

  /** Two different positions k1, k2 of Box(g, b) are two different cells of
      one box. */
  lemma BoxCellsArePeers(b: int, k1: int, k2: int)
    requires 0 <= b < GridSize && 0 <= k1 < GridSize && 0 <= k2 < GridSize && k1 != k2
    ensures var r1, c1 := b / 3 * 3 + k1 / 3, b % 3 * 3 + k1 % 3;
            var r2, c2 := b / 3 * 3 + k2 / 3, b % 3 * 3 + k2 % 3;
            OnBoard(r1, c1) && OnBoard(r2, c2) && Peers(r1, c1, r2, c2)
  {
    BandStart(b / 3, k1 / 3);
    BandStart(b / 3, k2 / 3);
    BandStart(b % 3, k1 % 3);
    BandStart(b % 3, k2 % 3);
    assert k1 == 3 * (k1 / 3) + k1 % 3 && k2 == 3 * (k2 / 3) + k2 % 3;
  }

  lemma RowHasEveryDigit(g: Grid, i: int)
    requires IsGrid(g) && Complete(g) && NoConflict(g) && 0 <= i < GridSize
    ensures forall d :: 1 <= d <= GridSize ==> d in g[i]
  {
    var row := g[i];
    forall k1, k2 | 0 <= k1 < GridSize && 0 <= k2 < GridSize && k1 != k2
      ensures row[k1] != row[k2]
    {
      assert Peers(i, k1, i, k2);
    }
    NineDistinctDigits(row);
  }

  lemma ColumnHasEveryDigit(g: Grid, i: int)
    requires IsGrid(g) && Complete(g) && NoConflict(g) && 0 <= i < GridSize
    ensures forall d :: 1 <= d <= GridSize ==> d in Column(g, i)
  {
    var col := Column(g, i);
    forall k1, k2 | 0 <= k1 < GridSize && 0 <= k2 < GridSize && k1 != k2
      ensures col[k1] != col[k2]
    {
      assert Peers(k1, i, k2, i);
    }
    NineDistinctDigits(col);
  }

  lemma BoxHasEveryDigit(g: Grid, i: int)
    requires IsGrid(g) && Complete(g) && NoConflict(g) && 0 <= i < GridSize
    ensures forall d :: 1 <= d <= GridSize ==> d in Box(g, i)
  {
    var box := Box(g, i);
    forall k ensures 0 <= k < GridSize ==> 1 <= box[k] <= GridSize {
      if 0 <= k < GridSize {
        BandStart(i / 3, k / 3);
        BandStart(i % 3, k % 3);
      }
    }
    forall k1, k2 | 0 <= k1 < GridSize && 0 <= k2 < GridSize && k1 != k2
      ensures box[k1] != box[k2]
    {
      BoxCellsArePeers(i, k1, k2);
    }
    NineDistinctDigits(box);
  }

  /** Every row, column and box of a complete grid without conflicts holds
      each digit 1..9 (exactly once, since its nine cells are distinct). */
  lemma SolvedGridHasEveryDigit(g: Grid)
    requires IsGrid(g) && Complete(g) && NoConflict(g)
    ensures forall i, d :: 0 <= i < GridSize && 1 <= d <= GridSize ==>
      d in g[i] && d in Column(g, i) && d in Box(g, i)
  {
    forall i | 0 <= i < GridSize
      ensures forall d :: 1 <= d <= GridSize ==> d in g[i] && d in Column(g, i) && d in Box(g, i)
    {
      RowHasEveryDigit(g, i);
      ColumnHasEveryDigit(g, i);
      BoxHasEveryDigit(g, i);
    }
  }

  // ---------------------------------------------------------------------------
  // Counting the cells a mask marks as not given

  /** Number of false flags among the first n cells in row-major order. */
  function Cleared(m: Mask, n: nat): nat
    requires IsMask(m) && n <= CellCount
  {
    if n == 0 then 0
    else Cleared(m, n - 1) + (if m[(n - 1) / GridSize][(n - 1) % GridSize] then 0 else 1)
  }

  /** A mask that is true everywhere clears nothing. */
  lemma {:induction false} NoneCleared(m: Mask, n: nat)
    requires IsMask(m) && n <= CellCount
    requires forall r, c :: OnBoard(r, c) ==> m[r][c]
    ensures Cleared(m, n) == 0
  {
    if n > 0 {
      NoneCleared(m, n - 1);
    }
  }

  /** Clearing one given cell raises the count by exactly one. */
  lemma {:induction false} ClearOne(m: Mask, r: int, c: int, n: nat)
    requires IsMask(m) && OnBoard(r, c) && n <= CellCount && m[r][c]
    ensures IsMask(m[r := m[r][c := false]])
    ensures Cleared(m[r := m[r][c := false]], n) == Cleared(m, n) + (if r * GridSize + c < n then 1 else 0)
  {
    if n > 0 {
      ClearOne(m, r, c, n - 1);
    }
  }

  /** If fewer than n of the first n cells are cleared, one of them is still given. */
  lemma {:induction false} SomeGiven(m: Mask, n: nat)
    requires IsMask(m) && n <= CellCount && Cleared(m, n) < n
    ensures exists r, c :: OnBoard(r, c) && m[r][c]
  {
    var p := n - 1;
    if m[p / GridSize][p % GridSize] {
      assert OnBoard(p / GridSize, p % GridSize);
    } else {
      SomeGiven(m, n - 1);
    }
  }

  /** If any of the first n cells is cleared, some cell of the board is not given. */
  lemma {:induction false} SomeCleared(m: Mask, n: nat)
    requires IsMask(m) && n <= CellCount && Cleared(m, n) > 0
    ensures exists r, c :: OnBoard(r, c) && !m[r][c]
  {
    var p := n - 1;
    if !m[p / GridSize][p % GridSize] {
      assert OnBoard(p / GridSize, p % GridSize);
    } else {
      SomeCleared(m, n - 1);
    }
  }
}
