/** Board dimensions and difficulty levels shared by the Sudoku game. */
module SudokuConstants {
  /** Number of rows, and of columns, of the board. */
  const GridSize: int := 9
  /** Number of rows, and of columns, of one sub-grid (a box). */
  const SubgridSize: int := 3

  /** Difficulty levels: each is the number of cells emptied in a new puzzle. */
  const Easy: int := 20
  const Medium: int := 40
  const Hard: int := 60

  /** The number of cells of the board. */
  const CellCount: int := GridSize * GridSize

  /** True of the three configured difficulty levels and of nothing else. */
  predicate IsLevel(d: int) {
    d == Easy || d == Medium || d == Hard
  }

  /** The constants describe a 9x9 board tiled by 3x3 boxes, and every level
      asks for a number of removals the board can supply. */
  lemma ConstantsAgree()
    ensures GridSize == 9 && SubgridSize == 3
    ensures SubgridSize * SubgridSize == GridSize
    ensures 0 < Easy < Medium < Hard <= CellCount == 81
    ensures forall d :: IsLevel(d) ==> 0 < d <= CellCount
  {
  }
}
