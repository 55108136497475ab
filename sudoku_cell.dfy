/** One cell of the Sudoku board: its coordinates, its puzzle number, its
    status, and the text and editability of the text field that shows it. */
module SudokuCell {
  import opened Options
  import opened DecimalText

  datatype CellStatus = Given | ToGuess | CorrectGuess | WrongGuess

  /** The status a new game gives a cell holding `number`: an empty cell is to
      be guessed, any other is given. */
  function StatusFor(number: int): (s: CellStatus)
    ensures s == ToGuess <==> number == 0
    ensures s == Given <==> number != 0
  {
    if number == 0 then ToGuess else Given
  }

  class Cell {
    var row: int
    var col: int
    /** The puzzle number shown in the cell, 0 for none. */
    var number: int
    /** None until the first new game, as Java's field is null until then. */
    var status: Option<CellStatus>
    /** The text field's contents and whether the player may edit them. */
    var text: string
    var editable: bool

    /** A cell at (row, col) with an empty, editable text field. */
    constructor (row: int, col: int)
      ensures this.row == row && this.col == col
      ensures number == 0 && status == None && text == "" && editable
    {
      this.row := row;
      this.col := col;
      number := 0;
      status := None;
      text := "";
      editable := true;
    }

    /** Resets the cell for a new game. The second argument is ignored: the
        status follows from `number` alone. */
    method NewGame(number: int, isGiven: bool)
      modifies this
      ensures row == old(row) && col == old(col)
      ensures this.number == number
      ensures status == Some(StatusFor(number))
      ensures number == 0 ==> text == "" && editable
      ensures number != 0 ==> text == IntToString(number) && !editable
    {
      this.number := number;
      if number == 0 {
        text := "";
        editable := true;
        status := Some(ToGuess);
      } else {
        text := IntToString(number);
        editable := false;
        status := Some(Given);
      }
      Paint();
    }

    /** Restyles the text field for its status. A given cell shows its number
        and is locked, a cell to guess is emptied and unlocked; the other
        statuses only change colours. Status and number are left alone. */
    method Paint()
      modifies this
      ensures row == old(row) && col == old(col)
      ensures number == old(number) && status == old(status)
      ensures status == Some(Given) ==>
        text == (if number == 0 then "" else IntToString(number)) && !editable
      ensures status == Some(ToGuess) ==> text == "" && editable
      ensures status != Some(Given) && status != Some(ToGuess) ==>
        text == old(text) && editable == old(editable)
    {
      if status == Some(Given) {
        text := if number == 0 then "" else IntToString(number);
        editable := false;
      } else if status == Some(ToGuess) {
        text := "";
        editable := true;
      }
    }
  }

  /** What a new game shows in a cell is what the cell holds: the text of a
      given cell reads back as its number, and a cell to guess shows nothing. */
  lemma NewGameTextReadsBack(number: int)
    requires MinInt <= number <= MaxInt
    ensures StatusFor(number) == Given ==> ParseInt(IntToString(number)) == Some(number)
  {
    IntRoundTrip(number);
  }
}
