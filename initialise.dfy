/** Creation of a fresh grid. */
module Initialise {
  import opened Grid

  /** A new grid with all nine cells empty, filled row by row so that the row-major
      order of the slots is the order in which the cells were inserted. */
  method MakeGrid() returns (grid: array<Cell>)
    ensures fresh(grid)
    ensures grid[..] == EmptyBoard
  {
    grid := new Cell[9];
    for row := 0 to 3
      invariant forall i :: 0 <= i < 3 * row ==> grid[i] == None
    {
      for col := 0 to 3
        invariant forall i :: 0 <= i < 3 * row + col ==> grid[i] == None
      {
        grid[3 * row + col] := None;  // the slot Index(Pos(row, col))
      }
    }
    assert forall i :: 0 <= i < 9 ==> grid[..][i] == EmptyBoard[i];
  }

  /** The board a new grid holds has no mark anywhere: every coordinate reads empty. */
  lemma EmptyBoardReadsEmpty(p: Pos)
    requires ValidPos(p)
    ensures At(EmptyBoard, p) == None
    ensures Empties(EmptyBoard) == 9
  {
  }
}
