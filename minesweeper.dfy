/** The game: one board, and whether play goes on and whether it was won. */
module Game {
  import opened Cells
  import opened Minefield

  class MineSweeper {
    const board: Board
    /** False once a mine was hit or the game was won. */
    var running: bool
    /** True once every cell without a mine has been cleared. */
    var won: bool

    /** The board is valid, a won game has stopped, and a won game has every safe cell cleared. */
    ghost predicate Valid()
      reads this, board, board.mineField, board.clearedCells
    {
      board.Valid() && (won ==> !running) && (won ==> board.AllSafeCleared())
    }

    /** A new game on a fresh board of width x height cells with numMines mines. */
    constructor (width: int, height: int, numMines: int)
      requires width > 0 && height > 0 && numMines < width * height
      ensures Valid() && running && !won
      ensures fresh(board) && fresh(board.mineField) && fresh(board.clearedCells)
      ensures board.width == width && board.height == height && |board.mines| == Max(0, numMines)
      ensures forall c :: 0 <= c < board.clearedCells.Length ==> !board.clearedCells[c]
    {
      board := new Board(width, height, numMines);
      running := true;
      won := false;
    }

    /** One move: the player clicks cell c. A finished game ignores the move; a mine ends the
        game as lost; otherwise the reveal step runs and the game ends as won once every safe
        cell is cleared. */
    method Update(c: int)
      requires Valid()
      requires running ==> 0 <= c < board.clearedCells.Length
      modifies this, board.clearedCells
      ensures Valid()
      ensures !old(running) ==>
        !running && won == old(won) && board.clearedCells[..] == old(board.clearedCells[..])
      ensures old(running) && c in board.mines ==>
        !running && !won && board.clearedCells[..] == old(board.clearedCells[..])
      ensures old(running) && c !in board.mines ==>
        board.clearedCells[c] && Grows(old(board.clearedCells[..]), board.clearedCells[..]) &&
        SweptFrom(board.width, board.height, board.mines, old(board.clearedCells[..]), board.clearedCells[..], c) &&
        (won <==> board.AllSafeCleared()) && running == !won
    {
      if !running {
        return;
      }
      var ok := board.Clear(c);
      if !ok {
        running := false;
      } else {
        var done := board.AllClear();
        if done {
          running := false;
          won := true;
        }
      }
    }
  }
}
