/**
 * Whole games played on a Game object with the shipped configuration
 * (3 x 3 board, two players): three of one player's marks in a row, on the
 * down-right diagonal and on the down-left diagonal each end the game with
 * a win for that player on the move that completes them. Moves are (x, y)
 * pairs, x the column and y the row; the players alternate starting with 1.
 */
module Scenarios {
  import opened Board
  import opened WinDetector
  import opened Game

  /** Player 1 fills row 0: (0,0), (1,0), (2,0); player 2 plays (0,1), (1,1). */
  method RowOfThreeWins() returns (outcome: Outcome)
    ensures outcome == Win(1)
  {
    var game := new Game(Rows, Cols, AmountOfPlayers);
    outcome := game.HandleClick(0, 0);
    outcome := game.HandleClick(0, 1);
    outcome := game.HandleClick(1, 0);
    outcome := game.HandleClick(1, 1);
    assert game.currentPlayer == 1;
    outcome := game.HandleClick(2, 0);
    assert HorizontalRunAt(game.cells, 0, 0, 1, WinningLength);
  }

  /** Player 1 fills the down-right diagonal: (0,0), (1,1), (2,2); player 2 plays (1,0), (2,0). */
  method DownRightDiagonalWins() returns (outcome: Outcome)
    ensures outcome == Win(1)
  {
    var game := new Game(Rows, Cols, AmountOfPlayers);
    outcome := game.HandleClick(0, 0);
    outcome := game.HandleClick(1, 0);
    outcome := game.HandleClick(1, 1);
    outcome := game.HandleClick(2, 0);
    assert game.currentPlayer == 1;
    outcome := game.HandleClick(2, 2);
    assert LineRunAt(game.cells, DownRight, 0, 0, 1, WinningLength);
  }

  /** Player 1 fills the down-left diagonal: (2,0), (1,1), (0,2); player 2 plays (0,0), (1,0). */
  method DownLeftDiagonalWins() returns (outcome: Outcome)
    ensures outcome == Win(1)
  {
    var game := new Game(Rows, Cols, AmountOfPlayers);
    outcome := game.HandleClick(2, 0);
    outcome := game.HandleClick(0, 0);
    outcome := game.HandleClick(1, 1);
    outcome := game.HandleClick(1, 0);
    assert game.currentPlayer == 1;
    outcome := game.HandleClick(0, 2);
    assert LineRunAt(game.cells, DownLeft, 2, 0, 1, WinningLength);
  }
}
