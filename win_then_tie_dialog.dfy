/**
 * handleClick as written opens the dialog twice on a winning move that fills
 * the board. checkForWin has no return statement, so `!checkForWin(cell)` is
 * always true and checkForTie runs after a win as well; its message replaces
 * the win message in the same dialog. Game.HandleClick reports the win
 * instead, as the guard around checkForTie intends.
 */
module WinThenTieDialog {
  import opened Board
  import opened WinDetector
  import opened Game

  /**
   * The outcomes announced, in order, after the move at (x, y) by p as the
   * source runs: the win dialog if the move wins, then the tie dialog if no
   * cell is empty, whether or not the move won.
   */
  ghost function DialogsAsWritten(g: Grid, x: int, y: int, p: nat): (dialogs: seq<Outcome>)
    ensures Win(p) in dialogs <==> WinningLine(g, x, y, p, WinningLength)
    ensures Tie in dialogs <==> IsFull(g)
    ensures dialogs != [] && IsFull(g) ==> dialogs[|dialogs| - 1] == Tie
  {
    (if WinningLine(g, x, y, p, WinningLength) then [Win(p)] else [])
    + (if IsFull(g) then [Tie] else [])
  }

  /**
   * A 3 x 3 board after player 1 fills the last cell, (2, 2), and completes
   * the diagonal (0, 0), (1, 1), (2, 2):
   *   1 2 1
   *   2 1 2
   *   2 1 1
   */
  function LastMoveWinBoard(): (g: Grid)
    ensures IsGrid(g, Rows, Cols) && IsFull(g)
  {
    [[Player(1), Player(2), Player(1)],
     [Player(2), Player(1), Player(2)],
     [Player(2), Player(1), Player(1)]]
  }

  /**
   * As written, the winning move on LastMoveWinBoard opens the win dialog and
   * then the tie dialog, so the message left on screen is the tie.
   */
  lemma LastMoveWinShowsTie()
    ensures DialogsAsWritten(LastMoveWinBoard(), 2, 2, 1) == [Win(1), Tie]
  {
    var g := LastMoveWinBoard();
    assert LineRunAt(g, DownRight, 0, 0, 1, WinningLength);
    assert LineWin(g, DownRight, 0, 1, WinningLength);
  }

  /** A mark in a board picture: 0 for "empty", n for player n. */
  function CellOf(mark: nat): (cell: Cell)
    ensures cell == Empty <==> mark == 0
  {
    if mark == 0 then Empty else Player(mark)
  }

  /** The grid looks like the picture `marks`, row by row. */
  predicate Shows(g: Grid, marks: seq<seq<nat>>)
  {
    && |g| == |marks|
    && forall r :: 0 <= r < |g| ==>
         |g[r]| == |marks[r]| && forall c :: 0 <= c < |g[r]| ==> g[r][c] == CellOf(marks[r][c])
  }

  /**
   * The same game played on a Game object: player 1 takes (0,0), (2,0),
   * (1,1), (1,2) and finally (2,2); player 2 takes (1,0), (0,1), (2,1), (0,2)
   * (as (x, y) pairs). The last move fills the board, so the tie check
   * holds afterwards, yet the move is reported as a win for player 1.
   */
  method LastMoveWinReportsWin() returns (outcome: Outcome, tieCheck: bool)
    ensures outcome == Win(1) && tieCheck
  {
    var game := new Game(Rows, Cols, AmountOfPlayers);
    outcome := game.HandleClick(0, 0);
    outcome := game.HandleClick(1, 0);
    outcome := game.HandleClick(2, 0);
    assert Shows(game.cells, [[1, 2, 1], [0, 0, 0], [0, 0, 0]]);
    PlayMiddleOfLastMoveWin(game);
    outcome, tieCheck := FinishLastMoveWin(game);
  }

  /** Moves four to six of that game. */
  method PlayMiddleOfLastMoveWin(game: Game)
    requires game.Valid() && game.rows == Rows && game.cols == Cols && game.amountOfPlayers == AmountOfPlayers
    requires game.currentPlayer == 2 && Shows(game.cells, [[1, 2, 1], [0, 0, 0], [0, 0, 0]])
    modifies game
    ensures game.Valid() && game.rows == Rows && game.cols == Cols && game.amountOfPlayers == AmountOfPlayers
    ensures game.currentPlayer == 1 && Shows(game.cells, [[1, 2, 1], [2, 1, 2], [0, 0, 0]])
  {
    var outcome := game.HandleClick(0, 1);
    outcome := game.HandleClick(1, 1);
    outcome := game.HandleClick(2, 1);
  }

  /** The last three moves of that game; the last one fills the board. */
  method FinishLastMoveWin(game: Game) returns (outcome: Outcome, tieCheck: bool)
    requires game.Valid() && game.rows == Rows && game.cols == Cols && game.amountOfPlayers == AmountOfPlayers
    requires game.currentPlayer == 1 && Shows(game.cells, [[1, 2, 1], [2, 1, 2], [0, 0, 0]])
    modifies game
    ensures outcome == Win(1) && tieCheck
  {
    outcome := game.HandleClick(1, 2);
    outcome := game.HandleClick(0, 2);
    outcome := game.HandleClick(2, 2);
    assert IsFull(game.cells);
    tieCheck := CheckForTie(game.cells);
    assert LineRunAt(game.cells, DownRight, 0, 0, 1, WinningLength);
  }
}
