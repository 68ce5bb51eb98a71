# Tic-tac-toe engine

A Dafny model of the game engine in `script.js`: the board state (`cells`,
`players`, `currentPlayer`), the turn cycle (`startGame`, `definePlayers`,
`mapCells`, `handleClick`, `swapPlayer`) and the win detector
(`checkForWin`, `checkHorizontal`, `checkVertical`, `checkDiagonalToRight`,
`checkDiagonalToLeft`, `checkConsecutive`, `checkForTie`).

- `board.dfy` (module `Board`): cell values (`Empty` or `Player(n)`), the
  grid as a list of rows, the tie check and the count of empty cells.
- `win_detector.dfy` (module `WinDetector`): the run scan, the four line
  extractions and the win check. Each check is proved equal to a
  geometric statement on the grid. For example, "the down-right diagonal
  r - c = y - x holds k consecutive cells of p" is stated with no
  reference to how the source walks the diagonal.
- `game.dfy` (module `Game`): the module-level state as a `Game` class,
  with its methods, and the rotation of turns.
- `win_then_tie_dialog.dfy` (module `WinThenTieDialog`): the dialog
  sequence of `handleClick` as written, on a board where the winning move
  also fills the board (see "## Findings").
- `scenarios.dfy` (module `Scenarios`): whole games on a 3 x 3 board that
  end in a row, a down-right diagonal and a down-left diagonal.

Coordinates follow the source: `x` is the column, `y` the row, and the grid
is read as `cells[y][x]`. The run length is a parameter `k` of the win
detector. The game uses `WinningLength = 3`, the length that
`checkConsecutive` tests (index, index + 1, index + 2).

The model follows the code, with one exception:
- `HandleClick` runs the tie check only when the move did not win, as the
  guard at script.js line 89 intends. As written, `checkForWin` returns
  nothing, so the tie check runs after every move; "## Findings" describes
  the consequence, and `WinThenTieDialog` models the code as written.

Behaviour kept from the code:
- A move that wins still passes the turn (`swapPlayer` runs after every
  click).
- No error is raised for a bad configuration or an occupied cell. Instead,
  `Game` requires at least one player, and `HandleClick` requires an empty
  cell on the board. That is what the source relies on: `players["player1"]`
  must exist, and each cell's click listener fires at most once.

## Model

| member | source | states |
|---|---|---|
| Board.Flat | script.js:142 | flattening keeps every cell of the grid: each cell appears in the flattened list |
| Board.CheckForTie | script.js:141-146 | a tie is reported exactly when no cell of the grid is empty |
| Board.FlatHasEmpty | script.js:142-143 | the flattened grid contains "empty" if and only if some cell of the 2-D grid is empty |
| Board.EmptyCountWrite | script.js:86 | writing a player over an empty cell removes exactly one empty cell from the grid |
| Board.EmptyCountZero | script.js:141-146 | the number of empty cells is zero exactly when the tie check holds |
| Board.EmptyCountBound | script.js:37-44 | a rows x cols grid has at most rows x cols empty cells; with EmptyCountWrite and EmptyCountZero, after at most rows x cols moves the board is full and the tie check holds, so every game is decided within that many moves |
| WinDetector.Lookup | script.js:154-156 | an array read gives undefined exactly past the end, and the element inside the array |
| WinDetector.MatchesAt | script.js:153-157 | the `.some` callback's test at one index; when it holds (for a run length above zero), the whole window lies inside the array |
| WinDetector.CheckConsecutive | script.js:151-160 | the scan finds a match exactly when the array holds k consecutive copies of the player; an array shorter than k never matches |
| WinDetector.MatchesAtIsRunAt | script.js:154-156 | a window that reaches past the end of the array reads undefined and never matches; inside the array it matches exactly on a run |
| WinDetector.RowRuns | script.js:165-173 | a run in the array `cells[y]` is a run of k cells of the player along row y of the grid, and back |
| WinDetector.CheckHorizontal | script.js:165-173 | reports a win exactly when row y holds k consecutive cells of the player |
| WinDetector.CheckVertical | script.js:178-188 | the column it collects is column x from top to bottom; it reports a win exactly when that column holds k consecutive cells of the player |
| WinDetector.LineRuns | script.js:178-237 | scanning a list that enumerates a line of the grid in row order finds a run exactly when the line holds k consecutive cells of the player |
| WinDetector.WalkDiagonalToRight | script.js:195-208 | the walk collects exactly the cells with r - c = y - x, in row order and starting at the top or left edge, the played cell among them |
| WinDetector.CheckDiagonalToRight | script.js:194-212 | reports a win exactly when the down-right diagonal through (x, y) holds k consecutive cells of the player |
| WinDetector.WalkDiagonalToLeft | script.js:219-233 | the walk yields one undefined entry when x + y >= cols (the read at column cols), then exactly the cells with r + c = x + y in row order, the played cell among them |
| WinDetector.UndefinedNeverMatches | script.js:222-227 | undefined entries in front of a line never take part in a run, so they do not change the verdict |
| WinDetector.PaddedLine | script.js:227-233 | an array made of the padding followed by the cells pushed one by one is the padding followed by the wrapped line |
| WinDetector.CheckDiagonalToLeft | script.js:218-237 | reports a win exactly when the down-left diagonal through (x, y) holds k consecutive cells of the player |
| WinDetector.CheckForWin | script.js:108-118 | reports a win exactly when the row, the column or one of the two diagonals through the played cell holds k consecutive cells of the player |
| WinDetector.WinFromAnyCellOfRun | script.js:108-118 | a run along a column or diagonal is reported whichever of its cells is played last |
| WinDetector.WinFromAnyCellOfRow | script.js:108-118 | a run along a row is reported whichever of its cells is played last |
| Game.PlayerTable | script.js:27-30 | the player table has exactly the keys 1 .. n, and each key maps to its own number |
| Game.NextPlayer | script.js:98-104 | the next player is p mod n + 1, always one of 1 .. n |
| Game.Rotate | script.js:98-104 | after any number of turns the current player is still one of 1 .. n |
| Game.RotateClimbs | script.js:99-100 | before the wrap-around, each turn goes to the next player number |
| Game.RotateAdd | script.js:98-104 | a + b turns are a turns followed by b turns |
| Game.RotationCycles | script.js:98-104 | n turns among n players come back to the player who started |
| Game.RoundVisitsAll | script.js:98-104 | every player q moves within the first n turns, whoever starts: a round reaches every player |
| Game.TwoPlayersAlternate | script.js:98-104 | with the two players of the shipped configuration, the turns alternate 1, 2, 1, 2, starting with player 1 |
| Game.Game.constructor | script.js:17-24 | a new game has a rows x cols grid of empty cells and player 1 to move |
| Game.Game.StartGame | script.js:17-24 | after a (re)start every cell is empty, the player table is complete and player 1 is to move |
| Game.Game.DefinePlayers | script.js:27-32 | adds players 1 .. n to the table and makes player 1 the current player |
| Game.Game.MapCells | script.js:37-44 | builds a rows x cols grid whose cells are all empty |
| Game.Game.SwapPlayer | script.js:98-104 | the turn passes to the next player in the cyclic order, and the state stays consistent |
| Game.Game.HandleClick | script.js:83-93 | the move writes the current player into the clicked cell and changes no other cell; it removes one empty cell; the outcome is a win for the mover exactly when a line through the cell holds three of their marks, otherwise a tie exactly when the board is full; the turn then passes to the next player |
| WinThenTieDialog.DialogsAsWritten | script.js:89-91 | as written, the win dialog opens exactly when a line through the cell is won, the tie dialog exactly when the board is full, and on a full board the tie dialog is the last one |
| WinThenTieDialog.LastMoveWinBoard | script.js:89-91 | a full 3 x 3 board on which the last move, (2, 2) by player 1, completes the main diagonal |
| WinThenTieDialog.LastMoveWinShowsTie | script.js:89-91 | as written, that move opens the win dialog and then the tie dialog, so the tie message is the one left on screen |
| WinThenTieDialog.LastMoveWinReportsWin | script.js:83-93 | the same game played on a Game object: the board is full after the last move (the tie check holds), and the move is still reported as a win for player 1 |
| WinThenTieDialog.PlayMiddleOfLastMoveWin | script.js:83-93 | moves four to six of that game put the expected marks on the board and give the turn back to player 1 |
| WinThenTieDialog.FinishLastMoveWin | script.js:83-93 | the last three moves of that game end with a full board and a win for player 1 |
| Scenarios.RowOfThreeWins | script.js:165-173 | three marks of player 1 along row 0 end the game with a win for player 1 on the fifth move |
| Scenarios.DownRightDiagonalWins | script.js:194-212 | three marks of player 1 along the main diagonal end the game with a win for player 1 |
| Scenarios.DownLeftDiagonalWins | script.js:218-237 | three marks of player 1 along the anti-diagonal end the game with a win for player 1 |

## Left out

- The DOM (`grid`, `modal`, `mountBoard`, `openModal`, the CSS classes and
  the cell text), because it is presentation. `mountBoard`'s click listeners
  are captured only by `HandleClick`'s precondition: a cell on the board that
  is still empty.
- The dialog: the win and tie dialogs are returned as an `Outcome`, and
  "play again" is a call to `StartGame`.
- `console.log(cells)` in `checkForWin`, because it is output only.
- String coercion of `dataset.x` / `dataset.y`, because the model takes the
  coordinates as numbers. The comparisons in the walks and the indexing
  behave as on numbers in the source.
- `players` keys: the string `"player" + n` is modelled by the number `n`.
- Game.Game.HandleClick: the source keeps accepting clicks after a win or a
  tie until the dialog is dismissed. The model allows a click on any empty
  cell and does not track a game-over state, because the source has none.

## Findings

| source | as written | input that shows it | evidently intended | confidence | as-written member | corrected member |
|---|---|---|---|---|---|---|
| script.js:89-91 | `checkForWin` has no return value, so `!checkForWin(cell)` is always true. `checkForTie` therefore runs after a winning move as well, and its "it's a tie" message replaces the win message in the same dialog. | 3 x 3 board, moves (x, y) alternating from player 1: (0,0) (1,0) (2,0) (0,1) (1,1) (2,1) (1,2) (0,2) (2,2). The last move fills the board and completes the diagonal (0,0) (1,1) (2,2). | the tie check runs only when the move did not win, and the win is reported | not executed | WinThenTieDialog.LastMoveWinShowsTie | Game.Game.HandleClick |
