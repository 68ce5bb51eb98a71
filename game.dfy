/**
 * The board state and turn cycle of script.js: the module-level variables
 * `cells`, `players` and `currentPlayer` become the fields of a Game object,
 * and startGame, definePlayers, mapCells, handleClick and swapPlayer become
 * its methods. The dialog that the source opens on a win or a tie is returned
 * as an Outcome instead.
 */
module Game {
  import opened Board
  import opened WinDetector

  /** The run that wins: checkConsecutive tests index, index+1 and index+2 (and winningLength is 3). */
  const WinningLength: nat := 3

  /** The configuration script.js is shipped with. */
  const Rows: nat := 3
  const Cols: nat := 3
  const AmountOfPlayers: nat := 2

  /**
   * The `players` object after definePlayers: key q stands for "player" + q
   * and maps to q, for exactly the players 1 .. n.
   */
  function PlayerTable(n: nat): (table: map<nat, nat>)
    ensures forall q :: q in table <==> 1 <= q <= n
    ensures forall q :: q in table ==> table[q] == q
  {
    if n == 0 then map[] else PlayerTable(n - 1)[n := n]
  }

  // ---------------------------------------------------------------------
  // Turn rotation
  // ---------------------------------------------------------------------

  /**
   * The player who moves after p among players 1 .. n: the next number if
   * that player exists, player 1 otherwise. This is the cyclic order
   * p mod n + 1, so the current player never leaves 1 .. n.
   */
  function NextPlayer(p: nat, n: nat): (q: nat)
    requires 1 <= p <= n
    ensures 1 <= q <= n
    ensures q == p % n + 1
  {
    if p < n then p + 1 else 1
  }

  /** The current player after m turns that start with player p. */
  function Rotate(p: nat, n: nat, m: nat): (q: nat)
    requires 1 <= p <= n
    ensures 1 <= q <= n
    decreases m
  {
    if m == 0 then p else Rotate(NextPlayer(p, n), n, m - 1)
  }

  /** Before the wrap-around, each turn goes to the next number. */
  lemma {:induction false} RotateClimbs(p: nat, n: nat, m: nat)
    requires 1 <= p && p + m <= n
    ensures Rotate(p, n, m) == p + m
    decreases m
  {
    if m > 0 {
      RotateClimbs(p + 1, n, m - 1);
    }
  }

  /** a + b turns are a turns followed by b turns. */
  lemma {:induction false} RotateAdd(p: nat, n: nat, a: nat, b: nat)
    requires 1 <= p <= n
    ensures Rotate(p, n, a + b) == Rotate(Rotate(p, n, a), n, b)
    decreases a
  {
    if a > 0 {
      RotateAdd(NextPlayer(p, n), n, a - 1, b);
    }
  }

  /** n consecutive turns among n players come back to the player who started. */
  lemma {:induction false} RotationCycles(p: nat, n: nat)
    requires 1 <= p <= n
    ensures Rotate(p, n, n) == p
  {
    RotateAdd(p, n, n - p, p);
    RotateClimbs(p, n, n - p);
    assert Rotate(n, n, p) == Rotate(1, n, p - 1);
    RotateClimbs(1, n, p - 1);
  }

  /**
   * Every player q moves within the first n turns that start with player p:
   * a round of n turns reaches every player.
   */
  lemma {:induction false} RoundVisitsAll(p: nat, n: nat, q: nat)
    requires 1 <= p <= n && 1 <= q <= n
    ensures exists i :: 0 <= i < n && Rotate(p, n, i) == q
  {
    if p <= q {
      RotateClimbs(p, n, q - p);
      assert Rotate(p, n, q - p) == q;
    } else {
      var i := (n - p) + 1 + (q - 1);
      RotateClimbs(p, n, n - p);
      RotateAdd(p, n, n - p, 1 + (q - 1));
      RotateAdd(n, n, 1, q - 1);
      assert Rotate(n, n, 1) == Rotate(1, n, 0) == 1;
      RotateClimbs(1, n, q - 1);
      assert Rotate(p, n, i) == q;
    }
  }

  /** With two players the turns alternate 1, 2, 1, 2, ... */
  lemma {:induction false} TwoPlayersAlternate(m: nat)
    ensures Rotate(1, 2, m) == if m % 2 == 0 then 1 else 2
    decreases m
  {
    if m >= 2 {
      RotateAdd(1, 2, 2, m - 2);
      TwoPlayersAlternate(m - 2);
    }
  }

  // ---------------------------------------------------------------------
  // The game state
  // ---------------------------------------------------------------------

  class Game {
    const rows: nat
    const cols: nat
    const amountOfPlayers: nat
    /** `cells`: the grid, read as cells[y][x]. */
    var cells: Grid
    /** `players`: the player table, key n for "player" + n. */
    var players: map<nat, nat>
    /** `currentPlayer`: the number of the player to move (null, here 0, before definePlayers). */
    var currentPlayer: nat

    /**
     * The state between two clicks: a rows x cols grid whose marks all belong
     * to configured players, the full player table, and a configured current
     * player.
     */
    ghost predicate Valid()
      reads this
    {
      && amountOfPlayers >= 1
      && IsGrid(cells, rows, cols)
      && players == PlayerTable(amountOfPlayers)
      && 1 <= currentPlayer <= amountOfPlayers
      && forall r, c :: 0 <= r < rows && 0 <= c < cols && cells[r][c].Player? ==>
           1 <= cells[r][c].id <= amountOfPlayers
    }

    /** A new game on a rows x cols board; script.js runs startGame once on load. */
    constructor (rows: nat, cols: nat, amountOfPlayers: nat)
      requires amountOfPlayers >= 1
      ensures this.rows == rows && this.cols == cols && this.amountOfPlayers == amountOfPlayers
      ensures Valid()
      ensures forall r, c :: 0 <= r < rows && 0 <= c < cols ==> cells[r][c] == Empty
      ensures currentPlayer == 1
    {
      this.rows := rows;
      this.cols := cols;
      this.amountOfPlayers := amountOfPlayers;
      new;
      StartGame();
    }

    /**
     * startGame: discard the old state, then define the players and lay out
     * an empty grid. Afterwards every cell is empty and player 1 is to move.
     */
    method StartGame()
      requires amountOfPlayers >= 1
      modifies this
      ensures Valid()
      ensures forall r, c :: 0 <= r < rows && 0 <= c < cols ==> cells[r][c] == Empty
      ensures currentPlayer == 1
    {
      cells := [];
      players := map[];
      currentPlayer := 0;
      DefinePlayers();
      assert players == PlayerTable(amountOfPlayers);
      MapCells();
    }

    /**
     * definePlayers: store player p under key p for p = 1 .. amountOfPlayers,
     * then make player 1 the current player.
     */
    method DefinePlayers()
      requires amountOfPlayers >= 1
      modifies this`players, this`currentPlayer
      ensures players == old(players) + PlayerTable(amountOfPlayers)
      ensures currentPlayer == 1
    {
      var p := 1;
      while p <= amountOfPlayers
        invariant 1 <= p <= amountOfPlayers + 1
        invariant players == old(players) + PlayerTable(p - 1)
      {
        players := players[p := p];
        p := p + 1;
      }
      currentPlayer := players[1];
    }

    /**
     * mapCells: push one row per grid row and fill it with "empty", one cell
     * per column. It starts from the empty list startGame leaves.
     */
    method MapCells()
      requires cells == []
      modifies this`cells
      ensures IsGrid(cells, rows, cols)
      ensures forall r, c :: 0 <= r < rows && 0 <= c < cols ==> cells[r][c] == Empty
    {
      var r := 0;
      while r < rows
        invariant r <= rows && IsGrid(cells, r, cols)
        invariant forall i, c :: 0 <= i < r && 0 <= c < cols ==> cells[i][c] == Empty
      {
        cells := cells + [[]];
        var c := 0;
        while c < cols
          invariant c <= cols && |cells| == r + 1 && |cells[r]| == c
          invariant forall i :: 0 <= i < r ==> |cells[i]| == cols
          invariant forall i, j :: 0 <= i < r && 0 <= j < cols ==> cells[i][j] == Empty
          invariant forall j :: 0 <= j < c ==> cells[r][j] == Empty
        {
          // cells[r][c] = "empty" on a row of length c appends to it
          cells := cells[r := cells[r] + [Empty]];
          c := c + 1;
        }
        r := r + 1;
      }
    }

    /**
     * swapPlayer: if a player numbered currentPlayer + 1 exists it moves
     * next, otherwise player 1 does.
     */
    method SwapPlayer()
      requires Valid()
      modifies this`currentPlayer
      ensures Valid()
      ensures currentPlayer == NextPlayer(old(currentPlayer), amountOfPlayers)
    {
      if currentPlayer + 1 in players {
        currentPlayer := players[currentPlayer + 1];
      } else {
        currentPlayer := players[1];
      }
    }

    /**
     * handleClick on the cell at column x, row y. Only an empty cell on the
     * board can be clicked: each cell's listener fires once. The move writes
     * the current player into that one cell; the outcome is a win for that
     * player if the row, column or a diagonal through the cell now holds
     * three of their marks, otherwise a tie if no cell is empty, otherwise
     * the game goes on. The turn then passes to the next player.
     */
    method HandleClick(x: nat, y: nat) returns (outcome: Outcome)
      requires Valid()
      requires y < rows && x < cols && cells[y][x] == Empty
      modifies this`cells, this`currentPlayer
      ensures Valid()
      ensures cells == old(cells[y := cells[y][x := Player(currentPlayer)]])
      ensures forall r, c :: 0 <= r < rows && 0 <= c < cols && old(cells[r][c]) != Empty ==>
                cells[r][c] == old(cells[r][c])
      ensures EmptyCount(cells) == EmptyCount(old(cells)) - 1
      ensures outcome == if WinningLine(cells, x, y, old(currentPlayer), WinningLength) then Win(old(currentPlayer))
                         else if IsFull(cells) then Tie
                         else InProgress
      ensures currentPlayer == NextPlayer(old(currentPlayer), amountOfPlayers)
    {
      EmptyCountWrite(cells, y, x, currentPlayer);
      cells := cells[y := cells[y][x := Player(currentPlayer)]];
      var won := CheckForWin(cells, rows, cols, x, y, currentPlayer, WinningLength);
      if won {
        outcome := Win(currentPlayer);
      } else if CheckForTie(cells) {
        outcome := Tie;
      } else {
        outcome := InProgress;
      }
      SwapPlayer();
    }
  }
}
