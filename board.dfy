/** Cell values, the grid, and the tie check of the tic-tac-toe engine. */
module Board {

  /** One grid position: "empty" or the number of the player who played it. */
  datatype Cell = Empty | Player(id: nat)

  /** What a move leads to; the game reports Win and Tie through its dialog. */
  datatype Outcome = InProgress | Win(winner: nat) | Tie

  /** A JavaScript array read: `undefined` past the end, the value otherwise. */
  datatype Option<T> = None | Some(value: T)

  /** The `cells` array: a list of rows, each a list of cells. */
  type Grid = seq<seq<Cell>>

  /** The grid has `rows` rows of `cols` cells each. */
  predicate IsGrid(g: Grid, rows: nat, cols: nat)
  {
    |g| == rows && forall r :: 0 <= r < rows ==> |g[r]| == cols
  }

  /** Cell (r, c) is on the grid and holds player p. */
  predicate Owns(g: Grid, r: int, c: int, p: nat)
  {
    0 <= r < |g| && 0 <= c < |g[r]| && g[r][c] == Player(p)
  }

  /** No cell of the grid is empty. */
  predicate IsFull(g: Grid)
  {
    forall r, c :: 0 <= r < |g| && 0 <= c < |g[r]| ==> g[r][c] != Empty
  }

  /** `cells.flat()`: the rows concatenated in order; every cell of the grid appears in it. */
  function Flat(g: Grid): (flat: seq<Cell>)
    ensures forall r, c :: 0 <= r < |g| && 0 <= c < |g[r]| ==> g[r][c] in flat
  {
    if g == [] then []
    else
      assert forall r, c :: 1 <= r < |g| && 0 <= c < |g[r]| ==> g[r][c] == g[1..][r - 1][c];
      g[0] + Flat(g[1..])
  }

  /** The flattened grid contains "empty" exactly when some cell is empty. */
  lemma {:induction false} FlatHasEmpty(g: Grid)
    ensures Empty in Flat(g) <==> !IsFull(g)
  {
    if g != [] {
      FlatHasEmpty(g[1..]);
      assert Flat(g) == g[0] + Flat(g[1..]);
      if Empty in g[0] {
        var c :| 0 <= c < |g[0]| && g[0][c] == Empty;
        assert g[0][c] == Empty;
      } else if Empty in Flat(g[1..]) {
        var r, c :| 0 <= r < |g[1..]| && 0 <= c < |g[1..][r]| && g[1..][r][c] == Empty;
        assert g[r + 1][c] == Empty;
      } else {
        forall r, c | 0 <= r < |g| && 0 <= c < |g[r]|
          ensures g[r][c] != Empty
        {
          if r == 0 {
            assert g[0][c] in g[0];
          } else {
            assert g[r] == g[1..][r - 1];
          }
        }
      }
    }
  }

  /** checkForTie: the game is tied when the flattened grid holds no "empty". */
  function CheckForTie(g: Grid): (tie: bool)
    ensures tie <==> IsFull(g)
  {
    FlatHasEmpty(g);
    Empty !in Flat(g)
  }

  /** Number of empty cells in a row. */
  function EmptyInRow(row: seq<Cell>): (n: nat)
    ensures n <= |row|
  {
    if row == [] then 0 else (if row[0] == Empty then 1 else 0) + EmptyInRow(row[1..])
  }

  /** Number of empty cells on the grid. */
  function EmptyCount(g: Grid): nat
  {
    if g == [] then 0 else EmptyInRow(g[0]) + EmptyCount(g[1..])
  }

  /** A row has no empty cell exactly when it does not contain "empty". */
  lemma {:induction false} EmptyInRowZero(row: seq<Cell>)
    ensures EmptyInRow(row) == 0 <==> Empty !in row
  {
    if row != [] {
      EmptyInRowZero(row[1..]);
      assert row == [row[0]] + row[1..];
    }
  }

  /**
   * The count of empty cells reaches zero exactly when the grid is full, that
   * is, exactly when checkForTie reports a tie.
   */
  lemma {:induction false} EmptyCountZero(g: Grid)
    ensures EmptyCount(g) == 0 <==> IsFull(g)
  {
    if g != [] {
      EmptyCountZero(g[1..]);
      EmptyInRowZero(g[0]);
      if Empty in g[0] {
        var c :| 0 <= c < |g[0]| && g[0][c] == Empty;
        assert !IsFull(g);
      } else if !IsFull(g[1..]) {
        var r, c :| 0 <= r < |g[1..]| && 0 <= c < |g[1..][r]| && g[1..][r][c] == Empty;
        assert g[r + 1][c] == Empty;
      } else {
        forall r, c | 0 <= r < |g| && 0 <= c < |g[r]|
          ensures g[r][c] != Empty
        {
          if r == 0 {
            assert g[0][c] in g[0];
          } else {
            assert g[r] == g[1..][r - 1];
          }
        }
      }
    }
  }

  /**
   * A rows x cols grid has at most rows * cols empty cells. Each move removes
   * one (EmptyCountWrite) and the count is zero exactly when the tie check
   * holds (EmptyCountZero), so a game is decided within rows * cols moves.
   */
  lemma {:induction false} EmptyCountBound(g: Grid, rows: nat, cols: nat)
    requires IsGrid(g, rows, cols)
    ensures EmptyCount(g) <= rows * cols
  {
    if g != [] {
      assert IsGrid(g[1..], rows - 1, cols) by {
        forall r | 0 <= r < rows - 1
          ensures |g[1..][r]| == cols
        {
          assert g[1..][r] == g[r + 1];
        }
      }
      EmptyCountBound(g[1..], rows - 1, cols);
      assert |g[0]| == cols;
      assert rows * cols == cols + (rows - 1) * cols;
    }
  }

  /** Writing a player over an empty cell of a row removes one empty cell. */
  lemma {:induction false} EmptyInRowWrite(row: seq<Cell>, c: nat, p: nat)
    requires c < |row| && row[c] == Empty
    ensures EmptyInRow(row[c := Player(p)]) == EmptyInRow(row) - 1
  {
    if c == 0 {
      assert row[c := Player(p)][1..] == row[1..];
    } else {
      EmptyInRowWrite(row[1..], c - 1, p);
      assert row[c := Player(p)][1..] == row[1..][c - 1 := Player(p)];
    }
  }

  /** A move on an empty cell removes exactly one empty cell from the grid. */
  lemma {:induction false} EmptyCountWrite(g: Grid, r: nat, c: nat, p: nat)
    requires r < |g| && c < |g[r]| && g[r][c] == Empty
    ensures EmptyCount(g[r := g[r][c := Player(p)]]) == EmptyCount(g) - 1
  {
    if r == 0 {
      EmptyInRowWrite(g[0], c, p);
      assert g[r := g[r][c := Player(p)]][1..] == g[1..];
    } else {
      EmptyCountWrite(g[1..], r - 1, c, p);
      assert g[r := g[r][c := Player(p)]][1..] == g[1..][r - 1 := g[r][c := Player(p)]];
    }
  }
}
