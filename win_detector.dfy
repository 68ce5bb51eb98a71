/**
 * The win detector of script.js: for the cell just played it takes the whole
 * row, the whole column and both diagonals through that cell, and scans each
 * of them for a run of k consecutive marks of the current player (k is 3 in
 * the source).
 *
 * Coordinates follow the source: x is the column, y the row, and the grid is
 * read as g[y][x].
 */
module WinDetector {
  import opened Board

  // ---------------------------------------------------------------------
  // The run scan (checkConsecutive)
  // ---------------------------------------------------------------------

  /** `a[i]` in JavaScript: the element, or undefined past the end. */
  function Lookup<T>(a: seq<T>, i: nat): (r: Option<T>)
    ensures r == None <==> |a| <= i
    ensures i < |a| ==> r == Some(a[i])
  {
    if i < |a| then Some(a[i]) else None
  }

  /** The test that checkConsecutive makes at index i: entries i .. i+k-1 all read as v. */
  predicate MatchesAt<T(==)>(a: seq<T>, v: T, k: nat, i: nat)
    ensures MatchesAt(a, v, k, i) && k > 0 ==> i + k <= |a|
  {
    assert k > 0 ==> (Lookup(a, i + k - 1) == Some(v) ==> i + k <= |a|);
    forall j :: i <= j < i + k ==> Lookup(a, j) == Some(v)
  }

  /** The window a[i .. i+k) lies inside a and holds v throughout. */
  predicate RunAt<T(==)>(a: seq<T>, v: T, k: nat, i: int)
  {
    0 <= i && i + k <= |a| && forall j :: i <= j < i + k ==> a[j] == v
  }

  /** Some element of a starts a run of k copies of v that fits inside a. */
  ghost predicate HasRun<T>(a: seq<T>, v: T, k: nat)
  {
    exists i :: 0 <= i < |a| && RunAt(a, v, k, i)
  }

  /** A window that reaches past the end reads undefined there, so it never matches. */
  lemma MatchesAtIsRunAt<T>(a: seq<T>, v: T, k: nat)
    ensures forall i :: 0 <= i < |a| ==> (MatchesAt(a, v, k, i) <==> RunAt(a, v, k, i))
  {
    forall i | 0 <= i < |a| && MatchesAt(a, v, k, i) && k > 0
      ensures RunAt(a, v, k, i)
    {
      assert Lookup(a, i + k - 1) == Some(v);
      forall j | i <= j < i + k
        ensures a[j] == v
      {
        assert Lookup(a, j) == Some(v);
      }
    }
  }

  /**
   * checkConsecutive: `Array.some` over the indices of a, testing
   * a[index], a[index+1], ..., a[index+k-1] against v. It holds exactly when
   * a has a run of k copies of v, so a line shorter than k never wins.
   */
  function CheckConsecutive<T(==)>(a: seq<T>, v: T, k: nat): (found: bool)
    ensures found <==> HasRun(a, v, k)
    ensures |a| < k ==> !found
  {
    MatchesAtIsRunAt(a, v, k);
    exists i | 0 <= i < |a| :: MatchesAt(a, v, k, i)
  }

  // ---------------------------------------------------------------------
  // What a win is, stated on the grid itself
  // ---------------------------------------------------------------------

  /** Cell (r, c) lies on the grid. */
  predicate InGrid(g: Grid, r: int, c: int)
  {
    0 <= r < |g| && 0 <= c < |g[r]|
  }

  /** Player p owns the k cells of row y from column c0 on. */
  predicate HorizontalRunAt(g: Grid, y: int, c0: int, p: nat, k: nat)
  {
    forall c :: c0 <= c < c0 + k ==> Owns(g, y, c, p)
  }

  /** Row y holds k consecutive cells of player p. */
  ghost predicate HorizontalWin(g: Grid, y: int, p: nat, k: nat)
  {
    exists c0 :: HorizontalRunAt(g, y, c0, p, k)
  }

  /** The three kinds of line that are walked row by row. */
  datatype Slope = Vertical | DownRight | DownLeft

  /**
   * The column of the cell in row r of a line. The offset names the line:
   * the column x of a vertical line, the difference r - c of a down-right
   * diagonal, the sum r + c of a down-left diagonal.
   */
  function ColumnAt(slope: Slope, offset: int, r: int): int
  {
    match slope
    case Vertical => offset
    case DownRight => r - offset
    case DownLeft => offset - r
  }

  /** Player p owns the cell in row r of the line. */
  predicate OnLine(g: Grid, slope: Slope, offset: int, r: int, p: nat)
  {
    Owns(g, r, ColumnAt(slope, offset, r), p)
  }

  /** Player p owns the k cells of the line in rows r0 .. r0+k-1. */
  predicate LineRunAt(g: Grid, slope: Slope, offset: int, r0: int, p: nat, k: nat)
  {
    forall r :: r0 <= r < r0 + k ==> OnLine(g, slope, offset, r, p)
  }

  /** The line holds k consecutive cells of player p. */
  ghost predicate LineWin(g: Grid, slope: Slope, offset: int, p: nat, k: nat)
  {
    exists r0 :: LineRunAt(g, slope, offset, r0, p, k)
  }

  /**
   * The specification of checkForWin: the row, the column or one of the two
   * diagonals through the played cell (x, y) holds k consecutive cells of p.
   */
  ghost predicate WinningLine(g: Grid, x: int, y: int, p: nat, k: nat)
  {
    || HorizontalWin(g, y, p, k)
    || LineWin(g, Vertical, x, p, k)
    || LineWin(g, DownRight, y - x, p, k)
    || LineWin(g, DownLeft, y + x, p, k)
  }

  /**
   * `line` lists, in increasing row order starting at row r0, exactly the
   * cells of the grid that lie on the line: each entry is the grid cell of
   * its row, and every grid cell on the line has its row among them.
   */
  ghost predicate Enumerates(g: Grid, slope: Slope, offset: int, r0: int, line: seq<Cell>)
  {
    && (forall r :: r0 <= r < r0 + |line| ==>
          InGrid(g, r, ColumnAt(slope, offset, r)) &&
          line[r - r0] == g[r][ColumnAt(slope, offset, r)])
    && (forall r :: InGrid(g, r, ColumnAt(slope, offset, r)) ==> r0 <= r < r0 + |line|)
  }

  // ---------------------------------------------------------------------
  // Scanning an extracted line decides a win on that line
  // ---------------------------------------------------------------------

  /** A run in row y, read as an array, is a horizontal run on the grid. */
  lemma RowRuns(g: Grid, y: nat, p: nat, k: nat)
    requires y < |g| && |g[y]| > 0
    ensures HasRun(g[y], Player(p), k) <==> HorizontalWin(g, y, p, k)
  {
    if HasRun(g[y], Player(p), k) {
      var i :| 0 <= i < |g[y]| && RunAt(g[y], Player(p), k, i);
      assert HorizontalRunAt(g, y, i, p, k);
    }
    if HorizontalWin(g, y, p, k) {
      var c0 :| HorizontalRunAt(g, y, c0, p, k);
      if k == 0 {
        assert RunAt(g[y], Player(p), k, 0);
      } else {
        assert Owns(g, y, c0, p) && Owns(g, y, c0 + k - 1, p);
        forall c | c0 <= c < c0 + k
          ensures g[y][c] == Player(p)
        {
          assert Owns(g, y, c, p);
        }
        assert RunAt(g[y], Player(p), k, c0);
      }
    }
  }

  /** A run in an enumerated line is a run of the same length on the grid, and back. */
  lemma {:induction false} LineRuns(g: Grid, slope: Slope, offset: int, r0: int, line: seq<Cell>, p: nat, k: nat)
    requires Enumerates(g, slope, offset, r0, line) && |line| > 0
    ensures HasRun(line, Player(p), k) <==> LineWin(g, slope, offset, p, k)
  {
    if HasRun(line, Player(p), k) {
      var i :| 0 <= i < |line| && RunAt(line, Player(p), k, i);
      forall r | r0 + i <= r < r0 + i + k
        ensures OnLine(g, slope, offset, r, p)
      {
        assert line[r - r0] == Player(p);
      }
      assert LineRunAt(g, slope, offset, r0 + i, p, k);
    }
    if LineWin(g, slope, offset, p, k) {
      var s :| LineRunAt(g, slope, offset, s, p, k);
      if k == 0 {
        assert RunAt(line, Player(p), k, 0);
      } else {
        assert OnLine(g, slope, offset, s, p) && OnLine(g, slope, offset, s + k - 1, p);
        assert InGrid(g, s, ColumnAt(slope, offset, s));
        assert InGrid(g, s + k - 1, ColumnAt(slope, offset, s + k - 1));
        assert r0 <= s && s + k - 1 < r0 + |line|;
        forall j | s - r0 <= j < s - r0 + k
          ensures line[j] == Player(p)
        {
          assert OnLine(g, slope, offset, r0 + j, p);
        }
        assert RunAt(line, Player(p), k, s - r0);
      }
    }
  }

  /** Each cell of a line wrapped as a defined JavaScript value. */
  function Lift<T>(line: seq<T>): (a: seq<Option<T>>)
    ensures |a| == |line| && forall i :: 0 <= i < |line| ==> a[i] == Some(line[i])
  {
    seq(|line|, i requires 0 <= i < |line| => Some(line[i]))
  }

  /** An array that starts with `pad` and continues with the entries of `line` is `pad + Lift(line)`. */
  lemma PaddedLine<T>(a: seq<Option<T>>, pad: seq<Option<T>>, line: seq<T>)
    requires |a| == |pad| + |line| && a[..|pad|] == pad
    requires forall i :: 0 <= i < |line| ==> a[|pad| + i] == Some(line[i])
    ensures a == pad + Lift(line)
  {
    forall j | 0 <= j < |a|
      ensures a[j] == (pad + Lift(line))[j]
    {
      if j < |pad| {
        assert a[j] == a[..|pad|][j];
      } else {
        assert a[|pad| + (j - |pad|)] == Some(line[j - |pad|]);
      }
    }
  }

  /**
   * Undefined entries in front of a line never take part in a run of a
   * defined value, so scanning the padded line gives the verdict of scanning
   * the line itself.
   */
  lemma {:induction false} UndefinedNeverMatches<T>(pad: seq<Option<T>>, line: seq<T>, v: T, k: nat)
    requires forall i :: 0 <= i < |pad| ==> pad[i] == None
    requires |line| > 0
    ensures HasRun(pad + Lift(line), Some(v), k) <==> HasRun(line, v, k)
  {
    var a := pad + Lift(line);
    if HasRun(a, Some(v), k) {
      var i :| 0 <= i < |a| && RunAt(a, Some(v), k, i);
      if k == 0 {
        assert RunAt(line, v, k, 0);
      } else {
        assert a[i] == Some(v);
        assert i >= |pad|;
        forall j | i - |pad| <= j < i - |pad| + k
          ensures line[j] == v
        {
          assert a[j + |pad|] == Some(v);
        }
        assert RunAt(line, v, k, i - |pad|);
      }
    }
    if HasRun(line, v, k) {
      var i :| 0 <= i < |line| && RunAt(line, v, k, i);
      forall j | i + |pad| <= j < i + |pad| + k
        ensures a[j] == Some(v)
      {
        assert a[j] == Lift(line)[j - |pad|];
      }
      assert RunAt(a, Some(v), k, i + |pad|);
    }
  }

  // ---------------------------------------------------------------------
  // The four checks
  // ---------------------------------------------------------------------

  /** checkHorizontal: scan the played row. */
  function CheckHorizontal(g: Grid, x: nat, y: nat, p: nat, k: nat): (won: bool)
    requires y < |g| && x < |g[y]|
    ensures won <==> HorizontalWin(g, y, p, k)
  {
    RowRuns(g, y, p, k);
    CheckConsecutive(g[y], Player(p), k)
  }

  /** checkVertical: collect column x row by row, then scan it. */
  method CheckVertical(g: Grid, rows: nat, cols: nat, x: nat, p: nat, k: nat) returns (won: bool)
    requires IsGrid(g, rows, cols) && x < cols && rows > 0
    ensures won <==> LineWin(g, Vertical, x, p, k)
  {
    var col: seq<Cell> := [];
    var r := 0;
    while r < rows
      invariant r <= rows && |col| == r
      invariant forall i :: 0 <= i < r ==> col[i] == g[i][x]
    {
      col := col + [g[r][x]];
      r := r + 1;
    }
    forall r | InGrid(g, r, ColumnAt(Vertical, x, r))
      ensures 0 <= r < |col|
    {
    }
    assert Enumerates(g, Vertical, x, 0, col);
    LineRuns(g, Vertical, x, 0, col, p, k);
    won := CheckConsecutive(col, Player(p), k);
  }

  /** The smaller of two numbers. */
  function Min(a: nat, b: nat): nat
  {
    if a < b then a else b
  }

  /**
   * The walk of checkDiagonalToRight: step up-left while x > 0 and y > 0,
   * which stops on row 0 or column 0, then step down-right to the bottom row
   * or the last column, collecting every cell visited. The result lists the
   * cells with r - c = y - x in increasing row order, the played cell among them.
   */
  method WalkDiagonalToRight(g: Grid, rows: nat, cols: nat, x: nat, y: nat) returns (diagonal: seq<Cell>)
    requires IsGrid(g, rows, cols) && x < cols && y < rows
    ensures Enumerates(g, DownRight, y - x, y - Min(x, y), diagonal)
    ensures Min(x, y) < |diagonal| && diagonal[Min(x, y)] == g[y][x]
  {
    var cx: nat, cy: nat := x, y;
    while cx > 0 && cy > 0
      invariant cx <= x && cy <= y && cy - cx == y - x
    {
      cx := cx - 1;
      cy := cy - 1;
    }
    ghost var r0 := cy;
    ghost var d := y - x;
    assert r0 == y - Min(x, y);
    assert ColumnAt(DownRight, d, r0) == cx && InGrid(g, r0, cx);
    diagonal := [g[cy][cx]];
    while cx < cols - 1 && cy < rows - 1
      invariant cx < cols && cy < rows && cy - cx == d
      invariant r0 <= cy && |diagonal| == cy - r0 + 1
      invariant forall r :: r0 <= r < r0 + |diagonal| ==>
                  InGrid(g, r, ColumnAt(DownRight, d, r)) &&
                  diagonal[r - r0] == g[r][ColumnAt(DownRight, d, r)]
      decreases cols - cx
    {
      cx := cx + 1;
      cy := cy + 1;
      assert ColumnAt(DownRight, d, cy) == cx && InGrid(g, cy, cx);
      diagonal := diagonal + [g[cy][cx]];
    }
    assert InGrid(g, y, ColumnAt(DownRight, d, y));
    forall r | InGrid(g, r, ColumnAt(DownRight, d, r))
      ensures r0 <= r < r0 + |diagonal|
    {
    }
  }

  /** checkDiagonalToRight: walk the down-right diagonal, then scan it. */
  method CheckDiagonalToRight(g: Grid, rows: nat, cols: nat, x: nat, y: nat, p: nat, k: nat) returns (won: bool)
    requires IsGrid(g, rows, cols) && x < cols && y < rows
    ensures won <==> LineWin(g, DownRight, y - x, p, k)
  {
    var diagonal := WalkDiagonalToRight(g, rows, cols, x, y);
    LineRuns(g, DownRight, y - x, y - Min(x, y), diagonal, p, k);
    won := CheckConsecutive(diagonal, Player(p), k);
  }

  /** First row of the down-left diagonal r + c = x + y inside a grid of `cols` columns. */
  function AntiDiagonalStartRow(x: nat, y: nat, cols: nat): nat
  {
    if x + y < cols then 0 else x + y - cols + 1
  }

  /**
   * The walk of checkDiagonalToLeft, as written: step up-right while y > 0
   * and x < cols. The guard lets x reach cols, and the read cells[y][cols]
   * is undefined; this happens exactly when x + y >= cols. The walk then
   * steps down-left to column 0 or the bottom row. The result is that one
   * undefined entry, if any, followed by the cells with r + c = x + y in
   * increasing row order (the ghost `line`), the played cell among them.
   */
  method WalkDiagonalToLeft(g: Grid, rows: nat, cols: nat, x: nat, y: nat)
    returns (diagonal: seq<Option<Cell>>, ghost line: seq<Cell>)
    requires IsGrid(g, rows, cols) && x < cols && y < rows
    ensures diagonal == (if x + y >= cols then [None] else []) + Lift(line)
    ensures Enumerates(g, DownLeft, x + y, AntiDiagonalStartRow(x, y, cols), line)
    ensures y - AntiDiagonalStartRow(x, y, cols) < |line|
    ensures line[y - AntiDiagonalStartRow(x, y, cols)] == g[y][x]
  {
    var cx: nat, cy: nat := x, y;
    while cy > 0 && cx < cols
      invariant cx <= cols && cy <= y && cx + cy == x + y
      decreases cy
    {
      cx := cx + 1;
      cy := cy - 1;
    }
    ghost var s := x + y;
    ghost var pad: seq<Option<Cell>> := if cx == cols then [None] else [];
    ghost var r0 := if cx == cols then cy + 1 else cy;
    assert r0 == AntiDiagonalStartRow(x, y, cols);
    assert pad == if x + y >= cols then [None] else [];
    diagonal := [Lookup(g[cy], cx)];
    line := if cx == cols then [] else [g[cy][cx]];
    while cx > 0 && cy < rows - 1
      invariant cx <= cols && cy < rows && cx + cy == s
      invariant |diagonal| == |pad| + |line| && diagonal[..|pad|] == pad
      invariant forall i :: 0 <= i < |line| ==> diagonal[|pad| + i] == Some(line[i])
      invariant r0 <= cy + 1 && |line| == cy + 1 - r0
      invariant forall r :: r0 <= r < r0 + |line| ==>
                  InGrid(g, r, ColumnAt(DownLeft, s, r)) &&
                  line[r - r0] == g[r][ColumnAt(DownLeft, s, r)]
      decreases cx
    {
      cx := cx - 1;
      cy := cy + 1;
      diagonal := diagonal + [Lookup(g[cy], cx)];
      assert ColumnAt(DownLeft, s, cy) == cx && InGrid(g, cy, cx);
      line := line + [g[cy][cx]];
    }
    assert Enumerates(g, DownLeft, x + y, AntiDiagonalStartRow(x, y, cols), line) by {
      forall r | InGrid(g, r, ColumnAt(DownLeft, s, r))
        ensures r0 <= r < r0 + |line|
      {
      }
    }
    assert InGrid(g, y, ColumnAt(DownLeft, s, y));
    PaddedLine(diagonal, pad, line);
  }

  /** checkDiagonalToLeft: walk the down-left diagonal, then scan it. */
  method CheckDiagonalToLeft(g: Grid, rows: nat, cols: nat, x: nat, y: nat, p: nat, k: nat) returns (won: bool)
    requires IsGrid(g, rows, cols) && x < cols && y < rows
    ensures won <==> LineWin(g, DownLeft, y + x, p, k)
  {
    var diagonal;
    ghost var line;
    diagonal, line := WalkDiagonalToLeft(g, rows, cols, x, y);
    UndefinedNeverMatches(if x + y >= cols then [None] else [], line, Player(p), k);
    LineRuns(g, DownLeft, x + y, AntiDiagonalStartRow(x, y, cols), line, p, k);
    won := CheckConsecutive(diagonal, Some(Player(p)), k);
  }

  /**
   * checkForWin: the four checks, in the source's order, each run only when
   * the ones before it found nothing. A win is reported exactly when the row,
   * the column or a diagonal through the played cell holds k cells of p.
   */
  method CheckForWin(g: Grid, rows: nat, cols: nat, x: nat, y: nat, p: nat, k: nat) returns (won: bool)
    requires IsGrid(g, rows, cols) && x < cols && y < rows
    ensures won <==> WinningLine(g, x, y, p, k)
  {
    won := CheckHorizontal(g, x, y, p, k);
    if !won {
      won := CheckVertical(g, rows, cols, x, p, k);
    }
    if !won {
      won := CheckDiagonalToRight(g, rows, cols, x, y, p, k);
    }
    if !won {
      won := CheckDiagonalToLeft(g, rows, cols, x, y, p, k);
    }
  }

  /**
   * The verdict does not depend on which cell of a run was played last:
   * querying any cell of a run reports a win.
   */
  lemma WinFromAnyCellOfRun(g: Grid, slope: Slope, offset: int, r0: int, p: nat, k: nat, r: int)
    requires LineRunAt(g, slope, offset, r0, p, k) && r0 <= r < r0 + k
    ensures WinningLine(g, ColumnAt(slope, offset, r), r, p, k)
  {
  }

  /** The same for a run along a row. */
  lemma WinFromAnyCellOfRow(g: Grid, y: int, c0: int, p: nat, k: nat, x: int)
    requires HorizontalRunAt(g, y, c0, p, k) && c0 <= x < c0 + k
    ensures WinningLine(g, x, y, p, k)
  {
  }
}
