/** Boards as values: lists of nine rows of ints, where 0 is an
    empty cell, together with the counts and the win condition read off them. */
module Grids {

  /** Side length of the board (SIZE). */
  const Size: int := 9

  /** A board as a list of rows; 0 stands for an empty cell. */
  type Grid = seq<seq<int>>

  predicate InBounds(r: int, c: int) {
    0 <= r < Size && 0 <= c < Size
  }

  /** Nine rows of nine cells. */
  predicate IsGrid(g: Grid) {
    |g| == Size && forall r :: 0 <= r < Size ==> |g[r]| == Size
  }

  /** A solved board as the session assumes it: every cell holds a digit 1..9
      (whether it is a valid Sudoku is never checked). */
  ghost predicate IsSolutionGrid(g: Grid) {
    IsGrid(g) && forall r, c :: InBounds(r, c) ==> 1 <= g[r][c] <= 9
  }

  /** `board` shows, in every cell, either nothing or the solution's digit. */
  ghost predicate Consistent(board: Grid, solution: Grid) {
    IsGrid(board) && IsGrid(solution) &&
    forall r, c :: InBounds(r, c) ==> board[r][c] == 0 || board[r][c] == solution[r][c]
  }

  /** The win condition: every cell is non-empty and equals the solution. */
  ghost predicate IsSolved(board: Grid, solution: Grid) {
    IsGrid(board) && IsGrid(solution) &&
    forall r, c :: InBounds(r, c) ==> board[r][c] != 0 && board[r][c] == solution[r][c]
  }

  /** `g` with cell (r, c) replaced by `v`. */
  function Put(g: Grid, r: int, c: int, v: int): (h: Grid)
    requires IsGrid(g) && InBounds(r, c)
    ensures IsGrid(h)
  {
    g[r := g[r][c := v]]
  }

  /** Number of entries of `s` equal to `x` (a list's or a string's count). */
  function Count<T(==)>(s: seq<T>, x: T): nat
  {
    if s == [] then 0
    else Count(s[..|s| - 1], x) + (if s[|s| - 1] == x then 1 else 0)
  }

  /** Counting distributes over concatenation. */
  lemma {:induction false} CountConcat<T>(a: seq<T>, b: seq<T>, x: T)
    ensures Count(a + b, x) == Count(a, x) + Count(b, x)
  {
    if b != [] {
      var front := b[..|b| - 1];
      CountConcat(a, front, x);
      assert (a + b)[..|a + b| - 1] == a + front;
    } else {
      assert a + b == a;
    }
  }

  /** Sum of the rows' counts of `d`. */
  function GridCount(g: Grid, d: int): nat
  {
    if g == [] then 0
    else GridCount(g[..|g| - 1], d) + Count(g[|g| - 1], d)
  }

  /** Two grids that agree on every cell are the same grid. */
  lemma GridExtensionality(g: Grid, h: Grid)
    requires IsGrid(g) && IsGrid(h)
    requires forall r, c :: InBounds(r, c) ==> g[r][c] == h[r][c]
    ensures g == h
  {
    forall r | 0 <= r < Size
      ensures g[r] == h[r]
    {
      assert forall c :: 0 <= c < Size ==> g[r][c] == h[r][c];
    }
  }

  /** A row holds no `d` exactly when its count of `d` is zero. */
  lemma {:induction false} CountZero(row: seq<int>, d: int)
    ensures Count(row, d) == 0 <==> forall i :: 0 <= i < |row| ==> row[i] != d
  {
    if row != [] {
      var front := row[..|row| - 1];
      CountZero(front, d);
      assert forall i :: 0 <= i < |front| ==> front[i] == row[i];
    }
  }

  /** Over a grid: no cell holds `d` exactly when the count of `d` is zero. */
  lemma {:induction false} GridCountZero(g: Grid, d: int)
    ensures GridCount(g, d) == 0 <==>
      forall r, c :: 0 <= r < |g| && 0 <= c < |g[r]| ==> g[r][c] != d
  {
    if g != [] {
      var front := g[..|g| - 1];
      GridCountZero(front, d);
      CountZero(g[|g| - 1], d);
      assert forall r :: 0 <= r < |front| ==> front[r] == g[r];
    }
  }

  /** One row of a consistent board against its solution row, for a digit d:
      the row never shows more d's than the solution holds, and shows as many
      exactly when every d of the solution is in place. */
  lemma {:induction false} RowCountConsistent(row: seq<int>, sol: seq<int>, d: int)
    requires |row| == |sol| && d != 0
    requires forall i :: 0 <= i < |row| ==> row[i] == 0 || row[i] == sol[i]
    ensures Count(row, d) <= Count(sol, d)
    ensures Count(row, d) == Count(sol, d) <==>
      forall i :: 0 <= i < |sol| && sol[i] == d ==> row[i] == d
  {
    if row != [] {
      var n := |row| - 1;
      var rf, sf := row[..n], sol[..n];
      assert forall i :: 0 <= i < n ==> rf[i] == row[i] && sf[i] == sol[i];
      RowCountConsistent(rf, sf, d);
    }
  }

  /** The same for the rows of a whole board. */
  lemma {:induction false} RowsCountConsistent(board: Grid, sol: Grid, d: int)
    requires |board| == |sol| && d != 0
    requires forall r :: 0 <= r < |board| ==> |board[r]| == |sol[r]|
    requires forall r, c :: 0 <= r < |board| && 0 <= c < |board[r]| ==>
      board[r][c] == 0 || board[r][c] == sol[r][c]
    ensures GridCount(board, d) <= GridCount(sol, d)
    ensures GridCount(board, d) == GridCount(sol, d) <==>
      forall r, c :: 0 <= r < |sol| && 0 <= c < |sol[r]| && sol[r][c] == d ==> board[r][c] == d
  {
    if board != [] {
      var n := |board| - 1;
      var bf, sf := board[..n], sol[..n];
      assert forall r :: 0 <= r < n ==> bf[r] == board[r] && sf[r] == sol[r];
      RowsCountConsistent(bf, sf, d);
      RowCountConsistent(board[n], sol[n], d);
    }
  }

  /** On a consistent board the number of cells showing a digit d never
      exceeds the number the solution needs, and reaches it exactly when every
      cell whose solution is d shows d. */
  lemma PlacedAtMostNeeded(board: Grid, solution: Grid, d: int)
    requires Consistent(board, solution) && d != 0
    ensures GridCount(board, d) <= GridCount(solution, d)
    ensures GridCount(board, d) == GridCount(solution, d) <==>
      forall r, c :: InBounds(r, c) && solution[r][c] == d ==> board[r][c] == d
  {
    RowsCountConsistent(board, solution, d);
  }

  /** On a consistent board, the win condition holds exactly when no cell is
      empty. */
  lemma SolvedIffNoEmptyCell(board: Grid, solution: Grid)
    requires Consistent(board, solution) && IsSolutionGrid(solution)
    ensures IsSolved(board, solution) <==> GridCount(board, 0) == 0
  {
    GridCountZero(board, 0);
  }

  /** On a consistent board, the win condition holds exactly when every digit
      1..9 is shown as often as the solution holds it. */
  lemma SolvedIffEveryDigitComplete(board: Grid, solution: Grid)
    requires Consistent(board, solution) && IsSolutionGrid(solution)
    ensures IsSolved(board, solution) <==>
      forall d :: 1 <= d <= 9 ==> GridCount(board, d) == GridCount(solution, d)
  {
    if IsSolved(board, solution) {
      forall d | 1 <= d <= 9
        ensures GridCount(board, d) == GridCount(solution, d)
      {
        PlacedAtMostNeeded(board, solution, d);
      }
    } else {
      var r, c :| InBounds(r, c) && !(board[r][c] != 0 && board[r][c] == solution[r][c]);
      var d := solution[r][c];
      PlacedAtMostNeeded(board, solution, d);
      assert GridCount(board, d) != GridCount(solution, d);
    }
  }
}
