/** One playing session: the solution, the puzzle with its copy kept for
    restarts, the value shown in each of the 81 cells, the mistake count and
    the digits marked as completed, with the operations that start a game,
    restart it, handle a typed entry, rescan for completed digits and check
    for a win. */
module Sessions {
  import opened Grids
  import opened Derivation

  datatype Option<T> = None | Some(value: T)

  /** What one attempt led to. */
  datatype Outcome =
    | Rejected  // not a digit 1..9, or a digit already completed: the cell is emptied
    | Placed    // the solution's digit: it stays in the cell
    | Mistake   // a wrong digit: one more mistake and the cell is emptied
    | Lost      // a wrong digit that brought the mistakes to the limit
    | Won       // after this attempt every cell shows the solution

  /** A non-empty text of decimal digits (isdigit, on ASCII text). */
  predicate IsDigits(s: string) {
    |s| > 0 && forall i :: 0 <= i < |s| ==> '0' <= s[i] <= '9'
  }

  /** The number a text of decimal digits stands for. */
  function DecimalValue(s: string): nat
    requires forall i :: 0 <= i < |s| ==> '0' <= s[i] <= '9'
  {
    if s == [] then 0 else DecimalValue(s[..|s| - 1]) * 10 + DigitValue(s[|s| - 1])
  }

  /** The digit a cell's text is taken as, or None when the text is not a
      number from 1 to 9. */
  function ParseEntry(text: string): (v: Option<int>)
    ensures v.Some? ==> 1 <= v.value <= 9
  {
    if IsDigits(text) && 1 <= DecimalValue(text) <= 9 then Some(DecimalValue(text)) else None
  }

  /** A text of digits stands for 0 exactly when all its digits are '0'. */
  lemma {:induction false} DecimalValueZero(s: string)
    requires forall i :: 0 <= i < |s| ==> '0' <= s[i] <= '9'
    ensures DecimalValue(s) == 0 <==> forall i :: 0 <= i < |s| ==> s[i] == '0'
  {
    if s != [] {
      var front := s[..|s| - 1];
      DecimalValueZero(front);
      assert forall i :: 0 <= i < |front| ==> front[i] == s[i];
    }
  }

  /** The accepted texts are exactly a digit 1..9 after any number of '0's,
      and each is taken as that last digit. */
  lemma ParseEntryAccepts(text: string)
    ensures ParseEntry(text).Some? <==>
      && |text| > 0
      && '1' <= text[|text| - 1] <= '9'
      && forall i :: 0 <= i < |text| - 1 ==> text[i] == '0'
    ensures ParseEntry(text).Some? ==> ParseEntry(text).value == DigitValue(text[|text| - 1])
  {
    if IsDigits(text) {
      var front := text[..|text| - 1];
      DecimalValueZero(front);
      assert forall i :: 0 <= i < |front| ==> front[i] == text[i];
    }
  }

  /** Digits 1..9 not in `done` that `board` shows exactly as often as the
      solution holds them. */
  ghost function NewlyCompleted(board: Grid, solution: Grid, done: set<int>): set<int>
  {
    set d | 1 <= d <= 9 && d !in done && GridCount(board, d) == GridCount(solution, d)
  }

  predicate Is9x9(a: array2<int>) {
    a.Length0 == Size && a.Length1 == Size
  }

  /** The values of a 9×9 array as a grid. */
  ghost function Snapshot(a: array2<int>): (g: Grid)
    reads a
    requires Is9x9(a)
    ensures IsGrid(g)
    ensures forall r, c :: InBounds(r, c) ==> g[r][c] == a[r, c]
  {
    seq(Size, r requires 0 <= r < Size reads a =>
      seq(Size, c requires 0 <= c < Size reads a => a[r, c]))
  }

  /** A new array holding the rows of `g`. */
  method FromGrid(g: Grid) returns (a: array2<int>)
    requires IsGrid(g)
    ensures fresh(a) && Is9x9(a) && Snapshot(a) == g
  {
    a := new int[Size, Size]((r, c) requires InBounds(r, c) => g[r][c]);
    GridExtensionality(Snapshot(a), g);
  }

  /** A row-by-row copy of `src` into a new array. */
  method CopyRows(src: array2<int>) returns (dst: array2<int>)
    requires Is9x9(src)
    ensures fresh(dst) && Is9x9(dst)
    ensures forall r, c :: InBounds(r, c) ==> dst[r, c] == src[r, c]
  {
    dst := new int[Size, Size];
    var r := 0;
    while r < Size
      invariant 0 <= r <= Size
      invariant forall i, j :: 0 <= i < r && 0 <= j < Size ==> dst[i, j] == src[i, j]
    {
      var c := 0;
      while c < Size
        invariant 0 <= c <= Size
        invariant forall i, j :: 0 <= i < r && 0 <= j < Size ==> dst[i, j] == src[i, j]
        invariant forall j :: 0 <= j < c ==> dst[r, j] == src[r, j]
      {
        dst[r, c] := src[r, c];
        c := c + 1;
      }
      r := r + 1;
    }
  }

  class Session {
    /** The solution of the current game. */
    var solution: Grid
    /** The puzzle as it was derived, copied back on a restart. */
    var initialPuzzle: array2<int>
    /** The puzzle of the current round: its non-zero cells are the clues. */
    var puzzle: array2<int>
    /** The value shown in each cell; 0 is an empty cell. */
    var cells: array2<int>
    var mistakes: nat
    const maxMistakes: nat := 3
    var completed: set<int>

    /** The session's invariant: three distinct 9×9 arrays; the puzzle equals
        its restart copy and shows the solution or 0 in every cell; clue
        cells show their clue; no cell shows anything but the solution's digit
        or nothing; completed digits are digits 1..9. */
    ghost predicate Valid()
      reads this, initialPuzzle, puzzle, cells
    {
      && IsSolutionGrid(solution)
      && Is9x9(initialPuzzle) && Is9x9(puzzle) && Is9x9(cells)
      && initialPuzzle != puzzle && initialPuzzle != cells && puzzle != cells
      && (forall r, c :: InBounds(r, c) ==> puzzle[r, c] == initialPuzzle[r, c])
      && (forall r, c :: InBounds(r, c) ==>
            initialPuzzle[r, c] == 0 || initialPuzzle[r, c] == solution[r][c])
      && (forall r, c :: InBounds(r, c) && puzzle[r, c] != 0 ==> cells[r, c] == puzzle[r, c])
      && (forall r, c :: InBounds(r, c) ==> cells[r, c] == 0 || cells[r, c] == solution[r][c])
      && (forall d :: d in completed ==> 1 <= d <= 9)
    }

    /** The cell values as a grid. */
    ghost function Board(): (g: Grid)
      reads this, cells
      requires Is9x9(cells)
      ensures IsGrid(g)
    {
      Snapshot(cells)
    }

    /** A first game: the state before any game, then StartGame. */
    constructor (d: Difficulty, text: string, k: int, perm: seq<int>)
      requires IsSolutionText(text) && IsPermutation(perm) && InClueRange(d, k)
      ensures Valid() && fresh(initialPuzzle) && fresh(puzzle) && fresh(cells)
      ensures solution == Derive(text, k, perm).solution
      ensures Snapshot(initialPuzzle) == Derive(text, k, perm).puzzle
      ensures forall r, c :: InBounds(r, c) ==>
        puzzle[r, c] == initialPuzzle[r, c] && cells[r, c] == initialPuzzle[r, c]
      ensures mistakes == 0 && completed == {}
    {
      solution := [];
      var none := new int[0, 0];
      initialPuzzle, puzzle, cells := none, none, none;
      mistakes := 0;
      completed := {};
      new;
      StartGame(d, text, k, perm);
    }

    /** A new game of difficulty `d`: no mistakes, no completed digits, and a
        freshly loaded puzzle for the clue count `k`, drawn from the
        difficulty's range. */
    method StartGame(d: Difficulty, text: string, k: int, perm: seq<int>)
      requires IsSolutionText(text) && IsPermutation(perm) && InClueRange(d, k)
      modifies this
      ensures Valid() && fresh(initialPuzzle) && fresh(puzzle) && fresh(cells)
      ensures solution == Derive(text, k, perm).solution
      ensures Snapshot(initialPuzzle) == Derive(text, k, perm).puzzle
      ensures forall r, c :: InBounds(r, c) ==>
        puzzle[r, c] == initialPuzzle[r, c] && cells[r, c] == initialPuzzle[r, c]
      ensures mistakes == 0 && completed == {}
    {
      mistakes := 0;
      completed := {};
      LoadPuzzle(text, k, perm);
    }

    /** Loads the derived game: the solution, the puzzle, its restart copy
        and the cells drawn from the puzzle. */
    method LoadPuzzle(text: string, k: int, perm: seq<int>)
      requires IsSolutionText(text) && IsPermutation(perm) && 0 <= k <= CellCount
      requires forall d :: d in completed ==> 1 <= d <= 9
      modifies this
      ensures Valid() && fresh(initialPuzzle) && fresh(puzzle) && fresh(cells)
      ensures solution == Derive(text, k, perm).solution
      ensures Snapshot(initialPuzzle) == Derive(text, k, perm).puzzle
      ensures forall r, c :: InBounds(r, c) ==>
        puzzle[r, c] == initialPuzzle[r, c] && cells[r, c] == initialPuzzle[r, c]
      ensures mistakes == old(mistakes) && completed == old(completed)
    {
      var game := Derive(text, k, perm);
      solution := game.solution;
      puzzle := FromGrid(game.puzzle);
      initialPuzzle := CopyRows(puzzle);
      DrawGrid();
      GridExtensionality(Snapshot(initialPuzzle), game.puzzle);
    }

    /** The same puzzle again: the puzzle becomes a new copy of the restart
        copy, the cells show only its clues, and mistakes and completed
        digits start over; the solution and the restart copy stay as they
        were. */
    method Restart()
      requires Valid()
      modifies this
      ensures Valid() && fresh(puzzle) && fresh(cells)
      ensures solution == old(solution)
      ensures initialPuzzle == old(initialPuzzle) && unchanged(initialPuzzle)
      ensures forall r, c :: InBounds(r, c) ==>
        puzzle[r, c] == initialPuzzle[r, c] && cells[r, c] == initialPuzzle[r, c]
      ensures mistakes == 0 && completed == {}
    {
      mistakes := 0;
      completed := {};
      puzzle := CopyRows(initialPuzzle);
      DrawGrid();
    }

    /** New cells for the puzzle: each clue cell shows its clue, every other
        cell is empty. */
    method DrawGrid()
      requires Is9x9(puzzle)
      modifies this`cells
      ensures fresh(cells) && Is9x9(cells)
      ensures forall r, c :: InBounds(r, c) ==>
        cells[r, c] == if puzzle[r, c] != 0 then puzzle[r, c] else 0
    {
      var shown := new int[Size, Size]((r, c) => 0);
      var r := 0;
      while r < Size
        invariant 0 <= r <= Size
        invariant forall i, j :: InBounds(i, j) ==>
          shown[i, j] == if i < r && puzzle[i, j] != 0 then puzzle[i, j] else 0
      {
        var c := 0;
        while c < Size
          invariant 0 <= c <= Size
          invariant forall i, j :: InBounds(i, j) ==>
            shown[i, j] == if (i < r || (i == r && j < c)) && puzzle[i, j] != 0 then puzzle[i, j] else 0
        {
          if puzzle[r, c] != 0 {
            shown[r, c] := puzzle[r, c];
          }
          c := c + 1;
        }
        r := r + 1;
      }
      cells := shown;
    }

    /** The handler for a new text in the entry cell (row, col). A text that
        is not a digit 1..9, or is a completed digit, empties the cell. The
        solution's digit stays and triggers the completed-digit rescan. Any
        other digit is one more mistake and leaves the cell empty; reaching
        the limit loses, and the win check is then skipped. */
    method Attempt(row: int, col: int, text: string) returns (outcome: Outcome)
      requires Valid() && InBounds(row, col) && puzzle[row, col] == 0
      modifies cells, this`mistakes, this`completed
      ensures Valid()
      ensures forall r, c :: InBounds(r, c) && puzzle[r, c] != 0 ==> cells[r, c] == old(cells[r, c])
      ensures mistakes >= old(mistakes) && old(completed) <= completed
      ensures var v := ParseEntry(text);
        if v.None? || v.value in old(completed) then
          && outcome == Rejected
          && Board() == Put(old(Board()), row, col, 0)
          && mistakes == old(mistakes) && completed == old(completed)
        else if v.value == solution[row][col] then
          && Board() == Put(old(Board()), row, col, v.value)
          && mistakes == old(mistakes)
          && completed == old(completed) + NewlyCompleted(Board(), solution, old(completed))
          && outcome == (if IsSolved(Board(), solution) then Won else Placed)
        else
          && Board() == Put(old(Board()), row, col, 0)
          && mistakes == old(mistakes) + 1 && completed == old(completed)
          && outcome == (if mistakes >= maxMistakes then Lost else Mistake)
    {
      var entry := ParseEntry(text);
      if entry.None? || entry.value in completed {
        cells[row, col] := 0;
        GridExtensionality(Board(), Put(old(Board()), row, col, 0));
        return Rejected;
      }
      var v := entry.value;
      if v == solution[row][col] {
        cells[row, col] := v;
        GridExtensionality(Board(), Put(old(Board()), row, col, v));
        MarkCompleted();
      } else {
        mistakes := mistakes + 1;
        cells[row, col] := 0;
        GridExtensionality(Board(), Put(old(Board()), row, col, 0));
        if mistakes >= maxMistakes {
          return Lost;
        }
      }
      var won := CheckWin();
      outcome := if won then Won else if v == solution[row][col] then Placed else Mistake;
    }

    /** The completed-digit rescan: every digit 1..9 not yet completed that
        the cells show exactly as often as the solution holds it is added;
        nothing is removed. */
    method MarkCompleted()
      requires Valid()
      modifies this`completed
      ensures Valid()
      ensures completed == old(completed) + NewlyCompleted(Board(), solution, old(completed))
      ensures forall d, r, c :: d in completed - old(completed) && InBounds(r, c) && solution[r][c] == d ==>
        cells[r, c] == d
    {
      var num := 1;
      while num <= 9
        invariant 1 <= num <= 10
        invariant Valid()
        invariant completed == old(completed) +
          set d | 1 <= d < num && d !in old(completed) && GridCount(Board(), d) == GridCount(solution, d)
      {
        if num !in completed {
          var needed := GridCount(solution, num);
          var placed := CountPlaced(num);
          if placed == needed {
            completed := completed + {num};
          }
        }
        num := num + 1;
      }
      forall d | d in completed - old(completed)
        ensures forall r, c :: InBounds(r, c) && solution[r][c] == d ==> cells[r, c] == d
      {
        PlacedAtMostNeeded(Board(), solution, d);
      }
    }

    /** The number of cells showing the digit `d`. */
    method CountPlaced(d: int) returns (placed: nat)
      requires Is9x9(cells) && 1 <= d <= 9
      ensures placed == GridCount(Board(), d)
    {
      ghost var b := Board();
      placed := 0;
      var r := 0;
      while r < Size
        invariant 0 <= r <= Size
        invariant placed == GridCount(b[..r], d)
      {
        var c := 0;
        while c < Size
          invariant 0 <= c <= Size
          invariant placed == GridCount(b[..r], d) + Count(b[r][..c], d)
        {
          if cells[r, c] == d {
            placed := placed + 1;
          }
          assert b[r][..c + 1][..c] == b[r][..c];
          c := c + 1;
        }
        assert b[r][..Size] == b[r];
        assert b[..r + 1][..r] == b[..r];
        r := r + 1;
      }
      assert b[..Size] == b;
    }

    /** The win check: true exactly when no cell is empty and every cell
        shows the solution's digit. */
    method CheckWin() returns (won: bool)
      requires Is9x9(cells) && IsGrid(solution)
      ensures won <==> IsSolved(Board(), solution)
    {
      var r := 0;
      while r < Size
        invariant 0 <= r <= Size
        invariant forall i, j :: 0 <= i < r && 0 <= j < Size ==>
          cells[i, j] != 0 && cells[i, j] == solution[i][j]
      {
        var c := 0;
        while c < Size
          invariant 0 <= c <= Size
          invariant forall j :: 0 <= j < c ==> cells[r, j] != 0 && cells[r, j] == solution[r][j]
        {
          if cells[r, c] == 0 || cells[r, c] != solution[r][c] {
            return false;
          }
          c := c + 1;
        }
        r := r + 1;
      }
      return true;
    }
  }
}
