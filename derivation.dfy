/** The pure part of loading a puzzle: from a solution text, a clue count and a
    shuffled list of the 81 positions, the solution grid and the puzzle grid
    that keeps the solution's digit at the first positions of the list and 0
    everywhere else. The random choices are parameters here. */
module Derivation {
  import opened Grids

  /** Number of cells on the board. */
  const CellCount: int := 81

  datatype Difficulty = VeryEasy | Easy | Medium | Hard | Nightmare

  /** Inclusive range of clue counts for each difficulty. */
  function ClueRange(d: Difficulty): (range: (int, int))
    ensures 0 <= range.0 <= range.1 <= CellCount
  {
    match d
    case VeryEasy => (58, 66)
    case Easy => (50, 54)
    case Medium => (36, 49)
    case Hard => (30, 35)
    case Nightmare => (17, 29)
  }

  /** A clue count the loader can draw for difficulty `d`. */
  predicate InClueRange(d: Difficulty, k: int) {
    ClueRange(d).0 <= k <= ClueRange(d).1
  }

  /** A shuffle of the positions 0..80: each position exactly once. */
  ghost predicate IsPermutation(perm: seq<int>) {
    && |perm| == CellCount
    && (forall i :: 0 <= i < |perm| ==> 0 <= perm[i] < CellCount)
    && (forall i, j :: 0 <= i < j < |perm| ==> perm[i] != perm[j])
  }

  /** Solution texts the loader works with: 81 characters, each a digit 1..9. */
  ghost predicate IsSolutionText(s: string) {
    |s| == CellCount && forall i :: 0 <= i < |s| ==> '1' <= s[i] <= '9'
  }

  /** The first `k` positions of the shuffled list, as a set. */
  function CluePositions(perm: seq<int>, k: int): set<int>
    requires 0 <= k <= |perm|
  {
    set i | 0 <= i < k :: perm[i]
  }

  /** The value of a decimal digit character. */
  function DigitValue(ch: char): int {
    ch as int - '0' as int
  }

  /** The solution's character at kept positions and '0' elsewhere. */
  function MaskText(s: string, clues: set<int>): string
    requires |s| == CellCount
  {
    seq(CellCount, i requires 0 <= i < CellCount => if i in clues then s[i] else '0')
  }

  /** Nine rows of nine cells read from an 81-character text in row-major
      order, each character converted to its digit value. */
  function ToGrid(s: string): (g: Grid)
    requires |s| == CellCount
    ensures IsGrid(g)
    ensures forall r, c :: InBounds(r, c) ==> g[r][c] == DigitValue(s[r * 9 + c])
  {
    seq(Size, r requires 0 <= r < Size =>
      seq(Size, c requires 0 <= c < Size => DigitValue(s[r * 9 + c])))
  }

  datatype Game = Game(solution: Grid, puzzle: Grid)

  /** The solution and puzzle grids for a solution text, a clue count `k` and
      a shuffle `perm`: the puzzle keeps the solution at the positions of
      CluePositions(perm, k) and is 0 at every other cell. */
  function Derive(text: string, k: int, perm: seq<int>): (game: Game)
    requires IsSolutionText(text) && IsPermutation(perm) && 0 <= k <= CellCount
    ensures IsSolutionGrid(game.solution) && IsGrid(game.puzzle)
    ensures forall r, c :: InBounds(r, c) ==>
      game.solution[r][c] == DigitValue(text[r * 9 + c])
    ensures forall r, c :: InBounds(r, c) ==>
      game.puzzle[r][c] == if r * 9 + c in CluePositions(perm, k) then game.solution[r][c] else 0
  {
    Game(ToGrid(text), ToGrid(MaskText(text, CluePositions(perm, k))))
  }

  /** The first k entries of a shuffle are k distinct positions of the board. */
  lemma {:induction false} CluePositionsSize(perm: seq<int>, k: int)
    requires IsPermutation(perm) && 0 <= k <= CellCount
    ensures |CluePositions(perm, k)| == k
    ensures forall p :: p in CluePositions(perm, k) ==> 0 <= p < CellCount
  {
    if k == 0 {
      assert CluePositions(perm, k) == {};
    } else {
      CluePositionsSize(perm, k - 1);
      assert CluePositions(perm, k) == CluePositions(perm, k - 1) + {perm[k - 1]};
    }
  }

  /** A row of digit values has as many zeros as its text has '0's. */
  lemma {:induction false} RowZeros(row: seq<int>, t: string)
    requires |row| == |t|
    requires forall i :: 0 <= i < |t| ==> row[i] == DigitValue(t[i])
    ensures Count(row, 0) == Count(t, '0')
  {
    if row != [] {
      var n := |row| - 1;
      assert forall i :: 0 <= i < n ==> row[..n][i] == DigitValue(t[..n][i]);
      RowZeros(row[..n], t[..n]);
    }
  }

  /** The first n rows of ToGrid(s) have as many zeros as the first 9n
      characters of s have '0's. */
  lemma {:induction false} GridZeros(s: string, n: int)
    requires |s| == CellCount && 0 <= n <= Size
    ensures GridCount(ToGrid(s)[..n], 0) == Count(s[..n * 9], '0')
  {
    if n > 0 {
      var g := ToGrid(s);
      GridZeros(s, n - 1);
      assert g[..n][..n - 1] == g[..n - 1];
      var t := s[(n - 1) * 9..n * 9];
      RowZeros(g[n - 1], t);
      assert s[..n * 9] == s[..(n - 1) * 9] + t;
      CountConcat(s[..(n - 1) * 9], t, '0');
    }
  }

  /** Among the first n characters of the masked text, the '0's are exactly
      the positions below n that are not kept. */
  lemma {:induction false} MaskZeros(s: string, clues: set<int>, n: int)
    requires IsSolutionText(s) && 0 <= n <= CellCount
    ensures Count(MaskText(s, clues)[..n], '0') == n - |set p | p in clues && 0 <= p < n|
  {
    var below := set p | p in clues && 0 <= p < n;
    if n == 0 {
      assert below == {};
    } else {
      var m := MaskText(s, clues);
      MaskZeros(s, clues, n - 1);
      assert m[..n][..n - 1] == m[..n - 1];
      var before := set p | p in clues && 0 <= p < n - 1;
      if n - 1 in clues {
        assert below == before + {n - 1};
      } else {
        assert below == before;
      }
    }
  }

  /** The derived puzzle has exactly k non-empty cells (81 - k zeros). */
  lemma DerivedClueCount(text: string, k: int, perm: seq<int>)
    requires IsSolutionText(text) && IsPermutation(perm) && 0 <= k <= CellCount
    ensures GridCount(Derive(text, k, perm).puzzle, 0) == CellCount - k
  {
    var clues := CluePositions(perm, k);
    var m := MaskText(text, clues);
    CluePositionsSize(perm, k);
    GridZeros(m, Size);
    assert ToGrid(m)[..Size] == ToGrid(m);
    MaskZeros(text, clues, CellCount);
    assert (set p | p in clues && 0 <= p < CellCount) == clues;
    assert m[..CellCount] == m;
  }

  /** A puzzle loaded for difficulty `d` has a number of clues within that
      difficulty's range. */
  lemma ClueCountWithinDifficulty(d: Difficulty, text: string, k: int, perm: seq<int>)
    requires IsSolutionText(text) && IsPermutation(perm) && InClueRange(d, k)
    ensures ClueRange(d).0 <= CellCount - GridCount(Derive(text, k, perm).puzzle, 0) <= ClueRange(d).1
  {
    DerivedClueCount(text, k, perm);
  }
}
