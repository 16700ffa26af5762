# Sudoku session model

A Dafny model of the game logic of PySudoku's `SudokuGUI` class: how a
puzzle is derived from a stored solution, and how one playing session
handles typed entries, counts mistakes, marks digits as completed and
detects a win.

- `grid.dfy` (module `Grids`): boards as values (nine rows of nine ints, 0 is
  an empty cell), the row and board counts of a digit, the win condition, and
  lemmas relating counts, consistency with the solution and winning.
- `derivation.dfy` (module `Derivation`): the difficulty table and the pure
  part of loading a puzzle. The random choices are parameters: the solution
  text, the clue count `k` and a shuffle `perm` of the 81 positions. The
  puzzle keeps the solution digit at the first `k` positions of the shuffle
  and 0 elsewhere, and both grids are read in row-major order (`i*9+j`).
- `session.dfy` (module `Sessions`): the `Session` class. Its fields are the
  solution grid, two 9×9 arrays for the puzzle and its restart copy, a 9×9
  array `cells` for the values shown in the entry widgets (0 is empty text),
  `mistakes`, the constant `maxMistakes = 3` and the `completed` digit set.
  `Valid()` is the session invariant: clue cells show their clue, and every
  cell shows either the solution digit or nothing.

Behaviour reproduced from the code:

- An attempt receives the whole text of the cell, because the key-release
  handler reads the widget's full contents. A text is accepted when it is
  all digits and its value is in 1..9, so leading zeros ("05") are accepted.
  `ParseEntryAccepts` characterises the accepted texts.
- Rejected input is not a no-op: the cell is emptied. This covers a text that
  is not a digit 1..9 and a digit that is already completed, even when that
  digit is correct for the cell. A key that does not change the text (an
  arrow key, say) in a cell showing a completed digit therefore empties that
  cell, and the digit can never be typed back.
- A wrong digit adds exactly one mistake and leaves the cell empty. Reaching
  `maxMistakes` returns `Lost` and skips the win check. Otherwise the win
  check still runs and is always false: in the code the wrong digit is still
  shown and differs from the solution; in the model the cell is already empty.
- A loss does not block further input, so `mistakes` can exceed 3.
- The completed-digit rescan adds a digit when the number of cells showing it
  equals its count in the solution. Digits already in the set are skipped and
  nothing is removed. Starting or restarting a game empties the set, and no
  rescan runs then, so a digit completed by clues alone is only marked after
  the next correct entry.

The code validates no grid, caps no mistakes, blocks no input after a loss
and raises no coordinate or clue-cell errors, because only entry cells have a
handler. The model does the same: "every solution digit is 1..9" is a
precondition of loading, and `Attempt` requires an in-range entry cell.

## Model

| member | source | states |
|---|---|---|
| `Derivation.ClueRange` | sudoku_gui.py:24-30 | Each difficulty's inclusive clue-count range lies within 0..81, so every drawn count is a valid number of positions |
| `Derivation.Derive` | sudoku_gui.py:193-206 | The solution cell (i, j) is the digit at text position i*9+j, and all solution cells are digits 1..9. The puzzle cell (i, j) equals the solution when i*9+j is among the first k shuffled positions and is 0 otherwise |
| `Derivation.CluePositionsSize` | sudoku_gui.py:196-198 | The first k entries of a shuffle of 0..80 form a set of exactly k board positions |
| `Derivation.DerivedClueCount` | sudoku_gui.py:194-206 | The derived puzzle has exactly k non-empty cells (81 - k zeros) |
| `Derivation.ClueCountWithinDifficulty` | sudoku_gui.py:182-198 | A puzzle loaded for a difficulty has a clue count inside that difficulty's range |
| `Sessions.ParseEntry` | sudoku_gui.py:238-241 | An accepted cell text is taken as a digit in 1..9 |
| `Sessions.DecimalValueZero` | sudoku_gui.py:239 | A digit text has value 0 exactly when all its characters are '0' |
| `Sessions.ParseEntryAccepts` | sudoku_gui.py:239-241 | A text is accepted exactly when it is a digit 1..9 after any number of '0's, and it is taken as that last digit |
| `Sessions.CopyRows` | sudoku_gui.py:207 | The copy is a new array, distinct from the source array, and equal to it cell by cell |
| `Sessions.Session.constructor` | sudoku_gui.py:43-51 | A new session holding the first game, as `StartGame` leaves it |
| `Sessions.Session.StartGame` | sudoku_gui.py:89-125 | A new game: mistakes 0, no completed digits, and the derived solution and puzzle installed with fresh arrays |
| `Sessions.Session.LoadPuzzle` | sudoku_gui.py:181-209 | Installs the derived solution and puzzle. The restart copy is a separate array equal to the puzzle, and the cells show the puzzle. Mistakes and completed digits are untouched |
| `Sessions.Session.Restart` | sudoku_gui.py:89-123 | The puzzle becomes a new array equal to the restart copy. The restart copy and the solution are unchanged. The cells show only the clues, mistakes are 0 and no digit is completed. The invariant holds afterwards |
| `Sessions.Session.DrawGrid` | sudoku_gui.py:211-235 | New cells in which each clue cell shows its clue and every other cell is empty |
| `Sessions.Session.Attempt` | sudoku_gui.py:237-262 | Rejected text or a completed digit empties the cell and changes nothing else. The solution's digit stays, runs the rescan, and gives `Won` exactly when the board is solved. A wrong digit adds exactly one mistake and empties the cell, and gives `Lost` exactly when mistakes reach 3. Clue cells never change, mistakes never drop, the completed set never shrinks, and the invariant is kept |
| `Sessions.Session.MarkCompleted` | sudoku_gui.py:264-278 | Adds exactly the digits 1..9 not already completed that the cells show as often as the solution holds them. Every newly added digit is shown at every cell where the solution has it |
| `Sessions.Session.CountPlaced` | sudoku_gui.py:269-272 | Returns the number of cells showing the digit |
| `Sessions.Session.CheckWin` | sudoku_gui.py:284-290 | True exactly when every cell is non-empty and equals the solution |
| `Grids.CountConcat` | sudoku_gui.py:268 | Counting distributes over concatenation |
| `Grids.PlacedAtMostNeeded` | sudoku_gui.py:268-273 | On a board consistent with the solution, a digit is never shown more often than the solution holds it. The counts are equal exactly when every cell whose solution is that digit shows it |
| `Grids.RowCountConsistent` | sudoku_gui.py:268-272 | The same relation for one row against its solution row |
| `Grids.RowsCountConsistent` | sudoku_gui.py:268-272 | The same relation for any list of rows |
| `Grids.CountZero` | sudoku_gui.py:288 | A row contains no d exactly when its count of d is 0 |
| `Grids.GridCountZero` | sudoku_gui.py:288 | A board contains no d exactly when its count of d is 0 |
| `Grids.SolvedIffNoEmptyCell` | sudoku_gui.py:284-290 | On a consistent board, the win check holds exactly when no cell is empty |
| `Grids.SolvedIffEveryDigitComplete` | sudoku_gui.py:264-290 | On a consistent board, the win check holds exactly when every digit 1..9 is shown as often as the solution holds it |

## Left out

- Window layout, widgets, colours, borders, fonts, overlays and the back and restart prompts (sudoku_gui.py:62-167, 211-227) are presentation only. The model represents each cell's text by an int.
- Title screen and difficulty menu: these are UI callbacks. The model's `StartGame` is what a menu button triggers.
- Sound playback through pygame (sudoku_gui.py:34, 55-60) is audio I/O.
- The elapsed-time timer (sudoku_gui.py:172-179) uses the wall clock.
- The mistakes label text (sudoku_gui.py:169-170) is display only.
- Reading the solution CSV through pandas, its fixed paths, and the error overlay when loading fails (sudoku_gui.py:14-22, 32, 183-191) are file I/O. The solution text is a parameter.
- The random choice of solution, clue count and shuffle (sudoku_gui.py:193-197): the model takes them as parameters, limited to a clue count in the difficulty's range and a permutation of 0..80.
- The 300 ms red flash before a wrong cell is cleared (sudoku_gui.py:280-282) is timed presentation. The model clears the cell at once, so it does not reproduce a rescan within those 300 ms counting the still-visible wrong digit.
- The Restart path without a loaded puzzle (`from_restart` with no `initial_puzzle`, sudoku_gui.py:121) happens only after a failed CSV load. `Restart` requires a started game.
- Sudoku validity of the solution is never checked by the code. The model assumes solution digits 1..9 as a precondition.
- `ParseEntry`: treats only ASCII digits as digits. `str.isdigit` also accepts other Unicode digits, for which `int` may fail. It also does not model Python's limit on converting digit strings longer than 4300 characters (leading zeros included): there `int(val)` raises, the handler aborts and leaves the text in the cell, and the later rescan and win check raise as well, whereas the model takes such a text by its value (rejecting it, or accepting a zero-padded digit 1..9).
- The exact cell text: a cell records only the value of its accepted text, so leading zeros are not shown.
- Won and lost states: the code keeps no such state and blocks no input after either overlay, so `Attempt` only reports `Won` or `Lost` as its outcome.
