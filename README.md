# Sudoku backtracking solver, modelled in Dafny

The page collects a 9x9 Sudoku grid from 81 input fields. It turns the grid into
a board of integers, where 0 marks an empty cell, and hands the board to
`solveSudoku`. That function is a depth-first search that works in place:

- It finds the first empty cell in row-major order.
- It tries the digits 1 to 9 in ascending order. Each digit must first pass the
  legality check `isSafe`, which scans the cell's row, its column and its 3x3 box.
- It writes each accepted digit into the cell and recurses. When the recursion
  fails, it writes 0 back.
- It reports `true` once no empty cell is left. It reports `false` when no digit
  works at a cell.

This project models that search and its legality check and proves properties
about them.

Modules:

- `Board` (board.dfy) covers the grid and its index arithmetic. Cell
  `(row, col)` has index `row * 9 + col`, the numbering the page uses when it
  copies the input fields into the board and back. `Cells(b)` views an
  `array2<int>` board as its 81 cells in row-major order. It also defines the
  board predicates: `Digits`, `Full`, `Keeps` (the givens are kept),
  `Consistent` (no repeated digit in a row, column or box), `Solved` and
  `Completion`.
- `Safety` (safety.dfy) covers `isSafe`. The pure predicate `Safe` states the
  three scans. The method `IsSafe` performs them with loops on the array and
  returns exactly `Safe`.
- `Reference` (search.dfy) is a functional reference search over the 81-cell
  sequence. `Search` is the whole search and `TryDigits` is the digit loop. It
  fixes the row-major scan order and the ascending digit order. All the
  properties of the search are proved about it.
- `Solver` (solver.dfy) covers `solveSudoku` itself. It is a recursive method
  on the `array2<int>` board that `modifies` it, proved equal to `Search`. The
  source's single function is written as three mutually recursive methods:
  - `SolveSudoku` is the row/column scan.
  - `TryDigitsAt` is the digit loop.
  - `TryDigit` is one round of that loop: check, write, recurse, undo.

  The recursion terminates because the number of empty cells drops by one at
  each recursive call.
- `Units` (units.dfy) takes rows, columns and boxes as nine-value sequences. It
  proves that a solved grid holds each digit 1..9 exactly once in each of them.
- `Scenarios` (scenarios.dfy) covers two concrete outcomes:
  - The empty board is solved.
  - A solved grid with one cell cleared comes back as the original grid.

Two behaviours of the code shape what is proved:

- The code never compares the givens with each other. A full board is returned
  with `true` whatever it holds (`Reference.DuplicateGivensAreNotRejected`). A
  board with repeated givens is also solved whenever its empty cells can be
  filled safely. So soundness is proved only for boards whose givens are
  consistent.
- `isSafe` also scans the cell `(row, col)` itself, and `Safe` does the same.
  The solver only calls it on an empty cell, so this never changes a result.

## Model

| member | source | states |
|---|---|---|
| `Board.Row` | script.js:40 | the row `floor(index / 9)` of any index 0..80 lies in 0..8 |
| `Board.Col` | script.js:41 | the column `index % 9` of any index 0..80 lies in 0..8 |
| `Board.Index` | script.js:52-53 | the inverse of the page's index-to-(row, col) mapping, which the source never computes itself: `row * 9 + col` is an index 0..80 from which `Row` and `Col` recover `row` and `col` |
| `Board.IndexOfCoordinates` | script.js:40-42 | every index 0..80 is the index of its own row and column, so the two numberings are inverse bijections |
| `Board.BoxStart` | script.js:66-67 | `x - x % 3` is a multiple of 3 with `start <= x < start + 3 <= 9`, so the box scan stays inside the board |
| `Board.BoxCell` | script.js:68-70 | the cell `(i + startRow, j + startCol)` read by the box scan is in range and lies in row `startRow + i` and column `startCol + j` |
| `Board.SameBoxIffInBand` | script.js:66-72 | a cell lies in the box cornered at `(startRow, startCol)` exactly when it has the box number `(row / 3) * 3 + col / 3` of `(row, col)` |
| `Board.Cells` | script.js:38-42 | the abstraction of the board used by every contract: its 81 cells in row-major order, entry `k` being `board[Row(k)][Col(k)]`, the cell the page writes input field `k` into |
| `Safety.Safe` | script.js:61-75 | the three scans of `isSafe` as a predicate on the cells: `num` absent from row `row`, column `col` and the box cornered at `(BoxStart(row), BoxStart(col))`, the cell itself included; its property is `Safety.SafeIffAbsentFromUnits`, and `Safety.IsSafe` is proved equal to it |
| `Safety.IsSafe` | script.js:61-75 | `isSafe` returns true exactly when `num` occurs nowhere in the row, the column and the 3x3 box of `(row, col)`, the cell itself included; it reads the board and changes nothing |
| `Safety.SafeExcludesUnits` | script.js:61-75 | a safe digit is absent from every cell sharing a row, column or box with `(row, col)` |
| `Safety.AbsentFromUnitsIsSafe` | script.js:61-75 | a digit absent from every cell sharing a row, column or box with `(row, col)` is safe |
| `Safety.SafeIffAbsentFromUnits` | script.js:61-75 | both directions: the three scans accept `num` if and only if no cell of the same row, column or box holds it |
| `Reference.FillRemovesZero` | script.js:84-86 | writing a non-zero digit into an empty cell removes exactly that cell from the empty cells, so the count of empty cells drops by one before each recursive call |
| `Reference.FirstEmpty` | script.js:79-81 | the scan stops at the first empty cell in row-major order, or at 81 when there is none; every cell before it is filled |
| `Reference.Search` | script.js:78-96 | the whole search as a function: `None` for `false`, `Some(t)` with the board `t` it stops at for `true`; its properties are `Reference.SearchOutcome` and `Reference.SearchCharacterized`, and `Solver.SolveSudoku` is proved equal to it |
| `Reference.TryDigits` | script.js:82-91 | the digit loop at an empty cell from digit `d` on, ascending; its property is `Reference.TryDigitsFindsFirstWorking`, and `Solver.TryDigitsAt` is proved equal to it |
| `Reference.SearchStartsAtFirstEmpty` | script.js:79-82 | the search runs its digit loop at the first empty cell |
| `Reference.TryDigitsFindsFirstWorking` | script.js:82-91 | the digit loop returns the search from the first digit, in ascending order, that is safe and whose recursive search succeeds; it fails when no digit 1..9 does |
| `Reference.SearchFills` | script.js:78-96 | on success no cell is empty and every non-zero cell of the input keeps its value; cell values within 0..9 stay within 0..9 |
| `Reference.TryDigitsFills` | script.js:82-91 | the same for the digit loop at an empty cell |
| `Reference.FullBoardIsItsOwnResult` | script.js:95 | a board with no empty cell is returned unchanged, with success |
| `Reference.DuplicateGivensAreNotRejected` | script.js:79-95 | a full board of 1s breaks every rule, yet the search reports success on it and leaves it unchanged |
| `Reference.PlaceSafeKeepsConsistent` | script.js:83-84 | writing a safe digit into an empty cell of a consistent board keeps it consistent and within 0..9 |
| `Reference.SearchSound` | script.js:78-96 | soundness: if the givens are consistent and within 0..9, a successful search ends in a solved grid that keeps every given |
| `Reference.TryDigitsSound` | script.js:82-91 | soundness of the digit loop, for digits placed only when `isSafe` accepts them |
| `Reference.CompletionValueIsSafe` | script.js:83 | in any solution of the board, the value of an empty cell is a digit that `isSafe` accepts there |
| `Reference.SearchFindsFirst` | script.js:78-96 | completeness with search order: if the board has any solution `u`, the search succeeds and its result is no later than `u` lexicographically |
| `Reference.TryDigitsFindsFirst` | script.js:82-91 | the same for the digit loop started at or below the solution's digit |
| `Reference.SearchOutcome` | script.js:78-96 | on every board: success fills the board and keeps the givens; success from consistent givens gives a solved grid, the lexicographically first solution; failure means no solution exists |
| `Reference.SearchCharacterized` | script.js:116-120 | for consistent givens, the search succeeds if and only if a solution exists, so `false` ("No solution exists!") is reported exactly for unsolvable puzzles |
| `Solver.SolveSudoku` | script.js:78-96 | `solveSudoku` returns the reference search's verdict. On `true` the board holds the reference search's result; on `false` the board is unchanged. The caller's outcome (givens kept, no empty cell, soundness, first solution, unsolvable on `false`) holds. It terminates on the count of empty cells |
| `Solver.TryDigitsAt` | script.js:82-91 | the digit loop tries 1..9 ascending and agrees with the reference digit loop; on failure every tentative write has been undone |
| `Solver.TryDigit` | script.js:83-88 | one round: succeeds exactly when the digit is safe and the recursive search on the board with it written succeeds, and then the board holds that search's result; otherwise the 0 written back restores the board exactly |
| `Units.DistinctDigitsOnce` | script.js:62-72 | the pigeonhole step from the no-repeat rule the scans enforce to "each digit once": nine pairwise distinct values drawn from 1..9 hold each digit exactly once |
| `Units.SolvedUnitsHoldEachDigitOnce` | script.js:61-75 | in a solved grid every row, every column and every 3x3 box holds each digit 1..9 exactly once |
| `Scenarios.PatternSolved` | script.js:61-75 | a concrete full grid satisfies every row, column and box rule |
| `Scenarios.EmptyBoardSolves` | script.js:78-96 | the all-empty board is solved: the search succeeds and its result is a solved grid |
| `Scenarios.OneBlankRestored` | script.js:78-96 | a solved grid with any one cell cleared comes back from the search as the original grid |

## Left out

- Building the 81 input fields and the keystroke check `handleInput`
  (script.js:1-31) are browser I/O. The keystroke check relies on JavaScript's
  string-to-number coercion and `isNaN`. The model takes the board as given and
  does not assume its cells are 0..9. Properties that need that assumption
  state `Digits` as a precondition.
- `getBoard` and `setBoard` (script.js:34-58) read and write the page's input
  fields. Only their index arithmetic is modelled (`Board.Row`, `Board.Col`,
  `Board.Index`).
- The timer (script.js:99-110) uses the wall clock, `setInterval` and
  floating-point formatting.
- The button handlers and the `alert` (script.js:113-132) are event wiring and
  user notification. What the solve handler relies on, `true` or "No solution
  exists!", is `Reference.SearchCharacterized`.
- The depth of the JavaScript call stack and the exponential running time of
  the search are not modelled. Only termination is proved.
- Board values are unbounded integers. JavaScript numbers are doubles, but
  every value here is a small integer, so nothing rounds.
