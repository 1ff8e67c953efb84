# Sudoku board validity check, modelled in Dafny

This project models `check_valid_board` from `main.py`, the Sudoku board validity check of a
generalized n-by-n Sudoku benchmark. A board is an n-by-n matrix of integers in which 0 marks an
empty cell. The block side is `root = int(sqrt(n))`. The check scans row i and column i for
every i. When i is a multiple of `root`, it also scans each block whose top row is i and whose
left column is a multiple of `root`. Each block is flattened row by row into one line first.
A line is rejected when a nonzero value at some position reappears further right. The first
rejection makes the check return false. If nothing is rejected, it returns true.

Modules:

- `Arith` (arith.dfy): facts about Euclidean division that link "same block" to block origins.
- `Grid` (grid.dfy): the `Board` type, the block side `IntSqrt`, and the declarative predicate
  `Valid`. A board is valid when no two distinct cells that share a row, a column or a block hold
  the same nonzero value. Two cells share a block when their rows and their columns have equal
  quotients by the block side. This module also holds the consequences of `Valid`: conflicts
  make a board invalid, and zero is a wildcard.
- `Lines` (lines.dfy): `NoRepeats`, the line property, and `ScanLine`, the early-exit scan the
  check runs on rows, columns and flattened blocks.
- `Blocks` (blocks.dfy): the clamped two-dimensional slice `Sub`, the row-by-row `Flatten`, and
  the block geometry. The visited blocks tile the board, and they are full squares when n is a
  perfect square.
- `Check` (check.dfy): the method `CheckValidBoard`, which keeps the source's loop order and early
  returns, and the lemma that the unit-by-unit scans agree with `Valid`.
- `Scenarios` (scenarios.dfy): two concrete 4-by-4 boards.

The model follows the code where it is more permissive than the usual Sudoku setting. Sudoku
boards have side n = s*s and entries in [0, n]. The code checks neither condition, so the model
assumes neither. Entries may be any integers, compared exactly (see the float-conversion line under "## Left out"). Any n is accepted, and the block side is the
integer square root of n. When n is not a perfect square, the slices in main.py:24 stop at the
board's edge. The last blocks are then truncated rectangles, and they still tile the board
(`Blocks.BlockTiling`). `Valid` describes this case exactly: cells share a block when their
coordinates have equal quotients by the block side.

## Model

| member | source | states |
|---|---|---|
| Check.CheckValidBoard | main.py:4-34 | For every square board, the early-exit scan returns true exactly when no two distinct cells sharing a row, column or block hold the same nonzero value. |
| Check.Column | main.py:12 | `board[:, i]` is column i read top to bottom: it has n entries and entry r is board[r][i]. `Check.ValidIffUnits` ties its scan, through `ColumnsOk`, to the column condition of validity. |
| Blocks.Sub | main.py:24 | `board[i:i+root, j:j+root]` clamps both ranges at n: it has min(i+root, n) - i rows of min(j+root, n) - j cells, and cell (a, b) is board[i+a][j+b]. `Blocks.SubDistinct` and `Blocks.SquareBlocksFull` state what this means for the block scan. |
| Check.ValidIffUnits | main.py:10-34 | The cell-pair definition of validity holds iff every row, every column and every visited flattened block scans clean. |
| Check.ScanBlockRow | main.py:22-32 | The block scan at top row i succeeds iff every block cut at (i, j), with j a multiple of the block side below n, has no repeated nonzero value once flattened. |
| Check.NextMultiple | main.py:23 | Stepping `range(0, n, root)` from one multiple of root to the next skips no multiple. |
| Check.FlattenRows | main.py:25-28 | Appending the block's rows one at a time gives the row-major flattening, and the result repeats nothing iff the block's cells are pairwise distinct. |
| Grid.IntSqrt | main.py:7 | The block side is the integer square root: root*root <= n < (root+1)*(root+1), and it is positive when n is. |
| Grid.IntSqrtOfSquare | main.py:7 | When n = s*s, the block side is exactly s. |
| Lines.ScanLine | main.py:14-16 | The "nonzero and occurs later in the line" scan accepts a line iff no nonzero value occurs at two positions. The same scan is used at main.py:18-20 and main.py:30-32. |
| Lines.NoRepeatsConcat | main.py:27-31 | A concatenation repeats nothing iff neither part does and no nonzero value of the first part occurs in the second. |
| Grid.RowConflictInvalid | main.py:14-16 | A row holding one nonzero value at two different indices makes the board invalid. |
| Grid.ColumnConflictInvalid | main.py:18-20 | A column holding one nonzero value at two different indices makes the board invalid. |
| Grid.BlockConflictInvalid | main.py:22-32 | Two distinct cells of a visited block, with its corner at multiples of root, that hold one nonzero value make the board invalid. |
| Grid.AllZeroValid | main.py:14-32 | Zero is a wildcard: an all-zero board of any size is valid. |
| Grid.ClearPreservesValid | main.py:14-32 | Emptying a cell never makes a valid board invalid. |
| Blocks.FlattenDistinct | main.py:25-32 | Scanning the flattened block is equivalent to comparing every pair of its cells. |
| Blocks.SubDistinct | main.py:24 | The clamped slice at (i, j) holds distinct nonzero cells iff the board's cells in rows [i, i+root) and columns [j, j+root), clamped at n, do. |
| Blocks.BlockScanMeaning | main.py:22-32 | A flattened block scans clean iff its cells on the board are pairwise distinct where nonzero. |
| Blocks.WindowTiling | main.py:22-24 | Each coordinate below n lies in exactly one clamped window that starts at a multiple of root. |
| Blocks.BlockTiling | main.py:22-24 | Every cell lies in exactly one visited block, so the block scan covers each cell once. |
| Blocks.SquareBlocksFull | main.py:7-24 | When n = s*s, every visited block is a full s-by-s square. |
| Scenarios.RepeatedRowRejected | main.py:14-16 | Every 4-by-4 board whose top row is [1, 1, 0, 0] is invalid, whatever its other rows hold. |
| Scenarios.BlockOnlyConflict | main.py:22-32 | A 4-by-4 board with 1s on the top-left block's diagonal passes every row and column scan but is invalid, so the block scan is needed. |

## Left out

- `random_board` (main.py:36-55): it draws random numbers, so its output cannot be specified.
- The `__main__` driver (main.py:57-75): it only prints, counts and loops.
- `Grid.IntSqrt` models `int(math.sqrt(n))` as the exact integer square root. Floating-point rounding is not modelled; the two agree for every n below 2^52.
- Check.CheckValidBoard: does not model the float conversion of the block flattening. `np.array([])` at main.py:25 is a float64 array, so `np.concatenate` at main.py:28 turns each block's values into float64 before the scan at main.py:30-32. Equality is preserved only for values of magnitude up to 2^53. Above that, two distinct integers can round to the same float, and the source's block scan can reject a board the model accepts (for example 9007199254740992 and 9007199254740993 in one block). The model compares block values as exact integers.
- Boards must be square: `Check.CheckValidBoard` requires every row to have length n. The source indexes `board[:, i]` on a two-dimensional numpy array and presumes this shape. Ragged or non-square arrays are not modelled.
- The check is read-only by construction. The board is an immutable value, and `Check.CheckValidBoard` is determined by `Valid(board)`, so calling it twice gives the same answer. No separate member states this.
- Which unit triggers the early return is not part of any contract. The result is a single boolean, and the model keeps the source's scan order only in the method body.
