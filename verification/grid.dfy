/**
 The Sudoku board and its declarative validity predicate.

 A board is an n-by-n matrix of integers; 0 marks an empty cell. The block
 side is the integer square root of n. Two distinct cells share a unit when
 they lie in the same row, the same column, or the same block, where cells
 (r, c) and (r', c') share a block exactly when r / root == r' / root and
 c / root == c' / root. A board is valid when no two distinct cells that
 share a unit hold the same nonzero value.
 */
module Grid {
  import opened Arith

  type Board = seq<seq<int>>

  /** Every row is as long as the board is tall. */
  predicate IsSquare(g: Board) {
    forall r :: 0 <= r < |g| ==> |g[r]| == |g|
  }

  /** The block side: the largest r with r * r <= n. */
  function IntSqrt(n: nat): (r: nat)
    ensures r * r <= n < (r + 1) * (r + 1)
    ensures n > 0 ==> r > 0
  {
    if n == 0 then 0
    else
      var s := IntSqrt(n - 1);
      if (s + 1) * (s + 1) <= n then s + 1 else s
  }

  predicate SameBlock(root: nat, r1: nat, c1: nat, r2: nat, c2: nat) {
    root > 0 && r1 / root == r2 / root && c1 / root == c2 / root
  }

  predicate SameUnit(root: nat, r1: nat, c1: nat, r2: nat, c2: nat) {
    r1 == r2 || c1 == c2 || SameBlock(root, r1, c1, r2, c2)
  }

  /** No two distinct cells sharing a row, column or block hold the same nonzero value. */
  predicate Valid(g: Board)
    requires IsSquare(g)
  {
    var root := IntSqrt(|g|);
    forall r1: nat, c1: nat, r2: nat, c2: nat ::
      r1 < |g| && c1 < |g| && r2 < |g| && c2 < |g| &&
      (r1 != r2 || c1 != c2) && SameUnit(root, r1, c1, r2, c2) && g[r1][c1] != 0
      ==> g[r1][c1] != g[r2][c2]
  }

  /** The board with cell (r, c) emptied. */
  function Clear(g: Board, r: nat, c: nat): (h: Board)
    requires IsSquare(g) && r < |g| && c < |g|
    ensures IsSquare(h) && |h| == |g|
    ensures h[r][c] == 0
    ensures forall r', c' :: 0 <= r' < |g| && 0 <= c' < |g| && (r' != r || c' != c) ==> h[r'][c'] == g[r'][c']
  {
    g[r := g[r][c := 0]]
  }

  /** For a perfect square n = s * s the block side is exactly s. */
  lemma IntSqrtOfSquare(s: nat)
    ensures IntSqrt(s * s) == s
  {
    var r := IntSqrt(s * s);
    if r < s {
      SquareMonotone(r + 1, s);
    } else if s < r {
      SquareMonotone(s + 1, r);
      SquareStrict(s);
    }
  }

  /** Zero is a wildcard: a board holding only zeros is valid, whatever its size. */
  lemma AllZeroValid(g: Board)
    requires IsSquare(g)
    requires forall r, c :: 0 <= r < |g| && 0 <= c < |g| ==> g[r][c] == 0
    ensures Valid(g)
  {
  }

  /** Zero never conflicts: emptying any cell of a valid board leaves it valid. */
  lemma ClearPreservesValid(g: Board, r: nat, c: nat)
    requires IsSquare(g) && r < |g| && c < |g|
    requires Valid(g)
    ensures Valid(Clear(g, r, c))
  {
    var h := Clear(g, r, c);
    var root := IntSqrt(|g|);
    forall r1: nat, c1: nat, r2: nat, c2: nat |
      r1 < |h| && c1 < |h| && r2 < |h| && c2 < |h| &&
      (r1 != r2 || c1 != c2) && SameUnit(root, r1, c1, r2, c2) && h[r1][c1] != 0
      ensures h[r1][c1] != h[r2][c2]
    {
      assert h[r1][c1] == g[r1][c1];
      if r2 != r || c2 != c {
        assert h[r2][c2] == g[r2][c2];
      }
    }
  }

  /** Two equal nonzero values in one row make the board invalid. */
  lemma RowConflictInvalid(g: Board, r: nat, a: nat, b: nat)
    requires IsSquare(g) && r < |g| && a < |g| && b < |g| && a != b
    requires g[r][a] != 0 && g[r][a] == g[r][b]
    ensures !Valid(g)
  {
    assert SameUnit(IntSqrt(|g|), r, a, r, b);
  }

  /** Two equal nonzero values in one column make the board invalid. */
  lemma ColumnConflictInvalid(g: Board, c: nat, a: nat, b: nat)
    requires IsSquare(g) && c < |g| && a < |g| && b < |g| && a != b
    requires g[a][c] != 0 && g[a][c] == g[b][c]
    ensures !Valid(g)
  {
    assert SameUnit(IntSqrt(|g|), a, c, b, c);
  }

  /**
   Two equal nonzero values in the block whose top-left corner is (i, j), a
   multiple of the block side in both coordinates, make the board invalid.
   */
  lemma BlockConflictInvalid(g: Board, i: nat, j: nat, r1: nat, c1: nat, r2: nat, c2: nat)
    requires IsSquare(g)
    requires IntSqrt(|g|) > 0 && i % IntSqrt(|g|) == 0 && j % IntSqrt(|g|) == 0
    requires i <= r1 < i + IntSqrt(|g|) && i <= r2 < i + IntSqrt(|g|)
    requires j <= c1 < j + IntSqrt(|g|) && j <= c2 < j + IntSqrt(|g|)
    requires r1 < |g| && r2 < |g| && c1 < |g| && c2 < |g| && (r1 != r2 || c1 != c2)
    requires g[r1][c1] != 0 && g[r1][c1] == g[r2][c2]
    ensures !Valid(g)
  {
    var root := IntSqrt(|g|);
    WindowQuotient(r1, i, root);
    WindowQuotient(r2, i, root);
    WindowQuotient(c1, j, root);
    WindowQuotient(c2, j, root);
    assert SameUnit(root, r1, c1, r2, c2);
  }
}
