/**
 The board check: for each index i it scans row i and column i for a
 repeated nonzero value and, when i is a multiple of the block side, every
 block whose top row is i, flattening each block into one line first. The
 first repeat found makes the check answer false; otherwise it answers true.
 */
module Check {
  import Arith
  import opened Grid
  import opened Lines
  import opened Blocks

  /** Column c of the board, top to bottom. */
  function Column(g: Board, c: nat): (col: seq<int>)
    requires IsSquare(g) && c < |g|
    ensures |col| == |g|
    ensures forall r :: 0 <= r < |g| ==> col[r] == g[r][c]
  {
    seq(|g|, r requires 0 <= r < |g| => g[r][c])
  }

  predicate RowsOk(g: Board)
    requires IsSquare(g)
  {
    forall r :: 0 <= r < |g| ==> NoRepeats(g[r])
  }

  predicate ColumnsOk(g: Board)
    requires IsSquare(g)
  {
    forall c :: 0 <= c < |g| ==> NoRepeats(Column(g, c))
  }

  /** Every block cut at a pair of multiples of the block side scans clean once flattened. */
  predicate BlocksOk(g: Board)
    requires IsSquare(g)
  {
    var root := IntSqrt(|g|);
    forall i, j :: 0 <= i < |g| && 0 <= j < |g| && i % root == 0 && j % root == 0 ==>
      NoRepeats(Flatten(Sub(g, i, j, root)))
  }

  /**
   The unit-by-unit scans the check performs agree with the cell-pair
   definition of validity.
   */
  lemma ValidIffUnits(g: Board)
    requires IsSquare(g)
    ensures Valid(g) <==> RowsOk(g) && ColumnsOk(g) && BlocksOk(g)
  {
    if Valid(g) {
      ValidImpliesUnits(g);
    }
    if RowsOk(g) && ColumnsOk(g) && BlocksOk(g) {
      UnitsImplyValid(g);
    }
  }

  lemma ValidImpliesUnits(g: Board)
    requires IsSquare(g) && Valid(g)
    ensures RowsOk(g) && ColumnsOk(g) && BlocksOk(g)
  {
    var n, root := |g|, IntSqrt(|g|);
    forall r, a, b | 0 <= r < n && 0 <= a < b < n && g[r][a] != 0
      ensures g[r][a] != g[r][b]
    {
      assert SameUnit(root, r, a, r, b);
    }
    forall c | 0 <= c < n ensures NoRepeats(Column(g, c)) {
      var col := Column(g, c);
      forall a, b | 0 <= a < b < n && col[a] != 0 ensures col[a] != col[b] {
        assert SameUnit(root, a, c, b, c);
      }
    }
    forall i, j | 0 <= i < n && 0 <= j < n && i % root == 0 && j % root == 0
      ensures NoRepeats(Flatten(Sub(g, i, j, root)))
    {
      BlockScanMeaning(g, i, j, root);
      var hi, wi := SliceEnd(i, root, n), SliceEnd(j, root, n);
      forall r1, c1, r2, c2 |
        i <= r1 < hi && j <= c1 < wi && i <= r2 < hi && j <= c2 < wi &&
        (r1 != r2 || c1 != c2) && g[r1][c1] != 0
        ensures g[r1][c1] != g[r2][c2]
      {
        Arith.WindowQuotient(r1, i, root);
        Arith.WindowQuotient(r2, i, root);
        Arith.WindowQuotient(c1, j, root);
        Arith.WindowQuotient(c2, j, root);
        assert SameUnit(root, r1, c1, r2, c2);
      }
    }
  }

  lemma UnitsImplyValid(g: Board)
    requires IsSquare(g) && RowsOk(g) && ColumnsOk(g) && BlocksOk(g)
    ensures Valid(g)
  {
    var n, root := |g|, IntSqrt(|g|);
    forall r1: nat, c1: nat, r2: nat, c2: nat |
      r1 < n && c1 < n && r2 < n && c2 < n &&
      (r1 != r2 || c1 != c2) && SameUnit(root, r1, c1, r2, c2) && g[r1][c1] != 0
      ensures g[r1][c1] != g[r2][c2]
    {
      if r1 == r2 {
        NoRepeatsSymmetric(g[r1], c1, c2);
      } else if c1 == c2 {
        var col := Column(g, c1);
        assert col[r1] == g[r1][c1] && col[r2] == g[r2][c2];
        NoRepeatsSymmetric(col, r1, r2);
      } else {
        var i, j := BlockOrigin(r1, root), BlockOrigin(c1, root);
        WindowTiling(n, root, r1);
        WindowTiling(n, root, c1);
        WindowTiling(n, root, r2);
        WindowTiling(n, root, c2);
        assert BlockOrigin(r2, root) == i && BlockOrigin(c2, root) == j;
        BlockScanMeaning(g, i, j, root);
      }
    }
  }

  /** Joins the rows of a block into one line, one row at a time. */
  method FlattenRows(sub: seq<seq<int>>) returns (line: seq<int>)
    ensures NoRepeats(line) <==> CellsDistinct(sub)
    ensures line == Flatten(sub)
  {
    line := [];
    var k := 0;
    while k < |sub|
      invariant 0 <= k <= |sub|
      invariant line == Flatten(sub[..k])
    {
      assert sub[..k + 1][..k] == sub[..k];
      line := line + sub[k];
      k := k + 1;
    }
    assert sub[..|sub|] == sub;
    FlattenDistinct(sub);
  }

  /**
   Scans, left to right, the blocks whose top row is i and whose left column
   is a multiple of the block side; answers false at the first block that
   holds a repeated nonzero value.
   */
  method ScanBlockRow(board: Board, i: nat, root: nat) returns (ok: bool)
    requires IsSquare(board) && i < |board| && root > 0
    ensures ok <==> forall j :: 0 <= j < |board| && j % root == 0 ==>
      NoRepeats(Flatten(Sub(board, i, j, root)))
  {
    var n := |board|;
    var j := 0;
    while j < n
      invariant j % root == 0
      invariant forall bj :: 0 <= bj < j && bj < n && bj % root == 0 ==>
        NoRepeats(Flatten(Sub(board, i, bj, root)))
      decreases n - j
    {
      var subsection := Sub(board, i, j, root);
      var line := FlattenRows(subsection);
      var blockOk := ScanLine(line);
      if !blockOk {
        return false;
      }
      NextMultiple(j, root);
      j := j + root;
    }
    return true;
  }

  /** Between a multiple j of d and the next one, no other multiple of d lies. */
  lemma NextMultiple(j: nat, d: nat)
    requires d > 0 && j % d == 0
    ensures (j + d) % d == 0
    ensures forall x :: j < x < j + d ==> x % d != 0
  {
    assert j == (j / d) * d;
    Arith.DivModUnique(j + d, d, j / d + 1, 0);
    forall x | j < x < j + d ensures x % d != 0 {
      Arith.DivModUnique(x, d, j / d, x - j);
    }
  }

  /** Answers true exactly when the board is valid, scanning in the source's order with early exit. */
  method CheckValidBoard(board: Board) returns (ok: bool)
    requires IsSquare(board)
    ensures ok <==> Valid(board)
  {
    ValidIffUnits(board);
    var n := |board|;
    var root := IntSqrt(n);
    for i := 0 to n
      invariant forall r :: 0 <= r < i ==> NoRepeats(board[r])
      invariant forall c :: 0 <= c < i ==> NoRepeats(Column(board, c))
      invariant forall bi, bj :: 0 <= bi < i && 0 <= bj < n && bi % root == 0 && bj % root == 0 ==>
        NoRepeats(Flatten(Sub(board, bi, bj, root)))
    {
      var row := board[i];
      var col := Column(board, i);
      var rowOk := ScanLine(row);
      if !rowOk {
        return false;
      }
      var colOk := ScanLine(col);
      if !colOk {
        return false;
      }
      if i % root == 0 {
        var blocksOk := ScanBlockRow(board, i, root);
        if !blocksOk {
          return false;
        }
      }
    }
    return true;
  }
}
