/** Concrete 4-by-4 boards (block side 2). */
module Scenarios {
  import opened Grid
  import opened Lines
  import opened Check

  /** Two 1s side by side in the top row: every 4-by-4 board with top row [1, 1, 0, 0] is invalid. */
  lemma RepeatedRowRejected(g: Board)
    requires IsSquare(g) && |g| == 4 && g[0] == [1, 1, 0, 0]
    ensures !Valid(g)
  {
    RowConflictInvalid(g, 0, 0, 1);
  }

  /**
   Diagonal 1s in the top-left block: every row and column scans clean, yet
   the block scan rejects the board.
   */
  lemma BlockOnlyConflict()
    ensures IsSquare([[1, 0, 0, 0], [0, 1, 0, 0], [0, 0, 0, 0], [0, 0, 0, 0]])
    ensures RowsOk([[1, 0, 0, 0], [0, 1, 0, 0], [0, 0, 0, 0], [0, 0, 0, 0]])
    ensures ColumnsOk([[1, 0, 0, 0], [0, 1, 0, 0], [0, 0, 0, 0], [0, 0, 0, 0]])
    ensures !Valid([[1, 0, 0, 0], [0, 1, 0, 0], [0, 0, 0, 0], [0, 0, 0, 0]])
  {
    var g: Board := [[1, 0, 0, 0], [0, 1, 0, 0], [0, 0, 0, 0], [0, 0, 0, 0]];
    IntSqrtOfSquare(2);
    assert IntSqrt(|g|) == 2;
    forall c | 0 <= c < 4 ensures NoRepeats(Column(g, c)) {
      var col := Column(g, c);
      assert col[0] == g[0][c] && col[1] == g[1][c] && col[2] == 0 && col[3] == 0;
    }
    BlockConflictInvalid(g, 0, 0, 0, 0, 1, 1);
  }
}
