/**
 The blocks the board check visits. A block is cut out of the board by a
 two-dimensional slice that starts at a multiple of the block side and is
 clamped at the board's edge, then flattened row after row into one line.
 */
module Blocks {
  import opened Arith
  import opened Grid
  import opened Lines

  /** End of a slice [start : start + len] of a sequence of length n, clamped at n. */
  function SliceEnd(start: nat, len: nat, n: nat): (e: nat)
    ensures start <= n ==> start <= e <= n && e <= start + len
    ensures start <= n ==> (e == start + len || e == n)
  {
    if start + len <= n then start + len else n
  }

  /** The sub-matrix rows [i, i + root) by columns [j, j + root), clamped at the board's edge. */
  function Sub(g: Board, i: nat, j: nat, root: nat): (m: seq<seq<int>>)
    requires IsSquare(g) && i <= |g| && j <= |g|
    ensures |m| == SliceEnd(i, root, |g|) - i &&
      (forall a :: 0 <= a < |m| ==> |m[a]| == SliceEnd(j, root, |g|) - j) &&
      (forall a, b :: 0 <= a < |m| && 0 <= b < |m[a]| ==> m[a][b] == g[i + a][j + b])
  {
    var hi := SliceEnd(i, root, |g|);
    var wi := SliceEnd(j, root, |g|);
    seq(hi - i, a requires 0 <= a < hi - i => g[i + a][j..wi])
  }

  /** Concatenation of the rows, first row first, appending one row at a time. */
  function Flatten(m: seq<seq<int>>): (line: seq<int>) {
    if |m| == 0 then [] else Flatten(m[..|m| - 1]) + m[|m| - 1]
  }

  /** No two distinct cells of a (possibly ragged) matrix hold the same nonzero value. */
  predicate CellsDistinct(m: seq<seq<int>>) {
    forall a1, b1, a2, b2 ::
      0 <= a1 < |m| && 0 <= b1 < |m[a1]| && 0 <= a2 < |m| && 0 <= b2 < |m[a2]| &&
      (a1 != a2 || b1 != b2) && m[a1][b1] != 0
      ==> m[a1][b1] != m[a2][b2]
  }

  /** No two distinct cells of the board's block cut at (i, j) hold the same nonzero value. */
  predicate BlockDistinct(g: Board, i: nat, j: nat, root: nat)
    requires IsSquare(g) && i <= |g| && j <= |g|
  {
    var hi := SliceEnd(i, root, |g|);
    var wi := SliceEnd(j, root, |g|);
    forall r1, c1, r2, c2 ::
      i <= r1 < hi && j <= c1 < wi && i <= r2 < hi && j <= c2 < wi &&
      (r1 != r2 || c1 != c2) && g[r1][c1] != 0
      ==> g[r1][c1] != g[r2][c2]
  }

  /** Top-left coordinate of the block holding coordinate x. */
  function BlockOrigin(x: nat, root: nat): (o: nat)
    requires root > 0
  {
    (x / root) * root
  }

  /** A value occurs in the flattened matrix exactly when some cell holds it. */
  lemma {:induction false} FlattenMembers(m: seq<seq<int>>, v: int)
    ensures v in Flatten(m) <==> exists a, b :: 0 <= a < |m| && 0 <= b < |m[a]| && m[a][b] == v
    decreases |m|
  {
    if |m| > 0 {
      var init := m[..|m| - 1];
      FlattenMembers(init, v);
      assert Flatten(m) == Flatten(init) + m[|m| - 1];
      if v in Flatten(init) {
        var a, b :| 0 <= a < |init| && 0 <= b < |init[a]| && init[a][b] == v;
        assert m[a][b] == v;
      }
      if v in m[|m| - 1] {
        var b :| 0 <= b < |m[|m| - 1]| && m[|m| - 1][b] == v;
        assert m[|m| - 1][b] == v;
      }
      if exists a, b :: 0 <= a < |m| && 0 <= b < |m[a]| && m[a][b] == v {
        var a, b :| 0 <= a < |m| && 0 <= b < |m[a]| && m[a][b] == v;
        if a < |init| {
          assert init[a][b] == v;
        } else {
          assert m[|m| - 1][b] == v;
        }
      }
    }
  }

  /** Appending a row keeps cells distinct exactly when the row repeats nothing and shares no nonzero value with the rows above. */
  lemma CellsDistinctSnoc(init: seq<seq<int>>, last: seq<int>)
    ensures CellsDistinct(init + [last]) <==>
      CellsDistinct(init) && NoRepeats(last) &&
      forall a, b :: 0 <= a < |init| && 0 <= b < |init[a]| && init[a][b] != 0 ==> init[a][b] !in last
  {
    var m := init + [last];
    var L := |init|;
    assert forall a :: 0 <= a < L ==> m[a] == init[a];
    assert m[L] == last;
    if CellsDistinct(m) {
      forall a, b | 0 <= a < L && 0 <= b < |init[a]| && init[a][b] != 0
        ensures init[a][b] !in last
      {
        forall q | 0 <= q < |last| ensures last[q] != init[a][b] {
          assert m[a][b] != m[L][q];
        }
      }
    }
    if CellsDistinct(init) && NoRepeats(last) &&
       forall a, b :: 0 <= a < L && 0 <= b < |init[a]| && init[a][b] != 0 ==> init[a][b] !in last
    {
      forall a1, b1, a2, b2 |
        0 <= a1 < |m| && 0 <= b1 < |m[a1]| && 0 <= a2 < |m| && 0 <= b2 < |m[a2]| &&
        (a1 != a2 || b1 != b2) && m[a1][b1] != 0
        ensures m[a1][b1] != m[a2][b2]
      {
        if a1 < L && a2 < L {
          assert init[a1][b1] != init[a2][b2];
        } else if a1 == L && a2 == L {
          NoRepeatsSymmetric(last, b1, b2);
        } else if a1 < L {
          assert m[a2][b2] == last[b2];
          assert init[a1][b1] !in last;
        } else {
          assert m[a1][b1] == last[b1];
          if init[a2][b2] != 0 {
            assert init[a2][b2] !in last;
            assert last[b1] in last;
          }
        }
      }
    }
  }

  /** Scanning the flattened matrix is the same as comparing every pair of its cells. */
  lemma {:induction false} FlattenDistinct(m: seq<seq<int>>)
    ensures NoRepeats(Flatten(m)) <==> CellsDistinct(m)
    decreases |m|
  {
    if |m| == 0 {
      assert Flatten(m) == [];
    } else {
      var init, last := m[..|m| - 1], m[|m| - 1];
      assert m == init + [last];
      FlattenDistinct(init);
      NoRepeatsConcat(Flatten(init), last);
      CellsDistinctSnoc(init, last);
      forall v | v != 0 ensures v in Flatten(init) <==>
        exists a, b :: 0 <= a < |init| && 0 <= b < |init[a]| && init[a][b] == v
      {
        FlattenMembers(init, v);
      }
    }
  }

  /** The cut-out block repeats nothing exactly when the board's block cells are pairwise distinct. */
  lemma SubDistinct(g: Board, i: nat, j: nat, root: nat)
    requires IsSquare(g) && i <= |g| && j <= |g|
    ensures CellsDistinct(Sub(g, i, j, root)) <==> BlockDistinct(g, i, j, root)
  {
    var m := Sub(g, i, j, root);
    var hi := SliceEnd(i, root, |g|);
    var wi := SliceEnd(j, root, |g|);
    assert forall a, b :: 0 <= a < |m| && 0 <= b < |m[a]| ==> m[a][b] == g[i + a][j + b];
    if CellsDistinct(m) {
      forall r1, c1, r2, c2 |
        i <= r1 < hi && j <= c1 < wi && i <= r2 < hi && j <= c2 < wi &&
        (r1 != r2 || c1 != c2) && g[r1][c1] != 0
        ensures g[r1][c1] != g[r2][c2]
      {
        assert m[r1 - i][c1 - j] != m[r2 - i][c2 - j];
      }
    }
    if BlockDistinct(g, i, j, root) {
      forall a1, b1, a2, b2 |
        0 <= a1 < |m| && 0 <= b1 < |m[a1]| && 0 <= a2 < |m| && 0 <= b2 < |m[a2]| &&
        (a1 != a2 || b1 != b2) && m[a1][b1] != 0
        ensures m[a1][b1] != m[a2][b2]
      {
        assert g[i + a1][j + b1] != g[i + a2][j + b2];
      }
    }
  }

  /** The flattened block scan accepts exactly the blocks whose cells are pairwise distinct. */
  lemma BlockScanMeaning(g: Board, i: nat, j: nat, root: nat)
    requires IsSquare(g) && i <= |g| && j <= |g|
    ensures NoRepeats(Flatten(Sub(g, i, j, root))) <==> BlockDistinct(g, i, j, root)
  {
    FlattenDistinct(Sub(g, i, j, root));
    SubDistinct(g, i, j, root);
  }

  /** The one window [i, i + root) with i a multiple of root, clamped at n, that holds x. */
  lemma WindowTiling(n: nat, root: nat, x: nat)
    requires root > 0 && x < n
    ensures BlockOrigin(x, root) % root == 0
    ensures BlockOrigin(x, root) <= x < SliceEnd(BlockOrigin(x, root), root, n)
    ensures forall i: nat :: i % root == 0 && i <= x < SliceEnd(i, root, n) ==> i == BlockOrigin(x, root)
  {
    FloorMultiple(x, root);
    forall i: nat | i % root == 0 && i <= x < SliceEnd(i, root, n)
      ensures i == BlockOrigin(x, root)
    {
      WindowQuotient(x, i, root);
      DivModUnique(i, root, i / root, 0);
    }
  }

  /**
   The visited blocks tile the board: every cell (r, c) lies in the block cut
   at (BlockOrigin(r), BlockOrigin(c)), whose corner is a multiple of the block
   side, and in no other visited block.
   */
  lemma BlockTiling(n: nat, r: nat, c: nat)
    requires r < n && c < n
    ensures IntSqrt(n) > 0
    ensures BlockOrigin(r, IntSqrt(n)) % IntSqrt(n) == 0 && BlockOrigin(c, IntSqrt(n)) % IntSqrt(n) == 0
    ensures BlockOrigin(r, IntSqrt(n)) <= r < SliceEnd(BlockOrigin(r, IntSqrt(n)), IntSqrt(n), n)
    ensures BlockOrigin(c, IntSqrt(n)) <= c < SliceEnd(BlockOrigin(c, IntSqrt(n)), IntSqrt(n), n)
    ensures forall i: nat, j: nat ::
      i % IntSqrt(n) == 0 && j % IntSqrt(n) == 0 &&
      i <= r < SliceEnd(i, IntSqrt(n), n) && j <= c < SliceEnd(j, IntSqrt(n), n)
      ==> i == BlockOrigin(r, IntSqrt(n)) && j == BlockOrigin(c, IntSqrt(n))
  {
    WindowTiling(n, IntSqrt(n), r);
    WindowTiling(n, IntSqrt(n), c);
  }

  /** When n = s * s every visited block is a full s-by-s square. */
  lemma SquareBlocksFull(g: Board, s: nat, i: nat, j: nat)
    requires IsSquare(g) && |g| == s * s
    requires i < |g| && j < |g| && s > 0 && i % s == 0 && j % s == 0
    ensures IntSqrt(|g|) == s
    ensures |Sub(g, i, j, s)| == s
    ensures forall a :: 0 <= a < s ==> |Sub(g, i, j, s)[a]| == s
  {
    IntSqrtOfSquare(s);
    FullWindow(s, i);
    FullWindow(s, j);
  }

  lemma FullWindow(s: nat, x: nat)
    requires s > 0 && x < s * s && x % s == 0
    ensures x + s <= s * s
  {
    var q := x / s;
    assert x == q * s;
    if s <= q {
      MulMonotone(s, q, s);
    }
    MulMonotone(q + 1, s, s);
  }
}
