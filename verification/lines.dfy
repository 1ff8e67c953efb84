/**
 A line is any sequence of cell values the board check scans for duplicates:
 a row, a column, or a flattened block.
 */
module Lines {

  /** No nonzero value occurs twice in the line. */
  predicate NoRepeats(s: seq<int>) {
    forall a, b :: 0 <= a < b < |s| && s[a] != 0 ==> s[a] != s[b]
  }

  /** Order-free reading of NoRepeats: any two distinct positions differ when the first is nonzero. */
  lemma NoRepeatsSymmetric(s: seq<int>, a: nat, b: nat)
    requires NoRepeats(s) && a < |s| && b < |s| && a != b && s[a] != 0
    ensures s[a] != s[b]
  {
  }

  /**
   Scans the line the way the board check does: for every position but the
   last, a nonzero value that reappears further right rejects the line.
   */
  method ScanLine(s: seq<int>) returns (ok: bool)
    ensures ok <==> NoRepeats(s)
  {
    var k := 0;
    while k + 1 < |s|
      invariant 0 <= k <= |s|
      invariant forall a, b :: 0 <= a < k && a < b < |s| && s[a] != 0 ==> s[a] != s[b]
    {
      if s[k] != 0 && s[k] in s[k + 1..] {
        var b :| k + 1 <= b < |s| && s[b] == s[k];
        assert !NoRepeats(s);
        return false;
      }
      k := k + 1;
    }
    return true;
  }

  /**
   A concatenation repeats nothing exactly when neither part does and no
   nonzero value of the first part occurs in the second.
   */
  lemma NoRepeatsConcat(x: seq<int>, y: seq<int>)
    ensures NoRepeats(x + y) <==>
      NoRepeats(x) && NoRepeats(y) && forall v :: v != 0 && v in x ==> v !in y
  {
    var z := x + y;
    if NoRepeats(z) {
      assert NoRepeats(x) by {
        forall a, b | 0 <= a < b < |x| && x[a] != 0 ensures x[a] != x[b] {
          assert z[a] == x[a] && z[b] == x[b];
        }
      }
      assert NoRepeats(y) by {
        forall a, b | 0 <= a < b < |y| && y[a] != 0 ensures y[a] != y[b] {
          assert z[|x| + a] == y[a] && z[|x| + b] == y[b];
        }
      }
      forall v | v != 0 && v in x ensures v !in y {
        var a :| 0 <= a < |x| && x[a] == v;
        forall b | 0 <= b < |y| ensures y[b] != v {
          assert z[a] == x[a] && z[|x| + b] == y[b];
        }
      }
    }
    if NoRepeats(x) && NoRepeats(y) && forall v :: v != 0 && v in x ==> v !in y {
      forall a, b | 0 <= a < b < |z| && z[a] != 0 ensures z[a] != z[b] {
        if b < |x| {
          assert z[a] == x[a] && z[b] == x[b];
        } else if a < |x| {
          assert z[a] == x[a] && z[b] == y[b - |x|];
          assert z[a] in x;
        } else {
          assert z[a] == y[a - |x|] && z[b] == y[b - |x|];
        }
      }
    }
  }
}
