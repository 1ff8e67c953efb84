/**
 Small facts about Euclidean division by a positive divisor, used to relate
 "same block" (equal quotients) to the block origins the board check visits
 (multiples of the block side).
 */
module Arith {

  lemma MulMonotone(a: int, b: int, d: int)
    requires a <= b && d >= 0
    ensures a * d <= b * d
  {
    assert b * d - a * d == (b - a) * d;
  }

  lemma SquareMonotone(a: nat, b: nat)
    requires a <= b
    ensures a * a <= b * b
  {
    MulMonotone(a, b, a);
    MulMonotone(a, b, b);
  }

  lemma SquareStrict(a: nat)
    ensures a * a < (a + 1) * (a + 1)
  {
    assert (a + 1) * (a + 1) == a * a + 2 * a + 1;
  }

  /** Quotient and remainder are the only pair that reconstructs x. */
  lemma DivModUnique(x: int, d: int, q: int, m: int)
    requires d > 0 && 0 <= m < d && x == q * d + m
    ensures x / d == q && x % d == m
  {
    var q', m' := x / d, x % d;
    assert x == q' * d + m';
    if q' < q {
      MulMonotone(q' + 1, q, d);
    } else if q < q' {
      MulMonotone(q + 1, q', d);
    }
  }

  /** The multiple of d at or below x lies within d of x. */
  lemma FloorMultiple(x: int, d: int)
    requires d > 0
    ensures (x / d) * d % d == 0
    ensures (x / d) * d <= x < (x / d) * d + d
    ensures ((x / d) * d) / d == x / d
  {
    DivModUnique((x / d) * d, d, x / d, 0);
  }

  /** A value inside the d-wide window starting at a multiple i of d has i's quotient. */
  lemma WindowQuotient(x: int, i: int, d: int)
    requires d > 0 && i % d == 0 && i <= x < i + d
    ensures x / d == i / d
  {
    assert i == (i / d) * d + i % d;
    DivModUnique(x, d, i / d, x - i);
  }
}
