/**
 * Integer helpers shared by the other modules: the FLINT_MIN and FLINT_MAX
 * macros, and two facts about multiplication and Euclidean division.
 */
module Ints {

  /** FLINT_MIN(a, b): `a > b ? b : a`. */
  function Min(a: int, b: int): (r: int)
    ensures r <= a && r <= b && (r == a || r == b)
  {
    if a > b then b else a
  }

  /** FLINT_MAX(a, b): `a < b ? b : a`. */
  function Max(a: int, b: int): (r: int)
    ensures r >= a && r >= b && (r == a || r == b)
  {
    if a < b then b else a
  }

  lemma MulMonotone(x: int, y: int, b: int)
    requires x <= y && b >= 0
    ensures x * b <= y * b
  {
    assert y * b - x * b == (y - x) * b;
  }

  /** Quotient and remainder are unique (Euclidean division). */
  lemma DivModUnique(x: int, d: int, q: int, r: int)
    requires d > 0 && x == q * d + r && 0 <= r < d
    ensures x / d == q && x % d == r
  {
    var q', r' := x / d, x % d;
    assert x == q' * d + r';
    assert (q - q') * d == r' - r;
    if q - q' >= 1 {
      MulMonotone(1, q - q', d);
    }
    if q - q' <= -1 {
      MulMonotone(q - q', -1, d);
    }
  }
}
