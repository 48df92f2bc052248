/** Squares and signs of products, shared by the modules that reason about lengths and filters. */
module Reals {
  function Sq(x: real): (r: real)
    ensures r >= 0.0
  {
    x * x
  }

  lemma ProductNonNegative(a: real, b: real)
    requires a >= 0.0 && b >= 0.0
    ensures a * b >= 0.0
  {
  }

  lemma ProductPositive(a: real, b: real)
    requires a > 0.0 && b > 0.0
    ensures a * b > 0.0
  {
  }

  lemma Compare(a: real, b: real, k: real)
    requires k > 0.0
    ensures a < b <==> a * k < b * k
  {
    if a < b { ProductPositive(b - a, k); } else { ProductNonNegative(a - b, k); }
  }

  lemma Scaled(q: real, a: real, b: real, unit: real, gap: real)
    requires unit > 0.0 && q * unit == gap
    ensures a <= q <==> a * unit <= gap
    ensures a < q <==> a * unit < gap
    ensures q < b <==> gap < b * unit
    ensures q <= b <==> gap <= b * unit
  {
    Compare(a, q, unit);
    Compare(q, a, unit);
    Compare(q, b, unit);
    Compare(b, q, unit);
  }

  lemma FloorOf(q: real, k: int)
    ensures q.Floor == k <==> k as real <= q < (k + 1) as real
  {
  }

  /** x lies in the k-th step of the given size, the side toward the origin of the steps included. */
  predicate InStep(x: real, unit: real, k: int) {
    if unit > 0.0 then k as real * unit <= x < (k + 1) as real * unit else (k + 1) as real * unit < x <= k as real * unit
  }

  /** The floor of a quotient is the step. */
  lemma FloorOfQuotient(x: real, unit: real, k: int)
    requires unit != 0.0
    ensures (x / unit).Floor == k <==> InStep(x, unit, k)
  {
    var q := x / unit;
    assert q * unit == x;
    FloorOf(q, k);
    if unit > 0.0 {
      Scaled(q, k as real, (k + 1) as real, unit, x);
    } else {
      assert q * -unit == -x;
      Scaled(q, k as real, (k + 1) as real, -unit, -x);
      Opposite(k as real, unit);
      Opposite((k + 1) as real, unit);
    }
  }

  lemma Opposite(a: real, b: real)
    ensures a * -b == -(a * b)
  {
  }
}
