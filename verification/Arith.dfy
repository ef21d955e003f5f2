/** Facts about products and remainders of integers that the other modules call by name. */
module Arith {

  lemma {:induction false} MulMonotone(k: nat, a: int, b: int)
    requires a <= b
    ensures k * a <= k * b
    decreases b - a
  {
    if a < b {
      assert k * b == k * (b - 1) + k;
      MulMonotone(k, a, b - 1);
    }
  }

  lemma MulLarge(m: int, d: int)
    requires m > 0 && d != 0
    ensures d > 0 ==> m * d >= m
    ensures d < 0 ==> m * d <= -m
  {
    if d > 0 {
      MulMonotone(m, 1, d);
    } else {
      MulMonotone(m, d, -1);
    }
  }

  /** Quotient and remainder are determined by x == m * q + r with 0 <= r < m. */
  lemma ModUnique(x: int, m: int, q: int, r: int)
    requires m > 0 && 0 <= r < m && x == m * q + r
    ensures x / m == q && x % m == r
  {
    var d := x / m - q;
    assert m * d == r - x % m;
    if d != 0 {
      MulLarge(m, d);
    }
  }

  lemma DivMonotone(a: nat, b: nat, m: nat)
    requires a <= b && m > 0
    ensures a / m <= b / m
  {
    var d := a / m - b / m;
    assert m * d == (a - a % m) - (b - b % m);
    if d > 0 {
      MulLarge(m, d);
    }
  }

  lemma DivideBack(x: nat, d: nat)
    requires d > 0
    ensures d * (x / d) <= x < d * (x / d) + d
  {
  }

  // ----- products in another order -----

  lemma Regroup(x: int, y: int, z: int, t: int)
    ensures (x * t) * (y * z) == (z * t) * (x * y)
  {
    assert (x * t) * (y * z) == x * (t * (y * z)) == x * (y * (z * t)) == (x * y) * (z * t);
  }

  lemma Interchange(a: int, b: int, c: int, e: int)
    ensures (a * b) * (c * e) == (a * c) * (b * e)
  {
    Regroup(b, c, e, a);
  }

  lemma Rotate(a: int, b: int, c: int)
    ensures a * (b * c) == b * (a * c)
  {
  }
}
