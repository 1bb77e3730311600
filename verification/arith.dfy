/** Small facts of integer arithmetic the solver does not find alone. */
module Arith {

  lemma MulAtLeast(a: int, p: int)
    requires a >= 1 && p > 0
    ensures a * p >= p
  {
  }

  lemma Distrib(a: int, b: int, p: int)
    ensures (a - b) * p == a * p - b * p
  {
  }

  /** Quotient and remainder are determined by x == q * p + r with 0 <= r < p. */
  lemma ModUnique(x: int, p: int, q: int, r: int)
    requires p > 0 && 0 <= r < p && x == q * p + r
    ensures x % p == r && x / p == q
  {
    var q0 := x / p;
    var r0 := x % p;
    assert x == q0 * p + r0;
    Distrib(q, q0, p);
    assert (q - q0) * p == r0 - r;
    if q > q0 {
      MulAtLeast(q - q0, p);
    } else if q < q0 {
      Distrib(q0, q, p);
      MulAtLeast(q0 - q, p);
    }
  }

  /** Products of naturals grow with either factor. */
  lemma MulMonotone(a: nat, b: nat, p: nat)
    requires a <= b
    ensures a * p <= b * p
  {
  }

  /** n elements of es bytes each span n * es bytes, a natural number. */
  function Scale(n: nat, es: nat): (r: nat)
    ensures r == n * es
  {
    MulMonotone(0, n, es);
    n * es
  }

  /** Element i of n lies inside the n elements' bytes. */
  lemma ElementInside(i: nat, n: nat, es: nat)
    requires i < n
    ensures Scale(i, es) + es <= Scale(n, es)
  {
    MulMonotone(i + 1, n, es);
  }
}
