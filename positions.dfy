/** Integer positions into a base range, and the bounded iterator advance
    (`ranges::advance(it, n, bound)`) that the stride view is built on. */
module Positions {

  function Min(a: int, b: int): int { if a <= b then a else b }

  function Max(a: int, b: int): int { if a <= b then b else a }

  /** `ranges::advance(it, n, bound)` on integer positions: `it` moves toward
      `bound` by at most |n| steps. The result is the new position and `n`
      minus the distance actually moved (the shortfall). The bound must lie
      in the direction of travel. */
  function AdvanceBounded(it: int, n: int, bound: int): (r: (int, int))
    requires 0 < n ==> it <= bound
    requires n < 0 ==> bound <= it
    ensures r.1 == n - (r.0 - it)
    ensures r.0 == it + n || r.0 == bound
    ensures r.1 != 0 ==> r.0 == bound
    ensures 0 <= n ==> it <= r.0 <= it + n && 0 <= r.1 <= n
    ensures n <= 0 ==> it + n <= r.0 <= it && n <= r.1 <= 0
    ensures 0 < n ==> r.0 <= bound
    ensures n < 0 ==> bound <= r.0
  {
    if 0 < n then
      var p := Min(it + n, bound); (p, n - (p - it))
    else if n < 0 then
      var p := Max(it + n, bound); (p, n - (p - it))
    else
      (it, 0)
  }

  /** Euclidean division is determined by the quotient-remainder decomposition. */
  lemma DivModUnique(x: int, d: int, q: int, m: int)
    requires 0 < d && 0 <= m < d && x == q * d + m
    ensures x / d == q && x % d == m
  {
    var q', m' := x / d, x % d;
    assert x == q' * d + m' && 0 <= m' < d;
    MulSub(q, q', d);
    if q' < q {
      MulAtLeast(q - q', d);
    } else if q < q' {
      MulSub(q', q, d);
      MulAtLeast(q' - q, d);
    }
  }

  /** At most one number r satisfies `a <= r * d < a + d`. */
  lemma CeilUnique(a: int, d: int, r1: int, r2: int)
    requires 0 < d
    requires a <= r1 * d < a + d && a <= r2 * d < a + d
    ensures r1 == r2
  {
    if r1 < r2 {
      MulSub(r2, r1, d);
      MulAtLeast(r2 - r1, d);
    } else if r2 < r1 {
      MulSub(r1, r2, d);
      MulAtLeast(r1 - r2, d);
    }
  }

  lemma MulSub(a: int, b: int, d: int)
    ensures (a - b) * d == a * d - b * d
  {
  }

  lemma MulAtLeast(a: int, d: int)
    requires 1 <= a && 0 < d
    ensures d <= a * d
  {
    MulSub(a, 1, d);
    MulNonneg(a - 1, d);
  }

  lemma MulNonneg(a: int, d: int)
    requires 0 <= a && 0 <= d
    ensures 0 <= a * d
  {
  }

  /** Multiplication by a positive number is monotonic. */
  lemma MulMono(a: int, b: int, d: int)
    requires a <= b && 0 <= d
    ensures a * d <= b * d
  {
    assert (b - a) * d >= 0;
  }
}
