/**
 * Integer division as Python performs it (`//` and `%` round toward
 * negative infinity), and the facts about quotients and remainders that
 * the index decoding of the micro-test space relies on.
 */
module DivMod {

  /** Python's `a // d`: the floor of a / d, for either sign of d. */
  function FloorDiv(a: int, d: int): int
    requires d != 0
  {
    if d > 0 then a / d else (-a) / (-d)
  }

  /** Python's `a % d`: the remainder takes the sign of the divisor. */
  function FloorMod(a: int, d: int): (r: int)
    requires d != 0
    ensures a == d * FloorDiv(a, d) + r
    ensures d > 0 ==> 0 <= r < d
    ensures d < 0 ==> d < r <= 0
  {
    a - d * FloorDiv(a, d)
  }

  /** For a positive divisor Python's operators agree with Dafny's. */
  lemma FloorAgreesForPositive(a: int, d: int)
    requires d > 0
    ensures FloorDiv(a, d) == a / d && FloorMod(a, d) == a % d
  {
  }

  /** A quotient and remainder are determined by the equation they satisfy. */
  lemma {:induction false} DivModUnique(k: int, q: int, r: int, n: int)
    requires n > 0 && 0 <= r < n && k == q * n + r
    ensures k / n == q && k % n == r
  {
    var q', r' := k / n, k % n;
    assert k == q' * n + r';
    if q' < q {
      assert (q' + 1) * n == q' * n + n;
      MulMonotone(q' + 1, q, n);
    } else if q < q' {
      assert (q + 1) * n == q * n + n;
      MulMonotone(q + 1, q', n);
    }
  }

  lemma MulMonotone(a: int, b: int, n: int)
    requires a <= b && n >= 0
    ensures a * n <= b * n
  {
    assert b * n - a * n == (b - a) * n;
  }

  /** Adding a multiple of the divisor shifts the quotient and keeps the remainder. */
  lemma {:induction false} AddMultiple(k: int, m: int, n: int)
    requires n > 0
    ensures (k + m * n) / n == k / n + m
    ensures (k + m * n) % n == k % n
  {
    assert k + m * n == (k / n + m) * n + k % n;
    DivModUnique(k + m * n, k / n + m, k % n, n);
  }

  /** Dividing twice is dividing by the product. */
  lemma {:induction false} DivDiv(k: int, a: int, b: int)
    requires a > 0 && b > 0
    ensures k / a / b == k / (a * b)
  {
    var q := k / a;
    var r := k % a;
    var q2 := q / b;
    var r2 := q % b;
    assert k == (q2 * b + r2) * a + r;
    assert k == q2 * (a * b) + (r2 * a + r);
    MulMonotone(r2, b - 1, a);
    assert (b - 1) * a == a * b - a;
    DivModUnique(k, q2, r2 * a + r, a * b);
  }

  /** A digit appended below a number smaller than m stays below m * n. */
  lemma {:induction false} MixedRadixBound(q: int, r: int, m: int, n: int)
    requires 0 <= q < m && 0 <= r < n
    ensures 0 <= q * n + r < m * n
  {
    MulMonotone(q, m - 1, n);
    MulMonotone(0, q, n);
    assert (m - 1) * n == m * n - n;
  }

  /** A number below m * n has a quotient by n below m. */
  lemma {:induction false} QuotientBound(k: int, m: int, n: int)
    requires n > 0 && 0 <= k < m * n
    ensures 0 <= k / n < m
  {
    var q := k / n;
    assert k == q * n + k % n;
    if q >= m {
      MulMonotone(m, q, n);
    }
    if q < 0 {
      MulMonotone(q, -1, n);
    }
  }

  /** The regroupings of (w * h) ** 2 the key decoding divides by. */
  lemma SquareRegrouped(w: int, h: int)
    ensures (w * h) * (w * h) == w * (h * w * h)
    ensures (w * h) * (w * h) == (w * h * w) * h
    ensures (w * h) * (w * h) == (w * h) * (h * w)
  {
  }
}
