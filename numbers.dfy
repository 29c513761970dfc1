/** Integer versions of the JavaScript number operations the engine uses. */
module Numbers {

  /**
   * `Math.round(p / q)` for a positive divisor: the integer nearest to p/q,
   * halves rounded towards +infinity, i.e. floor(p/q + 1/2).
   */
  function RoundDiv(p: int, q: int): (r: int)
    requires q > 0
    ensures 2 * q * r <= 2 * p + q < 2 * q * r + 2 * q
  {
    var a, d := 2 * p + q, 2 * q;
    assert a == d * (a / d) + a % d;
    a / d
  }

  /** `Math.ceil(p / q)` for a positive divisor: the least integer at least p/q. */
  function CeilDiv(p: int, q: int): (r: int)
    requires q > 0
    ensures q * (r - 1) < p <= q * r
  {
    var a := -p;
    assert a == q * (a / q) + a % q;
    -(a / q)
  }

  function Min(a: int, b: int): int { if a <= b then a else b }

  function Max(a: int, b: int): int { if a >= b then a else b }

  /** Rounding the quotient is monotone in the dividend. */
  lemma RoundDivMonotone(p1: int, p2: int, q: int)
    requires q > 0 && p1 <= p2
    ensures RoundDiv(p1, q) <= RoundDiv(p2, q)
  {
    var r1, r2 := RoundDiv(p1, q), RoundDiv(p2, q);
    assert (2 * q) * r1 < (2 * q) * (r2 + 1);
    ProductCancel(2 * q, r1, r2 + 1);
  }

  /** Rounding up the quotient is monotone in the dividend. */
  lemma CeilDivMonotone(p1: int, p2: int, q: int)
    requires q > 0 && p1 <= p2
    ensures CeilDiv(p1, q) <= CeilDiv(p2, q)
  {
    var r1, r2 := CeilDiv(p1, q), CeilDiv(p2, q);
    assert q * (r1 - 1) < q * r2;
    ProductCancel(q, r1 - 1, r2);
  }

  /** A positive factor can be cancelled from a strict inequality. */
  lemma ProductCancel(k: int, a: int, b: int)
    requires k > 0 && k * a < k * b
    ensures a < b
  {
    assert k * (b - a) > 0;
  }

  /** Euclidean division has a single quotient and remainder. */
  lemma QuotientUnique(a: int, k: int, q: int, r: int)
    requires k > 0 && 0 <= r < k && a == k * q + r
    ensures a / k == q && a % k == r
  {
    var q', r' := a / k, a % k;
    assert k * q + r == k * q' + r';
    assert k * (q - q') == r' - r;
    if q - q' >= 1 {
      MulAtLeast(k, q - q');
    } else if q' - q >= 1 {
      MulAtLeast(k, q' - q);
    }
  }

  /** A positive multiple of a positive number is at least that number. */
  lemma {:induction false} MulAtLeast(k: int, d: int)
    requires k > 0 && d >= 1
    ensures k * d >= k
    decreases d
  {
    if d > 1 {
      MulAtLeast(k, d - 1);
      assert k * d == k * (d - 1) + k;
    }
  }

  /** Rounding an exact quotient gives it back. */
  lemma RoundDivExact(k: int, q: int)
    requires q > 0
    ensures RoundDiv(k * q, q) == k
  {
    assert 2 * (k * q) + q == (2 * q) * k + q;
    QuotientUnique(2 * (k * q) + q, 2 * q, k, q);
  }

  /** The rounded quotient reaches `k` exactly when p/q is at least k - 1/2. */
  lemma RoundDivAtLeast(p: int, q: int, k: int)
    requires q > 0
    ensures RoundDiv(p, q) >= k <==> 2 * p + q >= 2 * q * k
  {
    var r := RoundDiv(p, q);
    if 2 * p + q >= 2 * q * k {
      ProductCancel(2 * q, k, r + 1);
    } else {
      ProductCancel(2 * q, r, k);
    }
  }

  /** Rounding up an exact quotient gives it back. */
  lemma CeilDivExact(k: int, q: int)
    requires q > 0
    ensures CeilDiv(k * q, q) == k
  {
    assert -(k * q) == q * (-k) + 0;
    QuotientUnique(-(k * q), q, -k, 0);
  }
}
