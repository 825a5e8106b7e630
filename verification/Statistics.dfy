/**
  Exact binomials by the multiply-then-divide fold, the exact pass@k value,
  and the production fixed-point estimator, which never falls below the exact
  value and exceeds it by at most one millionth.
 */
module Statistics {

  const MILLION := 1_000_000

  // ----- products -----

  lemma MulMonotone(m: int, a: int, b: int)
    requires m >= 0 && a <= b
    ensures m * a <= m * b
  {
  }

  lemma MulLess(d: int, x: int, y: int)
    requires d > 0 && x * d < y * d
    ensures x < y
  {
  }

  lemma ScaleBounds(x: int, b: int, m: int)
    requires m >= 0 && -b <= x <= b
    ensures -(b * m) <= x * m <= b * m
  {
  }

  lemma ExactQuotient(q: int, i: int)
    requires i > 0
    ensures q * i / i == q && q * i % i == 0
  {
    var t := q * i / i;
    assert t * i <= q * i < (t + 1) * i;
    MulLess(i, q, t + 1);
    MulLess(i, t - 1, q);
  }

  lemma QuotientBounds(a: int, d: int)
    requires d > 0
    ensures a / d * d <= a < (a / d + 1) * d
  {
  }

  lemma QuotientMonotone(a: int, b: int, d: int)
    requires d > 0 && a <= b
    ensures a / d <= b / d
  {
    QuotientBounds(a, d);
    QuotientBounds(b, d);
    MulLess(d, a / d, b / d + 1);
  }

  /** Pascal's triangle. */
  function Binomial(n: nat, k: nat): nat {
    if k == 0 then 1
    else if n == 0 then 0
    else Binomial(n - 1, k - 1) + Binomial(n - 1, k)
  }

  lemma {:induction false} BinomialZero(n: nat, k: nat)
    ensures Binomial(n, k) == 0 <==> k > n
  {
    if k > 0 && n > 0 {
      BinomialZero(n - 1, k - 1);
      BinomialZero(n - 1, k);
    }
  }

  lemma AbsorptionStep(n: int, k: int, a: int, b: int, c: int, d: int)
    requires k * b == (n - 1) * c && (k - 1) * a == (n - 1) * d && a == d + c
    ensures k * (a + b) == n * a
  {
  }

  /** Absorption, the reason each division in the fold is exact. */
  lemma {:induction false} Absorption(n: nat, k: nat)
    requires n > 0 && k > 0
    ensures k * Binomial(n, k) == n * Binomial(n - 1, k - 1)
  {
    if n == 1 {
      BinomialZero(0, k);
      BinomialZero(0, k - 1);
    } else {
      Absorption(n - 1, k);
      if k > 1 {
        Absorption(n - 1, k - 1);
      }
      var d := if k == 1 then 0 else Binomial(n - 2, k - 2);
      AbsorptionStep(n, k, Binomial(n - 1, k - 1), Binomial(n - 1, k), Binomial(n - 2, k - 1), d);
    }
  }

  lemma ExactStep(m: nat, i: nat)
    requires i > 0
    ensures Binomial(m + i - 1, i - 1) * (m + i) == Binomial(m + i, i) * i
    ensures Binomial(m + i - 1, i - 1) * (m + i) / i == Binomial(m + i, i)
    ensures Binomial(m + i - 1, i - 1) * (m + i) % i == 0
  {
    Absorption(m + i, i);
    ExactQuotient(Binomial(m + i, i), i);
  }

  /** The fold: after step i the accumulator is the binomial of n - k + i over i, with no remainder lost. */
  method Choose(n: nat, k: nat) returns (count: nat)
    ensures count == Binomial(n, k)
  {
    BinomialZero(n, k);
    if k > n {
      return 0;
    }
    count := 1;
    for i := 1 to k + 1
      invariant count == Binomial(n - k + i - 1, i - 1)
    {
      ExactStep(n - k, i);
      count := count * (n - k + i) / i;
    }
  }

  // ----- pass@k -----

  lemma {:induction false} BinomialMonotone(n: nat, n': nat, k: nat)
    requires n <= n'
    ensures Binomial(n, k) <= Binomial(n', k)
  {
    if n < n' {
      BinomialMonotone(n, n' - 1, k);
    }
  }

  /** One minus the chance that k draws miss every success, in whole millionths. */
  function PassAtK(total: nat, successes: nat, k: nat): nat
    requires 0 < k <= total && successes <= total
  {
    BinomialZero(total, k);
    BinomialMonotone(total - successes, total, k);
    (Binomial(total, k) - Binomial(total - successes, k)) * MILLION / Binomial(total, k)
  }

  /** Whole millionths of a ratio between nothing and everything. */
  lemma MillionthsRange(d: int, c: int)
    requires 0 <= c <= d && d > 0
    ensures 0 <= (d - c) * MILLION / d <= MILLION
    ensures (d - c) * MILLION / d == MILLION <==> c == 0
    ensures c == d ==> (d - c) * MILLION / d == 0
  {
    QuotientBounds((d - c) * MILLION, d);
    ExactQuotient(MILLION, d);
    QuotientMonotone((d - c) * MILLION, MILLION * d, d);
    assert c > 0 ==> (d - c) * MILLION < MILLION * d;
  }

  lemma PassAtKRange(total: nat, successes: nat, k: nat)
    requires 0 < k <= total && successes <= total
    ensures PassAtK(total, successes, k) <= MILLION
    ensures PassAtK(total, successes, k) == MILLION <==> total - successes < k
    ensures successes == 0 ==> PassAtK(total, successes, k) == 0
  {
    var d, c := Binomial(total, k), Binomial(total - successes, k);
    BinomialZero(total, k);
    BinomialZero(total - successes, k);
    BinomialMonotone(total - successes, total, k);
    hide Binomial;
    MillionthsRange(d, c);
  }

  lemma PassAtKMonotone(total: nat, fewer: nat, more: nat, k: nat)
    requires 0 < k <= total && fewer <= more <= total
    ensures PassAtK(total, fewer, k) <= PassAtK(total, more, k)
  {
    var d := Binomial(total, k);
    BinomialZero(total, k);
    BinomialMonotone(total - more, total - fewer, k);
    BinomialMonotone(total - fewer, total, k);
    QuotientMonotone((d - Binomial(total - fewer, k)) * MILLION, (d - Binomial(total - more, k)) * MILLION, d);
  }

  // ----- the production estimator -----

  const SCALE := 1_000_000_000_000_000_000

  /** n (n - 1) ... (n - k + 1). */
  function Falling(n: nat, k: nat): nat
    requires k <= n
  {
    if k == 0 then 1 else Falling(n, k - 1) * (n - (k - 1))
  }

  function Factorial(k: nat): (r: nat)
    ensures r > 0
  {
    if k == 0 then 1 else Factorial(k - 1) * k
  }

  lemma {:induction false} FallingPositive(n: nat, k: nat)
    requires k <= n
    ensures Falling(n, k) > 0
  {
    if k > 0 {
      FallingPositive(n, k - 1);
      MulMonotone(Falling(n, k - 1), 1, n - (k - 1));
    }
  }

  /** A falling product may be peeled at its first factor as well as its last. */
  lemma {:induction false} FallingFirst(n: nat, k: nat)
    requires 0 < k <= n
    ensures Falling(n, k) == n * Falling(n - 1, k - 1)
  {
    if k > 1 {
      FallingFirst(n, k - 1);
      Associate(n, Falling(n - 1, k - 2), n - (k - 1));
    } else {
      assert Falling(n, 0) == 1 && Falling(n - 1, 0) == 1;
    }
  }

  lemma Associate(a: int, b: int, c: int)
    ensures a * (b * c) == (a * b) * c
  {
  }

  lemma FallingArithmetic(n: int, k: int, smaller: int, larger: int, f: int)
    requires n * smaller == k * larger
    ensures n * (smaller * f) == larger * (k * f)
  {
  }

  lemma {:induction false} FallingIsBinomial(n: nat, k: nat)
    requires k <= n
    ensures Falling(n, k) == Binomial(n, k) * Factorial(k)
  {
    if k > 0 {
      FallingIsBinomial(n - 1, k - 1);
      FallingFirst(n, k);
      Absorption(n, k);
      assert Factorial(k) == k * Factorial(k - 1);
      hide Falling, Binomial, Factorial;
      FallingArithmetic(n, k, Binomial(n - 1, k - 1), Binomial(n, k), Factorial(k - 1));
    }
  }

  /** The ratio of the two binomials is the ratio of the two products. */
  lemma RatioAgrees(total: nat, successes: nat, k: nat)
    requires successes <= total && k <= total - successes
    ensures Binomial(total - successes, k) * Falling(total, k) == Binomial(total, k) * Falling(total - successes, k)
  {
    FallingIsBinomial(total, k);
    FallingIsBinomial(total - successes, k);
    CrossMultiply(Binomial(total - successes, k), Binomial(total, k), Factorial(k));
  }

  lemma CrossMultiply(c: int, d: int, f: int)
    ensures c * (d * f) == d * (c * f)
  {
  }

  /** Twice the scaled distance between the running failure estimate and the true product ratio. */
  ghost predicate Close(failure: int, q: int, p: int, steps: int) {
    -(steps * q) <= 2 * (failure * q - SCALE * p) <= steps * q
  }

  lemma RoundedQuotient(x: int, d: int)
    requires d > 0
    ensures -d <= 2 * ((x + d / 2) / d * d - x) <= d
  {
  }

  lemma ErrorSplits(f: int, f': int, q: int, p: int, num: int, den: int)
    ensures f' * (q * den) - SCALE * (p * num) == (f' * den - f * num) * q + (f * q - SCALE * p) * num
  {
  }

  /** One rounding step adds at most half a unit of error. */
  lemma CloseStep(f: int, f': int, q: int, p: int, num: int, den: int, steps: int)
    requires Close(f, q, p, steps) && 0 <= num <= den && q >= 0 && steps >= 0
    requires -den <= 2 * (f' * den - f * num) <= den
    ensures Close(f', q * den, p * num, steps + 1)
  {
    var e, r, w := f * q - SCALE * p, f' * den - f * num, steps * q;
    ErrorSplits(f, f', q, p, num, den);
    ScaleBounds(2 * r, den, q);
    ScaleBounds(2 * e, w, num);
    assert w >= 0 by { MulMonotone(steps, 0, q); }
    MulMonotone(w, num, den);
    Associate(steps, q, den);
    CloseAdds(e, r, q, num, den, w, steps);
  }

  lemma CloseAdds(e: int, r: int, q: int, num: int, den: int, w: int, steps: int)
    requires -(den * q) <= 2 * r * q <= den * q && -(w * num) <= 2 * e * num <= w * num && w * num <= w * den
    requires steps * (q * den) == w * den
    ensures -((steps + 1) * (q * den)) <= 2 * (r * q + e * num) <= (steps + 1) * (q * den)
  {
  }

  /** Floors of equal ratios are equal: the exact value bounds the ratio of the products too. */
  lemma ExactOverProducts(e: int, d: int, c: int, q: int, p: int)
    requires d > 0 && q > 0 && c * q == d * p
    requires e * d <= (d - c) * MILLION < (e + 1) * d
    ensures e * q <= (q - p) * MILLION < (e + 1) * q
  {
  }

  /** The scaled estimate, times q, lies strictly between the exact floor and two above it. */
  lemma ScaledWindow(q: int, p: int, fq: int, eq: int)
    requires q > 0 && -65535 * q <= 2 * (fq - SCALE * p) <= 65535 * q
    requires eq <= (q - p) * MILLION < eq + q
    ensures SCALE * eq <= (SCALE * q - fq) * MILLION + SCALE / 2 * q < SCALE * eq + 2 * SCALE * q
  {
  }

  lemma ScaledProducts(e: int, q: int, f: int)
    ensures ((SCALE - f) * MILLION + SCALE / 2) * q == (SCALE * q - f * q) * MILLION + SCALE / 2 * q
    ensures (e * SCALE) * q == SCALE * (e * q)
    ensures ((e + 2) * SCALE) * q == SCALE * (e * q) + 2 * SCALE * q
  {
  }

  /** With error under half a millionth, rounding to nearest lands on the floor or one above it. */
  lemma RoundingStaysClose(e: int, t: int, q: int, p: int, f: int, k: int)
    requires q > 0 && 0 <= k <= 65535 && Close(f, q, p, k)
    requires e * q <= (q - p) * MILLION < (e + 1) * q
    requires t * SCALE <= (SCALE - f) * MILLION + SCALE / 2 < (t + 1) * SCALE
    ensures e <= t <= e + 1
  {
    var scaled := (SCALE - f) * MILLION + SCALE / 2;
    assert k * q <= 65535 * q by { MulMonotone(q, k, 65535); }
    assert (e + 1) * q == e * q + q;
    ScaledWindow(q, p, f * q, e * q);
    ScaledProducts(e, q, f);
    NotBelow(e * SCALE, scaled, q);
    MulLess(q, scaled, (e + 2) * SCALE);
  }

  lemma NotBelow(a: int, b: int, q: int)
    requires q > 0 && a * q <= b * q
    ensures a <= b
  {
  }

  datatype Estimate = Estimated(millionths: nat) | Rejected | Overflow

  const U128_MAX := 0xFFFF_FFFF_FFFF_FFFF_FFFF_FFFF_FFFF_FFFF

  /** One step of the loop stays in range, cannot overflow, and keeps the estimate close. */
  lemma FailureStep(f: int, q: int, p: int, num: int, den: int, steps: int)
    requires 0 <= f <= SCALE && 0 <= num <= den <= 0xFFFF_FFFF && den > 0 && q >= 0 && steps >= 0
    requires Close(f, q, p, steps)
    ensures var next := (f * num + den / 2) / den;
            0 <= next <= SCALE && 0 <= f * num && f * num + den / 2 <= U128_MAX && Close(next, q * den, p * num, steps + 1)
  {
    var next := (f * num + den / 2) / den;
    MulMonotone(num, 0, f);
    MulMonotone(num, f, SCALE);
    MulMonotone(SCALE, num, den);
    QuotientBounds(f * num + den / 2, den);
    MulLess(den, next, SCALE + 1);
    RoundedQuotient(f * num, den);
    CloseStep(f, next, q, p, num, den, steps);
  }

  /** The checked fixed-point loop: the rounded product of the failure ratios. */
  method FailureEstimate(total: nat, successes: nat, k: nat) returns (failure: nat, overflow: bool)
    requires 0 < k <= total - successes && total <= 0xFFFF_FFFF && successes <= total
    ensures !overflow && failure <= SCALE
    ensures Close(failure, Falling(total, k), Falling(total - successes, k), k)
  {
    failure, overflow := SCALE, false;
    for index := 0 to k
      invariant failure <= SCALE
      invariant Close(failure, Falling(total, index), Falling(total - successes, index), index)
    {
      var numerator, denominator := total - successes - index, total - index;
      FailureStep(failure, Falling(total, index), Falling(total - successes, index), numerator, denominator, index);
      if failure * numerator > U128_MAX || failure * numerator + denominator / 2 > U128_MAX {
        return failure, true;
      }
      failure := (failure * numerator + denominator / 2) / denominator;
    }
  }

  /**
    Twice the distance between an estimate and the exact value, scaled: at most one rounding to the
    nearest millionth and k half-units of the fixed-point scale, where 10^18 units are one.
   */
  ghost predicate NearlyNearest(total: nat, successes: nat, k: nat, t: int)
    requires k <= total && successes <= total
  {
    var d, c := Binomial(total, k), Binomial(total - successes, k);
    var unit, million := 1_000_000_000_000_000_000, 1_000_000;
    -((unit + k * million) * d) <= 2 * unit * (t * d - (d - c) * million) <= (unit + k * million) * d
  }

  lemma ExactIsNearest(total: nat, successes: nat, k: nat, t: int)
    requires k <= total && successes <= total
    requires t * Binomial(total, k) == (Binomial(total, k) - Binomial(total - successes, k)) * MILLION
    ensures NearlyNearest(total, successes, k, t)
  {
    MulMonotone(Binomial(total, k), 0, SCALE + k * MILLION);
  }

  /** The two roundings, over the products. */
  lemma ProductDistance(t: int, f: int, q: int, p: int, k: int)
    requires q > 0 && Close(f, q, p, k)
    requires -SCALE <= 2 * (t * SCALE - (SCALE - f) * MILLION) <= SCALE
    ensures -((SCALE + k * MILLION) * q) <= 2 * SCALE * (t * q - (q - p) * MILLION) <= (SCALE + k * MILLION) * q
  {
    var x, e := t * SCALE - (SCALE - f) * MILLION, f * q - SCALE * p;
    ScaleBounds(2 * x, SCALE, q);
    DistanceSplits(t, f, q, p, k);
  }

  lemma DistanceSplits(t: int, f: int, q: int, p: int, k: int)
    ensures 2 * SCALE * (t * q - (q - p) * MILLION)
            == 2 * (t * SCALE - (SCALE - f) * MILLION) * q - 2 * (f * q - SCALE * p) * MILLION
    ensures (SCALE + k * MILLION) * q == SCALE * q + k * q * MILLION
  {
  }

  /** The same distance over the binomials, which are in the same ratio. */
  lemma BinomialDistance(t: int, d: int, c: int, q: int, p: int, w: int)
    requires d > 0 && q > 0 && c * q == d * p
    requires -(w * q) <= 2 * SCALE * (t * q - (q - p) * MILLION) <= w * q
    ensures -(w * d) <= 2 * SCALE * (t * d - (d - c) * MILLION) <= w * d
  {
    var u, v := t * q - (q - p) * MILLION, t * d - (d - c) * MILLION;
    SameDistance(t, d, c, q, p);
    ScaleBounds(2 * SCALE * u, w * q, d);
    Associate(2 * SCALE, u, d);
    Associate(2 * SCALE, v, q);
    assert w * q * d == w * d * q;
    NotBelow(2 * SCALE * v, w * d, q);
    NotBelow(-(w * d), 2 * SCALE * v, q);
  }

  lemma SameDistance(t: int, d: int, c: int, q: int, p: int)
    requires c * q == d * p
    ensures (t * q - (q - p) * MILLION) * d == (t * d - (d - c) * MILLION) * q
  {
    assert t * q * d == t * d * q;
  }

  lemma EstimateIsNearest(total: nat, successes: nat, k: nat, failure: nat, estimate: nat)
    requires 0 < k <= total - successes && successes <= total
    requires Close(failure, Falling(total, k), Falling(total - successes, k), k)
    requires estimate * SCALE <= (SCALE - failure) * MILLION + SCALE / 2 < (estimate + 1) * SCALE
    ensures NearlyNearest(total, successes, k, estimate)
  {
    BinomialZero(total, k);
    RatioAgrees(total, successes, k);
    FallingPositive(total, k);
    var d, c, q, p := Binomial(total, k), Binomial(total - successes, k), Falling(total, k), Falling(total - successes, k);
    ProductDistance(estimate, failure, q, p, k);
    BinomialDistance(estimate, d, c, q, p, SCALE + k * MILLION);
  }

  /**
    The production estimator is never below the exact floor, at most one millionth above it, and the
    nearest millionth but for the error of the fixed-point scale.
   */
  method EstimatePassAtK(total: nat, successes: nat, k: nat) returns (r: Estimate)
    requires total <= 0xFFFF_FFFF && successes <= 0xFFFF_FFFF && k <= 0xFFFF
    ensures r == Rejected <==> total == 0 || successes > total || k == 0 || k > total
    ensures r != Rejected ==>
              r.Estimated? && r.millionths <= MILLION
              && PassAtK(total, successes, k) <= r.millionths <= PassAtK(total, successes, k) + 1
              && NearlyNearest(total, successes, k, r.millionths)
  {
    if total == 0 || successes > total || k == 0 || k > total {
      return Rejected;
    }
    PassAtKRange(total, successes, k);
    if successes == 0 {
      ExactIsNearest(total, successes, k, 0);
      return Estimated(0);
    }
    if total - successes < k {
      BinomialZero(total - successes, k);
      ExactIsNearest(total, successes, k, MILLION);
      return Estimated(MILLION);
    }
    var failure, overflow := FailureEstimate(total, successes, k);
    if overflow {
      return Overflow;
    }
    var pass := SCALE - failure;
    if pass * MILLION > U128_MAX || pass * MILLION + SCALE / 2 > U128_MAX {
      return Overflow;
    }
    var estimate := (pass * MILLION + SCALE / 2) / SCALE;
    QuotientBounds(pass * MILLION + SCALE / 2, SCALE);
    if estimate > MILLION {
      return Rejected;
    }
    EstimateIsClose(total, successes, k, failure, estimate);
    EstimateIsNearest(total, successes, k, failure, estimate);
    return Estimated(estimate);
  }

  lemma EstimateIsClose(total: nat, successes: nat, k: nat, failure: nat, estimate: nat)
    requires 0 < k <= total - successes && successes <= total && k <= 65535
    requires Close(failure, Falling(total, k), Falling(total - successes, k), k)
    requires estimate * SCALE <= (SCALE - failure) * MILLION + SCALE / 2 < (estimate + 1) * SCALE
    ensures PassAtK(total, successes, k) <= estimate <= PassAtK(total, successes, k) + 1
  {
    var d, c, e := Binomial(total, k), Binomial(total - successes, k), PassAtK(total, successes, k);
    BinomialZero(total, k);
    BinomialMonotone(total - successes, total, k);
    QuotientBounds((d - c) * MILLION, d);
    RatioAgrees(total, successes, k);
    FallingPositive(total, k);
    ExactOverProducts(e, d, c, Falling(total, k), Falling(total - successes, k));
    RoundingStaysClose(e, estimate, Falling(total, k), Falling(total - successes, k), failure, k);
  }
}
