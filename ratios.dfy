/**
 * The ratio tests the profiler and the rule generators share, in integer
 * form, with lemmas tying each to the division the source writes.
 */
module Ratios {
  /** `max(1, n)`, the denominator guard of the cardinality tests. */
  function Max1(n: nat): (m: nat)
    ensures m >= 1 && m >= n && (n >= 1 ==> m == n)
  {
    if n < 1 then 1 else n
  }

  lemma ScaleBySign(d: real, n: real)
    requires n > 0.0
    ensures d >= 0.0 <==> d * n >= 0.0
  {
  }

  /** For a positive denominator, `m / n >= t` is `m >= t * n`. */
  lemma RatioCompare(m: real, n: real, t: real)
    requires n > 0.0
    ensures m / n >= t <==> m >= t * n
  {
    var q := m / n;
    assert q * n == m;
    ScaleBySign(q - t, n);
    assert (q - t) * n == m - t * n;
  }

  /** `distinct / max(1, total) < 0.02`, in integers. */
  predicate IsLowCardinality(distinct: nat, total: nat) {
    50 * distinct < Max1(total)
  }

  lemma LowCardinalityIsRatioTest(distinct: nat, total: nat)
    ensures IsLowCardinality(distinct, total) <==> (distinct as real) / (Max1(total) as real) < 0.02
  {
    RatioCompare(distinct as real, Max1(total) as real, 0.02);
  }
}
