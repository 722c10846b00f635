/**
 * Descriptive statistics over exact reals: the sum, the arithmetic mean,
 * the sample variance (N - 1 denominator, pandas' default `ddof=1`), the
 * smallest and the largest element, and the facts about them the analysis
 * relies on.
 */
module Stats {
  import opened Wrappers

  function Sum(s: seq<real>): (r: real)
  {
    if s == [] then 0.0 else s[0] + Sum(s[1..])
  }

  /** The arithmetic mean of a non-empty sequence. */
  function Mean(s: seq<real>): (m: real)
    requires |s| > 0
  {
    Sum(s) / (|s| as real)
  }

  /** The sum of squared deviations of the elements of `s` from `m`. */
  function SumSqDev(s: seq<real>, m: real): (r: real)
    ensures r >= 0.0
  {
    if s == [] then 0.0
    else
      SquareNonNegative(s[0] - m);
      (s[0] - m) * (s[0] - m) + SumSqDev(s[1..], m)
  }

  /**
   * The sample variance: undefined for fewer than two values (pandas gives
   * NaN there), otherwise the squared deviations from the mean divided by
   * N - 1. The sample standard deviation is its square root.
   */
  function SampleVariance(s: seq<real>): (v: Option<real>)
    ensures v.Some? <==> |s| >= 2
    ensures v.Some? ==> v.value >= 0.0
  {
    if |s| < 2 then None else Some(SumSqDev(s, Mean(s)) / ((|s| - 1) as real))
  }

  function MinOf(s: seq<real>): (r: real)
    requires |s| > 0
    ensures r in s
    ensures forall k :: 0 <= k < |s| ==> r <= s[k]
  {
    if |s| == 1 then s[0]
    else
      var rest := MinOf(s[1..]);
      if s[0] <= rest then s[0] else rest
  }

  function MaxOf(s: seq<real>): (r: real)
    requires |s| > 0
    ensures r in s
    ensures forall k :: 0 <= k < |s| ==> s[k] <= r
  {
    if |s| == 1 then s[0]
    else
      var rest := MaxOf(s[1..]);
      if s[0] >= rest then s[0] else rest
  }

  /** A sum of values between `lo` and `hi` lies between N * lo and N * hi. */
  lemma {:induction false} SumBounds(s: seq<real>, lo: real, hi: real)
    requires forall k :: 0 <= k < |s| ==> lo <= s[k] <= hi
    ensures (|s| as real) * lo <= Sum(s) <= (|s| as real) * hi
  {
    if s != [] {
      SumBounds(s[1..], lo, hi);
    }
  }

  /** A mean of values between `lo` and `hi` lies between them. */
  lemma MeanBounds(s: seq<real>, lo: real, hi: real)
    requires |s| > 0
    requires forall k :: 0 <= k < |s| ==> lo <= s[k] <= hi
    ensures lo <= Mean(s) <= hi
  {
    SumBounds(s, lo, hi);
    QuotientBounds(Sum(s), |s| as real, lo, hi);
  }

  /** The mean lies between the smallest and the largest value. */
  lemma MeanWithinRange(s: seq<real>)
    requires |s| > 0
    ensures MinOf(s) <= Mean(s) <= MaxOf(s)
  {
    MeanBounds(s, MinOf(s), MaxOf(s));
  }

  /** Every value of a constant sequence is its mean, and it deviates by nothing. */
  lemma {:induction false} ConstantSums(s: seq<real>, c: real)
    requires forall k :: 0 <= k < |s| ==> s[k] == c
    ensures Sum(s) == (|s| as real) * c
    ensures SumSqDev(s, c) == 0.0
  {
    if s != [] {
      ConstantSums(s[1..], c);
    }
  }

  /** A constant sequence has that constant as mean and, from two values on, variance zero. */
  lemma ConstantStats(s: seq<real>, c: real)
    requires |s| > 0
    requires forall k :: 0 <= k < |s| ==> s[k] == c
    ensures Mean(s) == c
    ensures |s| >= 2 ==> SampleVariance(s) == Some(0.0)
  {
    ConstantSums(s, c);
  }

  /**
   * A sequence that is constant `c` except for one value `v` at position `p`:
   * its sum and its squared deviations from any `m`, in closed form.
   */
  lemma {:induction false} SpikeSums(s: seq<real>, p: nat, c: real, v: real, m: real)
    requires p < |s| && s[p] == v
    requires forall k :: 0 <= k < |s| && k != p ==> s[k] == c
    ensures Sum(s) == ((|s| - 1) as real) * c + v
    ensures SumSqDev(s, m) == ((|s| - 1) as real) * ((c - m) * (c - m)) + (v - m) * (v - m)
  {
    if p == 0 {
      ConstantSums(s[1..], c);
      ConstantSumSqDev(s[1..], c, m);
    } else {
      SpikeSums(s[1..], p - 1, c, v, m);
    }
  }

  /** Squared deviations of a constant sequence from any point. */
  lemma {:induction false} ConstantSumSqDev(s: seq<real>, c: real, m: real)
    requires forall k :: 0 <= k < |s| ==> s[k] == c
    ensures SumSqDev(s, m) == (|s| as real) * ((c - m) * (c - m))
  {
    if s != [] {
      ConstantSumSqDev(s[1..], c, m);
    }
  }

  lemma SquareNonNegative(x: real)
    ensures x * x >= 0.0
  {
    if x < 0.0 {
      assert x * x == (-x) * (-x);
    }
  }

  /** Squaring is strictly monotone on the non-negative reals. */
  lemma SquareMonotone(x: real, y: real)
    requires 0.0 <= x
    ensures x < y ==> x * x < y * y
    ensures x <= y ==> x * x <= y * y
  {
    assert y * y - x * x == (y - x) * (y + x);
    if x < y {
      ProductPositive(y - x, y + x);
    }
  }

  lemma ProductPositive(a: real, b: real)
    requires a > 0.0 && b > 0.0
    ensures a * b > 0.0
  {
  }

  lemma QuotientBounds(a: real, n: real, lo: real, hi: real)
    requires n > 0.0
    requires n * lo <= a <= n * hi
    ensures lo <= a / n <= hi
  {
    var q := a / n;
    assert q * n == a;
    assert (q - lo) * n == a - n * lo;
    assert (hi - q) * n == n * hi - a;
  }

  /**
   * The two-sided band test against a standard deviation `sd`, written as in
   * the source, holds exactly when the squared deviation exceeds four times
   * the variance `sd * sd`; both inequalities are strict.
   */
  lemma BandEquivalence(t: real, m: real, sd: real)
    requires sd >= 0.0
    ensures (t < m - 2.0 * sd || t > m + 2.0 * sd) <==> (t - m) * (t - m) > 4.0 * (sd * sd)
  {
    var d := t - m;
    var a := if d >= 0.0 then d else -d;
    var b := 2.0 * sd;
    assert 4.0 * (sd * sd) == b * b;
    assert d * d == a * a;
    SquareMonotone(b, a);
    SquareMonotone(a, b);
  }
}
