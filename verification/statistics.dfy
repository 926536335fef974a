/** The statistics helpers `calculate_mean` and `calculate_covariance`. */
module Statistics {

  /** Python's `sum` over a list, accumulated left to right. */
  function Sum(s: seq<real>): real
    decreases |s|
  {
    if s == [] then 0.0 else Sum(s[..|s| - 1]) + s[|s| - 1]
  }

  /** Σ x_i·y_i over the pairs of two lists of equal length. */
  function SumOfProducts(x: seq<real>, y: seq<real>): real
    requires |x| == |y|
    decreases |x|
  {
    if x == [] then 0.0
    else SumOfProducts(x[..|x| - 1], y[..|y| - 1]) + x[|x| - 1] * y[|y| - 1]
  }

  /** Σ (x_i - mx)·(y_i - my) over the pairs of zip(x, y). */
  function CenteredProductSum(x: seq<real>, y: seq<real>, mx: real, my: real): real
    requires |x| == |y|
    decreases |x|
  {
    if x == [] then 0.0
    else CenteredProductSum(x[..|x| - 1], y[..|y| - 1], mx, my) + (x[|x| - 1] - mx) * (y[|y| - 1] - my)
  }

  /** The arithmetic mean; 0.0 for an empty list. */
  function Mean(values: seq<real>): (m: real)
    ensures values == [] ==> m == 0.0
  {
    if values == [] then 0.0 else Sum(values) / |values| as real
  }

  /** The population covariance (1/n)·Σ (x_i - mean x)·(y_i - mean y);
      0.0 when the lengths differ or are zero. */
  function Covariance(x: seq<real>, y: seq<real>): (c: real)
    ensures |x| != |y| || |x| == 0 ==> c == 0.0
  {
    if |x| != |y| || |x| == 0 then 0.0
    else CenteredProductSum(x, y, Mean(x), Mean(y)) / |x| as real
  }

  // ---------------------------------------------------------------------
  // Lemmas
  // ---------------------------------------------------------------------

  lemma {:induction false} SumBounds(values: seq<real>, lo: real, hi: real)
    requires forall i :: 0 <= i < |values| ==> lo <= values[i] <= hi
    ensures |values| as real * lo <= Sum(values) <= |values| as real * hi
    decreases |values|
  {
    if values != [] {
      var init := values[..|values| - 1];
      SumBounds(init, lo, hi);
      assert (|init| + 1) as real * lo == |init| as real * lo + lo;
      assert (|init| + 1) as real * hi == |init| as real * hi + hi;
    }
  }

  /** The mean of a non-empty list lies between any lower and upper bound of its elements. */
  lemma MeanWithinBounds(values: seq<real>, lo: real, hi: real)
    requires values != []
    requires forall i :: 0 <= i < |values| ==> lo <= values[i] <= hi
    ensures lo <= Mean(values) <= hi
  {
    SumBounds(values, lo, hi);
    var n := |values| as real;
    var m := Mean(values);
    MeanTimesLength(values);
    ScaleCancel(n, lo, m);
    ScaleCancel(n, m, hi);
  }

  /** Mean × length = sum (both 0.0 for the empty list). */
  lemma MeanTimesLength(values: seq<real>)
    ensures Mean(values) * |values| as real == Sum(values)
  {
  }

  lemma ScaleCancel(n: real, a: real, b: real)
    requires n > 0.0 && n * a <= n * b
    ensures a <= b
  {
  }

  lemma {:induction false} CenteredProductSumSymmetric(x: seq<real>, y: seq<real>, mx: real, my: real)
    requires |x| == |y|
    ensures CenteredProductSum(x, y, mx, my) == CenteredProductSum(y, x, my, mx)
    decreases |x|
  {
    if x != [] {
      CenteredProductSumSymmetric(x[..|x| - 1], y[..|y| - 1], mx, my);
    }
  }

  /** Covariance does not depend on the order of its arguments. */
  lemma CovarianceSymmetric(x: seq<real>, y: seq<real>)
    ensures Covariance(x, y) == Covariance(y, x)
  {
    if |x| == |y| && |x| != 0 {
      CenteredProductSumSymmetric(x, y, Mean(x), Mean(y));
    }
  }

  lemma {:induction false} SumOfSquaresNonNegative(x: seq<real>, m: real)
    ensures CenteredProductSum(x, x, m, m) >= 0.0
    decreases |x|
  {
    if x != [] {
      SumOfSquaresNonNegative(x[..|x| - 1], m);
      var d := x[|x| - 1] - m;
      assert d * d >= 0.0;
    }
  }

  /** The covariance of a list with itself (its variance) is never negative. */
  lemma VarianceNonNegative(x: seq<real>)
    ensures Covariance(x, x) >= 0.0
  {
    if x != [] {
      SumOfSquaresNonNegative(x, Mean(x));
    }
  }

  /** Expanding the centred products: Σ(x-mx)(y-my) = Σxy - my·Σx - mx·Σy + n·mx·my. */
  lemma {:induction false} CenteredProductSumExpanded(x: seq<real>, y: seq<real>, mx: real, my: real)
    requires |x| == |y|
    ensures Expanded(x, y, mx, my)
    decreases |x|
  {
    if x != [] {
      CenteredProductSumExpanded(x[..|x| - 1], y[..|y| - 1], mx, my);
      ExpandedStep(x, y, mx, my);
    }
  }

  /** The expansion identity for the pairs of x and y. */
  ghost predicate Expanded(x: seq<real>, y: seq<real>, mx: real, my: real)
    requires |x| == |y|
  {
    CenteredProductSum(x, y, mx, my) == SumOfProducts(x, y) - my * Sum(x) - mx * Sum(y) + |x| as real * (mx * my)
  }

  /** The expansion identity survives adding one more pair. */
  lemma ExpandedStep(x: seq<real>, y: seq<real>, mx: real, my: real)
    requires |x| == |y| > 0
    requires Expanded(x[..|x| - 1], y[..|y| - 1], mx, my)
    ensures Expanded(x, y, mx, my)
  {
    var x', y' := x[..|x| - 1], y[..|y| - 1];
    LastPair(x, y, mx, my);
    ExpansionStep(CenteredProductSum(x', y', mx, my), SumOfProducts(x', y'), Sum(x'), Sum(y'),
                  |x'| as real, x[|x| - 1], y[|y| - 1], mx, my,
                  CenteredProductSum(x, y, mx, my), SumOfProducts(x, y), Sum(x), Sum(y), |x| as real);
  }

  /** Each of the sums grows by the last pair's term. */
  lemma LastPair(x: seq<real>, y: seq<real>, mx: real, my: real)
    requires |x| == |y| > 0
    ensures var x', y', a, b := x[..|x| - 1], y[..|y| - 1], x[|x| - 1], y[|y| - 1];
      CenteredProductSum(x, y, mx, my) == CenteredProductSum(x', y', mx, my) + (a - mx) * (b - my) &&
      SumOfProducts(x, y) == SumOfProducts(x', y') + a * b &&
      Sum(x) == Sum(x') + a && Sum(y) == Sum(y') + b
  {
    var x', y', a, b := x[..|x| - 1], y[..|y| - 1], x[|x| - 1], y[|y| - 1];
    assert CenteredProductSum(x, y, mx, my) == CenteredProductSum(x', y', mx, my) + (a - mx) * (b - my);
    assert SumOfProducts(x, y) == SumOfProducts(x', y') + a * b;
    assert Sum(x) == Sum(x') + a;
    assert Sum(y) == Sum(y') + b;
  }

  /** The induction step of the expansion, on plain numbers: the old sums
      c, s, sx, sy over n pairs and the new ones C, S, SX, SY after pair (a, b). */
  lemma ExpansionStep(c: real, s: real, sx: real, sy: real, n: real, a: real, b: real, mx: real, my: real,
                      C: real, S: real, SX: real, SY: real, N: real)
    requires c == s - my * sx - mx * sy + n * (mx * my)
    requires C == c + (a - mx) * (b - my) && S == s + a * b && SX == sx + a && SY == sy + b && N == n + 1.0
    ensures C == S - my * SX - mx * SY + N * (mx * my)
  {
    assert (a - mx) * (b - my) == a * b - my * a - mx * b + mx * my;
    assert my * SX == my * sx + my * a;
    assert mx * SY == mx * sy + mx * b;
    assert N * (mx * my) == n * (mx * my) + mx * my;
  }

  /** The shortcut formula: the covariance is the mean of the products minus
      the product of the means. */
  lemma CovarianceShortcut(x: seq<real>, y: seq<real>)
    requires |x| == |y| && |x| > 0
    ensures Covariance(x, y) == SumOfProducts(x, y) / |x| as real - Mean(x) * Mean(y)
  {
    var n, mx, my := |x| as real, Mean(x), Mean(y);
    CenteredProductSumExpanded(x, y, mx, my);
    ShortcutAlgebra(n, mx, my, Sum(x), Sum(y), SumOfProducts(x, y), CenteredProductSum(x, y, mx, my));
  }

  lemma ShortcutAlgebra(n: real, mx: real, my: real, sx: real, sy: real, s: real, c: real)
    requires n > 0.0 && mx == sx / n && my == sy / n
    requires c == s - my * sx - mx * sy + n * (mx * my)
    ensures c / n == s / n - mx * my
  {
    assert mx * n == sx && my * n == sy;
    assert my * sx == n * (mx * my);
    assert mx * sy == n * (mx * my);
    assert c == s - n * (mx * my);
  }
}
