/** Ordinary least squares as `fit_linear_regression` computes it: prepend an
    intercept column of 1.0, build the normal equations (XᵗX)·β = Xᵗy with
    nested loops, and hand them to the linear-system solver. */
module Regression {
  import opened Outcomes
  import opened LinearSystem
  import Statistics

  /** One row of the design matrix: the intercept 1.0 followed by the features. */
  function DesignRow(features: seq<real>): (d: seq<real>)
    ensures |d| == |features| + 1 && d[0] == 1.0 && d[1..] == features
  {
    [1.0] + features
  }

  /** The design matrix: every sample row with the intercept prepended. */
  function Design(X: seq<seq<real>>): (D: seq<seq<real>>)
    ensures |D| == |X|
    ensures forall k :: 0 <= k < |X| ==> D[k] == DesignRow(X[k])
  {
    seq(|X|, k requires 0 <= k < |X| => DesignRow(X[k]))
  }

  /** The shapes under which the fit indexes nothing out of range: a first
      row exists (its length is the feature count p), there are no more
      targets than rows, and each of the first |y| rows has at least p features. */
  ghost predicate FitShapeOk(X: seq<seq<real>>, y: seq<real>)
  {
    |X| > 0 && |y| <= |X| && forall k :: 0 <= k < |y| ==> |X[k]| >= |X[0]|
  }

  /** Σ_{k < n} D[k][u]·D[k][v]: entry (u, v) of XᵗX over the first n design rows. */
  function CrossSum(D: seq<seq<real>>, u: nat, v: nat, n: nat): real
    requires n <= |D| && forall k :: 0 <= k < n ==> u < |D[k]| && v < |D[k]|
  {
    if n == 0 then 0.0 else CrossSum(D, u, v, n - 1) + D[n - 1][u] * D[n - 1][v]
  }

  /** Σ_{k < n} D[k][u]·y[k]: entry u of Xᵗy over the first n design rows. */
  function TargetSum(D: seq<seq<real>>, y: seq<real>, u: nat, n: nat): real
    requires n <= |D| && n <= |y| && forall k :: 0 <= k < n ==> u < |D[k]|
  {
    if n == 0 then 0.0 else TargetSum(D, y, u, n - 1) + D[n - 1][u] * y[n - 1]
  }

  /** Row u of XᵗX over the first n design rows, for width columns. */
  function GramRow(D: seq<seq<real>>, u: nat, n: nat, width: nat): (g: seq<real>)
    requires u < width && n <= |D| && forall k :: 0 <= k < n ==> width <= |D[k]|
    ensures |g| == width
  {
    seq(width, v requires 0 <= v < width => CrossSum(D, u, v, n))
  }

  /** The normal-equations matrix XᵗX, (p + 1) × (p + 1). */
  function NormalMatrix(X: seq<seq<real>>, y: seq<real>): (G: seq<seq<real>>)
    requires FitShapeOk(X, y)
    ensures IsMatrix(G, |X[0]| + 1, |X[0]| + 1)
  {
    var p1 := |X[0]| + 1;
    seq(p1, u requires 0 <= u < p1 => GramRow(Design(X), u, |y|, p1))
  }

  /** The normal-equations vector Xᵗy, of length p + 1. */
  function NormalVector(X: seq<seq<real>>, y: seq<real>): (c: seq<real>)
    requires FitShapeOk(X, y)
    ensures |c| == |X[0]| + 1
  {
    var p1 := |X[0]| + 1;
    seq(p1, u requires 0 <= u < p1 => TargetSum(Design(X), y, u, |y|))
  }

  /** beta solves the normal equations (XᵗX)·beta = Xᵗy. */
  ghost predicate NormalEquations(X: seq<seq<real>>, y: seq<real>, beta: seq<real>)
    requires FitShapeOk(X, y)
  {
    Solves(NormalMatrix(X, y), NormalVector(X, y), beta)
  }

  /** beta reproduces every target exactly: y[k] = beta[0] + Σ_j beta[j+1]·X[k][j]. */
  ghost predicate ExactlyFits(X: seq<seq<real>>, y: seq<real>, beta: seq<real>)
    requires FitShapeOk(X, y)
  {
    |beta| == |X[0]| + 1 &&
    forall k :: 0 <= k < |y| ==> PartialDot(DesignRow(X[k]), beta, 0, |beta|) == y[k]
  }

  /** beta solves the triangular system that elimination of the normal
      equations [XᵗX | Xᵗy] produces, floored pivots included: what the
      solver's result is pinned to whether or not a pivot is floored. */
  ghost predicate SolvesEliminatedNormalSystem(X: seq<seq<real>>, y: seq<real>, beta: seq<real>)
    requires FitShapeOk(X, y)
  {
    |beta| == |X[0]| + 1 && TriangularSolved(EliminatedNormalSystem(X, y), beta)
  }

  /** [XᵗX | Xᵗy] after every step of forward elimination. */
  ghost function EliminatedNormalSystem(X: seq<seq<real>>, y: seq<real>): (U: seq<seq<real>>)
    requires FitShapeOk(X, y)
    ensures IsMatrix(U, |X[0]| + 1, |X[0]| + 2)
  {
    var p1 := |X[0]| + 1;
    Eliminated(Augment(NormalMatrix(X, y), NormalVector(X, y)), p1, p1)
  }

  /** Solving the normal equations of (X, y) floors some pivot at 1e-10. */
  ghost predicate PivotFloored(X: seq<seq<real>>, y: seq<real>)
    requires FitShapeOk(X, y)
  {
    var p1 := |X[0]| + 1;
    Floored(Augment(NormalMatrix(X, y), NormalVector(X, y)), p1, p1)
  }

  /** The nested loops of fit_linear_regression that fill XᵗX entry by
      entry: entry (u, v) becomes Σ_{k < n} D[k][u]·D[k][v]. */
  method GramMatrix(D: seq<seq<real>>, n: nat, p1: nat) returns (XtX: seq<seq<real>>)
    requires n <= |D| && forall k :: 0 <= k < n ==> p1 <= |D[k]|
    ensures |XtX| == p1
    ensures forall u :: 0 <= u < p1 ==> XtX[u] == GramRow(D, u, n, p1)
  {
    XtX := seq(p1, _ => seq(p1, _ => 0.0));
    for i := 0 to p1
      invariant IsMatrix(XtX, p1, p1)
      invariant forall u, v :: 0 <= u < i && 0 <= v < p1 ==> XtX[u][v] == CrossSum(D, u, v, n)
    {
      for j := 0 to p1
        invariant IsMatrix(XtX, p1, p1)
        invariant forall u, v :: 0 <= u < i && 0 <= v < p1 ==> XtX[u][v] == CrossSum(D, u, v, n)
        invariant forall v :: 0 <= v < j ==> XtX[i][v] == CrossSum(D, i, v, n)
      {
        XtX := XtX[i := XtX[i][j := CrossSum(D, i, j, n)]];
      }
    }
    forall u | 0 <= u < p1 ensures XtX[u] == GramRow(D, u, n, p1) {
      assert forall v :: 0 <= v < p1 ==> XtX[u][v] == GramRow(D, u, n, p1)[v];
    }
  }

  /** fit_linear_regression. The Python code raises IndexError when X is
      empty, when there are more targets than rows, or when a row used is
      shorter than the first; otherwise it returns p + 1 coefficients that,
      unless solving the normal equations floors a pivot, are their unique
      solution, and so are the exact coefficients whenever the data lie
      exactly on a hyperplane. */
  method FitLinearRegression(X: seq<seq<real>>, y: seq<real>) returns (r: Result<seq<real>>)
    ensures r.Success? <==> FitShapeOk(X, y)
    ensures r.Failure? ==> r.error == IndexError
    ensures r.Success? ==> |r.value| == |X[0]| + 1
    ensures r.Success? ==> SolvesEliminatedNormalSystem(X, y, r.value)
    ensures r.Success? && !PivotFloored(X, y) ==> NormalEquations(X, y, r.value)
    ensures r.Success? && !PivotFloored(X, y) ==> forall beta :: NormalEquations(X, y, beta) ==> beta == r.value
    ensures r.Success? && !PivotFloored(X, y) ==> forall beta :: ExactlyFits(X, y, beta) ==> beta == r.value
  {
    var n := |y|;
    if |X| == 0 {
      return Failure(IndexError);
    }
    var p := |X[0]|;
    // The loops below would index past the end of X or of a short row; the
    // Python code raises IndexError there, before any result exists.
    if n > |X| || exists k :: 0 <= k < n && |X[k]| < p {
      return Failure(IndexError);
    }
    var beta := SolveNormalEquations(X, y);
    r := Success(beta);
  }

  /** The part of fit_linear_regression after the shape checks: fill XᵗX and
      Xᵗy, then solve. Unless a pivot is floored, the result is the unique
      solution of the normal equations and the unique exact fit, if any. */
  method SolveNormalEquations(X: seq<seq<real>>, y: seq<real>) returns (beta: seq<real>)
    requires FitShapeOk(X, y)
    ensures |beta| == |X[0]| + 1
    ensures SolvesEliminatedNormalSystem(X, y, beta)
    ensures !PivotFloored(X, y) ==> NormalEquations(X, y, beta)
    ensures !PivotFloored(X, y) ==> forall b :: NormalEquations(X, y, b) ==> b == beta
    ensures !PivotFloored(X, y) ==> forall b :: ExactlyFits(X, y, b) ==> b == beta
  {
    var n, p1, design := |y|, |X[0]| + 1, Design(X);
    var XtX := GramMatrix(design, n, p1);
    assert XtX == NormalMatrix(X, y) by {
      forall u | 0 <= u < p1 ensures XtX[u] == NormalMatrix(X, y)[u] {
      }
    }
    var Xty := seq(p1, u requires 0 <= u < p1 => TargetSum(design, y, u, n));
    assert Xty == NormalVector(X, y);
    beta := Solve(XtX, Xty);
    if !PivotFloored(X, y) {
      forall b | ExactlyFits(X, y, b) ensures b == beta {
        ExactDataSolvesNormalEquations(X, y, b);
      }
    }
  }

  // ---------------------------------------------------------------------
  // Properties of the normal equations
  // ---------------------------------------------------------------------

  lemma {:induction false} CrossSumSymmetric(D: seq<seq<real>>, u: nat, v: nat, n: nat)
    requires n <= |D| && forall k :: 0 <= k < n ==> u < |D[k]| && v < |D[k]|
    ensures CrossSum(D, u, v, n) == CrossSum(D, v, u, n)
  {
    if n > 0 {
      CrossSumSymmetric(D, u, v, n - 1);
    }
  }

  /** XᵗX is symmetric. */
  lemma NormalMatrixSymmetric(X: seq<seq<real>>, y: seq<real>)
    requires FitShapeOk(X, y)
    ensures forall u, v :: 0 <= u <= |X[0]| && 0 <= v <= |X[0]| ==>
      NormalMatrix(X, y)[u][v] == NormalMatrix(X, y)[v][u]
  {
    forall u, v | 0 <= u <= |X[0]| && 0 <= v <= |X[0]|
      ensures NormalMatrix(X, y)[u][v] == NormalMatrix(X, y)[v][u]
    {
      CrossSumSymmetric(Design(X), u, v, |y|);
    }
  }

  lemma {:induction false} InterceptCrossSum(D: seq<seq<real>>, n: nat)
    requires n <= |D| && forall k :: 0 <= k < n ==> 0 < |D[k]| && D[k][0] == 1.0
    ensures CrossSum(D, 0, 0, n) == n as real
  {
    if n > 0 {
      InterceptCrossSum(D, n - 1);
    }
  }

  /** The intercept corner of XᵗX counts the samples: XᵗX[0][0] = n. */
  lemma NormalMatrixCorner(X: seq<seq<real>>, y: seq<real>)
    requires FitShapeOk(X, y)
    ensures NormalMatrix(X, y)[0][0] == |y| as real
  {
    InterceptCrossSum(Design(X), |y|);
  }

  lemma {:induction false} InterceptTargetSum(D: seq<seq<real>>, y: seq<real>, n: nat)
    requires n <= |D| && n <= |y| && forall k :: 0 <= k < n ==> 0 < |D[k]| && D[k][0] == 1.0
    ensures TargetSum(D, y, 0, n) == Statistics.Sum(y[..n])
  {
    if n > 0 {
      InterceptTargetSum(D, y, n - 1);
      assert y[..n][..n - 1] == y[..n - 1];
    }
  }

  /** The intercept entry of Xᵗy is the sum of the targets: Xᵗy[0] = Σ y. */
  lemma NormalVectorHead(X: seq<seq<real>>, y: seq<real>)
    requires FitShapeOk(X, y)
    ensures NormalVector(X, y)[0] == Statistics.Sum(y)
  {
    InterceptTargetSum(Design(X), y, |y|);
    assert y[..|y|] == y;
  }

  /** Σ_{k < m} D[k][u]·(D[k]·beta): what row u of XᵗX times beta adds up to. */
  ghost function FittedSum(D: seq<seq<real>>, beta: seq<real>, u: nat, m: nat): real
    requires u < |beta| && m <= |D| && forall k :: 0 <= k < m ==> |beta| <= |D[k]|
  {
    if m == 0 then 0.0 else FittedSum(D, beta, u, m - 1) + D[m - 1][u] * PartialDot(D[m - 1], beta, 0, |beta|)
  }

  /** Σ_{j < hi} XᵗX[u][j]·beta[j], over the first m design rows. */
  ghost function GramDot(D: seq<seq<real>>, beta: seq<real>, u: nat, m: nat, hi: nat): real
    requires u < |beta| && hi <= |beta| && m <= |D| && forall k :: 0 <= k < m ==> |beta| <= |D[k]|
  {
    if hi == 0 then 0.0 else GramDot(D, beta, u, m, hi - 1) + CrossSum(D, u, hi - 1, m) * beta[hi - 1]
  }

  /** GramDot is row u of XᵗX times beta. */
  lemma {:induction false} GramDotIsRowProduct(D: seq<seq<real>>, beta: seq<real>, u: nat, m: nat, hi: nat)
    requires u < |beta| && hi <= |beta| && m <= |D| && forall k :: 0 <= k < m ==> |beta| <= |D[k]|
    ensures PartialDot(GramRow(D, u, m, |beta|), beta, 0, hi) == GramDot(D, beta, u, m, hi)
  {
    if hi > 0 {
      GramDotIsRowProduct(D, beta, u, m, hi - 1);
      assert GramRow(D, u, m, |beta|)[hi - 1] == CrossSum(D, u, hi - 1, m);
    }
  }

  /** With no design rows every entry of XᵗX is 0, and so is GramDot. */
  lemma {:induction false} GramDotEmpty(D: seq<seq<real>>, beta: seq<real>, u: nat, hi: nat)
    requires u < |beta| && hi <= |beta|
    ensures GramDot(D, beta, u, 0, hi) == 0.0
  {
    if hi > 0 {
      GramDotEmpty(D, beta, u, hi - 1);
    }
  }

  /** Adding design row m - 1 adds D[m-1][u]·(D[m-1]·beta) to row u of XᵗX times beta. */
  lemma {:induction false} GramDotGrows(D: seq<seq<real>>, beta: seq<real>, u: nat, m: nat, hi: nat)
    requires u < |beta| && hi <= |beta| && 0 < m <= |D| && forall k :: 0 <= k < m ==> |beta| <= |D[k]|
    ensures GramDot(D, beta, u, m, hi) ==
      GramDot(D, beta, u, m - 1, hi) + D[m - 1][u] * PartialDot(D[m - 1], beta, 0, hi)
  {
    if hi > 0 {
      GramDotGrows(D, beta, u, m, hi - 1);
      var j, row := hi - 1, D[m - 1];
      DistributeTerm(CrossSum(D, u, j, m), CrossSum(D, u, j, m - 1), row[u], row[j], beta[j]);
    }
  }

  /** (c₀ + f·r)·b = c₀·b + f·(r·b). */
  lemma DistributeTerm(c: real, c0: real, f: real, r: real, b: real)
    requires c == c0 + f * r
    ensures c * b == c0 * b + f * (r * b)
  {
  }

  /** Row u of XᵗX times beta is Σ_k D[k][u]·(D[k]·beta). */
  lemma {:induction false} GramRowTimes(D: seq<seq<real>>, beta: seq<real>, u: nat, m: nat)
    requires u < |beta| && m <= |D| && forall k :: 0 <= k < m ==> |beta| <= |D[k]|
    ensures GramDot(D, beta, u, m, |beta|) == FittedSum(D, beta, u, m)
  {
    if m == 0 {
      GramDotEmpty(D, beta, u, |beta|);
    } else {
      GramRowTimes(D, beta, u, m - 1);
      GramDotGrows(D, beta, u, m, |beta|);
    }
  }

  /** When every D[k]·beta equals y[k], Σ_k D[k][u]·(D[k]·beta) is entry u of Xᵗy. */
  lemma {:induction false} FittedSumIsTargetSum(D: seq<seq<real>>, y: seq<real>, beta: seq<real>, u: nat, m: nat)
    requires u < |beta| && m <= |D| && m <= |y|
    requires forall k :: 0 <= k < m ==> |beta| <= |D[k]|
    requires forall k {:trigger PartialDot(D[k], beta, 0, |beta|)} :: 0 <= k < m ==> PartialDot(D[k], beta, 0, |beta|) == y[k]
    ensures FittedSum(D, beta, u, m) == TargetSum(D, y, u, m)
  {
    if m > 0 {
      FittedSumIsTargetSum(D, y, beta, u, m - 1);
      assert PartialDot(D[m - 1], beta, 0, |beta|) == y[m - 1];
    }
  }

  /** Data lying exactly on a hyperplane: its coefficients solve the normal equations. */
  lemma ExactDataSolvesNormalEquations(X: seq<seq<real>>, y: seq<real>, beta: seq<real>)
    requires FitShapeOk(X, y) && ExactlyFits(X, y, beta)
    ensures NormalEquations(X, y, beta)
  {
    var G, c := NormalMatrix(X, y), NormalVector(X, y);
    forall u | 0 <= u < |beta| ensures PartialDot(G[u], beta, 0, |beta|) == c[u] {
      GramDotIsRowProduct(Design(X), beta, u, |y|, |beta|);
      GramRowTimes(Design(X), beta, u, |y|);
      FittedSumIsTargetSum(Design(X), y, beta, u, |y|);
    }
  }

  /** A normal-equations matrix that is diagonal with entries of at least
      1e-10 floors no pivot, so the fit is then the unique solution. */
  lemma DiagonalNormalMatrixNotFloored(X: seq<seq<real>>, y: seq<real>)
    requires FitShapeOk(X, y)
    requires forall u, v :: 0 <= u <= |X[0]| && 0 <= v <= |X[0]| && u != v ==> NormalMatrix(X, y)[u][v] == 0.0
    requires forall u :: 0 <= u <= |X[0]| ==> NormalMatrix(X, y)[u][u] >= PivotFloor
    ensures !PivotFloored(X, y)
  {
    TriangularInputNotFloored(NormalMatrix(X, y), NormalVector(X, y));
  }

  /** Two samples of one feature at +1 and -1: XᵗX is 2·I, so no pivot is
      floored and the fit is the unique solution of the normal equations. */
  lemma BalancedSamplesNotFloored(y: seq<real>)
    requires |y| == 2
    ensures FitShapeOk([[1.0], [-1.0]], y) && !PivotFloored([[1.0], [-1.0]], y)
  {
    var X := [[1.0], [-1.0]];
    var D := Design(X);
    assert D[0] == [1.0, 1.0] && D[1] == [1.0, -1.0];
    forall u, v | 0 <= u < 2 && 0 <= v < 2
      ensures CrossSum(D, u, v, 2) == D[0][u] * D[0][v] + D[1][u] * D[1][v]
    {
      assert CrossSum(D, u, v, 1) == CrossSum(D, u, v, 0) + D[0][u] * D[0][v];
    }
    DiagonalNormalMatrixNotFloored(X, y);
  }
}
