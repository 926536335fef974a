/** Dense linear-system solve by Gaussian elimination with partial pivoting
    and a fixed pivot floor, as `solve_linear_system` does it. Numbers are
    reals, so elimination is exact; the matrix being eliminated is a local
    list of rows that the methods below reassign step by step. */
module LinearSystem {

  /** The regularisation floor 1e-10: a pivot of smaller magnitude is replaced by it. */
  const PivotFloor: real := 0.0000000001

  function Abs(v: real): real
  {
    if v < 0.0 then -v else v
  }

  /** The sum of row[j] * x[j] for lo <= j < hi, accumulated left to right. */
  function PartialDot(row: seq<real>, x: seq<real>, lo: nat, hi: nat): real
    requires lo <= hi <= |row| && hi <= |x|
    decreases hi - lo
  {
    if lo == hi then 0.0 else PartialDot(row, x, lo, hi - 1) + row[hi - 1] * x[hi - 1]
  }

  ghost predicate IsMatrix(M: seq<seq<real>>, rows: nat, cols: nat)
  {
    |M| == rows && forall r :: 0 <= r < rows ==> |M[r]| == cols
  }

  /** x solves the square system A·x = b. */
  ghost predicate Solves(A: seq<seq<real>>, b: seq<real>, x: seq<real>)
  {
    |A| == |b| == |x| &&
    forall r :: 0 <= r < |A| ==> |A[r]| == |x| && PartialDot(A[r], x, 0, |x|) == b[r]
  }

  /** x satisfies one row [a_0 .. a_{n-1} | c] of an augmented system: Σ a_j·x_j = c. */
  ghost predicate RowHolds(row: seq<real>, x: seq<real>)
  {
    |row| == |x| + 1 && PartialDot(row, x, 0, |x|) == row[|x|]
  }

  /** x satisfies every row of the augmented system M. */
  ghost predicate Satisfies(M: seq<seq<real>>, x: seq<real>)
  {
    forall r :: 0 <= r < |M| ==> RowHolds(M[r], x)
  }

  /** The augmented systems M and N over n unknowns have the same solutions. */
  ghost predicate Equivalent(M: seq<seq<real>>, N: seq<seq<real>>, n: nat)
  {
    forall x :: |x| == n ==> (Satisfies(M, x) <==> Satisfies(N, x))
  }

  lemma EquivalentTransitive(A: seq<seq<real>>, B: seq<seq<real>>, C: seq<seq<real>>, n: nat)
    requires Equivalent(A, B, n) && Equivalent(B, C, n)
    ensures Equivalent(A, C, n)
  {
  }

  /** Entries below the diagonal in the first `cols` columns are zero. */
  ghost predicate ZeroBelowDiagonal(M: seq<seq<real>>, n: nat, cols: nat)
    requires IsMatrix(M, n, n + 1) && cols <= n
  {
    forall r, c :: 0 <= c < cols && c < r < n ==> M[r][c] == 0.0
  }

  ghost predicate UpperTriangular(U: seq<seq<real>>, n: nat)
    requires IsMatrix(U, n, n + 1)
  {
    ZeroBelowDiagonal(U, n, n)
  }

  /** The back-substitution equations Σ_{j >= r} U[r][j]·x[j] = U[r][n], one per row. */
  ghost predicate TriangularSolved(U: seq<seq<real>>, x: seq<real>)
    requires IsMatrix(U, |x|, |x| + 1)
  {
    forall r :: 0 <= r < |x| ==> PartialDot(U[r], x, r, |x|) == U[r][|x|]
  }

  // ---------------------------------------------------------------------
  // Facts about PartialDot
  // ---------------------------------------------------------------------

  /** Two dot products that agree term by term are equal. */
  lemma {:induction false} DotCongruent(r1: seq<real>, x1: seq<real>, r2: seq<real>, x2: seq<real>, lo: nat, hi: nat)
    requires lo <= hi <= |r1| && hi <= |x1| && hi <= |r2| && hi <= |x2|
    requires forall j :: lo <= j < hi ==> r1[j] == r2[j] && x1[j] == x2[j]
    ensures PartialDot(r1, x1, lo, hi) == PartialDot(r2, x2, lo, hi)
    decreases hi - lo
  {
    if lo < hi {
      DotCongruent(r1, x1, r2, x2, lo, hi - 1);
    }
  }

  /** A dot product splits at any middle index. */
  lemma {:induction false} DotSplit(row: seq<real>, x: seq<real>, lo: nat, mid: nat, hi: nat)
    requires lo <= mid <= hi <= |row| && hi <= |x|
    ensures PartialDot(row, x, lo, hi) == PartialDot(row, x, lo, mid) + PartialDot(row, x, mid, hi)
    decreases hi - mid
  {
    if mid < hi {
      DotSplit(row, x, lo, mid, hi - 1);
    }
  }

  /** A row that is zero on [lo, hi) contributes nothing there. */
  lemma {:induction false} DotOfZeros(row: seq<real>, x: seq<real>, lo: nat, hi: nat)
    requires lo <= hi <= |row| && hi <= |x|
    requires forall j :: lo <= j < hi ==> row[j] == 0.0
    ensures PartialDot(row, x, lo, hi) == 0.0
    decreases hi - lo
  {
    if lo < hi {
      DotOfZeros(row, x, lo, hi - 1);
    }
  }

  /** The dot product is linear in the row: (u - f·v)·x = u·x - f·(v·x). */
  lemma {:induction false} DotCombination(w: seq<real>, u: seq<real>, v: seq<real>, f: real, x: seq<real>, lo: nat, hi: nat)
    requires lo <= hi <= |w| && hi <= |u| && hi <= |v| && hi <= |x|
    requires forall j :: lo <= j < hi ==> w[j] == u[j] - f * v[j]
    ensures PartialDot(w, x, lo, hi) == PartialDot(u, x, lo, hi) - f * PartialDot(v, x, lo, hi)
    decreases hi - lo
  {
    if lo < hi {
      DotCombination(w, u, v, f, x, lo, hi - 1);
      var j := hi - 1;
      assert w[j] * x[j] == u[j] * x[j] - f * (v[j] * x[j]);
    }
  }

  /** Replacing row k by row k minus f times row i (i != k) keeps the solution set. */
  lemma RowReplacementEquivalent(M: seq<seq<real>>, i: nat, k: nat, w: seq<real>, f: real, x: seq<real>)
    requires i < |M| && k < |M| && i != k
    requires |M[i]| == |M[k]| == |w| == |x| + 1
    requires forall j :: 0 <= j <= |x| ==> w[j] == M[k][j] - f * M[i][j]
    ensures Satisfies(M[k := w], x) <==> Satisfies(M, x)
  {
    var n := |x|;
    DotCombination(w, M[k], M[i], f, x, 0, n);
    var M' := M[k := w];
    if Satisfies(M', x) {
      assert RowHolds(M'[i], x) && RowHolds(M'[k], x);
      forall r | 0 <= r < |M| ensures RowHolds(M[r], x) {
        if r != k { assert RowHolds(M'[r], x); }
      }
    }
    if Satisfies(M, x) {
      assert RowHolds(M[i], x) && RowHolds(M[k], x);
      forall r | 0 <= r < |M'| ensures RowHolds(M'[r], x) {
        if r != k { assert RowHolds(M[r], x); }
      }
    }
  }

  /** Exchanging two rows keeps the solution set. */
  lemma SwapEquivalent(M: seq<seq<real>>, i: nat, m: nat, x: seq<real>)
    requires i < |M| && m < |M|
    ensures Satisfies(M[i := M[m]][m := M[i]], x) <==> Satisfies(M, x)
  {
    var S := M[i := M[m]][m := M[i]];
    if Satisfies(S, x) {
      forall r | 0 <= r < |M| ensures RowHolds(M[r], x) {
        if r == i { assert M[r] == S[m]; }
        else if r == m { assert M[r] == S[i]; }
        else { assert M[r] == S[r]; }
      }
    }
    if Satisfies(M, x) {
      forall r | 0 <= r < |S| ensures RowHolds(S[r], x) {
        if r == m { assert S[r] == M[i]; }
        else if r == i { assert S[r] == M[m]; }
        else { assert S[r] == M[r]; }
      }
    }
  }

  /** In an upper-triangular system row r's full equation is its back-substitution equation. */
  lemma TriangularRow(U: seq<seq<real>>, n: nat, x: seq<real>, r: nat)
    requires IsMatrix(U, n, n + 1) && UpperTriangular(U, n) && |x| == n && r < n
    ensures RowHolds(U[r], x) <==> PartialDot(U[r], x, r, n) == U[r][n]
  {
    DotSplit(U[r], x, 0, r, n);
    DotOfZeros(U[r], x, 0, r);
  }

  /** In a row with a non-zero leading entry at r, the entries of two solutions
      after r being equal forces the entries at r to be equal. */
  lemma LeadingEntryDetermined(row: seq<real>, x: seq<real>, y: seq<real>, r: nat, n: nat)
    requires r < n <= |row| && n <= |x| && n <= |y| && row[r] != 0.0
    requires forall t :: r < t < n ==> x[t] == y[t]
    requires PartialDot(row, x, r, n) == PartialDot(row, y, r, n)
    ensures x[r] == y[r]
  {
    DotSplit(row, x, r, r + 1, n);
    DotSplit(row, y, r, r + 1, n);
    DotCongruent(row, x, row, y, r + 1, n);
    DotSingle(row, x, r);
    DotSingle(row, y, r);
    CancelFactor(row[r], x[r], y[r]);
  }

  lemma DotSingle(row: seq<real>, x: seq<real>, r: nat)
    requires r < |row| && r < |x|
    ensures PartialDot(row, x, r, r + 1) == row[r] * x[r]
  {
    assert PartialDot(row, x, r, r) == 0.0;
  }

  lemma CancelFactor(d: real, a: real, b: real)
    requires d != 0.0 && d * a == d * b
    ensures a == b
  {
  }

  /** An upper-triangular system with a non-zero diagonal has at most one solution. */
  lemma {:induction false} TriangularUnique(U: seq<seq<real>>, x: seq<real>, y: seq<real>, r: nat)
    requires IsMatrix(U, |x|, |x| + 1) && |y| == |x| && r <= |x|
    requires forall t :: 0 <= t < |x| ==> U[t][t] != 0.0
    requires TriangularSolved(U, x) && TriangularSolved(U, y)
    ensures forall t :: r <= t < |x| ==> x[t] == y[t]
    decreases |x| - r
  {
    var n := |x|;
    if r < n {
      TriangularUnique(U, x, y, r + 1);
      LeadingEntryDetermined(U[r], x, y, r, n);
    }
  }

  // ---------------------------------------------------------------------
  // The algorithm
  // ---------------------------------------------------------------------

  /** The augmented matrix [A | b]: row i is a copy of A[i] followed by b[i]. */
  function Augment(A: seq<seq<real>>, b: seq<real>): (M: seq<seq<real>>)
    requires IsMatrix(A, |b|, |b|)
    ensures IsMatrix(M, |b|, |b| + 1)
    ensures forall r, c :: 0 <= r < |b| && 0 <= c < |b| ==> M[r][c] == A[r][c]
    ensures forall r :: 0 <= r < |b| ==> M[r][|b|] == b[r]
  {
    seq(|b|, r requires 0 <= r < |b| => A[r] + [b[r]])
  }

  /** x solves the augmented system exactly when it solves A·x = b. */
  lemma AugmentedSystem(A: seq<seq<real>>, b: seq<real>, x: seq<real>)
    requires IsMatrix(A, |b|, |b|) && |x| == |b|
    ensures Satisfies(Augment(A, b), x) <==> Solves(A, b, x)
  {
    var M := Augment(A, b);
    forall r | 0 <= r < |b|
      ensures PartialDot(M[r], x, 0, |x|) == PartialDot(A[r], x, 0, |x|)
    {
      DotCongruent(M[r], x, A[r], x, 0, |x|);
    }
  }

  // ---------------------------------------------------------------------
  // Forward elimination as functions of the input
  // ---------------------------------------------------------------------

  /** The row the pivot search holds after looking at rows i..k-1 of column
      i: a later row replaces the choice only when its entry is strictly
      larger in magnitude. */
  ghost function PivotScan(M: seq<seq<real>>, n: nat, i: nat, k: nat): (m: nat)
    requires IsMatrix(M, n, n + 1) && i < k <= n
    ensures i <= m < k
    decreases k
  {
    if k == i + 1 then i
    else
      var m := PivotScan(M, n, i, k - 1);
      if Abs(M[k - 1][i]) > Abs(M[m][i]) then k - 1 else m
  }

  /** Step i before elimination: row i exchanged with the pivot row, and a
      pivot smaller than 1e-10 in magnitude replaced by +1e-10. */
  ghost function Pivoted(M: seq<seq<real>>, n: nat, i: nat): (P: seq<seq<real>>)
    requires IsMatrix(M, n, n + 1) && i < n
    ensures IsMatrix(P, n, n + 1) && Abs(P[i][i]) >= PivotFloor
  {
    var m := PivotScan(M, n, i, n);
    var S := M[i := M[m]][m := M[i]];
    if Abs(S[i][i]) < PivotFloor then S[i := S[i][i := PivotFloor]] else S
  }

  /** Step i floors its pivot: the entry the pivot search picks is below 1e-10 in magnitude. */
  ghost predicate FlooredAt(M: seq<seq<real>>, n: nat, i: nat)
    requires IsMatrix(M, n, n + 1) && i < n
  {
    Abs(M[PivotScan(M, n, i, n)][i]) < PivotFloor
  }

  /** row - factor·pivotRow in the columns from..end; the earlier columns as they were. */
  ghost function ReducedRow(row: seq<real>, pivotRow: seq<real>, factor: real, from: nat): (r: seq<real>)
    requires |pivotRow| == |row| && from <= |row|
    ensures |r| == |row|
  {
    seq(|row|, c requires 0 <= c < |row| => if c < from then row[c] else row[c] - factor * pivotRow[c])
  }

  /** Step i after pivoting: every row k below the pivot reduced by
      (P[k][i] / P[i][i]) times the pivot row, from column i on. */
  ghost function Cleared(P: seq<seq<real>>, n: nat, i: nat): (E: seq<seq<real>>)
    requires IsMatrix(P, n, n + 1) && i < n && P[i][i] != 0.0
    ensures IsMatrix(E, n, n + 1)
  {
    seq(n, r requires 0 <= r < n => if r <= i then P[r] else ReducedRow(P[r], P[i], P[r][i] / P[i][i], i))
  }

  /** The augmented matrix after the first k steps of forward elimination. */
  ghost function Eliminated(M: seq<seq<real>>, n: nat, k: nat): (U: seq<seq<real>>)
    requires IsMatrix(M, n, n + 1) && k <= n
    ensures IsMatrix(U, n, n + 1)
    decreases k
  {
    if k == 0 then M else Cleared(Pivoted(Eliminated(M, n, k - 1), n, k - 1), n, k - 1)
  }

  /** U is the matrix after the first i steps, with what those steps
      guarantee: columns 0..i-1 zero below the diagonal, the first i pivots
      at least 1e-10 in magnitude, and, while no pivot has been floored, the
      solutions of M. */
  ghost predicate EliminatedSoFar(M: seq<seq<real>>, U: seq<seq<real>>, n: nat, i: nat)
  {
    IsMatrix(M, n, n + 1) && i <= n && U == Eliminated(M, n, i) &&
    ZeroBelowDiagonal(U, n, i) &&
    (forall r :: 0 <= r < i ==> Abs(U[r][r]) >= PivotFloor) &&
    (!Floored(M, n, i) ==> Equivalent(U, M, n))
  }

  /** Some step among the first k floors its pivot. */
  ghost predicate Floored(M: seq<seq<real>>, n: nat, k: nat)
    requires IsMatrix(M, n, n + 1) && k <= n
    decreases k
  {
    k > 0 && (Floored(M, n, k - 1) || FlooredAt(Eliminated(M, n, k - 1), n, k - 1))
  }

  /** Partial pivoting: the row in i..n-1 whose entry in column i is largest in
      magnitude; on a tie the earliest such row, because only a strictly larger
      entry replaces the current choice. */
  method FindPivot(M: seq<seq<real>>, n: nat, i: nat) returns (maxRow: nat)
    requires IsMatrix(M, n, n + 1) && i < n
    ensures i <= maxRow < n
    ensures forall k :: i <= k < n ==> Abs(M[k][i]) <= Abs(M[maxRow][i])
    ensures forall k :: i <= k < maxRow ==> Abs(M[k][i]) < Abs(M[maxRow][i])
    ensures maxRow == PivotScan(M, n, i, n)
  {
    maxRow := i;
    for k := i + 1 to n
      invariant i <= maxRow < k
      invariant maxRow == PivotScan(M, n, i, k)
      invariant forall t :: i <= t < k ==> Abs(M[t][i]) <= Abs(M[maxRow][i])
      invariant forall t :: i <= t < maxRow ==> Abs(M[t][i]) < Abs(M[maxRow][i])
    {
      if Abs(M[k][i]) > Abs(M[maxRow][i]) {
        maxRow := k;
      }
    }
  }

  /** Subtracts factor times the pivot row from a row, in columns from..end. */
  method SubtractScaledRow(row: seq<real>, pivotRow: seq<real>, factor: real, from: nat) returns (r: seq<real>)
    requires |pivotRow| == |row| && from <= |row|
    ensures |r| == |row|
    ensures forall c :: 0 <= c < from ==> r[c] == row[c]
    ensures forall c :: from <= c < |row| ==> r[c] == row[c] - factor * pivotRow[c]
    ensures r == ReducedRow(row, pivotRow, factor, from)
  {
    r := row;
    for j := from to |row|
      invariant |r| == |row|
      invariant forall c :: 0 <= c < from ==> r[c] == row[c]
      invariant forall c :: from <= c < j ==> r[c] == row[c] - factor * pivotRow[c]
      invariant forall c :: j <= c < |row| ==> r[c] == row[c]
    {
      r := r[j := r[j] - factor * pivotRow[j]];
    }
    assert forall c :: 0 <= c < |row| ==> r[c] == ReducedRow(row, pivotRow, factor, from)[c];
  }

  /** One iteration of the elimination loop: row k loses factor times the
      pivot row, which zeroes its entry in column i and keeps the solution set. */
  method ClearBelowPivot(E: seq<seq<real>>, n: nat, i: nat, k: nat) returns (F: seq<seq<real>>)
    requires IsMatrix(E, n, n + 1) && i < k < n
    requires (forall c :: 0 <= c < i ==> E[i][c] == 0.0) && E[i][i] != 0.0
    ensures F == E[k := ReducedRow(E[k], E[i], E[k][i] / E[i][i], i)]
    ensures F[k][i] == 0.0
    ensures Equivalent(F, E, n)
  {
    var pivot := E[i][i];
    var factor := E[k][i] / pivot;
    var newRow := SubtractScaledRow(E[k], E[i], factor, i);
    forall c | 0 <= c <= n ensures newRow[c] == E[k][c] - factor * E[i][c] {
      if c < i {
        assert E[i][c] == 0.0;
      }
    }
    assert newRow[i] == 0.0 by {
      assert factor * pivot == E[k][i];
    }
    forall x | |x| == n ensures Satisfies(E[k := newRow], x) <==> Satisfies(E, x) {
      RowReplacementEquivalent(E, i, k, newRow, factor, x);
    }
    F := E[k := newRow];
  }

  /** Clears column i below the pivot M[i][i], row by row from the top.
      The result is the specification Cleared: column i is zero below the
      pivot and the solution set is unchanged. */
  method EliminateColumn(M: seq<seq<real>>, n: nat, i: nat) returns (E: seq<seq<real>>)
    requires IsMatrix(M, n, n + 1) && i < n
    requires (forall c :: 0 <= c < i ==> M[i][c] == 0.0) && M[i][i] != 0.0
    ensures E == Cleared(M, n, i)
    ensures forall r :: i < r < n ==> E[r][i] == 0.0
    ensures Equivalent(E, M, n)
  {
    E := M;
    for k := i + 1 to n
      invariant IsMatrix(E, n, n + 1)
      invariant forall r :: 0 <= r < n ==> E[r] == if i < r < k then Cleared(M, n, i)[r] else M[r]
      invariant forall r :: i < r < k ==> E[r][i] == 0.0
      invariant Equivalent(E, M, n)
    {
      E := ClearBelowPivot(E, n, i, k);
    }
    assert forall r :: 0 <= r < n ==> E[r] == Cleared(M, n, i)[r];
  }

  /** Clearing column i leaves rows 0..i as they were and keeps the zeros
      below the diagonal in the earlier columns. */
  lemma ClearedKeepsZeros(P: seq<seq<real>>, n: nat, i: nat)
    requires IsMatrix(P, n, n + 1) && i < n && P[i][i] != 0.0 && ZeroBelowDiagonal(P, n, i)
    ensures forall r :: 0 <= r <= i ==> Cleared(P, n, i)[r] == P[r]
    ensures forall r, c :: 0 <= c < i && i < r < n ==> Cleared(P, n, i)[r][c] == 0.0
  {
  }

  /** The pivoting half of step i: find the pivot row, exchange it with
      row i, and floor a pivot smaller than 1e-10 in magnitude. Rows above i
      are untouched and, unless the pivot was floored, the solutions too. */
  method PivotRows(U: seq<seq<real>>, n: nat, i: nat) returns (P: seq<seq<real>>)
    requires IsMatrix(U, n, n + 1) && i < n && ZeroBelowDiagonal(U, n, i)
    ensures P == Pivoted(U, n, i)
    ensures ZeroBelowDiagonal(P, n, i)
    ensures forall r :: 0 <= r < i ==> P[r] == U[r]
    ensures !FlooredAt(U, n, i) ==> Equivalent(P, U, n)
  {
    var maxRow := FindPivot(U, n, i);
    P := U[i := U[maxRow]][maxRow := U[i]];
    forall x | |x| == n ensures Satisfies(P, x) <==> Satisfies(U, x) {
      SwapEquivalent(U, i, maxRow, x);
    }
    if Abs(P[i][i]) < PivotFloor {
      P := P[i := P[i][i := PivotFloor]];
    }
  }

  /** One pass of the forward-elimination loop, from the matrix after i
      steps to the matrix after i + 1: columns 0..i become zero below the
      diagonal, the pivots so far are at least 1e-10 in magnitude, and as
      long as no pivot has been floored the solutions are those of M. */
  method EliminationStep(ghost M: seq<seq<real>>, U: seq<seq<real>>, n: nat, i: nat) returns (V: seq<seq<real>>)
    requires i < n && EliminatedSoFar(M, U, n, i)
    ensures EliminatedSoFar(M, V, n, i + 1)
  {
    var P := PivotRows(U, n, i);
    ClearedKeepsZeros(P, n, i);
    V := EliminateColumn(P, n, i);
    assert Floored(M, n, i + 1) == (Floored(M, n, i) || FlooredAt(U, n, i));
    if !Floored(M, n, i + 1) {
      EquivalentTransitive(V, P, U, n);
      EquivalentTransitive(V, U, M, n);
    }
  }

  /** Forward elimination over the augmented matrix (n rows, n + 1 columns).
      The result is the n-step specification: upper triangular, with every
      diagonal entry at least 1e-10 in magnitude, and, unless some pivot was
      floored, with exactly the solutions of the input. */
  method ForwardEliminate(M: seq<seq<real>>, n: nat) returns (U: seq<seq<real>>)
    requires IsMatrix(M, n, n + 1)
    ensures U == Eliminated(M, n, n)
    ensures UpperTriangular(U, n)
    ensures forall r :: 0 <= r < n ==> Abs(U[r][r]) >= PivotFloor
    ensures !Floored(M, n, n) ==> Equivalent(U, M, n)
  {
    U := M;
    for i := 0 to n
      invariant EliminatedSoFar(M, U, n, i)
    {
      U := EliminationStep(M, U, n, i);
    }
  }

  /** Solves row i of the triangular system for x[i], given the entries
      after i: the row equation then holds and nothing else changes. */
  method SubstituteRow(U: seq<seq<real>>, n: nat, i: nat, x: seq<real>) returns (y: seq<real>)
    requires IsMatrix(U, n, n + 1) && i < n && U[i][i] != 0.0 && |x| == n
    ensures |y| == n
    ensures forall t :: 0 <= t < n && t != i ==> y[t] == x[t]
    ensures PartialDot(U[i], y, i, n) == U[i][n]
  {
    y := x[i := U[i][n]];
    for j := i + 1 to n
      invariant |y| == n
      invariant forall t :: 0 <= t < n && t != i ==> y[t] == x[t]
      invariant y[i] == U[i][n] - PartialDot(U[i], y, i + 1, j)
    {
      ghost var prev := y;
      y := y[i := y[i] - U[i][j] * y[j]];
      DotCongruent(U[i], y, U[i], prev, i + 1, j);
    }
    SubstitutionCloses(U[i], y, i, n, U[i][n]);
    y := y[i := y[i] / U[i][i]];
  }

  /** Dividing the residual by the diagonal entry makes the row equation hold. */
  lemma SubstitutionCloses(row: seq<real>, x: seq<real>, i: nat, n: nat, target: real)
    requires i < n <= |row| && n == |x| && row[i] != 0.0
    requires x[i] == target - PartialDot(row, x, i + 1, n)
    ensures PartialDot(row, x[i := x[i] / row[i]], i, n) == target
  {
    var y := x[i := x[i] / row[i]];
    DotCongruent(row, y, row, x, i + 1, n);
    DotSplit(row, y, i, i + 1, n);
    DotSingle(row, y, i);
    DivideBack(row[i], x[i], y[i]);
  }

  lemma DivideBack(d: real, t: real, q: real)
    requires d != 0.0 && q == t / d
    ensures d * q == t
  {
  }

  /** Back substitution from the last row up:
      x[i] = (U[i][n] - Σ_{j > i} U[i][j]·x[j]) / U[i][i]. */
  method BackSubstitute(U: seq<seq<real>>, n: nat) returns (x: seq<real>)
    requires IsMatrix(U, n, n + 1)
    requires forall r :: 0 <= r < n ==> U[r][r] != 0.0
    ensures |x| == n
    ensures TriangularSolved(U, x)
  {
    x := seq(n, _ => 0.0);
    var i := n;
    while i > 0
      invariant 0 <= i <= n && |x| == n
      invariant forall r :: i <= r < n ==> PartialDot(U[r], x, r, n) == U[r][n]
    {
      i := i - 1;
      ghost var start := x;
      x := SubstituteRow(U, n, i, x);
      // The rows below only read entries after i, which did not change.
      forall r | i < r < n ensures PartialDot(U[r], x, r, n) == U[r][n] {
        DotCongruent(U[r], x, U[r], start, r, n);
      }
    }
  }

  /** Solves A·x = b for a square A of dimension n = |b|, working on a fresh
      augmented copy [A | b]. The result has n entries and satisfies the
      triangular system that forward elimination produces; unless that
      elimination floors a pivot at 1e-10, it is the one and only solution
      of A·x = b. */
  method Solve(A: seq<seq<real>>, b: seq<real>) returns (x: seq<real>)
    requires IsMatrix(A, |b|, |b|)
    ensures |x| == |b|
    ensures TriangularSolved(Eliminated(Augment(A, b), |b|, |b|), x)
    ensures !Floored(Augment(A, b), |b|, |b|) ==> Solves(A, b, x)
    ensures !Floored(Augment(A, b), |b|, |b|) ==> forall y :: Solves(A, b, y) ==> y == x
  {
    var n := |b|;
    var augmented := Augment(A, b);
    var U := ForwardEliminate(augmented, n);
    x := BackSubstitute(U, n);
    if !Floored(augmented, n, n) {
      forall r | 0 <= r < n ensures RowHolds(U[r], x) {
        TriangularRow(U, n, x, r);
      }
      AugmentedSystem(A, b, x);
      forall y | Solves(A, b, y) ensures y == x {
        AugmentedSystem(A, b, y);
        forall r | 0 <= r < n ensures PartialDot(U[r], y, r, n) == U[r][n] {
          TriangularRow(U, n, y, r);
        }
        TriangularUnique(U, x, y, 0);
      }
    }
  }

  // ---------------------------------------------------------------------
  // When no pivot is floored
  // ---------------------------------------------------------------------

  /** Below a non-zero entry M[i][i] column i is zero, so the pivot search keeps row i. */
  lemma {:induction false} PivotScanKeepsDiagonal(M: seq<seq<real>>, n: nat, i: nat, k: nat)
    requires IsMatrix(M, n, n + 1) && i < k <= n && M[i][i] != 0.0
    requires forall r :: i < r < n ==> M[r][i] == 0.0
    ensures PivotScan(M, n, i, k) == i
    decreases k
  {
    if k > i + 1 {
      PivotScanKeepsDiagonal(M, n, i, k - 1);
    }
  }

  /** On an upper-triangular system whose diagonal is at least 1e-10 in
      magnitude, a step neither moves, floors nor changes anything. */
  lemma TriangularStepIdle(M: seq<seq<real>>, n: nat, i: nat)
    requires IsMatrix(M, n, n + 1) && i < n && UpperTriangular(M, n)
    requires forall r :: 0 <= r < n ==> Abs(M[r][r]) >= PivotFloor
    ensures !FlooredAt(M, n, i)
    ensures Cleared(Pivoted(M, n, i), n, i) == M
  {
    PivotScanKeepsDiagonal(M, n, i, n);
    assert M[i := M[i]][i := M[i]] == M;
    assert Pivoted(M, n, i) == M;
    forall r | i < r < n ensures ReducedRow(M[r], M[i], M[r][i] / M[i][i], i) == M[r] {
      assert M[r][i] / M[i][i] == 0.0;
    }
    assert forall r :: 0 <= r < n ==> Cleared(M, n, i)[r] == M[r];
  }

  /** An upper-triangular augmented system whose diagonal is at least 1e-10
      in magnitude goes through elimination unchanged and never floors a pivot. */
  lemma {:induction false} TriangularNeverFloored(M: seq<seq<real>>, n: nat, k: nat)
    requires IsMatrix(M, n, n + 1) && k <= n && UpperTriangular(M, n)
    requires forall r :: 0 <= r < n ==> Abs(M[r][r]) >= PivotFloor
    ensures Eliminated(M, n, k) == M && !Floored(M, n, k)
    decreases k
  {
    if k > 0 {
      TriangularNeverFloored(M, n, k - 1);
      TriangularStepIdle(M, n, k - 1);
      assert Eliminated(M, n, k) == Cleared(Pivoted(M, n, k - 1), n, k - 1);
      assert Floored(M, n, k) == (Floored(M, n, k - 1) || FlooredAt(M, n, k - 1));
    }
  }

  /** For an upper-triangular A whose diagonal is at least 1e-10 in
      magnitude, Solve's no-floor clauses apply: x is the unique solution. */
  lemma TriangularInputNotFloored(A: seq<seq<real>>, b: seq<real>)
    requires IsMatrix(A, |b|, |b|)
    requires forall r, c :: 0 <= c < r < |b| ==> A[r][c] == 0.0
    requires forall r :: 0 <= r < |b| ==> Abs(A[r][r]) >= PivotFloor
    ensures !Floored(Augment(A, b), |b|, |b|)
  {
    TriangularNeverFloored(Augment(A, b), |b|, |b|);
  }
}
