/**
 * Dense square matrices and vectors over the reals, as row-major sequences,
 * with the finite sums the solvers accumulate and the facts about them that
 * the solver proofs rely on.
 */
module Matrices {
  import opened Numeric

  type Vector = seq<real>
  type Matrix = seq<seq<real>>

  /** m is an n-by-n grid of rows. */
  predicate IsSquare(m: Matrix, n: nat) {
    |m| == n && forall i :: 0 <= i < n ==> |m[i]| == n
  }

  /** Sum of row[j] * x[j] for lo <= j < hi, accumulated from left to right. */
  function SumRange(row: Vector, x: Vector, lo: nat, hi: nat): real
    requires lo <= hi <= |row| && hi <= |x|
    decreases hi - lo
  {
    if hi == lo then 0.0 else SumRange(row, x, lo, hi - 1) + row[hi - 1] * x[hi - 1]
  }

  /** The inner product of a row with x. */
  function Dot(row: Vector, x: Vector): real
    requires |row| <= |x|
  {
    SumRange(row, x, 0, |row|)
  }

  /** x solves the linear system a * x = b. */
  ghost predicate Solves(a: Matrix, b: Vector, x: Vector) {
    |b| == |a| && forall i :: 0 <= i < |a| ==> |a[i]| == |x| && Dot(a[i], x) == b[i]
  }

  /** Every entry below the diagonal is zero. */
  ghost predicate UpperTriangular(m: Matrix, n: nat)
    requires IsSquare(m, n)
  {
    forall r, c :: 0 <= c < r < n ==> m[r][c] == 0.0
  }

  /** Sum of l[r][k] * u[k][c] for lo <= k < hi: one entry of a matrix product, partially. */
  function MulSum(l: Matrix, u: Matrix, n: nat, r: nat, c: nat, lo: nat, hi: nat): real
    requires IsSquare(l, n) && IsSquare(u, n) && r < n && c < n && lo <= hi <= n
    decreases hi - lo
  {
    if hi == lo then 0.0 else MulSum(l, u, n, r, c, lo, hi - 1) + l[r][hi - 1] * u[hi - 1][c]
  }

  /** The matrix product l * u. */
  function MatMul(l: Matrix, u: Matrix, n: nat): (p: Matrix)
    requires IsSquare(l, n) && IsSquare(u, n)
    ensures IsSquare(p, n)
    ensures forall r, c :: 0 <= r < n && 0 <= c < n ==> p[r][c] == MulSum(l, u, n, r, c, 0, n)
  {
    seq(n, r requires 0 <= r < n => seq(n, c requires 0 <= c < n => MulSum(l, u, n, r, c, 0, n)))
  }

  /** Terms whose L factor or U factor is zero add nothing. */
  lemma {:induction false} MulSumZeroTail(l: Matrix, u: Matrix, n: nat, r: nat, c: nat, lo: nat, hi: nat)
    requires IsSquare(l, n) && IsSquare(u, n) && r < n && c < n && lo <= hi <= n
    requires forall k :: lo <= k < hi ==> l[r][k] == 0.0 || u[k][c] == 0.0
    ensures MulSum(l, u, n, r, c, lo, hi) == 0.0
    decreases hi - lo
  {
    if hi > lo {
      MulSumZeroTail(l, u, n, r, c, lo, hi - 1);
      assert l[r][hi - 1] * u[hi - 1][c] == 0.0;
    }
  }

  lemma {:induction false} MulSumSplit(l: Matrix, u: Matrix, n: nat, r: nat, c: nat, lo: nat, mid: nat, hi: nat)
    requires IsSquare(l, n) && IsSquare(u, n) && r < n && c < n && lo <= mid <= hi <= n
    ensures MulSum(l, u, n, r, c, lo, hi) == MulSum(l, u, n, r, c, lo, mid) + MulSum(l, u, n, r, c, mid, hi)
    decreases hi - mid
  {
    if hi > mid {
      MulSumSplit(l, u, n, r, c, lo, mid, hi - 1);
    }
  }

  /** One more term of a product entry. */
  lemma MulSumStep(l: Matrix, u: Matrix, n: nat, r: nat, c: nat, p: nat)
    requires IsSquare(l, n) && IsSquare(u, n) && r < n && c < n && p < n
    ensures MulSum(l, u, n, r, c, 0, p + 1) == MulSum(l, u, n, r, c, 0, p) + l[r][p] * u[p][c]
  {
  }

  /** A product entry whose terms vanish after index p is the sum before p plus the term at p. */
  lemma MulSumPivot(l: Matrix, u: Matrix, n: nat, r: nat, c: nat, p: nat)
    requires IsSquare(l, n) && IsSquare(u, n) && r < n && c < n && p < n
    requires forall k :: p < k < n ==> l[r][k] == 0.0 || u[k][c] == 0.0
    ensures MulSum(l, u, n, r, c, 0, n) == MulSum(l, u, n, r, c, 0, p) + l[r][p] * u[p][c]
  {
    MulSumSplit(l, u, n, r, c, 0, p + 1, n);
    MulSumZeroTail(l, u, n, r, c, p + 1, n);
    MulSumStep(l, u, n, r, c, p);
  }

  /** A sum over [lo, hi) splits at any midpoint. */
  lemma {:induction false} SumRangeSplit(row: Vector, x: Vector, lo: nat, mid: nat, hi: nat)
    requires lo <= mid <= hi <= |row| && hi <= |x|
    ensures SumRange(row, x, lo, hi) == SumRange(row, x, lo, mid) + SumRange(row, x, mid, hi)
    decreases hi - mid
  {
    if hi > mid {
      SumRangeSplit(row, x, lo, mid, hi - 1);
    }
  }

  /** A one-term sum. */
  lemma SumRangeOne(row: Vector, x: Vector, i: nat)
    requires i < |row| && i < |x|
    ensures SumRange(row, x, i, i + 1) == row[i] * x[i]
  {
  }

  /** A sum over a range where the row is zero is zero. */
  lemma {:induction false} SumRangeZero(row: Vector, x: Vector, lo: nat, hi: nat)
    requires lo <= hi <= |row| && hi <= |x|
    requires forall j :: lo <= j < hi ==> row[j] == 0.0
    ensures SumRange(row, x, lo, hi) == 0.0
    decreases hi - lo
  {
    if hi > lo {
      SumRangeZero(row, x, lo, hi - 1);
    }
  }

  /** A sum only depends on the entries in its range. */
  lemma {:induction false} SumRangeCongruent(r1: Vector, x1: Vector, r2: Vector, x2: Vector, lo: nat, hi: nat)
    requires lo <= hi <= |r1| && hi <= |x1| && hi <= |r2| && hi <= |x2|
    requires forall j :: lo <= j < hi ==> r1[j] == r2[j] && x1[j] == x2[j]
    ensures SumRange(r1, x1, lo, hi) == SumRange(r2, x2, lo, hi)
    decreases hi - lo
  {
    if hi > lo {
      SumRangeCongruent(r1, x1, r2, x2, lo, hi - 1);
    }
  }

  lemma Distribute(sr: real, ss: real, a: real, b: real, y: real, f: real)
    ensures (sr - f * ss) + (a - f * b) * y == (sr + a * y) - f * (ss + b * y)
  {
  }

  /** Sums are linear in the row: t = r - f*s entrywise gives sum(t) = sum(r) - f*sum(s). */
  lemma {:induction false} SumRangeCombine(r: Vector, s: Vector, t: Vector, f: real, x: Vector, lo: nat, hi: nat)
    requires lo <= hi <= |r| && hi <= |s| && hi <= |t| && hi <= |x|
    requires forall j :: lo <= j < hi ==> t[j] == r[j] - f * s[j]
    ensures SumRange(t, x, lo, hi) == SumRange(r, x, lo, hi) - f * SumRange(s, x, lo, hi)
    decreases hi - lo
  {
    if hi > lo {
      SumRangeCombine(r, s, t, f, x, lo, hi - 1);
      Distribute(SumRange(r, x, lo, hi - 1), SumRange(s, x, lo, hi - 1), r[hi - 1], s[hi - 1], x[hi - 1], f);
    }
  }

  /** On an upper triangular row, the inner product is the diagonal term plus the part right of it. */
  lemma DotOfUpperRow(u: Matrix, n: nat, i: nat, x: Vector)
    requires IsSquare(u, n) && UpperTriangular(u, n) && i < n && |x| == n
    ensures Dot(u[i], x) == u[i][i] * x[i] + SumRange(u[i], x, i + 1, n)
  {
    SumRangeSplit(u[i], x, 0, i, n);
    SumRangeSplit(u[i], x, i, i + 1, n);
    SumRangeZero(u[i], x, 0, i);
  }

  /** Rows from..n-1 of the triangular system u * x = c hold, each summed from its diagonal on. */
  ghost predicate RowsSolved(u: Matrix, c: Vector, x: Vector, n: nat, from: nat)
    requires IsSquare(u, n) && |c| == n && |x| == n
  {
    forall r :: from <= r < n ==> SumRange(u[r], x, r, n) == c[r]
  }

  /** A row summed from its diagonal is the diagonal term plus the part right of it. */
  lemma SumFromDiagonal(row: Vector, x: Vector, i: nat, n: nat)
    requires i < n && |row| == n && |x| == n
    ensures SumRange(row, x, i, n) == row[i] * x[i] + SumRange(row, x, i + 1, n)
  {
    SumRangeSplit(row, x, i, i + 1, n);
  }

  /** Row i holds once x[i] is set to satisfy it, whatever x[i] was before. */
  lemma SetDiagonal(row: Vector, before: Vector, after: Vector, i: nat, n: nat, ci: real)
    requires i < n && |row| == n && |before| == n && |after| == n
    requires forall j :: i < j < n ==> after[j] == before[j]
    requires row[i] * after[i] + SumRange(row, before, i + 1, n) == ci
    ensures SumRange(row, after, i, n) == ci
  {
    SumRangeCongruent(row, after, row, before, i + 1, n);
    SumFromDiagonal(row, after, i, n);
  }

  /** Rows only read x from their diagonal on, so a change to x below `from` keeps rows from..n-1 solved. */
  lemma RowsSolvedCongruent(u: Matrix, c: Vector, x: Vector, y: Vector, n: nat, from: nat)
    requires IsSquare(u, n) && |c| == n && |x| == n && |y| == n
    requires forall j :: from <= j < n ==> x[j] == y[j]
    requires RowsSolved(u, c, x, n, from)
    ensures RowsSolved(u, c, y, n, from)
  {
    forall r | from <= r < n
      ensures SumRange(u[r], y, r, n) == c[r]
    {
      SumRangeCongruent(u[r], x, u[r], y, r, n);
    }
  }

  lemma RowsSolvedExtend(u: Matrix, c: Vector, x: Vector, n: nat, i: nat)
    requires IsSquare(u, n) && |c| == n && |x| == n && i < n
    requires RowsSolved(u, c, x, n, i + 1) && SumRange(u[i], x, i, n) == c[i]
    ensures RowsSolved(u, c, x, n, i)
  {
  }

  /**
   * Back substitution is correct: if every row's equation holds when summed
   * from the diagonal on and u is upper triangular, then x solves u * x = c.
   */
  lemma BackSubstitutionSolves(u: Matrix, c: Vector, x: Vector, n: nat)
    requires IsSquare(u, n) && UpperTriangular(u, n) && |c| == n && |x| == n
    requires forall i :: 0 <= i < n ==> SumRange(u[i], x, i, n) == c[i]
    ensures Solves(u, c, x)
  {
    forall i | 0 <= i < n
      ensures Dot(u[i], x) == c[i]
    {
      SumRangeSplit(u[i], x, 0, i, n);
      SumRangeZero(u[i], x, 0, i);
    }
  }

  /**
   * An upper triangular system with a non-zero diagonal has at most one
   * solution: x and y agree on every index from m upwards, for every m.
   */
  lemma {:induction false} UpperSolutionsAgreeFrom(u: Matrix, c: Vector, x: Vector, y: Vector, n: nat, m: nat)
    requires IsSquare(u, n) && UpperTriangular(u, n) && |x| == n && |y| == n && m <= n
    requires forall i :: 0 <= i < n ==> u[i][i] != 0.0
    requires Solves(u, c, x) && Solves(u, c, y)
    ensures forall i :: m <= i < n ==> x[i] == y[i]
    decreases n - m
  {
    if m < n {
      UpperSolutionsAgreeFrom(u, c, x, y, n, m + 1);
      DotOfUpperRow(u, n, m, x);
      DotOfUpperRow(u, n, m, y);
      SumRangeCongruent(u[m], x, u[m], y, m + 1, n);
      assert Dot(u[m], x) == c[m] && Dot(u[m], y) == c[m];
      assert SumRange(u[m], x, m + 1, n) == SumRange(u[m], y, m + 1, n);
      assert u[m][m] * x[m] == u[m][m] * y[m];
    }
  }

  /** Uniqueness of the solution of a non-singular upper triangular system. */
  lemma UpperSolutionUnique(u: Matrix, c: Vector, x: Vector, y: Vector, n: nat)
    requires IsSquare(u, n) && UpperTriangular(u, n) && |x| == n && |y| == n
    requires forall i :: 0 <= i < n ==> u[i][i] != 0.0
    requires Solves(u, c, x) && Solves(u, c, y)
    ensures x == y
  {
    UpperSolutionsAgreeFrom(u, c, x, y, n, 0);
  }

  /** Sum of l[r][k] * (u[k] . x restricted to [0, m)) over k < hi. */
  function RowThenColumn(l: Matrix, u: Matrix, x: Vector, n: nat, r: nat, m: nat, hi: nat): real
    requires IsSquare(l, n) && IsSquare(u, n) && |x| == n && r < n && m <= n && hi <= n
  {
    if hi == 0 then 0.0 else RowThenColumn(l, u, x, n, r, m, hi - 1) + l[r][hi - 1] * SumRange(u[hi - 1], x, 0, m)
  }

  /** Adding one more column m to every inner sum adds (l*u)[r][m] * x[m]. */
  lemma {:induction false} RowThenColumnStep(l: Matrix, u: Matrix, x: Vector, n: nat, r: nat, m: nat, hi: nat)
    requires IsSquare(l, n) && IsSquare(u, n) && |x| == n && r < n && m < n && hi <= n
    ensures RowThenColumn(l, u, x, n, r, m + 1, hi)
         == RowThenColumn(l, u, x, n, r, m, hi) + MulSum(l, u, n, r, m, 0, hi) * x[m]
  {
    if hi > 0 {
      RowThenColumnStep(l, u, x, n, r, m, hi - 1);
    }
  }

  /** Exchanging the order of summation in row r of (l*u)*x. */
  lemma {:induction false} ProductRowDot(l: Matrix, u: Matrix, x: Vector, n: nat, r: nat, m: nat)
    requires IsSquare(l, n) && IsSquare(u, n) && |x| == n && r < n && m <= n
    ensures SumRange(MatMul(l, u, n)[r], x, 0, m) == RowThenColumn(l, u, x, n, r, m, n)
  {
    if m > 0 {
      ProductRowDot(l, u, x, n, r, m - 1);
      RowThenColumnStep(l, u, x, n, r, m - 1, n);
    } else {
      RowThenColumnZero(l, u, x, n, r, n);
    }
  }

  lemma {:induction false} RowThenColumnZero(l: Matrix, u: Matrix, x: Vector, n: nat, r: nat, hi: nat)
    requires IsSquare(l, n) && IsSquare(u, n) && |x| == n && r < n && hi <= n
    ensures RowThenColumn(l, u, x, n, r, 0, hi) == 0.0
  {
    if hi > 0 {
      RowThenColumnZero(l, u, x, n, r, hi - 1);
    }
  }

  /** If u*x = y then the outer sum over k of l[r][k]*(u[k].x) is l[r].y. */
  lemma {:induction false} RowThenColumnSolved(l: Matrix, u: Matrix, x: Vector, y: Vector, n: nat, r: nat, hi: nat)
    requires IsSquare(l, n) && IsSquare(u, n) && |x| == n && r < n && hi <= n
    requires Solves(u, y, x)
    ensures RowThenColumn(l, u, x, n, r, n, hi) == SumRange(l[r], y, 0, hi)
  {
    if hi > 0 {
      RowThenColumnSolved(l, u, x, y, n, r, hi - 1);
    }
  }

  /** Solving l*y = b and then u*x = y solves (l*u)*x = b. */
  lemma ProductSolves(l: Matrix, u: Matrix, b: Vector, y: Vector, x: Vector, n: nat)
    requires IsSquare(l, n) && IsSquare(u, n) && |x| == n
    requires Solves(l, b, y) && Solves(u, y, x)
    ensures Solves(MatMul(l, u, n), b, x)
  {
    var p := MatMul(l, u, n);
    forall r | 0 <= r < n
      ensures Dot(p[r], x) == b[r]
    {
      ProductRowDot(l, u, x, n, r, n);
      RowThenColumnSolved(l, u, x, y, n, r, n);
    }
  }

  /** The product m * x. */
  function MatVec(m: Matrix, x: Vector): (y: Vector)
    requires forall i :: 0 <= i < |m| ==> |m[i]| <= |x|
    ensures |y| == |m| && forall i :: 0 <= i < |m| ==> y[i] == Dot(m[i], x)
  {
    seq(|m|, i requires 0 <= i < |m| => Dot(m[i], x))
  }

  /** The converse of ProductSolves: if (l*u)*x = b then l*(u*x) = b. */
  lemma FactorsSolve(l: Matrix, u: Matrix, b: Vector, x: Vector, n: nat)
    requires IsSquare(l, n) && IsSquare(u, n) && |x| == n
    requires Solves(MatMul(l, u, n), b, x)
    ensures Solves(l, b, MatVec(u, x)) && Solves(u, MatVec(u, x), x)
  {
    var y := MatVec(u, x);
    forall r | 0 <= r < n
      ensures Dot(l[r], y) == b[r]
    {
      ProductRowDot(l, u, x, n, r, n);
      RowThenColumnSolved(l, u, x, y, n, r, n);
    }
  }
}
