/**
 * LU decomposition by Doolittle's method without pivoting, as the LU page
 * runs it: fill L (unit lower triangular) and U (upper triangular) row by
 * row, recording a snapshot of both after every outer step, then solve
 * L*Y = B by forward substitution and U*X = Y by back substitution.
 *
 * The page's back substitution never divides by U[i][i]: what it computes
 * solves the system whose U has its diagonal replaced by ones. The model
 * states that as written and also gives the dividing version.
 */
module LUDecomposition {
  import opened Wrappers
  import opened Matrices

  // ----- Doolittle's recurrences, as a reference definition -----

  /** U[r][c] for r <= c: A[r][c] minus the products of the entries already known. */
  function SpecU(a: Matrix, n: nat, r: nat, c: nat): real
    requires IsSquare(a, n) && r <= c < n
    decreases r, 1
  {
    a[r][c] - Inner(a, n, r, c, r)
  }

  /** L[r][c] for c < r: (A[r][c] minus the known products) / U[c][c]; 0 when that pivot is 0. */
  function SpecL(a: Matrix, n: nat, r: nat, c: nat): real
    requires IsSquare(a, n) && c < r < n
    decreases c, 2
  {
    var p := SpecU(a, n, c, c);
    if p == 0.0 then 0.0 else (a[r][c] - Inner(a, n, r, c, c)) / p
  }

  /** Sum of L[r][k] * U[k][c] for k < m. */
  function Inner(a: Matrix, n: nat, r: nat, c: nat, m: nat): real
    requires IsSquare(a, n) && r < n && c < n && m <= r && m <= c
    decreases m, 0
  {
    if m == 0 then 0.0 else Inner(a, n, r, c, m - 1) + SpecL(a, n, r, m - 1) * SpecU(a, n, m - 1, c)
  }

  /** Entry (r, c) of L: 1 on the diagonal, Doolittle's value below it, 0 above it. */
  function LEntry(a: Matrix, n: nat, r: nat, c: nat): real
    requires IsSquare(a, n) && r < n && c < n
  {
    if r == c then 1.0 else if c < r then SpecL(a, n, r, c) else 0.0
  }

  /** Entry (r, c) of U: Doolittle's value on and above the diagonal, 0 below it. */
  function UEntry(a: Matrix, n: nat, r: nat, c: nat): real
    requires IsSquare(a, n) && r < n && c < n
  {
    if r <= c then SpecU(a, n, r, c) else 0.0
  }

  /**
   * l is L part way through the fill: the columns before i are complete, and
   * column i is complete in the rows before j; every other entry is still 0.
   */
  ghost predicate LPartial(l: Matrix, a: Matrix, n: nat, i: nat, j: nat)
    requires IsSquare(a, n)
  {
    IsSquare(l, n) &&
    forall r, c :: 0 <= r < n && 0 <= c < n ==>
      l[r][c] == if c < i || (c == i && r < j) then LEntry(a, n, r, c) else 0.0
  }

  /**
   * u is U part way through the fill: the rows before i are complete, and row
   * i is complete in the columns before j; every other entry is still 0.
   */
  ghost predicate UPartial(u: Matrix, a: Matrix, n: nat, i: nat, j: nat)
    requires IsSquare(a, n)
  {
    IsSquare(u, n) &&
    forall r, c :: 0 <= r < n && 0 <= c < n ==>
      u[r][c] == if r < i || (r == i && c < j) then UEntry(a, n, r, c) else 0.0
  }

  /** l is Doolittle's L for a. */
  ghost predicate IsLFactor(l: Matrix, a: Matrix, n: nat)
    requires IsSquare(a, n)
  {
    LPartial(l, a, n, n, 0)
  }

  /** u is Doolittle's U for a. */
  ghost predicate IsUFactor(u: Matrix, a: Matrix, n: nat)
    requires IsSquare(a, n)
  {
    UPartial(u, a, n, n, 0)
  }

  /** The pivots the fill divides by, U[i][i] for i < n-1, are all non-zero. */
  ghost predicate PivotsNonZero(a: Matrix, n: nat)
    requires IsSquare(a, n)
  {
    forall i :: 0 <= i < n - 1 ==> SpecU(a, n, i, i) != 0.0
  }

  /** Every pivot, the last one included, is non-zero: U is non-singular. */
  ghost predicate AllPivotsNonZero(a: Matrix, n: nat)
    requires IsSquare(a, n)
  {
    forall i :: 0 <= i < n ==> SpecU(a, n, i, i) != 0.0
  }

  ghost predicate UnitLowerTriangular(l: Matrix, n: nat)
    requires IsSquare(l, n)
  {
    forall r, c :: 0 <= r < n && 0 <= c < n ==> (r == c ==> l[r][c] == 1.0) && (r < c ==> l[r][c] == 0.0)
  }

  /** u with its diagonal replaced by ones and zeros below it: the matrix the page's back substitution solves. */
  function UnitDiagonal(u: Matrix, n: nat): (d: Matrix)
    requires IsSquare(u, n)
    ensures IsSquare(d, n)
    ensures forall r, c :: 0 <= r < n && 0 <= c < n ==> d[r][c] == if r == c then 1.0 else if r < c then u[r][c] else 0.0
  {
    seq(n, r requires 0 <= r < n => seq(n, c requires 0 <= c < n => if r == c then 1.0 else if r < c then u[r][c] else 0.0))
  }

  // ----- Facts about the reference definition -----

  /** The factors have the promised shapes: L unit lower triangular, U upper triangular. */
  lemma FactorShapes(a: Matrix, n: nat, l: Matrix, u: Matrix)
    requires IsSquare(a, n) && IsLFactor(l, a, n) && IsUFactor(u, a, n)
    ensures UnitLowerTriangular(l, n) && UpperTriangular(u, n)
  {
  }

  /** The partial sums of the matrix product over the first m columns agree with Inner. */
  lemma {:induction false} MulSumIsInner(a: Matrix, n: nat, l: Matrix, u: Matrix, r: nat, c: nat, m: nat)
    requires IsSquare(a, n) && IsSquare(l, n) && IsSquare(u, n) && r < n && c < n && m <= r && m <= c
    requires forall k :: 0 <= k < m ==> l[r][k] == SpecL(a, n, r, k) && u[k][c] == SpecU(a, n, k, c)
    ensures MulSum(l, u, n, r, c, 0, m) == Inner(a, n, r, c, m)
  {
    if m > 0 {
      MulSumIsInner(a, n, l, u, r, c, m - 1);
    }
  }

  /** The diagonal term completes Doolittle's recurrence: Inner up to min(r, c) plus L[r][p]*U[p][c] is A[r][c]. */
  lemma EntryFromInner(a: Matrix, n: nat, r: nat, c: nat)
    requires IsSquare(a, n) && PivotsNonZero(a, n) && r < n && c < n
    ensures var p := if r <= c then r else c;
      Inner(a, n, r, c, p) + LEntry(a, n, r, p) * UEntry(a, n, p, c) == a[r][c]
  {
    if r > c {
      assert c < n - 1;
      assert SpecU(a, n, c, c) != 0.0;
    }
  }

  /** Entry (r, c) of L*U is A[r][c] when the pivots are non-zero. */
  lemma ProductEntry(a: Matrix, n: nat, l: Matrix, u: Matrix, r: nat, c: nat)
    requires IsSquare(a, n) && PivotsNonZero(a, n) && IsLFactor(l, a, n) && IsUFactor(u, a, n) && r < n && c < n
    ensures MulSum(l, u, n, r, c, 0, n) == a[r][c]
  {
    // p = min(r, c): the terms before p are Inner, the term at p is the diagonal one, the rest vanish.
    var p := if r <= c then r else c;
    MulSumIsInner(a, n, l, u, r, c, p);
    MulSumPivot(l, u, n, r, c, p);
    EntryFromInner(a, n, r, c);
  }

  /** Doolittle's factorisation reproduces A: with non-zero pivots, L*U = A. */
  lemma Factorisation(a: Matrix, n: nat, l: Matrix, u: Matrix)
    requires IsSquare(a, n) && PivotsNonZero(a, n) && IsLFactor(l, a, n) && IsUFactor(u, a, n)
    ensures MatMul(l, u, n) == a
  {
    var p := MatMul(l, u, n);
    forall r, c | 0 <= r < n && 0 <= c < n
      ensures p[r][c] == a[r][c]
    {
      ProductEntry(a, n, l, u, r, c);
    }
    assert forall r :: 0 <= r < n ==> p[r] == a[r];
  }

  // ----- How the partial states advance -----

  /** Before any step: all zeros. */
  lemma PartialStart(a: Matrix, n: nat, z: Matrix)
    requires IsSquare(a, n) && IsSquare(z, n)
    requires forall r, c :: 0 <= r < n && 0 <= c < n ==> z[r][c] == 0.0
    ensures LPartial(z, a, n, 0, 0) && UPartial(z, a, n, 0, 0)
  {
  }

  /** Writing Doolittle's U[i][j] moves the U state one column on. */
  lemma UNext(u: Matrix, a: Matrix, n: nat, i: nat, j: nat, v: real)
    requires IsSquare(a, n) && i < n && j < n && UPartial(u, a, n, i, j) && v == UEntry(a, n, i, j)
    ensures UPartial(u[i := u[i][j := v]], a, n, i, j + 1)
  {
  }

  /** Writing Doolittle's L[j][i] moves the L state one row on. */
  lemma LNext(l: Matrix, a: Matrix, n: nat, i: nat, j: nat, v: real)
    requires IsSquare(a, n) && i < n && j < n && LPartial(l, a, n, i, j) && v == LEntry(a, n, j, i)
    ensures LPartial(l[j := l[j][i := v]], a, n, i, j + 1)
  {
  }

  /** Columns before the diagonal: nothing is written, and both states move on. */
  lemma PartialBelow(l: Matrix, u: Matrix, a: Matrix, n: nat, i: nat, j: nat)
    requires IsSquare(a, n) && j < i < n && LPartial(l, a, n, i, j) && UPartial(u, a, n, i, j)
    ensures LPartial(l, a, n, i, j + 1) && UPartial(u, a, n, i, j + 1)
  {
  }

  /** The end of outer step i is the start of outer step i+1. */
  lemma PartialRow(l: Matrix, u: Matrix, a: Matrix, n: nat, i: nat)
    requires IsSquare(a, n) && i < n && LPartial(l, a, n, i, n) && UPartial(u, a, n, i, n)
    ensures LPartial(l, a, n, i + 1, 0) && UPartial(u, a, n, i + 1, 0)
  {
  }

  /** The U entry the fill computes at (i, j), j >= i, from the state so far. */
  lemma UValue(l: Matrix, u: Matrix, a: Matrix, n: nat, i: nat, j: nat, acc: real)
    requires IsSquare(a, n) && i <= j < n && LPartial(l, a, n, i, j) && UPartial(u, a, n, i, j)
    requires acc == a[i][j] - MulSum(l, u, n, i, j, 0, i)
    ensures acc == UEntry(a, n, i, j)
  {
    MulSumIsInner(a, n, l, u, i, j, i);
  }

  /** The L entry the fill computes at (j, i), j > i, from the state so far. */
  lemma LValue(l: Matrix, u: Matrix, a: Matrix, n: nat, i: nat, j: nat, acc: real)
    requires IsSquare(a, n) && i < j < n && SpecU(a, n, i, i) != 0.0
    requires LPartial(l, a, n, i, j) && UPartial(u, a, n, i, j + 1)
    requires acc == a[j][i] - MulSum(l, u, n, j, i, 0, i)
    ensures acc / SpecU(a, n, i, i) == LEntry(a, n, j, i)
  {
    MulSumIsInner(a, n, l, u, j, i, i);
    LFromInner(a, n, i, j, acc);
  }

  lemma LFromInner(a: Matrix, n: nat, i: nat, j: nat, acc: real)
    requires IsSquare(a, n) && i < j < n && SpecU(a, n, i, i) != 0.0
    requires acc == a[j][i] - Inner(a, n, j, i, i)
    ensures acc / SpecU(a, n, i, i) == LEntry(a, n, j, i)
  {
  }

  // ----- The fill, in place on freshly allocated L and U -----

  /** The snapshot taken after outer step number `number` (counting from 1): copies of L and U. */
  datatype LUStep = LUStep(number: nat, l: Matrix, u: Matrix)

  /** start - sum_{k<m} L[r][k]*U[k][c], subtracted term by term as the page does. */
  method SubtractProducts(L: array<seq<real>>, U: array<seq<real>>, n: nat, r: nat, c: nat, m: nat, start: real)
    returns (acc: real)
    requires IsSquare(L[..], n) && IsSquare(U[..], n) && r < n && c < n && m <= n
    ensures acc == start - MulSum(L[..], U[..], n, r, c, 0, m)
  {
    acc := start;
    var k := 0;
    while k < m
      invariant k <= m
      invariant acc == start - MulSum(L[..], U[..], n, r, c, 0, k)
    {
      acc := acc - L[r][k] * U[k][c];
      k := k + 1;
    }
  }

  /** Computes U[i][j], j >= i, from the rows of U and the entries of L already filled. */
  method FillU(L: array<seq<real>>, U: array<seq<real>>, a: Matrix, n: nat, i: nat, j: nat)
    requires IsSquare(a, n) && i <= j < n && L != U
    requires LPartial(L[..], a, n, i, j) && UPartial(U[..], a, n, i, j)
    modifies U
    ensures UPartial(U[..], a, n, i, j + 1)
  {
    var acc := SubtractProducts(L, U, n, i, j, i, a[i][j]);
    UValue(L[..], U[..], a, n, i, j, acc);
    UNext(U[..], a, n, i, j, acc);
    U[i] := U[i][j := acc];
  }

  /** Computes L[j][i], j > i, dividing by the pivot U[i][i], which must be non-zero. */
  method FillL(L: array<seq<real>>, U: array<seq<real>>, a: Matrix, n: nat, i: nat, j: nat)
    requires IsSquare(a, n) && i < j < n && L != U
    requires LPartial(L[..], a, n, i, j) && UPartial(U[..], a, n, i, j + 1)
    requires SpecU(a, n, i, i) != 0.0
    modifies L
    ensures LPartial(L[..], a, n, i, j + 1)
  {
    var acc := SubtractProducts(L, U, n, j, i, i, a[j][i]);
    LValue(L[..], U[..], a, n, i, j, acc);
    assert U[i][i] == SpecU(a, n, i, i);
    LNext(L[..], a, n, i, j, acc / U[i][i]);
    L[j] := L[j][i := acc / U[i][i]];
  }

  /** Sets L[i][i] to one. */
  method FillDiagonal(L: array<seq<real>>, a: Matrix, n: nat, i: nat)
    requires IsSquare(a, n) && i < n && LPartial(L[..], a, n, i, i)
    modifies L
    ensures LPartial(L[..], a, n, i, i + 1)
  {
    LNext(L[..], a, n, i, i, 1.0);
    L[i] := L[i][i := 1.0];
  }

  /**
   * Outer step i of the fill: U's row i and L's column i, left to right. It
   * stops early, reporting false, when the pivot U[i][i] is zero and a row
   * below still needs dividing by it.
   */
  method FillStep(L: array<seq<real>>, U: array<seq<real>>, a: Matrix, n: nat, i: nat) returns (ok: bool)
    requires IsSquare(a, n) && i < n && L != U
    requires LPartial(L[..], a, n, i, 0) && UPartial(U[..], a, n, i, 0)
    modifies L, U
    ensures ok <==> i == n - 1 || SpecU(a, n, i, i) != 0.0
    ensures ok ==> LPartial(L[..], a, n, i + 1, 0) && UPartial(U[..], a, n, i + 1, 0)
  {
    var j := 0;
    while j < n
      invariant j <= n
      invariant LPartial(L[..], a, n, i, j) && UPartial(U[..], a, n, i, j)
      invariant i + 1 < j ==> SpecU(a, n, i, i) != 0.0
    {
      if j < i {
        PartialBelow(L[..], U[..], a, n, i, j);
      } else {
        FillU(L, U, a, n, i, j);
        if i == j {
          FillDiagonal(L, a, n, i);
        } else {
          assert U[i][i] == SpecU(a, n, i, i);
          if U[i][i] == 0.0 {
            return false;
          }
          FillL(L, U, a, n, i, j);
        }
      }
      j := j + 1;
    }
    PartialRow(L[..], U[..], a, n, i);
    ok := true;
  }

  /** The snapshots of the first m outer steps, numbered from 1. */
  ghost predicate Recorded(a: Matrix, n: nat, steps: seq<LUStep>, m: nat)
    requires IsSquare(a, n)
  {
    |steps| == m &&
    forall t :: 0 <= t < m ==>
      steps[t].number == t + 1 && LPartial(steps[t].l, a, n, t + 1, 0) && UPartial(steps[t].u, a, n, t + 1, 0)
  }

  /**
   * The fill of L and U. It stops with the index of the first pivot U[i][i]
   * that is zero while a row below still needs dividing by it; otherwise L and U
   * are Doolittle's factors and one snapshot is recorded per outer step.
   */
  method Decompose(a: Matrix, n: nat) returns (l: Matrix, u: Matrix, steps: seq<LUStep>, zeroPivot: Option<nat>)
    requires IsSquare(a, n)
    ensures zeroPivot.None? <==> PivotsNonZero(a, n)
    ensures zeroPivot.Some? ==>
      && zeroPivot.value < n - 1 && SpecU(a, n, zeroPivot.value, zeroPivot.value) == 0.0
      && forall i :: 0 <= i < zeroPivot.value ==> SpecU(a, n, i, i) != 0.0
    ensures zeroPivot.None? ==> IsLFactor(l, a, n) && IsUFactor(u, a, n) && Recorded(a, n, steps, n)
    ensures zeroPivot.None? ==> UnitLowerTriangular(l, n) && UpperTriangular(u, n)
  {
    var L := new seq<real>[n](_ => seq(n, _ => 0.0));
    var U := new seq<real>[n](_ => seq(n, _ => 0.0));
    PartialStart(a, n, L[..]);
    PartialStart(a, n, U[..]);
    steps := [];
    var i := 0;
    while i < n
      invariant i <= n
      invariant LPartial(L[..], a, n, i, 0) && UPartial(U[..], a, n, i, 0)
      invariant forall k :: 0 <= k < i && k < n - 1 ==> SpecU(a, n, k, k) != 0.0
      invariant Recorded(a, n, steps, i)
    {
      var ok := FillStep(L, U, a, n, i);
      if !ok {
        return L[..], U[..], steps, Some(i);
      }
      steps := steps + [LUStep(i + 1, L[..], U[..])];
      i := i + 1;
    }
    l, u, zeroPivot := L[..], U[..], None;
    FactorShapes(a, n, l, u);
  }

  // ----- Forward substitution: L*Y = B -----

  /** start - sum_{lo<=j<hi} row[j]*x[j], subtracted term by term as the page does. */
  method SubtractRow(row: Vector, x: array<real>, lo: nat, hi: nat, start: real) returns (acc: real)
    requires lo <= hi <= |row| && hi <= x.Length
    ensures acc == start - SumRange(row, x[..], lo, hi)
  {
    acc := start;
    for j := lo to hi
      invariant acc == start - SumRange(row, x[..], lo, j)
    {
      acc := acc - row[j] * x[j];
    }
  }

  /** Rows before m satisfy Y[i] = B[i] - sum_{j<i} L[i][j]*Y[j]. */
  ghost predicate ForwardRows(l: Matrix, b: Vector, y: Vector, n: nat, m: nat)
    requires IsSquare(l, n) && |b| == n && |y| == n && m <= n
  {
    forall i :: 0 <= i < m ==> y[i] + SumRange(l[i], y, 0, i) == b[i]
  }

  /** Row i reads y only below i, so changing y from m on keeps rows 0..m-1. */
  lemma ForwardRowsCongruent(l: Matrix, b: Vector, y: Vector, z: Vector, n: nat, m: nat)
    requires IsSquare(l, n) && |b| == n && |y| == n && |z| == n && m <= n
    requires forall j :: 0 <= j < m ==> y[j] == z[j]
    requires ForwardRows(l, b, y, n, m)
    ensures ForwardRows(l, b, z, n, m)
  {
    forall i | 0 <= i < m
      ensures z[i] + SumRange(l[i], z, 0, i) == b[i]
    {
      SumRangeCongruent(l[i], y, l[i], z, 0, i);
    }
  }

  lemma ForwardRowsExtend(l: Matrix, b: Vector, y: Vector, n: nat, m: nat)
    requires IsSquare(l, n) && |b| == n && |y| == n && m < n
    requires ForwardRows(l, b, y, n, m) && y[m] + SumRange(l[m], y, 0, m) == b[m]
    ensures ForwardRows(l, b, y, n, m + 1)
  {
  }

  /** On a row of a unit lower triangular matrix, the inner product is y[i] plus the part left of the diagonal. */
  lemma LowerRowSum(row: Vector, y: Vector, i: nat, n: nat)
    requires |row| == n && |y| == n && i < n && row[i] == 1.0
    requires forall j :: i < j < n ==> row[j] == 0.0
    ensures SumRange(row, y, 0, n) == y[i] + SumRange(row, y, 0, i)
  {
    SumRangeSplit(row, y, 0, i, n);
    SumRangeSplit(row, y, i, i + 1, n);
    SumRangeZero(row, y, i + 1, n);
    SumRangeOne(row, y, i);
  }

  /** With L unit lower triangular, the forward rows are exactly L*Y = B. */
  lemma ForwardSolves(l: Matrix, b: Vector, y: Vector, n: nat)
    requires IsSquare(l, n) && |b| == n && |y| == n && UnitLowerTriangular(l, n)
    requires ForwardRows(l, b, y, n, n)
    ensures Solves(l, b, y)
  {
    forall i | 0 <= i < n
      ensures Dot(l[i], y) == b[i]
    {
      LowerRowSum(l[i], y, i, n);
    }
  }

  /** The converse of ForwardSolves. */
  lemma SolvesForwardRows(l: Matrix, b: Vector, y: Vector, n: nat)
    requires IsSquare(l, n) && |b| == n && |y| == n && UnitLowerTriangular(l, n)
    requires Solves(l, b, y)
    ensures ForwardRows(l, b, y, n, n)
  {
    forall i | 0 <= i < n
      ensures y[i] + SumRange(l[i], y, 0, i) == b[i]
    {
      LowerRowSum(l[i], y, i, n);
    }
  }

  /** Forward substitution has one answer: two vectors meeting the forward rows agree below m. */
  lemma {:induction false} ForwardRowsAgree(l: Matrix, b: Vector, y: Vector, z: Vector, n: nat, m: nat)
    requires IsSquare(l, n) && |b| == n && |y| == n && |z| == n && m <= n
    requires ForwardRows(l, b, y, n, n) && ForwardRows(l, b, z, n, n)
    ensures forall i :: 0 <= i < m ==> y[i] == z[i]
  {
    if m > 0 {
      ForwardRowsAgree(l, b, y, z, n, m - 1);
      SumRangeCongruent(l[m - 1], y, l[m - 1], z, 0, m - 1);
    }
  }

  /** Forward substitution, subtracting left to right. */
  method ForwardSubstitute(l: Matrix, b: Vector, n: nat) returns (y: Vector)
    requires IsSquare(l, n) && |b| == n
    ensures |y| == n && ForwardRows(l, b, y, n, n)
  {
    var Y := new real[n](_ => 0.0);
    for i := 0 to n
      invariant ForwardRows(l, b, Y[..], n, i)
    {
      var acc := SubtractRow(l[i], Y, 0, i, b[i]);
      ghost var before := Y[..];
      Y[i] := acc;
      ForwardRowsCongruent(l, b, before, Y[..], n, i);
      SumRangeCongruent(l[i], before, l[i], Y[..], 0, i);
      ForwardRowsExtend(l, b, Y[..], n, i);
    }
    y := Y[..];
  }

  // ----- Back substitution: U*X = Y -----

  /** One line of the page's solution steps: "Solving for X<number>", with the value found. */
  datatype XStep = XStep(number: nat, value: real)

  /** Rows from m on satisfy X[i] = Y[i] - sum_{j>i} U[i][j]*X[j], without dividing by U[i][i]. */
  ghost predicate UndividedRows(u: Matrix, y: Vector, x: Vector, n: nat, m: nat)
    requires IsSquare(u, n) && |y| == n && |x| == n && m <= n
  {
    forall i :: m <= i < n ==> x[i] + SumRange(u[i], x, i + 1, n) == y[i]
  }

  /** Row i reads x only from i on, so changing x below m keeps rows m..n-1. */
  lemma UndividedRowsCongruent(u: Matrix, y: Vector, x: Vector, z: Vector, n: nat, m: nat)
    requires IsSquare(u, n) && |y| == n && |x| == n && |z| == n && m <= n
    requires forall j :: m <= j < n ==> x[j] == z[j]
    requires UndividedRows(u, y, x, n, m)
    ensures UndividedRows(u, y, z, n, m)
  {
    forall i | m <= i < n
      ensures z[i] + SumRange(u[i], z, i + 1, n) == y[i]
    {
      SumRangeCongruent(u[i], x, u[i], z, i + 1, n);
    }
  }

  lemma UndividedRowsExtend(u: Matrix, y: Vector, x: Vector, n: nat, m: nat)
    requires IsSquare(u, n) && |y| == n && |x| == n && m < n
    requires UndividedRows(u, y, x, n, m + 1) && x[m] + SumRange(u[m], x, m + 1, n) == y[m]
    ensures UndividedRows(u, y, x, n, m)
  {
  }

  /** The undivided rows say exactly that X solves UnitDiagonal(U) * X = Y. */
  lemma UndividedSolves(u: Matrix, y: Vector, x: Vector, n: nat)
    requires IsSquare(u, n) && |y| == n && |x| == n
    ensures UndividedRows(u, y, x, n, 0) <==> Solves(UnitDiagonal(u, n), y, x)
  {
    var d := UnitDiagonal(u, n);
    forall i | 0 <= i < n
      ensures Dot(d[i], x) == x[i] + SumRange(u[i], x, i + 1, n)
    {
      SumRangeSplit(d[i], x, 0, i, n);
      SumRangeSplit(d[i], x, i, i + 1, n);
      SumRangeZero(d[i], x, 0, i);
      SumRangeCongruent(d[i], x, u[i], x, i + 1, n);
    }
  }

  /** The page's back substitution, from the last row up, as written: no division by U[i][i]. */
  method BackSubstituteUndivided(u: Matrix, y: Vector, n: nat) returns (x: Vector, steps: seq<XStep>)
    requires IsSquare(u, n) && |y| == n
    ensures |x| == n && UndividedRows(u, y, x, n, 0)
    ensures |steps| == n && forall m :: 0 <= m < n ==> steps[m] == XStep(n - m, x[n - 1 - m])
  {
    var X := new real[n](_ => 0.0);
    steps := [];
    var i := n;
    while i > 0
      invariant i <= n && UndividedRows(u, y, X[..], n, i)
      invariant |steps| == n - i && forall m :: 0 <= m < n - i ==> steps[m] == XStep(n - m, X[n - 1 - m])
    {
      i := i - 1;
      var acc := SubtractRow(u[i], X, i + 1, n, y[i]);
      ghost var before := X[..];
      X[i] := acc;
      UndividedRowsCongruent(u, y, before, X[..], n, i + 1);
      SumRangeCongruent(u[i], before, u[i], X[..], i + 1, n);
      UndividedRowsExtend(u, y, X[..], n, i);
      steps := steps + [XStep(i + 1, acc)];
    }
    x := X[..];
  }

  /**
   * Back substitution with the division restored. It fails, reporting the row,
   * at the first zero pivot met from the bottom up.
   */
  method BackSubstituteDivided(u: Matrix, y: Vector, n: nat) returns (x: Vector, steps: seq<XStep>, zeroPivot: Option<nat>)
    requires IsSquare(u, n) && |y| == n
    ensures zeroPivot.None? <==> forall i :: 0 <= i < n ==> u[i][i] != 0.0
    ensures zeroPivot.Some? ==> zeroPivot.value < n && u[zeroPivot.value][zeroPivot.value] == 0.0
    ensures zeroPivot.None? ==> |x| == n && RowsSolved(u, y, x, n, 0)
    ensures zeroPivot.None? ==> |steps| == n && forall m :: 0 <= m < n ==> steps[m] == XStep(n - m, x[n - 1 - m])
  {
    var X := new real[n](_ => 0.0);
    steps := [];
    var i := n;
    while i > 0
      invariant i <= n && RowsSolved(u, y, X[..], n, i)
      invariant forall k :: i <= k < n ==> u[k][k] != 0.0
      invariant |steps| == n - i && forall m :: 0 <= m < n - i ==> steps[m] == XStep(n - m, X[n - 1 - m])
    {
      i := i - 1;
      if u[i][i] == 0.0 {
        return X[..], steps, Some(i);
      }
      var acc := SubtractRow(u[i], X, i + 1, n, y[i]);
      ghost var before := X[..];
      X[i] := acc / u[i][i];
      assert u[i][i] * X[i] == acc;
      SetDiagonal(u[i], before, X[..], i, n, y[i]);
      RowsSolvedCongruent(u, y, before, X[..], n, i + 1);
      RowsSolvedExtend(u, y, X[..], n, i);
      steps := steps + [XStep(i + 1, acc / u[i][i])];
    }
    x, zeroPivot := X[..], None;
  }

  // ----- The two solvers -----

  /** What the LU page shows: the factors, their snapshots, the solution and its steps; or the zero pivot met. */
  datatype LUOutcome =
    | Factored(l: Matrix, u: Matrix, steps: seq<LUStep>, solution: Vector, solutionSteps: seq<XStep>)
    | ZeroPivot(index: nat)

  /**
   * The LU page's solver as written. With non-zero pivots it returns Doolittle's
   * factors and an X that solves (L * UnitDiagonal(U)) X = B: the back
   * substitution never divides by U[i][i], so this is A X = B only when every
   * pivot is 1 (see AsWrittenUnitPivots and AsWrittenCounterexample).
   */
  method Solve(a: Matrix, b: Vector) returns (r: LUOutcome)
    requires IsSquare(a, |a|) && |b| == |a|
    ensures r.ZeroPivot? <==> !PivotsNonZero(a, |a|)
    ensures r.ZeroPivot? ==>
      && r.index < |a| - 1 && SpecU(a, |a|, r.index, r.index) == 0.0
      && forall i :: 0 <= i < r.index ==> SpecU(a, |a|, i, i) != 0.0
    ensures r.Factored? ==>
      && IsLFactor(r.l, a, |a|) && IsUFactor(r.u, a, |a|) && Recorded(a, |a|, r.steps, |a|)
      && |r.solution| == |a| && Solves(MatMul(r.l, UnitDiagonal(r.u, |a|), |a|), b, r.solution)
      && |r.solutionSteps| == |a|
      && forall m :: 0 <= m < |a| ==> r.solutionSteps[m] == XStep(|a| - m, r.solution[|a| - 1 - m])
  {
    var n := |a|;
    var l, u, steps, zeroPivot := Decompose(a, n);
    if zeroPivot.Some? {
      return ZeroPivot(zeroPivot.value);
    }
    var y := ForwardSubstitute(l, b, n);
    ForwardSolves(l, b, y, n);
    var x, xSteps := BackSubstituteUndivided(u, y, n);
    UndividedSolves(u, y, x, n);
    ProductSolves(l, UnitDiagonal(u, n), b, y, x, n);
    r := Factored(l, u, steps, x, xSteps);
  }

  /** When every pivot is 1, dividing would change nothing and the page's X solves A X = B. */
  lemma AsWrittenUnitPivots(a: Matrix, b: Vector, l: Matrix, u: Matrix, x: Vector)
    requires IsSquare(a, |a|) && |b| == |a| && |x| == |a|
    requires IsLFactor(l, a, |a|) && IsUFactor(u, a, |a|)
    requires forall i :: 0 <= i < |a| ==> SpecU(a, |a|, i, i) == 1.0
    requires Solves(MatMul(l, UnitDiagonal(u, |a|), |a|), b, x)
    ensures Solves(a, b, x)
  {
    var n := |a|;
    assert UnitDiagonal(u, n) == u by {
      var d := UnitDiagonal(u, n);
      assert forall r :: 0 <= r < n ==> d[r] == u[r];
    }
    Factorisation(a, n, l, u);
  }

  /**
   * The page's answer is wrong as soon as a pivot is not 1: for A = [[2]] and
   * B = [2] it reports X = [2], while A X = B needs X = [1].
   */
  lemma AsWrittenCounterexample(l: Matrix, u: Matrix, x: Vector)
    requires IsLFactor(l, [[2.0]], 1) && IsUFactor(u, [[2.0]], 1) && |x| == 1
    requires Solves(MatMul(l, UnitDiagonal(u, 1), 1), [2.0], x)
    ensures x == [2.0] && !Solves([[2.0]], [2.0], x)
  {
    var p := MatMul(l, UnitDiagonal(u, 1), 1);
    assert l[0][0] == 1.0;
    assert MulSum(l, UnitDiagonal(u, 1), 1, 0, 0, 0, 1) == 1.0;
    assert p[0][0] == 1.0;
    assert Dot(p[0], x) == x[0];
    assert x[0] == 2.0;
    assert Dot([2.0], x) == 4.0;
  }

  /**
   * What the corrected solver shows on success: Doolittle's factors and their
   * snapshots, the unique solution of A X = B, and its n steps from X_n down.
   */
  ghost predicate CorrectedOutcome(a: Matrix, b: Vector, r: LUOutcome)
    requires IsSquare(a, |a|) && |b| == |a|
  {
    && r.Factored?
    && IsLFactor(r.l, a, |a|) && IsUFactor(r.u, a, |a|) && Recorded(a, |a|, r.steps, |a|)
    && |r.solution| == |a| && Solves(a, b, r.solution)
    && (forall x :: |x| == |a| && Solves(a, b, x) ==> x == r.solution)
    && |r.solutionSteps| == |a|
    && forall m :: 0 <= m < |a| ==> r.solutionSteps[m] == XStep(|a| - m, r.solution[|a| - 1 - m])
  }

  /**
   * The LU solver with the division by U[i][i] restored. Whenever every pivot
   * is non-zero, X is the unique solution of A X = B; otherwise it reports the
   * pivot that is zero.
   */
  method SolveCorrected(a: Matrix, b: Vector) returns (r: LUOutcome)
    requires IsSquare(a, |a|) && |b| == |a|
    ensures r.ZeroPivot? <==> !AllPivotsNonZero(a, |a|)
    ensures r.ZeroPivot? ==> r.index < |a| && SpecU(a, |a|, r.index, r.index) == 0.0
    ensures r.Factored? ==> CorrectedOutcome(a, b, r)
  {
    var n := |a|;
    var l, u, steps, zeroPivot := Decompose(a, n);
    if zeroPivot.Some? {
      assert SpecU(a, n, zeroPivot.value, zeroPivot.value) == 0.0;
      return ZeroPivot(zeroPivot.value);
    }
    var y := ForwardSubstitute(l, b, n);
    ForwardSolves(l, b, y, n);
    var x, xSteps, lastPivot := BackSubstituteDivided(u, y, n);
    assert forall i :: 0 <= i < n ==> u[i][i] == SpecU(a, n, i, i);
    if lastPivot.Some? {
      assert SpecU(a, n, lastPivot.value, lastPivot.value) == 0.0;
      return ZeroPivot(lastPivot.value);
    }
    BackSubstitutionSolves(u, y, x, n);
    ProductSolves(l, u, b, y, x, n);
    Factorisation(a, n, l, u);
    UniqueThroughFactors(a, b, l, u, x, n);
    assert AllPivotsNonZero(a, n) by {
      forall i | 0 <= i < n
        ensures SpecU(a, n, i, i) != 0.0
      {
        assert u[i][i] != 0.0;
      }
    }
    r := Factored(l, u, steps, x, xSteps);
  }

  /** With unit L and non-singular U, A = L*U has at most one solution. */
  lemma UniqueThroughFactors(a: Matrix, b: Vector, l: Matrix, u: Matrix, x: Vector, n: nat)
    requires IsSquare(a, n) && IsSquare(l, n) && IsSquare(u, n) && |b| == n && |x| == n
    requires UnitLowerTriangular(l, n) && UpperTriangular(u, n) && (forall i :: 0 <= i < n ==> u[i][i] != 0.0)
    requires MatMul(l, u, n) == a && Solves(a, b, x)
    ensures forall z :: |z| == n && Solves(a, b, z) ==> z == x
  {
    forall z | |z| == n && Solves(a, b, z)
      ensures z == x
    {
      // u*x and u*z both solve l*w = b, so they agree; then x and z solve the same upper system.
      var wx, wz := MatVec(u, x), MatVec(u, z);
      FactorsSolve(l, u, b, x, n);
      FactorsSolve(l, u, b, z, n);
      SolvesForwardRows(l, b, wx, n);
      SolvesForwardRows(l, b, wz, n);
      ForwardRowsAgree(l, b, wx, wz, n, n);
      assert wx == wz;
      UpperSolutionUnique(u, wx, x, z, n);
    }
  }
}
