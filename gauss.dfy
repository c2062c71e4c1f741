/**
 * Gauss elimination with partial pivoting, as the Gauss elimination page
 * runs it: copy the system, pivot and eliminate column by column while
 * recording a snapshot after every swap and every elimination, then
 * back-substitute from the last row up, emitting one formula per row.
 */
module GaussElimination {
  import opened Wrappers
  import opened Numeric
  import opened Matrices

  /** The tolerance 1e-10 below which a pivot counts as zero. */
  const PivotTolerance: real := 0.0000000001

  /** What a snapshot records: the initial state, "Swapped row k+1 with row i+1", "Eliminated x(k+1) from row i+1". */
  datatype StepKind = Initial | Swapped(k: nat, i: nat) | Eliminated(k: nat, i: nat)

  /** One entry of the step trace: its description and copies of the matrix and vector. */
  datatype Step = Step(kind: StepKind, matrix: Matrix, vector: Vector)

  /**
   * The formula shown for row `index`: x = (rhs - sum of coefficients[j] * x_j) / divisor = value,
   * where coefficients are the entries right of the diagonal.
   */
  datatype Formula = Formula(index: nat, rhs: real, coefficients: seq<real>, divisor: real, value: real)

  /** The errors the solve can throw. */
  datatype GaussError = NotInitialized | Singular | DivisionByZero

  /** The page state after a solve: solution, steps and formulas, all cleared on an error. */
  datatype Outcome = Outcome(solution: Vector, steps: seq<Step>, formulas: seq<Formula>, error: Option<GaussError>)

  function Swap<T>(s: seq<T>, k: nat, i: nat): (r: seq<T>)
    requires k < |s| && i < |s|
    ensures |r| == |s| && r[k] == s[i] && r[i] == s[k]
    ensures forall j :: 0 <= j < |s| && j != k && j != i ==> r[j] == s[j]
  {
    s[k := s[i]][i := s[k]]
  }

  /** The multiple of row k that eliminates the entry in row i, column k. */
  function Factor(m: Matrix, n: nat, k: nat, i: nat): real
    requires IsSquare(m, n) && k < n && i < n && m[k][k] != 0.0
  {
    m[i][k] / m[k][k]
  }

  /** The textbook row operation: row i minus Factor times row k, over every column. */
  function EliminateRow(m: Matrix, n: nat, k: nat, i: nat): (r: Matrix)
    requires IsSquare(m, n) && k < n && i < n && m[k][k] != 0.0
    ensures IsSquare(r, n)
  {
    m[i := seq(n, j requires 0 <= j < n => m[i][j] - Factor(m, n, k, i) * m[k][j])]
  }

  /** The same row operation on the right-hand side. */
  function EliminateEntry(m: Matrix, v: Vector, n: nat, k: nat, i: nat): (r: Vector)
    requires IsSquare(m, n) && |v| == n && k < n && i < n && m[k][k] != 0.0
    ensures |r| == n
  {
    v[i := v[i] - Factor(m, n, k, i) * v[k]]
  }

  ghost predicate Shaped(s: Step, n: nat) {
    IsSquare(s.matrix, n) && |s.vector| == n
  }

  /**
   * The step `next` follows from `prev` by the operation its kind names:
   * a swap of row k with the first row i > k whose entry in column k exceeds
   * the tolerance, taken only when the pivot is below the tolerance; or the
   * elimination of column k from row i with a pivot at least the tolerance.
   */
  ghost predicate Transition(prev: Step, next: Step, n: nat)
    requires Shaped(prev, n)
  {
    match next.kind
    case Initial => false
    case Swapped(k, i) =>
      && k < i < n
      && Abs(prev.matrix[k][k]) < PivotTolerance
      && Abs(prev.matrix[i][k]) > PivotTolerance
      && (forall r :: k < r < i ==> Abs(prev.matrix[r][k]) <= PivotTolerance)
      && next.matrix == Swap(prev.matrix, k, i)
      && next.vector == Swap(prev.vector, k, i)
    case Eliminated(k, i) =>
      && k < i < n
      && Abs(prev.matrix[k][k]) >= PivotTolerance
      && next.matrix == EliminateRow(prev.matrix, n, k, i)
      && next.vector == EliminateEntry(prev.matrix, prev.vector, n, k, i)
  }

  /** A trace that starts at the system (a, b) and whose every step follows from the one before. */
  ghost predicate ValidTrace(a: Matrix, b: Vector, steps: seq<Step>) {
    && |steps| > 0
    && steps[0] == Step(Initial, a, b)
    && (forall t :: 0 <= t < |steps| ==> Shaped(steps[t], |a|))
    && (forall t :: 0 <= t < |steps| - 1 ==> Transition(steps[t], steps[t + 1], |a|))
  }

  /** The descriptions of a trace's steps, in order. */
  function Kinds(steps: seq<Step>): (r: seq<StepKind>)
    ensures |r| == |steps| && forall t :: 0 <= t < |steps| ==> r[t] == steps[t].kind
  {
    seq(|steps|, t requires 0 <= t < |steps| => steps[t].kind)
  }

  /** The steps recorded for pivot column k: an optional swap, then one elimination per row below k. */
  function Block(n: nat, k: nat, swap: Option<nat>): seq<StepKind>
    requires k < n
  {
    (if swap.Some? then [Swapped(k, swap.value)] else []) + Eliminations(n, k, n)
  }

  /** Eliminated(k, k+1), ..., Eliminated(k, i-1). */
  function Eliminations(n: nat, k: nat, i: nat): (r: seq<StepKind>)
    requires k < i <= n
    ensures |r| == i - k - 1
    ensures forall m :: 0 <= m < |r| ==> r[m] == Eliminated(k, k + 1 + m)
  {
    seq(i - k - 1, m requires 0 <= m < i - k - 1 => Eliminated(k, k + 1 + m))
  }

  /** The step kinds of the pivot columns 0 .. |swaps|-1, given which of them swapped with which row. */
  function Schedule(n: nat, swaps: seq<Option<nat>>): seq<StepKind>
    requires |swaps| <= n
  {
    if swaps == [] then [] else Schedule(n, swaps[..|swaps| - 1]) + Block(n, |swaps| - 1, swaps[|swaps| - 1])
  }

  lemma ScheduleAppend(n: nat, swaps: seq<Option<nat>>, swap: Option<nat>)
    requires |swaps| < n
    ensures [Initial] + Schedule(n, swaps + [swap])
         == [Initial] + Schedule(n, swaps) + (if swap.Some? then [Swapped(|swaps|, swap.value)] else []) + Eliminations(n, |swaps|, n)
  {
    assert (swaps + [swap])[..|swaps|] == swaps;
  }

  lemma EliminationsNext(prefix: seq<StepKind>, n: nat, k: nat, i: nat)
    requires k < i < n
    ensures prefix + Eliminations(n, k, i) + [Eliminated(k, i)] == prefix + Eliminations(n, k, i + 1)
  {
    assert Eliminations(n, k, i + 1) == Eliminations(n, k, i) + [Eliminated(k, i)];
  }

  function SwapCount(swaps: seq<Option<nat>>): (r: nat)
    ensures r <= |swaps|
  {
    if swaps == [] then 0 else SwapCount(swaps[..|swaps| - 1]) + (if swaps[|swaps| - 1].Some? then 1 else 0)
  }

  /** The matrix is stuck at column k: the pivot is below the tolerance and no row below can replace it. */
  ghost predicate Stuck(m: Matrix, n: nat, k: nat)
    requires IsSquare(m, n) && k < n
  {
    Abs(m[k][k]) < PivotTolerance && forall r :: k < r < n ==> Abs(m[r][k]) <= PivotTolerance
  }

  /** Columns before k are cleared below the diagonal and their pivots are at least the tolerance. */
  ghost predicate ReducedBefore(m: Matrix, n: nat, k: nat)
    requires IsSquare(m, n) && k <= n
  {
    && (forall r, c :: 0 <= c < k && c < r < n ==> m[r][c] == 0.0)
    && (forall c :: 0 <= c < k ==> Abs(m[c][c]) >= PivotTolerance)
  }

  // ----- Facts about the trace -----

  /** (n-1) + (n-2) + ... + (n-m): the eliminations of the first m pivot columns. */
  function EliminationCount(n: nat, m: nat): int {
    if m == 0 then 0 else EliminationCount(n, m - 1) + (n - m)
  }

  lemma {:induction false} EliminationCountClosed(n: nat, m: nat)
    ensures 2 * EliminationCount(n, m) == m * (2 * n - m - 1)
  {
    if m > 0 {
      EliminationCountClosed(n, m - 1);
      calc {
        2 * EliminationCount(n, m);
        2 * EliminationCount(n, m - 1) + 2 * (n - m);
        (m - 1) * (2 * n - (m - 1) - 1) + 2 * (n - m);
        { assert (m - 1) * (2 * n - m) == m * (2 * n - m) - (2 * n - m); }
        m * (2 * n - m) - (2 * n - m) + 2 * n - 2 * m;
        m * (2 * n - m) - m;
        m * (2 * n - m - 1);
      }
    }
  }

  lemma {:induction false} ScheduleLength(n: nat, swaps: seq<Option<nat>>)
    requires |swaps| <= n
    ensures |Schedule(n, swaps)| == EliminationCount(n, |swaps|) + SwapCount(swaps)
  {
    if swaps != [] {
      var m := |swaps|;
      ScheduleLength(n, swaps[..m - 1]);
      assert |Block(n, m - 1, swaps[m - 1])| == (n - m) + (if swaps[m - 1].Some? then 1 else 0);
    }
  }

  /** A complete trace has 1 + n(n-1)/2 steps plus one per swap, at most one swap per pivot column. */
  lemma TraceLength(steps: seq<Step>, n: nat, swaps: seq<Option<nat>>)
    requires |swaps| == n && Kinds(steps) == [Initial] + Schedule(n, swaps)
    ensures |steps| == 1 + n * (n - 1) / 2 + SwapCount(swaps)
    ensures |steps| <= 1 + n * (n - 1) / 2 + n
  {
    ScheduleLength(n, swaps);
    EliminationCountClosed(n, n);
    assert |steps| == |Kinds(steps)|;
  }

  /** A row swap does not change the set of solutions. */
  lemma SwapKeepsSolutions(m: Matrix, v: Vector, n: nat, k: nat, i: nat, y: Vector)
    requires IsSquare(m, n) && |v| == n && k < n && i < n
    ensures Solves(m, v, y) <==> Solves(Swap(m, k, i), Swap(v, k, i), y)
  {
    var m', v' := Swap(m, k, i), Swap(v, k, i);
    if Solves(m, v, y) {
      forall r | 0 <= r < n
        ensures |m'[r]| == |y| && Dot(m'[r], y) == v'[r]
      {
        var s := if r == k then i else if r == i then k else r;
        assert m'[r] == m[s] && v'[r] == v[s];
      }
    }
    if Solves(m', v', y) {
      forall r | 0 <= r < n
        ensures |m[r]| == |y| && Dot(m[r], y) == v[r]
      {
        var s := if r == k then i else if r == i then k else r;
        assert m[r] == m'[s] && v[r] == v'[s];
      }
    }
  }

  /** Only row i changes, by the combination Dot(m[i], y) - f * Dot(m[k], y). */
  lemma EliminatedDot(m: Matrix, v: Vector, n: nat, k: nat, i: nat, y: Vector)
    requires IsSquare(m, n) && |v| == n && k < n && i < n && k != i && m[k][k] != 0.0 && |y| == n
    ensures Dot(EliminateRow(m, n, k, i)[i], y) == Dot(m[i], y) - Factor(m, n, k, i) * Dot(m[k], y)
    ensures EliminateEntry(m, v, n, k, i)[i] == v[i] - Factor(m, n, k, i) * v[k]
    ensures forall r :: 0 <= r < n && r != i ==> EliminateRow(m, n, k, i)[r] == m[r] && EliminateEntry(m, v, n, k, i)[r] == v[r]
  {
    SumRangeCombine(m[i], m[k], EliminateRow(m, n, k, i)[i], Factor(m, n, k, i), y, 0, n);
  }

  /** Subtracting a multiple of another row does not change the set of solutions. */
  lemma EliminationKeepsSolutions(m: Matrix, v: Vector, n: nat, k: nat, i: nat, y: Vector)
    requires IsSquare(m, n) && |v| == n && k < n && i < n && k != i && m[k][k] != 0.0
    ensures Solves(m, v, y) <==> Solves(EliminateRow(m, n, k, i), EliminateEntry(m, v, n, k, i), y)
  {
    var m', v' := EliminateRow(m, n, k, i), EliminateEntry(m, v, n, k, i);
    if |y| == n {
      EliminatedDot(m, v, n, k, i, y);
      if Solves(m', v', y) {
        assert Dot(m[k], y) == v[k] by { assert Dot(m'[k], y) == v'[k]; }
        assert Dot(m[i], y) == v[i] by { assert Dot(m'[i], y) == v'[i]; }
        assert Solves(m, v, y) by {
          forall r | 0 <= r < n
            ensures Dot(m[r], y) == v[r]
          {
            if r != i {
              assert Dot(m'[r], y) == v'[r];
            }
          }
        }
      }
      if Solves(m, v, y) {
        assert Dot(m'[i], y) == v'[i] by { assert Dot(m[k], y) == v[k] && Dot(m[i], y) == v[i]; }
        assert Solves(m', v', y) by {
          forall r | 0 <= r < n
            ensures Dot(m'[r], y) == v'[r]
          {
            if r != i {
              assert Dot(m[r], y) == v[r];
            }
          }
        }
      }
    } else {
      assert !Solves(m, v, y) by { assert |m[0]| == n; }
      assert !Solves(m', v', y) by { assert |m'[0]| == n; }
    }
  }

  lemma TransitionKeepsSolutions(prev: Step, next: Step, n: nat, y: Vector)
    requires Shaped(prev, n) && Transition(prev, next, n)
    ensures Solves(prev.matrix, prev.vector, y) <==> Solves(next.matrix, next.vector, y)
  {
    match next.kind
    case Swapped(k, i) =>
      SwapKeepsSolutions(prev.matrix, prev.vector, n, k, i, y);
    case Eliminated(k, i) =>
      EliminationKeepsSolutions(prev.matrix, prev.vector, n, k, i, y);
  }

  /** Every state of a valid trace has exactly the solutions of the original system. */
  lemma {:induction false} TraceKeepsSolutions(a: Matrix, b: Vector, steps: seq<Step>, y: Vector)
    requires ValidTrace(a, b, steps)
    ensures Solves(a, b, y) <==> Solves(steps[|steps| - 1].matrix, steps[|steps| - 1].vector, y)
  {
    var t := |steps| - 1;
    if t > 0 {
      var front := steps[..t];
      assert ValidTrace(a, b, front) by {
        forall s | 0 <= s < |front| - 1
          ensures Transition(front[s], front[s + 1], |a|)
        {
          assert front[s] == steps[s] && front[s + 1] == steps[s + 1];
        }
      }
      TraceKeepsSolutions(a, b, front, y);
      TransitionKeepsSolutions(steps[t - 1], steps[t], |a|, y);
    }
  }

  lemma TraceExtend(a: Matrix, b: Vector, steps: seq<Step>, s: Step)
    requires ValidTrace(a, b, steps) && Shaped(s, |a|) && Transition(steps[|steps| - 1], s, |a|)
    ensures ValidTrace(a, b, steps + [s])
    ensures Kinds(steps + [s]) == Kinds(steps) + [s.kind]
  {
    var steps' := steps + [s];
    forall t | 0 <= t < |steps'| - 1
      ensures Transition(steps'[t], steps'[t + 1], |a|)
    {
      if t < |steps| - 1 {
        assert steps'[t] == steps[t] && steps'[t + 1] == steps[t + 1];
      }
    }
  }

  // ----- The elimination, in place on the copied arrays -----

  /** Row i after the code's update: columns before k untouched, the rest minus factor times row k. */
  function MaskedRow(m: Matrix, n: nat, k: nat, i: nat, factor: real): (r: seq<real>)
    requires IsSquare(m, n) && k < n && i < n
    ensures |r| == n
  {
    seq(n, j requires 0 <= j < n => if j < k then m[i][j] else m[i][j] - factor * m[k][j])
  }

  /** When rows i and k are zero before column k, the code's update is the full row operation. */
  lemma MaskedIsFull(m: Matrix, v: Vector, n: nat, k: nat, i: nat)
    requires IsSquare(m, n) && |v| == n && k < i < n && ReducedBefore(m, n, k) && m[k][k] != 0.0
    ensures m[i := MaskedRow(m, n, k, i, Factor(m, n, k, i))] == EliminateRow(m, n, k, i)
  {
    var f := Factor(m, n, k, i);
    assert MaskedRow(m, n, k, i, f) == EliminateRow(m, n, k, i)[i] by {
      forall j | 0 <= j < k ensures m[i][j] == m[i][j] - f * m[k][j] {
        assert m[i][j] == 0.0 && m[k][j] == 0.0;
      }
    }
  }

  /**
   * The inner loop of one elimination: for j = k .. n-1, a[i][j] -= factor * a[k][j].
   */
  method SubtractRow(a: array<seq<real>>, n: nat, k: nat, i: nat, factor: real)
    requires a.Length == n && IsSquare(a[..], n) && k < n && i < n && k != i
    modifies a
    ensures a[..] == old(a[..])[i := MaskedRow(old(a[..]), n, k, i, factor)]
  {
    ghost var before := a[..];
    var j := k;
    while j < n
      invariant k <= j <= n
      invariant a[..] == before[i := a[i]]
      invariant |a[i]| == n
      invariant forall c :: 0 <= c < n ==> a[i][c] == if k <= c < j then before[i][c] - factor * before[k][c] else before[i][c]
    {
      assert a[k] == before[k];
      a[i] := a[i][j := a[i][j] - factor * a[k][j]];
      j := j + 1;
    }
    forall c | 0 <= c < n
      ensures a[i][c] == MaskedRow(before, n, k, i, factor)[c]
    {
    }
    assert a[i] == MaskedRow(before, n, k, i, factor);
  }

  /** The elimination of column k from row i clears that entry and keeps the earlier columns reduced. */
  lemma EliminationReduces(m: Matrix, n: nat, k: nat, i: nat)
    requires IsSquare(m, n) && k < i < n && ReducedBefore(m, n, k) && m[k][k] != 0.0
    ensures ReducedBefore(EliminateRow(m, n, k, i), n, k)
    ensures EliminateRow(m, n, k, i)[i][k] == 0.0
    ensures forall r :: 0 <= r < n && r != i ==> EliminateRow(m, n, k, i)[r] == m[r]
  {
    var f := Factor(m, n, k, i);
    assert m[i][k] - f * m[k][k] == 0.0;
  }

  /** One elimination on the arrays: factor = a[i][k] / a[k][k], then row i and b[i] are updated. */
  method EliminateBelow(a: array<seq<real>>, v: array<real>, n: nat, k: nat, i: nat)
    requires a.Length == n && v.Length == n && IsSquare(a[..], n) && k < i < n
    requires ReducedBefore(a[..], n, k) && Abs(a[k][k]) >= PivotTolerance
    modifies a, v
    ensures a[..] == EliminateRow(old(a[..]), n, k, i)
    ensures v[..] == EliminateEntry(old(a[..]), old(v[..]), n, k, i)
  {
    ghost var m := a[..];
    ghost var w := v[..];
    var factor := a[i][k] / a[k][k];
    assert factor == Factor(m, n, k, i);
    SubtractRow(a, n, k, i, factor);
    MaskedIsFull(m, w, n, k, i);
    assert a[..] == EliminateRow(m, n, k, i);
    assert v[..] == w;
    ghost var vi := w[i] - Factor(m, n, k, i) * w[k];
    assert v[i] - factor * v[k] == vi;
    v[i] := v[i] - factor * v[k];
    assert v[..] == w[i := vi];
    EntryUpdate(m, w, n, k, i, vi);
  }

  lemma EntryUpdate(m: Matrix, w: Vector, n: nat, k: nat, i: nat, vi: real)
    requires IsSquare(m, n) && |w| == n && k < n && i < n && m[k][k] != 0.0
    requires vi == w[i] - Factor(m, n, k, i) * w[k]
    ensures EliminateEntry(m, w, n, k, i) == w[i := vi]
  {
  }

  /** Appending the elimination of column k from row i to a valid trace keeps it valid. */
  lemma RecordElimination(a0: Matrix, b0: Vector, steps: seq<Step>, m: Matrix, w: Vector, n: nat, k: nat, i: nat)
    requires |a0| == n && ValidTrace(a0, b0, steps) && steps[|steps| - 1].matrix == m && steps[|steps| - 1].vector == w
    requires IsSquare(m, n) && |w| == n && k < i < n && Abs(m[k][k]) >= PivotTolerance
    ensures ValidTrace(a0, b0, steps + [Step(Eliminated(k, i), EliminateRow(m, n, k, i), EliminateEntry(m, w, n, k, i))])
    ensures Kinds(steps + [Step(Eliminated(k, i), EliminateRow(m, n, k, i), EliminateEntry(m, w, n, k, i))]) == Kinds(steps) + [Eliminated(k, i)]
  {
    TraceExtend(a0, b0, steps, Step(Eliminated(k, i), EliminateRow(m, n, k, i), EliminateEntry(m, w, n, k, i)));
  }

  /** for i = k+1 .. n-1: eliminate column k from row i and record the step. */
  method EliminateColumn(a: array<seq<real>>, v: array<real>, n: nat, k: nat,
                         ghost a0: Matrix, ghost b0: Vector, steps: seq<Step>, ghost prefix: seq<StepKind>)
    returns (steps': seq<Step>)
    requires a.Length == n && v.Length == n && IsSquare(a[..], n) && k < n && |a0| == n
    requires ReducedBefore(a[..], n, k) && Abs(a[k][k]) >= PivotTolerance
    requires ValidTrace(a0, b0, steps) && steps[|steps| - 1] == Step(steps[|steps| - 1].kind, a[..], v[..])
    requires Kinds(steps) == prefix
    modifies a, v
    ensures IsSquare(a[..], n) && ReducedBefore(a[..], n, k + 1)
    ensures ValidTrace(a0, b0, steps') && steps'[|steps'| - 1] == Step(steps'[|steps'| - 1].kind, a[..], v[..])
    ensures Kinds(steps') == prefix + Eliminations(n, k, n)
  {
    steps' := steps;
    var i := k + 1;
    while i < n
      invariant k + 1 <= i <= n
      invariant IsSquare(a[..], n) && ReducedBefore(a[..], n, k)
      invariant a[k] == old(a[k])
      invariant forall r :: k < r < i ==> a[r][k] == 0.0
      invariant ValidTrace(a0, b0, steps') && steps'[|steps'| - 1] == Step(steps'[|steps'| - 1].kind, a[..], v[..])
      invariant Kinds(steps') == prefix + Eliminations(n, k, i)
    {
      ghost var m := a[..];
      ghost var w := v[..];
      EliminateBelow(a, v, n, k, i);
      EliminationReduces(m, n, k, i);
      RecordElimination(a0, b0, steps', m, w, n, k, i);
      steps' := steps' + [Step(Eliminated(k, i), a[..], v[..])];
      EliminationsNext(prefix, n, k, i);
      i := i + 1;
    }
    ReducedNext(a[..], n, k);
  }

  /** Once column k is cleared below a pivot at least the tolerance, columns 0..k are reduced. */
  lemma ReducedNext(m: Matrix, n: nat, k: nat)
    requires IsSquare(m, n) && k < n && ReducedBefore(m, n, k) && Abs(m[k][k]) >= PivotTolerance
    requires forall r :: k < r < n ==> m[r][k] == 0.0
    ensures ReducedBefore(m, n, k + 1)
  {
  }

  /**
   * Swapping in row i for a pivot of column k below the tolerance, when every row
   * between them is below the tolerance too and row i exceeds it, extends a valid
   * trace and keeps the earlier columns reduced.
   */
  lemma RecordSwap(a0: Matrix, b0: Vector, steps: seq<Step>, m: Matrix, w: Vector, n: nat, k: nat, i: nat)
    requires |a0| == n && ValidTrace(a0, b0, steps) && steps[|steps| - 1].matrix == m && steps[|steps| - 1].vector == w
    requires IsSquare(m, n) && |w| == n && k < i < n && ReducedBefore(m, n, k)
    requires Abs(m[k][k]) < PivotTolerance && Abs(m[i][k]) > PivotTolerance
    requires forall r :: k < r < i ==> Abs(m[r][k]) <= PivotTolerance
    ensures ValidTrace(a0, b0, steps + [Step(Swapped(k, i), Swap(m, k, i), Swap(w, k, i))])
    ensures Kinds(steps + [Step(Swapped(k, i), Swap(m, k, i), Swap(w, k, i))]) == Kinds(steps) + [Swapped(k, i)]
    ensures IsSquare(Swap(m, k, i), n) && ReducedBefore(Swap(m, k, i), n, k)
  {
    TraceExtend(a0, b0, steps, Step(Swapped(k, i), Swap(m, k, i), Swap(w, k, i)));
  }

  /**
   * The pivot search for column k when its pivot is below the tolerance: swap in the
   * first row i > k whose entry in column k exceeds the tolerance, recording the
   * swap; when none does, nothing changes and the matrix is stuck at column k.
   */
  method SwapInPivot(a: array<seq<real>>, v: array<real>, n: nat, k: nat,
                     ghost a0: Matrix, ghost b0: Vector, steps: seq<Step>, ghost prefix: seq<StepKind>)
    returns (steps': seq<Step>, swap: Option<nat>, found: bool)
    requires a.Length == n && v.Length == n && IsSquare(a[..], n) && k < n && |a0| == n
    requires ReducedBefore(a[..], n, k) && Abs(a[k][k]) < PivotTolerance
    requires ValidTrace(a0, b0, steps) && steps[|steps| - 1] == Step(steps[|steps| - 1].kind, a[..], v[..])
    requires Kinds(steps) == prefix
    modifies a, v
    ensures IsSquare(a[..], n) && ReducedBefore(a[..], n, k)
    ensures ValidTrace(a0, b0, steps') && steps'[|steps'| - 1] == Step(steps'[|steps'| - 1].kind, a[..], v[..])
    ensures found <==> swap.Some?
    ensures found ==> k < swap.value < n && Abs(a[k][k]) > PivotTolerance
    ensures Kinds(steps') == prefix + (if found then [Swapped(k, swap.value)] else [])
    ensures !found ==> Stuck(a[..], n, k)
  {
    steps', swap, found := steps, None, false;
    var i := k + 1;
    while i < n && !found
      invariant k + 1 <= i <= n
      decreases n - i, if found then 0 else 1
      invariant IsSquare(a[..], n) && ReducedBefore(a[..], n, k)
      invariant ValidTrace(a0, b0, steps') && steps'[|steps'| - 1] == Step(steps'[|steps'| - 1].kind, a[..], v[..])
      invariant found <==> swap.Some?
      invariant !found ==> Abs(a[k][k]) < PivotTolerance && forall r :: k < r < i ==> Abs(a[r][k]) <= PivotTolerance
      invariant found ==> k < swap.value < n && Abs(a[k][k]) > PivotTolerance
      invariant Kinds(steps') == prefix + (if found then [Swapped(k, swap.value)] else [])
    {
      if Abs(a[i][k]) > PivotTolerance {
        ghost var m := a[..];
        ghost var w := v[..];
        a[k], a[i] := a[i], a[k];
        v[k], v[i] := v[i], v[k];
        assert a[..] == Swap(m, k, i) && v[..] == Swap(w, k, i);
        RecordSwap(a0, b0, steps', m, w, n, k, i);
        steps' := steps' + [Step(Swapped(k, i), a[..], v[..])];
        swap, found := Some(i), true;
      } else {
        i := i + 1;
      }
    }
  }

  /**
   * The forward phase: for every pivot column k, swap in the first usable row
   * when the pivot is below the tolerance (or report the matrix singular),
   * then eliminate the column below the pivot.
   */
  method ForwardEliminate(a: array<seq<real>>, v: array<real>, n: nat, ghost a0: Matrix, ghost b0: Vector)
    returns (steps: seq<Step>, singular: bool, ghost swaps: seq<Option<nat>>)
    requires a.Length == n && v.Length == n && IsSquare(a0, n) && a[..] == a0 && v[..] == b0
    modifies a, v
    ensures IsSquare(a[..], n) && |swaps| <= n
    ensures ValidTrace(a0, b0, steps) && steps[|steps| - 1].matrix == a[..] && steps[|steps| - 1].vector == v[..]
    ensures Kinds(steps) == [Initial] + Schedule(n, swaps)
    ensures singular ==> |swaps| < n && Stuck(a[..], n, |swaps|)
    ensures !singular ==> |swaps| == n && ReducedBefore(a[..], n, n)
  {
    steps := [Step(Initial, a[..], v[..])];
    swaps := [];
    singular := false;
    var k := 0;
    while k < n
      invariant 0 <= k <= n && |swaps| == k
      invariant IsSquare(a[..], n) && ReducedBefore(a[..], n, k)
      invariant ValidTrace(a0, b0, steps) && steps[|steps| - 1] == Step(steps[|steps| - 1].kind, a[..], v[..])
      invariant Kinds(steps) == [Initial] + Schedule(n, swaps)
    {
      var swap: Option<nat> := None;
      if Abs(a[k][k]) < PivotTolerance {
        var found;
        steps, swap, found := SwapInPivot(a, v, n, k, a0, b0, steps, [Initial] + Schedule(n, swaps));
        if !found {
          singular := true;
          return;
        }
      }
      ghost var prefix := [Initial] + Schedule(n, swaps) + (if swap.Some? then [Swapped(k, swap.value)] else []);
      steps := EliminateColumn(a, v, n, k, a0, b0, steps, prefix);
      ScheduleAppend(n, swaps, swap);
      swaps := swaps + [swap];
      k := k + 1;
    }
  }

  /** The formula recorded for row i once x_i has the given value. */
  function RowFormula(u: Matrix, c: Vector, n: nat, i: nat, value: real): Formula
    requires IsSquare(u, n) && |c| == n && i < n
  {
    Formula(i, c[i], u[i][i + 1..], u[i][i], value)
  }

  /**
   * Back substitution from row n-1 up to row 0: x[i] = (c[i] - sum_{j>i} u[i][j]*x[j]) / u[i][i],
   * with one formula per row in that order. It reports a division by zero when a
   * diagonal entry is below the tolerance.
   */
  method BackSubstitute(u: Matrix, c: Vector, n: nat) returns (x: Vector, formulas: seq<Formula>, ok: bool)
    requires IsSquare(u, n) && |c| == n
    ensures ok <==> forall i :: 0 <= i < n ==> Abs(u[i][i]) >= PivotTolerance
    ensures ok ==> |x| == n && |formulas| == n && RowsSolved(u, c, x, n, 0)
    ensures ok ==> forall m :: 0 <= m < n ==> formulas[m] == RowFormula(u, c, n, n - 1 - m, x[n - 1 - m])
    ensures ok && UpperTriangular(u, n) ==> Solves(u, c, x)
  {
    var xs := new real[n](_ => 0.0);
    formulas := [];
    var i := n;
    while i > 0
      invariant 0 <= i <= n && |formulas| == n - i
      invariant forall r :: i <= r < n ==> Abs(u[r][r]) >= PivotTolerance
      invariant RowsSolved(u, c, xs[..], n, i)
      invariant forall m :: 0 <= m < n - i ==> formulas[m] == RowFormula(u, c, n, n - 1 - m, xs[n - 1 - m])
    {
      i := i - 1;
      if Abs(u[i][i]) < PivotTolerance {
        x, ok := [], false;
        return;
      }
      var sum := 0.0;
      var j := i + 1;
      while j < n
        invariant i + 1 <= j <= n
        invariant sum == SumRange(u[i], xs[..], i + 1, j)
      {
        sum := sum + u[i][j] * xs[j];
        j := j + 1;
      }
      ghost var before := xs[..];
      xs[i] := (c[i] - sum) / u[i][i];
      assert u[i][i] * xs[i] == c[i] - sum;
      SetDiagonal(u[i], before, xs[..], i, n, c[i]);
      RowsSolvedCongruent(u, c, before, xs[..], n, i + 1);
      RowsSolvedExtend(u, c, xs[..], n, i);
      formulas := formulas + [RowFormula(u, c, n, i, xs[i])];
    }
    x, ok := xs[..], true;
    if UpperTriangular(u, n) {
      BackSubstitutionSolves(u, c, x, n);
    }
  }

  /**
   * A solution of the reduced system at the end of a valid trace solves the original
   * system, and is its only solution when the reduced matrix is upper triangular with
   * a non-zero diagonal.
   */
  lemma SolutionOfOriginal(a: Matrix, b: Vector, steps: seq<Step>, u: Matrix, c: Vector, x: Vector, n: nat)
    requires |a| == n && n > 0 && ValidTrace(a, b, steps) && |x| == n
    requires steps[|steps| - 1].matrix == u && steps[|steps| - 1].vector == c
    requires IsSquare(u, n) && UpperTriangular(u, n) && forall i :: 0 <= i < n ==> u[i][i] != 0.0
    requires Solves(u, c, x)
    ensures Solves(a, b, x)
    ensures forall y :: Solves(a, b, y) ==> y == x
  {
    TraceKeepsSolutions(a, b, steps, x);
    forall y | Solves(a, b, y)
      ensures y == x
    {
      TraceKeepsSolutions(a, b, steps, y);
      assert |y| == n by { assert |u[0]| == |y|; }
      UpperSolutionUnique(u, c, x, y, n);
    }
  }

  lemma RowQuotient(row: Vector, x: Vector, i: nat, n: nat, ci: real)
    requires i < n && |row| == n && |x| == n && row[i] != 0.0 && SumRange(row, x, i, n) == ci
    ensures x[i] == (ci - SumRange(row, x, i + 1, n)) / row[i]
  {
    SumFromDiagonal(row, x, i, n);
  }

  /** Every diagonal entry is non-zero and every x[i] is the displayed quotient (c[i] - sum_{j>i} u[i][j]*x[j]) / u[i][i]. */
  ghost predicate BackSubstituted(u: Matrix, c: Vector, x: Vector, n: nat)
    requires IsSquare(u, n) && |c| == n && |x| == n
  {
    forall i :: 0 <= i < n ==> u[i][i] != 0.0 && x[i] == (c[i] - SumRange(u[i], x, i + 1, n)) / u[i][i]
  }

  /** With a non-zero diagonal, each solved row gives x[i] as the displayed back-substitution quotient. */
  lemma UpperFormulas(u: Matrix, c: Vector, x: Vector, n: nat)
    requires IsSquare(u, n) && |c| == n && |x| == n && RowsSolved(u, c, x, n, 0)
    requires forall i :: 0 <= i < n ==> u[i][i] != 0.0
    ensures BackSubstituted(u, c, x, n)
  {
    forall i | 0 <= i < n
      ensures x[i] == (c[i] - SumRange(u[i], x, i + 1, n)) / u[i][i]
    {
      RowQuotient(u[i], x, i, n, c[i]);
    }
  }

  /**
   * What a successful solve of a * x = b displays: the unique solution of the
   * original system, a valid trace of the expected shape ending in an upper
   * triangular system with pivots at least the tolerance, from which the
   * solution is read off by back substitution, and the n formulas for rows
   * n-1 down to 0.
   */
  ghost predicate SolvedOutcome(a: Matrix, b: Vector, r: Outcome)
    requires IsSquare(a, |a|) && |b| == |a|
  {
    var n := |a|;
    && r.error.None?
    && |r.solution| == n
    && Solves(a, b, r.solution)
    && (forall y :: Solves(a, b, y) ==> y == r.solution)
    && ValidTrace(a, b, r.steps)
    && (exists swaps :: |swaps| == n && Kinds(r.steps) == [Initial] + Schedule(n, swaps))
    && var last := r.steps[|r.steps| - 1];
       && IsSquare(last.matrix, n) && |last.vector| == n
       && UpperTriangular(last.matrix, n)
       && (forall i :: 0 <= i < n ==> Abs(last.matrix[i][i]) >= PivotTolerance)
       && BackSubstituted(last.matrix, last.vector, r.solution, n)
       && |r.formulas| == n
       && (forall m :: 0 <= m < n ==> r.formulas[m] == RowFormula(last.matrix, last.vector, n, n - 1 - m, r.solution[n - 1 - m]))
  }

  /** The results of the two phases, put together, make a successful outcome. */
  lemma SuccessOutcome(a: Matrix, b: Vector, steps: seq<Step>, swaps: seq<Option<nat>>,
                       u: Matrix, c: Vector, x: Vector, formulas: seq<Formula>)
    requires IsSquare(a, |a|) && |b| == |a| && |a| > 0
    requires ValidTrace(a, b, steps) && steps[|steps| - 1].matrix == u && steps[|steps| - 1].vector == c
    requires |swaps| == |a| && Kinds(steps) == [Initial] + Schedule(|a|, swaps)
    requires IsSquare(u, |a|) && |c| == |a| && ReducedBefore(u, |a|, |a|)
    requires |x| == |a| && RowsSolved(u, c, x, |a|, 0)
    requires |formulas| == |a| && forall m :: 0 <= m < |a| ==> formulas[m] == RowFormula(u, c, |a|, |a| - 1 - m, x[|a| - 1 - m])
    ensures SolvedOutcome(a, b, Outcome(x, steps, formulas, None))
  {
    var n := |a|;
    assert UpperTriangular(u, n);
    BackSubstitutionSolves(u, c, x, n);
    SolutionOfOriginal(a, b, steps, u, c, x, n);
    UpperFormulas(u, c, x, n);
  }

  /**
   * The solve: copy MatrixA and MatrixB, eliminate forward, back-substitute.
   * On success x is the unique solution of the ORIGINAL system; on any error
   * the solution, steps and formulas are cleared. The division-by-zero error of
   * back substitution cannot happen, because forward elimination leaves every
   * pivot at least the tolerance.
   */
  method Solve(aIn: Matrix, bIn: Vector) returns (r: Outcome)
    requires IsSquare(aIn, |aIn|) && |bIn| == |aIn|
    ensures r.error == Some(NotInitialized) <==> |aIn| == 0
    ensures r.error != Some(DivisionByZero)
    ensures r.error.Some? ==> r.solution == [] && r.steps == [] && r.formulas == []
    ensures r.error == Some(Singular) ==>
      exists steps: seq<Step>, swaps: seq<Option<nat>> ::
        && ValidTrace(aIn, bIn, steps) && |swaps| < |aIn|
        && Kinds(steps) == [Initial] + Schedule(|aIn|, swaps)
        && Stuck(steps[|steps| - 1].matrix, |aIn|, |swaps|)
    ensures r.error.None? ==> SolvedOutcome(aIn, bIn, r)
  {
    var n := |aIn|;
    if n == 0 {
      return Outcome([], [], [], Some(NotInitialized));
    }
    var a := new seq<real>[n](i requires 0 <= i < n => aIn[i]);
    var v := new real[n](i requires 0 <= i < n => bIn[i]);
    assert a[..] == aIn && v[..] == bIn;
    var steps, singular, swaps := ForwardEliminate(a, v, n, aIn, bIn);
    if singular {
      return Outcome([], [], [], Some(Singular));
    }
    var u, c := a[..], v[..];
    var x, formulas, ok := BackSubstitute(u, c, n);
    if !ok {
      return Outcome([], [], [], Some(DivisionByZero));
    }
    SuccessOutcome(aIn, bIn, steps, swaps, u, c, x, formulas);
    r := Outcome(x, steps, formulas, None);
  }
}
