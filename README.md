# Numerical methods pages, modelled in Dafny

This project models the computations behind the pages of a numerical methods
teaching web application:

- Two direct solvers for `A x = b`. Gauss elimination with partial pivoting keeps
  a snapshot trace and one back-substitution formula per row. LU decomposition
  (Doolittle, no pivoting) keeps one L/U snapshot per outer step and one
  solution step per row.
- Root finding. Bisection and false position share the sign-test bracket update,
  the percent-error test and the cap of 50 passes. The secant method, with its
  iteration-0 seed row. Newton-Raphson. The graphical method, a 101-sample scan
  for the smallest |f(x)|.
- Interpolation over the points the user selected. Lagrange interpolation, the
  linear spline, and the checkbox handler that toggles a point's selection.

Every number is a Dafny `real`, so arithmetic is exact. The constants are the
pages' own:

- the pivot tolerance 1e-10;
- the stopping tolerance 0.000001;
- the cap of 50 passes;
- the 100 steps of the graphical scan.

Code that changes state step by step is modelled as imperative Dafny:

- The Gauss solver swaps and updates the rows of an `array<seq<real>>` in place.
- The LU solver fills `L`, `U`, `Y` and `X` entry by entry in arrays.
- The root finders are `while` loops on their own variables.
- The Lagrange and spline loops are `for` loops.

Each method is proved against a reference definition. For the solvers these are
trace transitions and Doolittle's recurrences. For the iterative pages they are
recursive `Run` functions that follow the loop pass by pass. The page's promises
are proved as lemmas about those definitions: solutions preserved,
triangularity, bracket invariants, chained and numbered tables, interpolation
identities.

Files:

- `common.dfy`: `Option`, absolute value, powers of two.
- `matrices.dfy`: matrices as sequences of rows, sums, products, triangular systems.
- `gauss.dfy`, `lu.dfy`: the two solvers.
- `consistency.dfy`: the Gauss solver and the corrected LU solver side by side.
- `rootcommon.dfy`: the percent error and the bracket update shared by bisection and false position.
- `bisection.dfy`, `falseposition.dfy`, `secant.dfy`, `newton.dfy`, `graphical.dfy`: the root finders.
- `selection.dfy`, `lagrange.dfy`, `spline.dfy`: interpolation.

## Behaviour worth noting

- The LU page's back substitution does not divide by `U[i][i]`. See Findings.
- The LU page never swaps rows. A zero pivot stops it even when the system is
  solvable after a row swap, as Gauss elimination solves it.
- The Gauss pivot search accepts a row only when `|A[i][k]| > 1e-10`, a strict
  inequality.
- The spline uses the selected points in selection order, without sorting.
  When several intervals contain the query, the LAST one wins.
- For the quadratic and cubic spline choices the page computes nothing and sets
  the result to `undefined`.
- A spline query outside every interval also yields `undefined` (`Undefined`).
- The Newton-Raphson and Lagrange code has no division-by-zero check. How the
  model treats those cases is under Left out.

## Model

| member | source | states |
|---|---|---|
| GaussElimination.Swap | src/pages/linear-algebra/GaussEliminationMethods.jsx:69-70 | the swap exchanges entries k and i and leaves every other entry as it was |
| GaussElimination.SwapKeepsSolutions | src/pages/linear-algebra/GaussEliminationMethods.jsx:69-70 | swapping two rows of A and the same two entries of b keeps exactly the same solutions (both directions) |
| GaussElimination.EliminationKeepsSolutions | src/pages/linear-algebra/GaussEliminationMethods.jsx:81-86 | subtracting factor times the pivot row from row i, in A and b, keeps exactly the same solutions (both directions) |
| GaussElimination.MaskedIsFull | src/pages/linear-algebra/GaussEliminationMethods.jsx:83-85 | updating only the columns j >= k is the full row operation, because the entries left of column k are already zero |
| GaussElimination.EliminationReduces | src/pages/linear-algebra/GaussEliminationMethods.jsx:81-88 | an elimination makes entry (i, k) exactly zero, keeps the columns before k reduced and changes no other row |
| GaussElimination.TraceKeepsSolutions | src/pages/linear-algebra/GaussEliminationMethods.jsx:61-88 | along a valid trace from the initial snapshot, the last snapshot's system has exactly the solutions of the original system |
| GaussElimination.TraceLength | src/pages/linear-algebra/GaussEliminationMethods.jsx:61-88 | a trace of the page's shape has 1 + n(n-1)/2 + (number of swaps) snapshots, so at most 1 + n(n-1)/2 + n |
| GaussElimination.EliminateBelow | src/pages/linear-algebra/GaussEliminationMethods.jsx:82-86 | the in-place update of row i and b[i] leaves the arrays equal to the textbook row operation on the old state |
| GaussElimination.EliminateColumn | src/pages/linear-algebra/GaussEliminationMethods.jsx:81-88 | eliminating below pivot k zeroes column k below the diagonal and appends one valid snapshot per row k+1..n-1, in that order |
| GaussElimination.SwapInPivot | src/pages/linear-algebra/GaussEliminationMethods.jsx:65-78 | with a pivot below the tolerance, the first row i > k with an entry above the tolerance is swapped in and recorded; when there is none, column k is stuck |
| GaussElimination.ForwardEliminate | src/pages/linear-algebra/GaussEliminationMethods.jsx:61-89 | forward elimination either stops at a stuck pivot column or leaves A upper triangular with every pivot at least the tolerance; the trace is valid and has the page's shape |
| GaussElimination.BackSubstitute | src/pages/linear-algebra/GaussEliminationMethods.jsx:92-109 | it reports a division by zero exactly when some diagonal entry is below the tolerance; otherwise each row's equation holds, an upper triangular system is solved, and n formulas are produced for rows n-1 down to 0 |
| GaussElimination.SolutionOfOriginal | src/pages/linear-algebra/GaussEliminationMethods.jsx:63-109 | a solution of the final triangular system solves the original system, and it is the only solution |
| GaussElimination.UpperFormulas | src/pages/linear-algebra/GaussEliminationMethods.jsx:98-107 | each x[i] is the displayed quotient (b[i] - sum over j > i of A[i][j] x[j]) / A[i][i] |
| GaussElimination.Solve | src/pages/linear-algebra/GaussEliminationMethods.jsx:38-131 | an empty system is "not initialized"; the division-by-zero error never happens; every error clears solution, steps and formulas; "singular" means a valid trace reached a stuck column; success gives the unique solution of the original system, a valid trace of the expected shape and the n formulas |
| Matrices.BackSubstitutionSolves | src/pages/linear-algebra/GaussEliminationMethods.jsx:92-109 | for an upper triangular system, rows that hold when summed from the diagonal on make x a solution |
| Matrices.ProductSolves | src/pages/linear-algebra/LUDecompositionMethods.jsx:79-107 | solving L y = b and then U x = y solves (L U) x = b |
| LUDecomposition.FactorShapes | src/pages/linear-algebra/LUDecompositionMethods.jsx:50-71 | L has ones on the diagonal and zeros above it; U has zeros below the diagonal |
| LUDecomposition.Factorisation | src/pages/linear-algebra/LUDecompositionMethods.jsx:55-72 | when every pivot the code divides by is non-zero, L times U is A |
| LUDecomposition.SubtractProducts | src/pages/linear-algebra/LUDecompositionMethods.jsx:58-61 | the running subtraction leaves the start value minus the sum of the products L[r][k] U[k][c] for k < m |
| LUDecomposition.FillStep | src/pages/linear-algebra/LUDecompositionMethods.jsx:56-72 | outer step i fills row i of U and column i of L with Doolittle's entries; it stops only where it would divide by a zero pivot |
| LUDecomposition.Decompose | src/pages/linear-algebra/LUDecompositionMethods.jsx:49-77 | it stops exactly when a pivot U[i][i] is zero for some i < n-1, and reports the first such pivot; otherwise L and U are Doolittle's factors, triangular, with one snapshot per outer step numbered from 1 |
| LUDecomposition.ForwardSubstitute | src/pages/linear-algebra/LUDecompositionMethods.jsx:79-92 | Y[i] = B[i] - sum over j < i of L[i][j] Y[j], for every row, with no division |
| LUDecomposition.ForwardSolves | src/pages/linear-algebra/LUDecompositionMethods.jsx:83-87 | with unit lower triangular L, those rows are exactly L Y = B |
| LUDecomposition.BackSubstituteUndivided | src/pages/linear-algebra/LUDecompositionMethods.jsx:94-107 | X[i] = Y[i] - sum over j > i of U[i][j] X[j] for every row; n solution steps are produced for X_n down to X_1 |
| LUDecomposition.UndividedSolves | src/pages/linear-algebra/LUDecompositionMethods.jsx:98-102 | those rows hold if and only if X solves the system whose U has its diagonal replaced by ones |
| LUDecomposition.Solve | src/pages/linear-algebra/LUDecompositionMethods.jsx:44-114 | as written: it reports the first zero pivot it would divide by, exactly when one exists; otherwise it returns Doolittle's factors, n snapshots, an X solving (L times U with a unit diagonal) X = B, and n solution steps |
| LUDecomposition.AsWrittenUnitPivots | src/pages/linear-algebra/LUDecompositionMethods.jsx:98-102 | when every pivot is 1, the page's X does solve A X = B |
| LUDecomposition.AsWrittenCounterexample | src/pages/linear-algebra/LUDecompositionMethods.jsx:98-102 | for A = [[2]] and B = [2] the page's X is [2], and that does not solve A X = B |
| LUDecomposition.BackSubstituteDivided | src/pages/linear-algebra/LUDecompositionMethods.jsx:98-107 | with the division restored, it fails exactly when a diagonal entry of U is zero; otherwise every row of U X = Y holds and n solution steps are produced |
| LUDecomposition.SolveCorrected | src/pages/linear-algebra/LUDecompositionMethods.jsx:44-114 | corrected: it reports a zero pivot exactly when some pivot of U is zero, and names one; otherwise (CorrectedOutcome) it returns Doolittle's factors, one snapshot per outer step, X as the unique solution of A X = B, and n solution steps for X_n down to X_1 |
| LUDecomposition.UniqueThroughFactors | src/pages/linear-algebra/LUDecompositionMethods.jsx:79-107 | with unit lower L and non-singular upper U, A = L U has at most one solution |
| SolverConsistency.GaussAgreesWithLU | src/pages/linear-algebra/GaussEliminationMethods.jsx:106-111 | when Gauss elimination succeeds and the corrected LU solver succeeds (its CorrectedOutcome) on the same system, they show the same solution |
| SolverConsistency.NoPivotingCounterexample | src/pages/linear-algebra/LUDecompositionMethods.jsx:55-72 | A = [[0, 1], [1, 0]] with b = [1, 2] is solvable (x = [2, 1]), yet its first LU pivot is zero, so the LU solver, which never swaps rows, reports ZeroPivot |
| RootIteration.PercentError | src/pages/root-of-equations/BisectionMethods.jsx:53 | \|(xnew - xold) / xnew\| * 100: finite exactly when xnew != 0, with value * \|xnew\| == \|xnew - xold\| * 100; NaN for 0/0 and +Infinity otherwise |
| RootIteration.PercentErrorOfNoChange | src/pages/root-of-equations/BisectionMethods.jsx:53 | an unchanged non-zero estimate has error 0, which does not exceed the tolerance |
| RootIteration.Update | src/pages/root-of-equations/BisectionMethods.jsx:71-82 | the pass count rises by one; a positive product moves only xr to xm, a negative one only xl, each appending a row with the error against the replaced end; a zero product moves nothing, keeps ea and appends nothing |
| RootIteration.UpdateNumbered | src/pages/root-of-equations/BisectionMethods.jsx:71-83 | rows keep being numbered by the pass count that wrote them, strictly increasing and at most the count |
| RootIteration.UpdateKeepsSignChange | src/pages/root-of-equations/BisectionMethods.jsx:72-82 | if f(xl) f(xr) < 0 before the update, it still holds after |
| RootIteration.UpdateFollowsRule | src/pages/root-of-equations/BisectionMethods.jsx:72-82 | every row records the sign test's outcome and the error against the endpoint it replaced |
| Bisection.Midpoint | src/pages/root-of-equations/BisectionMethods.jsx:67 | xm is equidistant from both ends and, when xl <= xr, lies between them |
| Bisection.Run | src/pages/root-of-equations/BisectionMethods.jsx:66-83 | the do-while loop runs at least once and at most 50 passes, and stops where the loop test fails |
| Bisection.RunNumbered | src/pages/root-of-equations/BisectionMethods.jsx:71-83 | at most 50 rows, numbered by loop count, strictly increasing |
| Bisection.RunRecords | src/pages/root-of-equations/BisectionMethods.jsx:67-82 | every row's xm is its bracket's midpoint, and the row follows the update rule |
| Bisection.RunKeepsSignChange | src/pages/root-of-equations/BisectionMethods.jsx:66-83 | a sign change at the start is still there at the end |
| Bisection.RunWithin | src/pages/root-of-equations/BisectionMethods.jsx:66-83 | the bracket and every row stay inside the first bracket |
| Bisection.RunWidth | src/pages/root-of-equations/BisectionMethods.jsx:66-83 | the final width is the first width divided by 2 to the power of the number of rows: each recorded pass halves the bracket |
| Bisection.FirstPassZero | src/pages/root-of-equations/BisectionMethods.jsx:57-85 | if the first midpoint gives a zero product, ea stays undefined, the loop exits after one pass with an empty table, and the result is that midpoint |
| Bisection.StallRunsOut | src/pages/root-of-equations/BisectionMethods.jsx:72-83 | after a zero product later on, nothing moves and the loop runs out its 50 passes on the same midpoint without adding rows |
| Bisection.RunFromStart | src/pages/root-of-equations/BisectionMethods.jsx:55-85 | the whole run: numbered rows of midpoints inside the first bracket that follow the rule; with a sign change at the start it is kept, and the width is the first width over 2^rows |
| Bisection.Bisect | src/pages/root-of-equations/BisectionMethods.jsx:55-87 | the loop on its own variables gives Run's last xm and table: at most 50 numbered rows of midpoints that follow the rule, inside [xl, xr] when xl <= xr |
| FalsePosition.Chord | src/pages/root-of-equations/FalsePositionMethods.jsx:35 | xm is the zero of the chord through (xl, f(xl)) and (xr, f(xr)) |
| FalsePosition.ChordInside | src/pages/root-of-equations/FalsePositionMethods.jsx:35 | if xl < xr and f(xl) f(xr) < 0, the denominator is non-zero and xl < xm < xr |
| FalsePosition.Run | src/pages/root-of-equations/FalsePositionMethods.jsx:32-50 | the loop stops within 50 passes where its test fails, or with no value at a pass where f(xr) == f(xl) |
| FalsePosition.RunRecords | src/pages/root-of-equations/FalsePositionMethods.jsx:38-50 | at most 50 rows numbered by loop count; each row's xm is its chord point and the row follows the update rule |
| FalsePosition.RunBracketed | src/pages/root-of-equations/FalsePositionMethods.jsx:39-49 | a sign change inside a bracket is kept, so no division by zero occurs and every row stays strictly inside |
| FalsePosition.RunFromStart | src/pages/root-of-equations/FalsePositionMethods.jsx:21-52 | the whole run's table facts; with xl < xr and a sign change at the start, the run completes with the bracket kept |
| FalsePosition.FirstPassZero | src/pages/root-of-equations/FalsePositionMethods.jsx:32-52 | a zero product on the first pass ends the loop with an empty table and the chord point as the result |
| FalsePosition.Solve | src/pages/root-of-equations/FalsePositionMethods.jsx:21-54 | the loop on its own variables fails exactly where Run does; otherwise it gives Run's xm and numbered table; with a sign change on a rising bracket every row's xm is strictly inside its bracket and the brackets stay inside the first one |
| Secant.Seed | src/pages/root-of-equations/SecantMethods.jsx:70-76 | the first row is numbered 0, holds the two seeds and error 100 |
| Secant.SecantPoint | src/pages/root-of-equations/SecantMethods.jsx:82 | x is the zero of the line through (xOld, f(xOld)) and (xNew, f(xNew)) |
| Secant.ChainedExtend | src/pages/root-of-equations/SecantMethods.jsx:82-101 | a pass appends a row whose xold is the previous row's xnew, numbered one higher, with the percent error of the move |
| Secant.RunChained | src/pages/root-of-equations/SecantMethods.jsx:78-102 | from a chained table the loop leaves a chained table of at most 51 rows, with no move before the last one below the tolerance. When it stops, the answer is the last row's point, and that row is the first move below the tolerance or the 50th pass. A failure comes at a pass that had not yet stopped, within 50 rows, and the last row's two points have equal f |
| Secant.StoppedFinished | src/pages/root-of-equations/SecantMethods.jsx:95-98 | a table whose last row meets the stopping test, with no earlier row meeting it, is a finished run whose result is that row's point |
| Secant.RunFromSeedsChained | src/pages/root-of-equations/SecantMethods.jsx:56-102 | the same for the whole run from the seed row |
| Secant.RootSeed | src/pages/root-of-equations/SecantMethods.jsx:78-98 | seeds where f(x1) = 0 != f(x0): the first pass lands on x1 and stops with two rows |
| Secant.Solve | src/pages/root-of-equations/SecantMethods.jsx:56-102 | the loop on its own variables gives the run from the seeds, whose table is chained and finished as above |
| NewtonRaphson.NewtonPoint | src/pages/root-of-equations/NewtonRaphsonMethods.jsx:59 | xNew is the zero of the tangent line at x, and xNew == x exactly when f(x) == 0 |
| NewtonRaphson.SteppedExtend | src/pages/root-of-equations/NewtonRaphsonMethods.jsx:58-64 | a pass appends a row numbered one higher with the tangent step from the previous estimate and the error helper's value |
| NewtonRaphson.RunFinished | src/pages/root-of-equations/NewtonRaphsonMethods.jsx:58-72 | from a well-formed table the loop leaves at most 50 well-formed rows, no row but the last below the tolerance. With an answer, it is the last estimate and that row's error is below the tolerance. With no answer there are 50 rows; the third outcome is a zero derivative at the last estimate |
| NewtonRaphson.RootGuess | src/pages/root-of-equations/NewtonRaphsonMethods.jsx:58-69 | a guess that is a root, with non-zero slope and an error helper reporting no change as small, answers the guess after one pass |
| NewtonRaphson.Solve | src/pages/root-of-equations/NewtonRaphsonMethods.jsx:50-72 | the loop on its own variables gives the run from the guess, which is finished as above |
| Graphical.SampleWithin | src/pages/root-of-equations/GraphicalMethods.jsx:60-68 | for xStart < xEnd the loop test x <= xEnd admits exactly the samples 0..100, so 101 samples |
| Graphical.SampleCount | src/pages/root-of-equations/GraphicalMethods.jsx:60-68 | the loop visits 101 samples or none, and for a rising range the last sample is xEnd |
| Graphical.VisitNewMinimum | src/pages/root-of-equations/GraphicalMethods.jsx:73-77 | a sample strictly below the current minimum becomes the earliest minimum of the chart |
| Graphical.VisitSameMinimum | src/pages/root-of-equations/GraphicalMethods.jsx:73-77 | a sample not strictly below it leaves the earliest minimum where it was |
| Graphical.VisitMinimised | src/pages/root-of-equations/GraphicalMethods.jsx:69-85 | a visit, evaluated or skipped, keeps the answer at the earliest minimum, or at xStart while nothing is charted |
| Graphical.ScanTabulated | src/pages/root-of-equations/GraphicalMethods.jsx:79-82 | the table matches the chart row for row, numbered by the count of evaluated samples, with error \|y\| |
| Graphical.ScanCharted | src/pages/root-of-equations/GraphicalMethods.jsx:68-71 | the chart holds f's value at each of its points, every sample that evaluated, in increasing x for a rising range |
| Graphical.ScanMinimised | src/pages/root-of-equations/GraphicalMethods.jsx:64-77 | after any number of samples the answer is the earliest charted sample with the smallest \|f(x)\|, or xStart |
| Graphical.ScanOutcome | src/pages/root-of-equations/GraphicalMethods.jsx:57-91 | the whole scan: tabulated, charted within [xStart, xEnd], minimised; a falling range charts nothing and answers xStart |
| Graphical.Scan | src/pages/root-of-equations/GraphicalMethods.jsx:57-91 | the for loop gives the scan's answer, chart and table: xStart when nothing is charted, otherwise the x of an earliest minimum; every point is f's value within the range |
| Selection.SelectedIndices | src/pages/interpolation/LagrangeInterpolation.jsx:73 | the selected row numbers, each selected, in strictly increasing order, and every selected row is among them |
| Selection.SelectedByIndices | src/pages/interpolation/LagrangeInterpolation.jsx:73 | the filter keeps exactly the selected rows, in table order |
| Selection.SelectedCongruent | src/pages/interpolation/LagrangeInterpolation.jsx:73 | the filter depends only on which rows are selected |
| Selection.Toggle | src/pages/interpolation/LagrangeInterpolation.jsx:66-70 | row index flips and no other row's selection changes; past the end the copy grows to index + 1 entries |
| Selection.ToggleTwice | src/pages/interpolation/SplineInterpolation.jsx:31-35 | toggling twice restores every row's selection and the filtered points, and restores the flags themselves for a row inside the table |
| Lagrange.BasisAtOwnNode | src/pages/interpolation/LagrangeInterpolation.jsx:86-90 | L_k(x_k) == 1 |
| Lagrange.BasisAtOtherNode | src/pages/interpolation/LagrangeInterpolation.jsx:86-90 | L_i(x_k) == 0 for k != i |
| Lagrange.SumAtNode | src/pages/interpolation/LagrangeInterpolation.jsx:82-94 | at a node x_k the partial sum is fx_k once term k is in, and 0 before |
| Lagrange.Interpolates | src/pages/interpolation/LagrangeInterpolation.jsx:79-96 | with distinct abscissas, the value at x_k is fx_k |
| Lagrange.TwoPointLine | src/pages/interpolation/LagrangeInterpolation.jsx:82-95 | through two points the value is the straight line fx_0 + (findX - x_0)(fx_1 - fx_0)/(x_1 - x_0) |
| Lagrange.BasisValue | src/pages/interpolation/LagrangeInterpolation.jsx:83-90 | the inner loop succeeds exactly when no other point shares x_i, and then gives L_i(findX) |
| Lagrange.Calculate | src/pages/interpolation/LagrangeInterpolation.jsx:72-98 | fewer than two selected points exactly when nothing is set; a failure exactly when two selected points share an abscissa; otherwise the sum of fx_i L_i(findX) and one L term per point, in order |
| Spline.PieceAt | src/pages/interpolation/SplineInterpolation.jsx:53-57 | piece i runs from point i-1 to point i; it has a slope exactly when the two abscissas differ, and the slope times the width is the rise |
| Spline.LastContaining | src/pages/interpolation/SplineInterpolation.jsx:52-65 | the chosen interval contains findX and no later one does; no interval is chosen only when none contains it |
| Spline.PieceEndpoints | src/pages/interpolation/SplineInterpolation.jsx:57-62 | a piece of non-zero width gives f0 at x0 and f1 at x1 |
| Spline.PieceBetween | src/pages/interpolation/SplineInterpolation.jsx:61-62 | for x0 <= findX <= x1 the value lies between f0 and f1 |
| Spline.SplineFromLastInterval | src/pages/interpolation/SplineInterpolation.jsx:52-65 | the value is unset exactly when no interval contains findX; NaN exactly when the last containing interval has zero width; otherwise between that interval's end values |
| Spline.SplineAtKnot | src/pages/interpolation/SplineInterpolation.jsx:52-65 | for strictly rising abscissas the spline passes through every selected point, inner knots included |
| Spline.SplineOutside | src/pages/interpolation/SplineInterpolation.jsx:46-65 | for strictly rising abscissas a query outside [x_0, x_{n-1}] leaves the value unset |
| Spline.Calculate | src/pages/interpolation/SplineInterpolation.jsx:37-83 | fewer than two selected points exactly when nothing is set; for "1" one piece per consecutive pair in selection order and the last containing piece's value; for any other choice no pieces and an unset value |

## Left out

- Rendering, React state, toasts, alerts, KaTeX and chart data are presentation
  and are not modelled.
- The "random equation" fetches are network I/O and randomness, and are not
  modelled.
- The Cholesky page only calls two functions from a file that is not part of
  this model, so there is nothing to model.
- Expression evaluation by mathjs `evaluate` becomes the function parameter `f`.
  It is total (`real -> real`) everywhere except the graphical page. There a
  `try/catch` skips failed samples, so `f` returns `Option<real>`. The secant
  page's `try/catch` is not modelled, because its `f` cannot fail.
- The derivative transform `diffEquation` and the `error` helper of the
  Newton-Raphson page live in a file that is not part of this model. They are
  the parameters `df` and `err`.
- The Newton-Raphson page calls `evaluate` without importing it. That runtime
  fault is not modelled.
- Floating point is not modelled. `real` is exact, so rounding,
  `toFixed`/`toPrecision` text and `parseFloat` input parsing are left out.
  Formulas and solution steps are modelled by their values and order, not their
  text.
- Division by zero gives Infinity or NaN in JavaScript, and the pages then keep
  computing on them. The model does not follow such a value. Each case below
  ends with an explicit failure outcome instead:
  - a zero LU pivot (`ZeroPivot`);
  - a chord with f(xl) == f(xr) (`None`);
  - a secant pass with f(xOld) == f(xNew) (`DivisionByZero`);
  - a zero derivative in Newton-Raphson (`ZeroDerivative`);
  - Lagrange points sharing an abscissa (`DuplicateAbscissa`).
- The percent error's Infinity and NaN, however, are modelled (`Approx`). The
  loop tests compare them as JavaScript does.
- A zero-width spline piece yields `NotANumber`.
- Graphical.Scan requires `xStart != xEnd`. For an equal range the step is 0
  and the page's loop never ends.
- The Gauss page takes `n` from a separate Dimension setting. The model takes it
  from the matrix (`|A|`) and requires a square A with a b of the same length.
- The solvers work on copies. The model takes MatrixA and MatrixB as `seq`
  values, so the caller's matrices are unchanged by construction. The L/U and
  Gauss snapshots are values, so they are independent copies too.
- Selection.Toggle is modelled on sequences. The page copies the flags array,
  flips one entry and stores the copy. The model returns the new sequence, so it
  does not capture the copy being a separate array object.

## Findings

| source | as written | input that shows it | evidently intended | confidence | as-written member | corrected member |
|---|---|---|---|---|---|---|
| src/pages/linear-algebra/LUDecompositionMethods.jsx:98-102 | X[i] = Y[i] - sum over j > i of U[i][j] X[j], with no division by U[i][i]; X solves the system with U's diagonal replaced by ones | A = [[2]], B = [2]: the page gives X = [2], while A X = B needs X = [1] | X[i] = (Y[i] - sum over j > i of U[i][j] X[j]) / U[i][i], so that U X = Y and A X = B | not executed | LUDecomposition.AsWrittenCounterexample | LUDecomposition.SolveCorrected |
