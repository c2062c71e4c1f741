/**
 * The two direct solvers side by side. On a system both succeed on, Gauss
 * elimination and the LU solver with the division by U[i][i] restored show
 * the same solution, since each shows the system's only solution. The
 * converse fails: without pivoting the LU solver stops at a zero pivot on
 * systems that Gauss elimination solves after a row swap.
 */
module SolverConsistency {
  import GaussElimination
  import LUDecomposition
  import opened Matrices

  /** A successful Gauss solve and a successful corrected LU solve of the same system agree. */
  lemma GaussAgreesWithLU(a: Matrix, b: Vector, g: GaussElimination.Outcome, r: LUDecomposition.LUOutcome)
    requires IsSquare(a, |a|) && |b| == |a|
    requires GaussElimination.SolvedOutcome(a, b, g)
    requires LUDecomposition.CorrectedOutcome(a, b, r)
    ensures g.solution == r.solution
  {
  }

  /**
   * A = [[0, 1], [1, 0]] has the solution [2, 1] for b = [1, 2], but its first
   * pivot is zero, so the LU solver (which never swaps rows) reports ZeroPivot.
   */
  lemma NoPivotingCounterexample()
    ensures Solves([[0.0, 1.0], [1.0, 0.0]], [1.0, 2.0], [2.0, 1.0])
    ensures !LUDecomposition.AllPivotsNonZero([[0.0, 1.0], [1.0, 0.0]], 2)
  {
    var a := [[0.0, 1.0], [1.0, 0.0]];
    assert LUDecomposition.SpecU(a, 2, 0, 0) == 0.0;
    assert Dot(a[0], [2.0, 1.0]) == 1.0;
    assert Dot(a[1], [2.0, 1.0]) == 2.0;
  }
}
