/**
 * The secant page: from the two seeds, repeatedly take the zero of the line
 * through the two latest points, stopping when the new point moves by less
 * than the tolerance or after 50 passes.
 */
module Secant {
  import opened Numeric
  import opened RootIteration

  /** One row of the iteration table: loop count, the point before and the new point, the percent error. */
  datatype SecantRecord = SecantRecord(iteration: nat, xold: real, xnew: real, error: Approx)

  /** How the loop ends: stopped with its last point, or a pass met f(xOld) == f(xNew). */
  datatype SecantOutcome =
    | Stopped(root: real, records: seq<SecantRecord>)
    | DivisionByZero(records: seq<SecantRecord>)

  /** The row written before the loop: loop count 0, the two seeds, error 100. */
  function Seed(x0: real, x1: real): (r: SecantRecord)
    ensures r.iteration == 0 && r.xold == x0 && r.xnew == x1 && r.error == Finite(100.0)
  {
    SecantRecord(0, x0, x1, Finite(100.0))
  }

  /**
   * xNew - fNew * (xOld - xNew) / (fOld - fNew): the line through
   * (xOld, fOld) and (xNew, fNew) vanishes there.
   */
  function SecantPoint(xOld: real, xNew: real, fOld: real, fNew: real): (x: real)
    requires fOld != fNew
    ensures fNew * (xOld - x) + fOld * (x - xNew) == 0.0
  {
    var x := xNew - (fNew * (xOld - xNew)) / (fOld - fNew);
    assert (x - xNew) * (fOld - fNew) == -(fNew * (xOld - xNew));
    x
  }

  /** The stopping test of a pass that produced x from the current point xNew. */
  predicate Stops(x: real, xNew: real, iter: nat) {
    Abs(x - xNew) < EPSILON || iter >= MAX_ITER
  }

  /** The loop from the two current points, `iter` passes done and the table so far. */
  function Run(f: real -> real, xOld: real, xNew: real, iter: nat, records: seq<SecantRecord>): SecantOutcome
    requires iter < MAX_ITER
    decreases MAX_ITER - iter
  {
    var fOld := f(xOld);
    var fNew := f(xNew);
    if fOld == fNew then DivisionByZero(records)
    else
      var x := SecantPoint(xOld, xNew, fOld, fNew);
      var rows := records + [SecantRecord(iter + 1, xNew, x, PercentError(xNew, x))];
      if Stops(x, xNew, iter + 1) then Stopped(x, rows)
      else Run(f, xNew, x, iter + 1, rows)
  }

  /** The whole page's loop, from the two seeds. */
  function RunFromSeeds(f: real -> real, x0: real, x1: real): SecantOutcome {
    Run(f, x0, x1, 0, [Seed(x0, x1)])
  }

  /**
   * A well-formed table: the seed row first; rows numbered 0, 1, 2, ...; each
   * row's point before is the previous row's new point, its new point the
   * zero of the line through the previous row's two points, and its error
   * the percent error between them.
   */
  ghost predicate Chained(f: real -> real, x0: real, x1: real, records: seq<SecantRecord>) {
    |records| >= 1 && records[0] == Seed(x0, x1) &&
    forall k :: 1 <= k < |records| ==> ChainedRow(f, records, k)
  }

  /** Row k follows from row k - 1 by one pass. */
  ghost predicate ChainedRow(f: real -> real, records: seq<SecantRecord>, k: nat)
    requires 1 <= k < |records|
  {
    var p := records[k - 1];
    records[k].iteration == k && records[k].xold == p.xnew && f(p.xold) != f(p.xnew) &&
    records[k].xnew == SecantPoint(p.xold, p.xnew, f(p.xold), f(p.xnew)) &&
    records[k].error == PercentError(records[k].xold, records[k].xnew)
  }

  /** No pass before the last one met the stopping test. */
  ghost predicate NoEarlierStop(records: seq<SecantRecord>, upto: int) {
    forall k :: 1 <= k < upto && k < |records| ==> Abs(records[k].xnew - records[k].xold) >= EPSILON
  }

  /** A pass appends a well-formed row to a well-formed table. */
  lemma ChainedExtend(f: real -> real, x0: real, x1: real, records: seq<SecantRecord>)
    requires Chained(f, x0, x1, records)
    requires var p := records[|records| - 1]; f(p.xold) != f(p.xnew)
    ensures var p := records[|records| - 1];
      var x := SecantPoint(p.xold, p.xnew, f(p.xold), f(p.xnew));
      Chained(f, x0, x1, records + [SecantRecord(|records|, p.xnew, x, PercentError(p.xnew, x))])
  {
    var p := records[|records| - 1];
    var x := SecantPoint(p.xold, p.xnew, f(p.xold), f(p.xnew));
    var rows := records + [SecantRecord(|records|, p.xnew, x, PercentError(p.xnew, x))];
    forall k | 1 <= k < |rows|
      ensures ChainedRow(f, rows, k)
    {
      if k < |records| {
        assert ChainedRow(f, records, k);
        assert rows[k] == records[k] && rows[k - 1] == records[k - 1];
      } else {
        assert rows[k - 1] == p;
      }
    }
  }

  /** What a finished loop leaves: a well-formed table, the answer its last new point, the stop or failure explained by its last row. */
  ghost predicate Finished(f: real -> real, x0: real, x1: real, out: SecantOutcome) {
    var rows := out.records;
    Chained(f, x0, x1, rows) && |rows| <= MAX_ITER + 1 &&
    NoEarlierStop(rows, |rows| - 1) &&
    (out.Stopped? ==>
      out.root == rows[|rows| - 1].xnew &&
      Stops(rows[|rows| - 1].xnew, rows[|rows| - 1].xold, |rows| - 1)) &&
    (out.DivisionByZero? ==>
      |rows| <= MAX_ITER && NoEarlierStop(rows, |rows|) &&
      f(rows[|rows| - 1].xold) == f(rows[|rows| - 1].xnew))
  }

  /**
   * What the loop produces from a well-formed table whose last row holds the
   * current points: a well-formed table of at most 51 rows. When it stops, the
   * answer is the last row's new point, and that row is the first whose move
   * is below the tolerance, or the 50th pass. When it fails, the last row's two
   * points have equal values of f.
   */
  lemma {:induction false} RunChained(f: real -> real, x0: real, x1: real,
                                       xOld: real, xNew: real, iter: nat, records: seq<SecantRecord>)
    requires iter < MAX_ITER && Chained(f, x0, x1, records) && |records| == iter + 1
    requires records[iter].xold == xOld && records[iter].xnew == xNew
    requires NoEarlierStop(records, |records|)
    ensures Finished(f, x0, x1, Run(f, xOld, xNew, iter, records))
    decreases MAX_ITER - iter
  {
    if f(xOld) == f(xNew) {
      assert Run(f, xOld, xNew, iter, records) == DivisionByZero(records);
      assert Finished(f, x0, x1, DivisionByZero(records));
    } else {
      var x := SecantPoint(xOld, xNew, f(xOld), f(xNew));
      var rows := records + [SecantRecord(iter + 1, xNew, x, PercentError(xNew, x))];
      ChainedExtend(f, x0, x1, records);
      if Stops(x, xNew, iter + 1) {
        assert Run(f, xOld, xNew, iter, records) == Stopped(x, rows);
        StoppedFinished(f, x0, x1, x, rows);
      } else {
        assert NoEarlierStop(rows, |rows|);
        RunChained(f, x0, x1, xNew, x, iter + 1, rows);
        assert Run(f, xOld, xNew, iter, records) == Run(f, xNew, x, iter + 1, rows);
      }
    }
  }

  /** A table whose last pass is the first to meet the stopping test is a finished run answering that pass's point. */
  lemma StoppedFinished(f: real -> real, x0: real, x1: real, x: real, rows: seq<SecantRecord>)
    requires Chained(f, x0, x1, rows) && 2 <= |rows| <= MAX_ITER + 1 && NoEarlierStop(rows, |rows| - 1)
    requires rows[|rows| - 1].xnew == x && Stops(x, rows[|rows| - 1].xold, |rows| - 1)
    ensures Finished(f, x0, x1, Stopped(x, rows))
  {
  }

  /** The page's table over the whole run, from the seed row. */
  lemma RunFromSeedsChained(f: real -> real, x0: real, x1: real)
    ensures Finished(f, x0, x1, RunFromSeeds(f, x0, x1))
  {
    RunChained(f, x0, x1, x0, x1, 0, [Seed(x0, x1)]);
  }

  /** Seeds already at a root with distinct values of f: the first pass lands on the root exactly. */
  lemma RootSeed(f: real -> real, x0: real, x1: real)
    requires f(x1) == 0.0 && f(x0) != 0.0
    ensures RunFromSeeds(f, x0, x1) == Stopped(x1, [Seed(x0, x1), SecantRecord(1, x1, x1, PercentError(x1, x1))])
  {
    assert SecantPoint(x0, x1, f(x0), f(x1)) == x1;
  }

  /**
   * The secant loop, pass by pass on its own variables; the outcome is
   * RunFromSeeds, whose table the lemma above describes.
   */
  method Solve(f: real -> real, x0: real, x1: real) returns (out: SecantOutcome)
    ensures out == RunFromSeeds(f, x0, x1) && Finished(f, x0, x1, out)
  {
    var xOld, xNew := x0, x1;
    var iter := 0;
    var records := [SecantRecord(iter, x0, x1, Finite(100.0))];
    out := DivisionByZero(records);
    while true
      invariant iter < MAX_ITER
      invariant Run(f, xOld, xNew, iter, records) == RunFromSeeds(f, x0, x1)
      decreases MAX_ITER - iter
    {
      var fXold := f(xOld);
      var fXnew := f(xNew);
      if fXold == fXnew {
        out := DivisionByZero(records);
        break;
      }
      var x := SecantPoint(xOld, xNew, fXold, fXnew);
      var currentError := PercentError(xNew, x);
      iter := iter + 1;
      records := records + [SecantRecord(iter, xNew, x, currentError)];
      if Abs(x - xNew) < EPSILON || iter >= MAX_ITER {
        out := Stopped(x, records);
        break;
      }
      xOld := xNew;
      xNew := x;
    }
    RunFromSeedsChained(f, x0, x1);
  }
}
