/**
 * The Newton-Raphson page: from the initial guess, repeatedly step to the zero
 * of the tangent line, stopping with an answer once the error helper reports
 * less than the tolerance, or without one after 50 passes. The function, its
 * derivative and the error helper are parameters.
 */
module NewtonRaphson {
  import opened RootIteration

  /** One row of the iteration table: loop count, new estimate, the error helper's value. */
  datatype NewtonRecord = NewtonRecord(iteration: nat, x: real, error: real)

  /**
   * How the loop ends: with an answer once the error is below the tolerance,
   * without one after 50 passes, or at a point where the derivative is zero.
   */
  datatype NewtonOutcome =
    | Converged(root: real, records: seq<NewtonRecord>)
    | NotConverged(records: seq<NewtonRecord>)
    | ZeroDerivative(records: seq<NewtonRecord>)

  /** x - fx / dfx: the tangent line at x with value fx and slope dfx vanishes there. */
  function NewtonPoint(x: real, fx: real, dfx: real): (xNew: real)
    requires dfx != 0.0
    ensures fx + dfx * (xNew - x) == 0.0
    ensures fx == 0.0 <==> xNew == x
  {
    var xNew := x - fx / dfx;
    assert dfx * (xNew - x) == -fx;
    xNew
  }

  /** The loop from the estimate x, `iter` passes done and the table so far. */
  function Run(f: real -> real, df: real -> real, err: (real, real) -> real,
               x: real, iter: nat, records: seq<NewtonRecord>): NewtonOutcome
    requires iter < MAX_ITER
    decreases MAX_ITER - iter
  {
    if df(x) == 0.0 then ZeroDerivative(records)
    else
      var xNew := NewtonPoint(x, f(x), df(x));
      var ea := err(x, xNew);
      var rows := records + [NewtonRecord(iter + 1, xNew, ea)];
      if ea < EPSILON then Converged(xNew, rows)
      else if iter + 1 < MAX_ITER then Run(f, df, err, xNew, iter + 1, rows)
      else NotConverged(rows)
  }

  /** The estimate a row started from: the guess for the first row, the previous row's estimate after. */
  function Before(x0: real, records: seq<NewtonRecord>, k: nat): real
    requires k <= |records|
  {
    if k == 0 then x0 else records[k - 1].x
  }

  /**
   * A well-formed table: rows numbered 1, 2, 3, ...; each row's estimate is the
   * tangent step from the estimate before it, and its error the helper's value
   * on the two.
   */
  ghost predicate Stepped(f: real -> real, df: real -> real, err: (real, real) -> real,
                          x0: real, records: seq<NewtonRecord>) {
    forall k :: 0 <= k < |records| ==> SteppedRow(f, df, err, x0, records, k)
  }

  ghost predicate SteppedRow(f: real -> real, df: real -> real, err: (real, real) -> real,
                             x0: real, records: seq<NewtonRecord>, k: nat)
    requires k < |records|
  {
    var p := Before(x0, records, k);
    records[k].iteration == k + 1 && df(p) != 0.0 &&
    records[k].x == NewtonPoint(p, f(p), df(p)) && records[k].error == err(p, records[k].x)
  }

  /** What a finished loop leaves, case by case. */
  ghost predicate Finished(f: real -> real, df: real -> real, err: (real, real) -> real,
                           x0: real, out: NewtonOutcome) {
    var rows := out.records;
    Stepped(f, df, err, x0, rows) && |rows| <= MAX_ITER &&
    (forall k :: 0 <= k < |rows| - 1 ==> rows[k].error >= EPSILON) &&
    (out.Converged? ==> |rows| >= 1 && out.root == rows[|rows| - 1].x && rows[|rows| - 1].error < EPSILON) &&
    (out.NotConverged? ==> |rows| == MAX_ITER && rows[|rows| - 1].error >= EPSILON) &&
    (out.ZeroDerivative? ==>
      df(Before(x0, rows, |rows|)) == 0.0 && (|rows| >= 1 ==> rows[|rows| - 1].error >= EPSILON))
  }

  lemma SteppedExtend(f: real -> real, df: real -> real, err: (real, real) -> real,
                      x0: real, records: seq<NewtonRecord>)
    requires Stepped(f, df, err, x0, records)
    requires df(Before(x0, records, |records|)) != 0.0
    ensures var p := Before(x0, records, |records|);
      var xNew := NewtonPoint(p, f(p), df(p));
      Stepped(f, df, err, x0, records + [NewtonRecord(|records| + 1, xNew, err(p, xNew))])
  {
    var p := Before(x0, records, |records|);
    var xNew := NewtonPoint(p, f(p), df(p));
    var rows := records + [NewtonRecord(|records| + 1, xNew, err(p, xNew))];
    forall k | 0 <= k < |rows|
      ensures SteppedRow(f, df, err, x0, rows, k)
    {
      if k < |records| {
        assert SteppedRow(f, df, err, x0, records, k);
        assert rows[k] == records[k] && Before(x0, rows, k) == Before(x0, records, k);
      } else {
        assert Before(x0, rows, k) == p;
      }
    }
  }

  /**
   * The loop from a well-formed table of `iter` rows, none below the
   * tolerance, whose last estimate is x: its outcome is Finished.
   */
  lemma {:induction false} RunFinished(f: real -> real, df: real -> real, err: (real, real) -> real,
                                       x0: real, x: real, iter: nat, records: seq<NewtonRecord>)
    requires iter < MAX_ITER && |records| == iter && Stepped(f, df, err, x0, records)
    requires x == Before(x0, records, iter)
    requires forall k :: 0 <= k < |records| ==> records[k].error >= EPSILON
    ensures Finished(f, df, err, x0, Run(f, df, err, x, iter, records))
    decreases MAX_ITER - iter
  {
    if df(x) == 0.0 {
      assert Run(f, df, err, x, iter, records) == ZeroDerivative(records);
    } else {
      var xNew := NewtonPoint(x, f(x), df(x));
      var ea := err(x, xNew);
      var rows := records + [NewtonRecord(iter + 1, xNew, ea)];
      SteppedExtend(f, df, err, x0, records);
      if ea < EPSILON {
        assert Run(f, df, err, x, iter, records) == Converged(xNew, rows);
      } else if iter + 1 < MAX_ITER {
        RunFinished(f, df, err, x0, xNew, iter + 1, rows);
      } else {
        assert Run(f, df, err, x, iter, records) == NotConverged(rows);
      }
    }
  }

  /**
   * A guess that is already a root, with a non-zero slope and an error helper
   * that reports no change as below the tolerance: one pass, which stays put
   * and answers the guess.
   */
  lemma RootGuess(f: real -> real, df: real -> real, err: (real, real) -> real, x0: real)
    requires f(x0) == 0.0 && df(x0) != 0.0 && err(x0, x0) < EPSILON
    ensures Run(f, df, err, x0, 0, []) == Converged(x0, [NewtonRecord(1, x0, err(x0, x0))])
  {
  }

  /**
   * The Newton-Raphson loop, pass by pass on its own variables: its outcome
   * is the run from the guess, and that outcome is Finished.
   */
  method Solve(f: real -> real, df: real -> real, err: (real, real) -> real, x0: real)
    returns (out: NewtonOutcome)
    ensures out == Run(f, df, err, x0, 0, []) && Finished(f, df, err, x0, out)
  {
    var x := x0;
    var iter := 0;
    var records: seq<NewtonRecord> := [];
    out := NotConverged(records);
    while true
      invariant iter < MAX_ITER
      invariant Run(f, df, err, x, iter, records) == Run(f, df, err, x0, 0, [])
      decreases MAX_ITER - iter
    {
      var fx := f(x);
      var dfx := df(x);
      if dfx == 0.0 {
        out := ZeroDerivative(records);
        break;
      }
      var xNew := NewtonPoint(x, fx, dfx);
      var ea := err(x, xNew);
      iter := iter + 1;
      records := records + [NewtonRecord(iter, xNew, ea)];
      if ea < EPSILON {
        out := Converged(xNew, records);
        break;
      }
      x := xNew;
      if !(iter < MAX_ITER) {
        out := NotConverged(records);
        break;
      }
    }
    RunFinished(f, df, err, x0, x0, 0, []);
  }
}
