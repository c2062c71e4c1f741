/**
 * What the root-finding pages share: the percent relative error, the
 * tolerance and iteration cap, and the sign-test update of a bracket that
 * bisection and false position both apply after computing their new point.
 */
module RootIteration {
  import opened Numeric

  /** The stopping tolerance on the error. */
  const EPSILON: real := 0.000001

  /** The cap on loop passes. */
  const MAX_ITER: nat := 50

  /**
   * A JavaScript number as far as the error test needs it: `undefined` before
   * any error was computed, a finite value, +Infinity, or NaN.
   */
  datatype Approx = Unset | Finite(value: real) | PosInfinity | NaN

  /**
   * |(xnew - xold) / xnew| * 100. Dividing a non-zero number by zero gives
   * +Infinity after the absolute value; 0 / 0 gives NaN.
   */
  function PercentError(xold: real, xnew: real): (e: Approx)
    ensures e.Finite? <==> xnew != 0.0
    ensures e.NaN? <==> xnew == 0.0 && xold == 0.0
    ensures e.PosInfinity? <==> xnew == 0.0 && xold != 0.0
    ensures e.Finite? ==> e.value >= 0.0 && e.value * Abs(xnew) == Abs(xnew - xold) * 100.0
  {
    if xnew != 0.0 then Finite(Abs((xnew - xold) / xnew) * 100.0)
    else if xold == 0.0 then NaN
    else PosInfinity
  }

  /** JavaScript's `ea > EPSILON`: false for undefined and NaN, true for +Infinity. */
  predicate ExceedsTolerance(e: Approx) {
    match e
    case Unset => false
    case Finite(v) => v > EPSILON
    case PosInfinity => true
    case NaN => false
  }

  /** No change gives zero error, which is below the tolerance. */
  lemma PercentErrorOfNoChange(x: real)
    requires x != 0.0
    ensures PercentError(x, x) == Finite(0.0) && !ExceedsTolerance(PercentError(x, x))
  {
  }

  // ----- The bracket and its sign-test update -----

  /** One row of the iteration table: loop count, the bracket before the update, the new point, the error. */
  datatype BracketRecord = BracketRecord(iteration: nat, xl: real, xm: real, xr: real, error: Approx)

  /** The loop variables between passes: bracket, last new point, last error, loop count, table so far. */
  datatype Search = Search(xl: real, xr: real, xm: real, ea: Approx, iter: nat, records: seq<BracketRecord>)

  /** The variables before the first pass. */
  function Start(xl: real, xr: real): (s: Search)
    ensures s.iter == 0 && s.records == [] && s.ea == Unset && s.xl == xl && s.xr == xr
  {
    Search(xl, xr, 0.0, Unset, 0, [])
  }

  /**
   * The rest of a pass once the new point xm and the values f(xm), f(xr) are
   * known: the loop count goes up; a positive product replaces xr by xm, a
   * negative one replaces xl, each recording a row with the error against the
   * endpoint replaced; a zero product changes neither endpoint, the error or the table.
   */
  function Update(s: Search, xm: real, fxm: real, fxr: real): (t: Search)
    ensures t.iter == s.iter + 1 && t.xm == xm
    ensures fxm * fxr > 0.0 ==>
      t.xl == s.xl && t.xr == xm && t.ea == PercentError(s.xr, xm) &&
      t.records == s.records + [BracketRecord(s.iter + 1, s.xl, xm, s.xr, t.ea)]
    ensures fxm * fxr < 0.0 ==>
      t.xl == xm && t.xr == s.xr && t.ea == PercentError(s.xl, xm) &&
      t.records == s.records + [BracketRecord(s.iter + 1, s.xl, xm, s.xr, t.ea)]
    ensures fxm * fxr == 0.0 ==> t.xl == s.xl && t.xr == s.xr && t.ea == s.ea && t.records == s.records
  {
    if fxm * fxr > 0.0 then
      var e := PercentError(s.xr, xm);
      Search(s.xl, xm, xm, e, s.iter + 1, s.records + [BracketRecord(s.iter + 1, s.xl, xm, s.xr, e)])
    else if fxm * fxr < 0.0 then
      var e := PercentError(s.xl, xm);
      Search(xm, s.xr, xm, e, s.iter + 1, s.records + [BracketRecord(s.iter + 1, s.xl, xm, s.xr, e)])
    else
      Search(s.xl, s.xr, xm, s.ea, s.iter + 1, s.records)
  }

  /** The do-while condition: `ea > EPSILON && iter < MAX_ITER`. */
  predicate Continue(s: Search) {
    ExceedsTolerance(s.ea) && s.iter < MAX_ITER
  }

  /** The table rows carry strictly increasing loop counts, all between 1 and `iter`. */
  ghost predicate Numbered(records: seq<BracketRecord>, iter: nat) {
    |records| <= iter &&
    (forall k :: 0 <= k < |records| ==> 1 <= records[k].iteration <= iter) &&
    (forall j, k :: 0 <= j < k < |records| ==> records[j].iteration < records[k].iteration)
  }

  lemma UpdateNumbered(s: Search, xm: real, fxm: real, fxr: real)
    requires Numbered(s.records, s.iter)
    ensures Numbered(Update(s, xm, fxm, fxr).records, s.iter + 1)
  {
  }

  /** Two numbers of opposite sign, one of them the same sign as a third: the other and the third differ in sign. */
  lemma SignTransfer(a: real, b: real, c: real)
    requires a * b < 0.0 && c * b > 0.0
    ensures a * c < 0.0
  {
    if b > 0.0 {
      assert c > 0.0 && a < 0.0;
    } else {
      assert b < 0.0 && c < 0.0 && a > 0.0;
    }
  }

  /** The sign-test update keeps a sign change across the bracket. */
  lemma UpdateKeepsSignChange(f: real -> real, s: Search, xm: real)
    requires f(s.xl) * f(s.xr) < 0.0
    ensures var t := Update(s, xm, f(xm), f(s.xr)); f(t.xl) * f(t.xr) < 0.0
  {
    if f(xm) * f(s.xr) > 0.0 {
      SignTransfer(f(s.xl), f(s.xr), f(xm));
    }
  }

  /** Each row records which rule fired: its error is measured against the endpoint that rule replaced. */
  ghost predicate RecordsFollowRule(f: real -> real, records: seq<BracketRecord>) {
    forall k :: 0 <= k < |records| ==>
      var r := records[k];
      (f(r.xm) * f(r.xr) > 0.0 && r.error == PercentError(r.xr, r.xm)) ||
      (f(r.xm) * f(r.xr) < 0.0 && r.error == PercentError(r.xl, r.xm))
  }

  lemma UpdateFollowsRule(f: real -> real, s: Search, xm: real)
    requires RecordsFollowRule(f, s.records)
    ensures RecordsFollowRule(f, Update(s, xm, f(xm), f(s.xr)).records)
  {
  }
}
