/**
 * The bisection page: halve the bracket [xl, xr] at its midpoint, keep the
 * half the sign test selects, and stop once the percent error is at most the
 * tolerance or after 50 passes.
 */
module Bisection {
  import opened Numeric
  import opened RootIteration

  /** The new point of a bisection pass: the midpoint, equally far from both ends. */
  function Midpoint(xl: real, xr: real): (m: real)
    ensures m - xl == xr - m
    ensures xl <= xr ==> xl <= m <= xr
  {
    (xl + xr) / 2.0
  }

  /** One pass of the loop body. */
  function Step(f: real -> real, s: Search): Search {
    var xm := Midpoint(s.xl, s.xr);
    Update(s, xm, f(xm), f(s.xr))
  }

  /** The do-while loop from the variables s: one pass, then repeat while `Continue` holds. */
  function Run(f: real -> real, s: Search): (t: Search)
    requires s.iter < MAX_ITER
    ensures s.iter < t.iter <= MAX_ITER && !Continue(t)
    decreases MAX_ITER - s.iter
  {
    var t := Step(f, s);
    if Continue(t) then Run(f, t) else t
  }

  /** Every recorded point is the midpoint of its recorded bracket. */
  ghost predicate Midpoints(records: seq<BracketRecord>) {
    forall k :: 0 <= k < |records| ==> records[k].xm == Midpoint(records[k].xl, records[k].xr)
  }

  /** Every recorded bracket, and the current one, lie within [lo, hi], and are ordered. */
  ghost predicate Within(s: Search, lo: real, hi: real) {
    lo <= s.xl <= s.xr <= hi &&
    forall k :: 0 <= k < |s.records| ==> lo <= s.records[k].xl <= s.records[k].xr <= hi
  }

  /**
   * The table numbering holds over a whole run: at most 50 rows, with strictly
   * increasing loop counts between 1 and 50.
   */
  lemma {:induction false} RunNumbered(f: real -> real, s: Search)
    requires s.iter < MAX_ITER && Numbered(s.records, s.iter)
    ensures Numbered(Run(f, s).records, MAX_ITER) && |Run(f, s).records| <= MAX_ITER
    decreases MAX_ITER - s.iter
  {
    var t := Step(f, s);
    UpdateNumbered(s, Midpoint(s.xl, s.xr), f(Midpoint(s.xl, s.xr)), f(s.xr));
    if Continue(t) {
      RunNumbered(f, t);
    }
  }

  /** Every row's point is its bracket's midpoint and its error follows the rule that fired. */
  lemma {:induction false} RunRecords(f: real -> real, s: Search)
    requires s.iter < MAX_ITER && Midpoints(s.records) && RecordsFollowRule(f, s.records)
    ensures Midpoints(Run(f, s).records) && RecordsFollowRule(f, Run(f, s).records)
    decreases MAX_ITER - s.iter
  {
    var t := Step(f, s);
    UpdateFollowsRule(f, s, Midpoint(s.xl, s.xr));
    if Continue(t) {
      RunRecords(f, t);
    }
  }

  /** A sign change across the bracket survives the whole run. */
  lemma {:induction false} RunKeepsSignChange(f: real -> real, s: Search)
    requires s.iter < MAX_ITER && f(s.xl) * f(s.xr) < 0.0
    ensures f(Run(f, s).xl) * f(Run(f, s).xr) < 0.0
    decreases MAX_ITER - s.iter
  {
    var t := Step(f, s);
    UpdateKeepsSignChange(f, s, Midpoint(s.xl, s.xr));
    if Continue(t) {
      RunKeepsSignChange(f, t);
    }
  }

  /** The brackets only shrink: they stay ordered and inside [lo, hi]. */
  lemma {:induction false} RunWithin(f: real -> real, s: Search, lo: real, hi: real)
    requires s.iter < MAX_ITER && Within(s, lo, hi)
    ensures Within(Run(f, s), lo, hi)
    decreases MAX_ITER - s.iter
  {
    var t := Step(f, s);
    assert Within(t, lo, hi);
    if Continue(t) {
      RunWithin(f, t, lo, hi);
    }
  }

  lemma HalveQuotient(w: real, p: real)
    requires p >= 1.0
    ensures (w / p) / 2.0 == w / (2.0 * p)
  {
  }

  /** Every row halves the bracket and a zero product leaves it alone, so the width is w / 2^rows. */
  lemma {:induction false} RunWidth(f: real -> real, s: Search, w: real)
    requires s.iter < MAX_ITER && s.xr - s.xl == w / Pow2(|s.records|)
    ensures Run(f, s).xr - Run(f, s).xl == w / Pow2(|Run(f, s).records|)
    decreases MAX_ITER - s.iter
  {
    var t := Step(f, s);
    if |t.records| != |s.records| {
      assert |t.records| == |s.records| + 1;
      assert t.xr - t.xl == (s.xr - s.xl) / 2.0;
      HalveQuotient(w, Pow2(|s.records|));
    }
    assert t.xr - t.xl == w / Pow2(|t.records|);
    if Continue(t) {
      RunWidth(f, t, w);
    }
  }

  /**
   * A zero product on the first pass leaves the error undefined, so the loop
   * stops at once with an empty table and the midpoint as the answer.
   */
  lemma FirstPassZero(f: real -> real, xl: real, xr: real)
    requires f(Midpoint(xl, xr)) * f(xr) == 0.0
    ensures Run(f, Start(xl, xr)).records == [] && Run(f, Start(xl, xr)).xm == Midpoint(xl, xr)
  {
  }

  /**
   * A zero product on a later pass leaves bracket and error as they were, so
   * every remaining pass recomputes the same midpoint: the loop runs out its 50
   * passes without adding a row, and the answer is that midpoint.
   */
  lemma {:induction false} StallRunsOut(f: real -> real, s: Search)
    requires s.iter < MAX_ITER && ExceedsTolerance(s.ea)
    requires f(Midpoint(s.xl, s.xr)) * f(s.xr) == 0.0
    ensures Run(f, s).iter == MAX_ITER && Run(f, s).records == s.records
    ensures Run(f, s).xm == Midpoint(s.xl, s.xr)
    decreases MAX_ITER - s.iter
  {
    var t := Step(f, s);
    if Continue(t) {
      StallRunsOut(f, t);
    }
  }

  /**
   * What a run from the first bracket promises: at most 50 rows numbered by
   * loop count; every row's point is the midpoint of its bracket, inside the
   * first bracket, with the error against the endpoint replaced; a sign change
   * at the start is kept, and then the bracket's width is the first width over
   * 2^rows.
   */
  lemma RunFromStart(f: real -> real, xl0: real, xr0: real)
    ensures var t := Run(f, Start(xl0, xr0));
      |t.records| <= MAX_ITER && Numbered(t.records, MAX_ITER) &&
      Midpoints(t.records) && RecordsFollowRule(f, t.records) &&
      (xl0 <= xr0 ==> forall k :: 0 <= k < |t.records| ==>
        xl0 <= t.records[k].xl <= t.records[k].xm <= t.records[k].xr <= xr0) &&
      (f(xl0) * f(xr0) < 0.0 ==>
        f(t.xl) * f(t.xr) < 0.0 && t.xr - t.xl == (xr0 - xl0) / Pow2(|t.records|))
  {
    var t := Run(f, Start(xl0, xr0));
    RunNumbered(f, Start(xl0, xr0));
    RunRecords(f, Start(xl0, xr0));
    if xl0 <= xr0 {
      RunWithin(f, Start(xl0, xr0), xl0, xr0);
      forall k | 0 <= k < |t.records|
        ensures xl0 <= t.records[k].xl <= t.records[k].xm <= t.records[k].xr <= xr0
      {
        assert t.records[k].xm == Midpoint(t.records[k].xl, t.records[k].xr);
      }
    }
    if f(xl0) * f(xr0) < 0.0 {
      RunKeepsSignChange(f, Start(xl0, xr0));
      RunWidth(f, Start(xl0, xr0), xr0 - xl0);
    }
  }

  /** The bisection loop, pass by pass on its own variables: its answer and table are those of Run. */
  method Bisect(f: real -> real, xl0: real, xr0: real) returns (result: real, records: seq<BracketRecord>)
    ensures result == Run(f, Start(xl0, xr0)).xm && records == Run(f, Start(xl0, xr0)).records
    ensures |records| <= MAX_ITER && Numbered(records, MAX_ITER)
    ensures Midpoints(records) && RecordsFollowRule(f, records)
    ensures xl0 <= xr0 ==> forall k :: 0 <= k < |records| ==> xl0 <= records[k].xl <= records[k].xm <= records[k].xr <= xr0
  {
    var xl, xr := xl0, xr0;
    var xm := 0.0;
    var ea := Unset;
    var iter := 0;
    records := [];
    while true
      invariant iter < MAX_ITER
      invariant Run(f, Search(xl, xr, xm, ea, iter, records)) == Run(f, Start(xl0, xr0))
      decreases MAX_ITER - iter
    {
      ghost var s := Search(xl, xr, xm, ea, iter, records);
      xm := (xl + xr) / 2.0;
      var fXr := f(xr);
      var fXm := f(xm);
      iter := iter + 1;
      if fXm * fXr > 0.0 {
        ea := PercentError(xr, xm);
        records := records + [BracketRecord(iter, xl, xm, xr, ea)];
        xr := xm;
      } else if fXm * fXr < 0.0 {
        ea := PercentError(xl, xm);
        records := records + [BracketRecord(iter, xl, xm, xr, ea)];
        xl := xm;
      }
      assert Search(xl, xr, xm, ea, iter, records) == Step(f, s);
      if !(ExceedsTolerance(ea) && iter < MAX_ITER) {
        break;
      }
    }
    result := xm;
    assert result == Run(f, Start(xl0, xr0)).xm && records == Run(f, Start(xl0, xr0)).records;
    RunFromStart(f, xl0, xr0);
  }
}
