/**
 * The false-position page: the new point is where the chord through
 * (xl, f(xl)) and (xr, f(xr)) crosses zero; the bracket then follows the same
 * sign test, error and stopping rule as bisection.
 */
module FalsePosition {
  import opened Wrappers
  import opened RootIteration

  /**
   * (xl * fxr - xr * fxl) / (fxr - fxl): the straight line through (xl, fxl)
   * and (xr, fxr) vanishes there.
   */
  function Chord(xl: real, xr: real, fxl: real, fxr: real): (m: real)
    requires fxr != fxl
    ensures fxl * (xr - m) + fxr * (m - xl) == 0.0
  {
    var m := (xl * fxr - xr * fxl) / (fxr - fxl);
    assert m * (fxr - fxl) == xl * fxr - xr * fxl;
    m
  }

  /** With a sign change over a proper bracket the chord is defined and crosses strictly inside it. */
  lemma ChordInside(xl: real, xr: real, fxl: real, fxr: real)
    requires xl < xr && fxl * fxr < 0.0
    ensures fxr != fxl && xl < Chord(xl, xr, fxl, fxr) < xr
  {
    var d := fxr - fxl;
    var m := Chord(xl, xr, fxl, fxr);
    assert (m - xl) * d == (xr - xl) * (-fxl) by {
      assert fxl * (xr - m) + fxr * (m - xl) == 0.0;
    }
    assert (xr - m) * d == (xr - xl) * fxr by {
      assert fxl * (xr - m) + fxr * (m - xl) == 0.0;
    }
    if fxl < 0.0 {
      assert fxr > 0.0 && d > 0.0;
      assert (xr - xl) * (-fxl) > 0.0 && (xr - xl) * fxr > 0.0;
      SameSign(m - xl, d);
      SameSign(xr - m, d);
    } else {
      assert fxl > 0.0 && fxr < 0.0 && d < 0.0;
      assert (xr - xl) * (-fxl) < 0.0 && (xr - xl) * fxr < 0.0;
      SameSign(m - xl, d);
      SameSign(xr - m, d);
    }
  }

  lemma SameSign(a: real, d: real)
    requires (d > 0.0 && a * d > 0.0) || (d < 0.0 && a * d < 0.0)
    ensures a > 0.0
  {
  }

  /** One pass of the loop body; None when f(xl) == f(xr) and the chord divides by zero. */
  function Step(f: real -> real, s: Search): Option<Search> {
    var fxl := f(s.xl);
    var fxr := f(s.xr);
    if fxr == fxl then None
    else
      var xm := Chord(s.xl, s.xr, fxl, fxr);
      Some(Update(s, xm, f(xm), fxr))
  }

  /** The do-while loop from the variables s; None if some pass divides by zero. */
  function Run(f: real -> real, s: Search): (r: Option<Search>)
    requires s.iter < MAX_ITER
    ensures r.Some? ==> s.iter < r.value.iter <= MAX_ITER && !Continue(r.value)
    decreases MAX_ITER - s.iter
  {
    match Step(f, s)
    case None => None
    case Some(t) => if Continue(t) then Run(f, t) else Some(t)
  }

  /** Every recorded point is the chord's zero for its recorded bracket. */
  ghost predicate ChordPoints(f: real -> real, records: seq<BracketRecord>) {
    forall k :: 0 <= k < |records| ==>
      var r := records[k];
      f(r.xr) != f(r.xl) && r.xm == Chord(r.xl, r.xr, f(r.xl), f(r.xr))
  }

  /** The table rows of a run are numbered by loop count, lie on the chord and follow the sign rule. */
  lemma {:induction false} RunRecords(f: real -> real, s: Search)
    requires s.iter < MAX_ITER && Numbered(s.records, s.iter)
    requires ChordPoints(f, s.records) && RecordsFollowRule(f, s.records)
    ensures Run(f, s).Some? ==>
      var t := Run(f, s).value;
      |t.records| <= MAX_ITER && Numbered(t.records, MAX_ITER) &&
      ChordPoints(f, t.records) && RecordsFollowRule(f, t.records)
    decreases MAX_ITER - s.iter
  {
    if Step(f, s).Some? {
      var t := Step(f, s).value;
      var xm := Chord(s.xl, s.xr, f(s.xl), f(s.xr));
      UpdateNumbered(s, xm, f(xm), f(s.xr));
      UpdateFollowsRule(f, s, xm);
      if Continue(t) {
        RunRecords(f, t);
      }
    }
  }

  /** The current and every recorded bracket lie in [lo, hi], with a sign change across each. */
  ghost predicate SignBracketed(f: real -> real, s: Search, lo: real, hi: real) {
    lo <= s.xl < s.xr <= hi && f(s.xl) * f(s.xr) < 0.0 &&
    forall k :: 0 <= k < |s.records| ==>
      var r := s.records[k];
      lo <= r.xl < r.xm < r.xr <= hi && f(r.xl) * f(r.xr) < 0.0
  }

  /**
   * From a proper bracket with a sign change no pass divides by zero, the sign
   * change is kept, and every point stays strictly inside its bracket.
   */
  lemma {:induction false} RunBracketed(f: real -> real, s: Search, lo: real, hi: real)
    requires s.iter < MAX_ITER && SignBracketed(f, s, lo, hi)
    ensures Run(f, s).Some? && SignBracketed(f, Run(f, s).value, lo, hi)
    decreases MAX_ITER - s.iter
  {
    ChordInside(s.xl, s.xr, f(s.xl), f(s.xr));
    var xm := Chord(s.xl, s.xr, f(s.xl), f(s.xr));
    UpdateKeepsSignChange(f, s, xm);
    var t := Step(f, s).value;
    assert SignBracketed(f, t, lo, hi);
    if Continue(t) {
      RunBracketed(f, t, lo, hi);
    }
  }

  /**
   * What a run from the first bracket promises: the rows are numbered by loop
   * count, lie on their chords and follow the sign rule; and from a proper
   * bracket with a sign change the run cannot fail and keeps that sign change,
   * with every row's point strictly inside its bracket.
   */
  lemma RunFromStart(f: real -> real, xl0: real, xr0: real)
    ensures Run(f, Start(xl0, xr0)).Some? ==>
      var t := Run(f, Start(xl0, xr0)).value;
      |t.records| <= MAX_ITER && Numbered(t.records, MAX_ITER) &&
      ChordPoints(f, t.records) && RecordsFollowRule(f, t.records)
    ensures xl0 < xr0 && f(xl0) * f(xr0) < 0.0 ==>
      Run(f, Start(xl0, xr0)).Some? && SignBracketed(f, Run(f, Start(xl0, xr0)).value, xl0, xr0)
  {
    RunRecords(f, Start(xl0, xr0));
    if xl0 < xr0 && f(xl0) * f(xr0) < 0.0 {
      RunBracketed(f, Start(xl0, xr0), xl0, xr0);
    }
  }

  /** A zero product on the first pass stops the loop at once with an empty table and the chord point as the answer. */
  lemma FirstPassZero(f: real -> real, xl: real, xr: real)
    requires f(xr) != f(xl) && f(Chord(xl, xr, f(xl), f(xr))) * f(xr) == 0.0
    ensures Run(f, Start(xl, xr)) == Some(Search(xl, xr, Chord(xl, xr, f(xl), f(xr)), Unset, 1, []))
  {
  }

  /**
   * The false-position loop, pass by pass on its own variables: None when a
   * pass meets f(xl) == f(xr), otherwise the last new point and the table,
   * those of Run.
   */
  method Solve(f: real -> real, xl0: real, xr0: real) returns (result: Option<real>, records: seq<BracketRecord>)
    ensures Run(f, Start(xl0, xr0)).None? <==> result.None?
    ensures result.Some? ==>
      result.value == Run(f, Start(xl0, xr0)).value.xm && records == Run(f, Start(xl0, xr0)).value.records
    ensures result.Some? ==>
      |records| <= MAX_ITER && Numbered(records, MAX_ITER) &&
      ChordPoints(f, records) && RecordsFollowRule(f, records)
    ensures xl0 < xr0 && f(xl0) * f(xr0) < 0.0 ==>
      result.Some? && forall k :: 0 <= k < |records| ==> xl0 <= records[k].xl < records[k].xm < records[k].xr <= xr0
  {
    var xl, xr := xl0, xr0;
    var xm := 0.0;
    var ea := Unset;
    var iter := 0;
    records := [];
    RunFromStart(f, xl0, xr0);
    while true
      invariant iter < MAX_ITER
      invariant Run(f, Search(xl, xr, xm, ea, iter, records)) == Run(f, Start(xl0, xr0))
      decreases MAX_ITER - iter
    {
      ghost var s := Search(xl, xr, xm, ea, iter, records);
      var fXl := f(xl);
      var fXr := f(xr);
      if fXr == fXl {
        return None, records;
      }
      xm := Chord(xl, xr, fXl, fXr);
      var fXm := f(xm);
      iter := iter + 1;
      if fXm * fXr > 0.0 {
        ea := PercentError(xr, xm);
        records := records + [BracketRecord(iter, xl, xm, xr, ea)];
        xr := xm;
      } else if fXm * fXr < 0.0 {
        ea := PercentError(xl, xm);
        records := records + [BracketRecord(iter, xl, xm, xr, ea)];
        xl := xm;
      }
      assert Some(Search(xl, xr, xm, ea, iter, records)) == Step(f, s);
      if !(ExceedsTolerance(ea) && iter < MAX_ITER) {
        break;
      }
    }
    result := Some(xm);
  }
}
