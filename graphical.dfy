/**
 * The graphical page: sample the function at 101 evenly spaced points from
 * the start to the end of the range, chart every sample that evaluates, and
 * answer the earliest sample with the smallest |f(x)|. An evaluation that
 * fails (None) is skipped.
 */
module Graphical {
  import opened Wrappers
  import opened Numeric

  /** A point of the chart. */
  datatype GraphPoint = GraphPoint(x: real, y: real)

  /** One row of the iteration table: the count of samples evaluated so far, the sample, |f(x)|. */
  datatype ScanRecord = ScanRecord(iteration: nat, x: real, error: real)

  /**
   * The loop variables: the smallest value so far (None before any, standing
   * for the initial Infinity), where it was met, the count of evaluated
   * samples, the chart and the table.
   */
  datatype ScanState = ScanState(minY: Option<real>, minX: real, iter: nat, graph: seq<GraphPoint>, records: seq<ScanRecord>)

  /** The spacing between samples: a hundredth of the range. */
  function StepOf(xStart: real, xEnd: real): real {
    (xEnd - xStart) / 100.0
  }

  /** The k-th sample, reached from the start after k steps. */
  function Sample(xStart: real, step: real, k: nat): real {
    xStart + (k as real) * step
  }

  /** In exact arithmetic the loop test `x <= xEnd` admits the samples 0 to 100 of a rising range. */
  lemma SampleWithin(xStart: real, xEnd: real, k: nat)
    requires xStart < xEnd
    ensures Sample(xStart, StepOf(xStart, xEnd), k) <= xEnd <==> k <= 100
  {
    var d := xEnd - xStart;
    assert Sample(xStart, StepOf(xStart, xEnd), k) - xEnd == d * ((k as real) - 100.0) / 100.0;
    if k <= 100 {
      assert d * ((k as real) - 100.0) <= 0.0;
    } else {
      assert d * ((k as real) - 100.0) > 0.0;
    }
  }

  /** How many samples the loop visits: 101 for a rising range, none for a falling one. */
  function SampleCount(xStart: real, xEnd: real): (n: nat)
    requires xStart != xEnd
    ensures n == 0 || n == 101
    ensures xStart < xEnd ==> Sample(xStart, StepOf(xStart, xEnd), 100) == xEnd
  {
    if xStart < xEnd then 101 else 0
  }

  /** The strict `<` against the current minimum, which starts as +Infinity. */
  predicate BelowMin(a: real, minY: Option<real>) {
    match minY
    case None => true
    case Some(m) => a < Abs(m)
  }

  /** The body of the loop at sample x. */
  function Visit(f: real -> Option<real>, st: ScanState, x: real): ScanState {
    match f(x)
    case None => st
    case Some(y) =>
      var iter := st.iter + 1;
      ScanState(if BelowMin(Abs(y), st.minY) then Some(y) else st.minY,
                if BelowMin(Abs(y), st.minY) then x else st.minX,
                iter, st.graph + [GraphPoint(x, y)], st.records + [ScanRecord(iter, x, Abs(y))])
  }

  /** The variables after visiting the first k samples. */
  function ScanUpTo(f: real -> Option<real>, xStart: real, step: real, k: nat): ScanState {
    if k == 0 then ScanState(None, xStart, 0, [], [])
    else Visit(f, ScanUpTo(f, xStart, step, k - 1), Sample(xStart, step, k - 1))
  }

  /** The table matches the chart row for row: loop counts 1, 2, 3, ... and error |y|. */
  ghost predicate Tabulated(st: ScanState) {
    |st.graph| == st.iter && |st.records| == st.iter &&
    forall j :: 0 <= j < |st.graph| ==>
      st.records[j] == ScanRecord(j + 1, st.graph[j].x, Abs(st.graph[j].y))
  }

  /**
   * The chart holds exactly the first k samples that evaluate: each point is
   * f's value at its x, every such sample is charted, and for a rising range
   * the points are in sample order below the k-th sample.
   */
  ghost predicate Charted(f: real -> Option<real>, xStart: real, step: real, k: nat, graph: seq<GraphPoint>) {
    (forall j :: 0 <= j < |graph| ==> f(graph[j].x) == Some(graph[j].y)) &&
    (forall i :: 0 <= i < k && f(Sample(xStart, step, i)).Some? ==>
      GraphPoint(Sample(xStart, step, i), f(Sample(xStart, step, i)).value) in graph) &&
    (step > 0.0 ==>
      (forall j :: 0 <= j < |graph| ==> xStart <= graph[j].x <= Sample(xStart, step, k) - step) &&
      (forall i, j :: 0 <= i < j < |graph| ==> graph[i].x < graph[j].x))
  }

  /** Entry m of the chart has the smallest |y|, and every earlier entry a strictly larger one. */
  ghost predicate EarliestMinimum(graph: seq<GraphPoint>, m: nat) {
    m < |graph| &&
    (forall j :: 0 <= j < |graph| ==> Abs(graph[m].y) <= Abs(graph[j].y)) &&
    (forall j :: 0 <= j < m ==> Abs(graph[m].y) < Abs(graph[j].y))
  }

  /** The answer: the earliest charted point of smallest |y|, or the start when nothing was charted. */
  ghost predicate Minimised(st: ScanState, xStart: real) {
    (st.graph == [] ==> st.minY == None && st.minX == xStart) &&
    (st.graph != [] ==> exists m: nat :: MinimumAt(st, m))
  }

  /** The variables' minimum is entry m of the chart, and m is the earliest minimum. */
  ghost predicate MinimumAt(st: ScanState, m: nat) {
    EarliestMinimum(st.graph, m) && st.minX == st.graph[m].x && st.minY == Some(st.graph[m].y)
  }

  /** A sample below the current minimum becomes the new minimum: it is the last and earliest minimal entry. */
  lemma VisitNewMinimum(st: ScanState, x: real, y: real, xStart: real)
    requires Minimised(st, xStart) && BelowMin(Abs(y), st.minY)
    ensures MinimumAt(ScanState(Some(y), x, st.iter + 1, st.graph + [GraphPoint(x, y)], []), |st.graph|)
  {
    var g := st.graph + [GraphPoint(x, y)];
    var n := |st.graph|;
    if st.graph != [] {
      var m: nat :| MinimumAt(st, m);
      forall j | 0 <= j < n
        ensures Abs(y) < Abs(g[j].y)
      {
        assert g[j] == st.graph[j];
        assert Abs(st.graph[m].y) <= Abs(st.graph[j].y);
      }
    }
    assert EarliestMinimum(g, n);
  }

  /** A sample not below the current minimum leaves the minimum where it was. */
  lemma VisitSameMinimum(st: ScanState, x: real, y: real, m: nat)
    requires MinimumAt(st, m) && !BelowMin(Abs(y), st.minY)
    ensures MinimumAt(ScanState(st.minY, st.minX, st.iter + 1, st.graph + [GraphPoint(x, y)], []), m)
  {
    var g := st.graph + [GraphPoint(x, y)];
    assert forall j :: 0 <= j < |st.graph| ==> g[j] == st.graph[j];
    assert MinimumAt(ScanState(st.minY, st.minX, st.iter + 1, g, []), m);
  }

  lemma VisitMinimised(f: real -> Option<real>, st: ScanState, x: real, xStart: real)
    requires Minimised(st, xStart)
    ensures Minimised(Visit(f, st, x), xStart)
  {
    if f(x).Some? {
      var y := f(x).value;
      var t := Visit(f, st, x);
      if BelowMin(Abs(y), st.minY) {
        VisitNewMinimum(st, x, y, xStart);
        assert MinimumAt(t, |st.graph|);
      } else {
        var m: nat :| MinimumAt(st, m);
        VisitSameMinimum(st, x, y, m);
        assert MinimumAt(t, m);
      }
    }
  }

  /** The table matches the chart after any number of samples. */
  lemma {:induction false} ScanTabulated(f: real -> Option<real>, xStart: real, step: real, k: nat)
    ensures Tabulated(ScanUpTo(f, xStart, step, k))
  {
    if k > 0 {
      ScanTabulated(f, xStart, step, k - 1);
    }
  }

  /** The chart holds the evaluated samples among the first k. */
  lemma {:induction false} ScanCharted(f: real -> Option<real>, xStart: real, step: real, k: nat)
    ensures Charted(f, xStart, step, k, ScanUpTo(f, xStart, step, k).graph)
  {
    if k > 0 {
      ScanCharted(f, xStart, step, k - 1);
      var st := ScanUpTo(f, xStart, step, k - 1);
      var x := Sample(xStart, step, k - 1);
      var t := Visit(f, st, x);
      forall i | 0 <= i < k && f(Sample(xStart, step, i)).Some?
        ensures GraphPoint(Sample(xStart, step, i), f(Sample(xStart, step, i)).value) in t.graph
      {
        if i < k - 1 {
          assert GraphPoint(Sample(xStart, step, i), f(Sample(xStart, step, i)).value) in st.graph;
        } else {
          assert t.graph[|t.graph| - 1] == GraphPoint(x, f(x).value);
        }
      }
      if step > 0.0 {
        assert Sample(xStart, step, k) - step == x;
        assert Sample(xStart, step, k - 1) - step < x;
        assert xStart <= x;
      }
    }
  }

  /** The variables hold the earliest minimum of the chart after any number of samples. */
  lemma {:induction false} ScanMinimised(f: real -> Option<real>, xStart: real, step: real, k: nat)
    ensures Minimised(ScanUpTo(f, xStart, step, k), xStart)
  {
    if k > 0 {
      ScanMinimised(f, xStart, step, k - 1);
      VisitMinimised(f, ScanUpTo(f, xStart, step, k - 1), Sample(xStart, step, k - 1), xStart);
    }
  }

  /**
   * The graphical scan on its own variables, stepping x from the start by a
   * hundredth of the range while x <= xEnd. It visits exactly SampleCount
   * samples; a range of zero width would never end, hence the precondition.
   */
  method Scan(f: real -> Option<real>, xStart: real, xEnd: real)
    returns (result: real, graph: seq<GraphPoint>, records: seq<ScanRecord>)
    requires xStart != xEnd
    ensures var st := ScanUpTo(f, xStart, StepOf(xStart, xEnd), SampleCount(xStart, xEnd));
      result == st.minX && graph == st.graph && records == st.records
    ensures graph == [] ==> result == xStart
    ensures graph != [] ==> exists m: nat :: EarliestMinimum(graph, m) && result == graph[m].x
    ensures forall j :: 0 <= j < |graph| ==> f(graph[j].x) == Some(graph[j].y) && xStart <= graph[j].x <= xEnd
  {
    var step := (xEnd - xStart) / 100.0;
    var minY: Option<real> := None;
    var minX := xStart;
    var iter := 0;
    graph := [];
    records := [];
    var x := xStart;
    ghost var k: nat := 0;
    while x <= xEnd
      invariant k <= 101 && (xEnd < xStart ==> k == 0)
      invariant x == Sample(xStart, step, k)
      invariant ScanState(minY, minX, iter, graph, records) == ScanUpTo(f, xStart, step, k)
      decreases 101 - k
    {
      assert xStart < xEnd ==> k <= 100 by {
        if xStart < xEnd {
          SampleWithin(xStart, xEnd, k);
        }
      }
      var y := f(x);
      if y.Some? {
        graph := graph + [GraphPoint(x, y.value)];
        var absY := Abs(y.value);
        if BelowMin(absY, minY) {
          minY := y;
          minX := x;
        }
        iter := iter + 1;
        records := records + [ScanRecord(iter, x, absY)];
      }
      x := x + step;
      k := k + 1;
    }
    if xStart < xEnd {
      SampleWithin(xStart, xEnd, k);
    }
    result := minX;
    ScanOutcome(f, xStart, xEnd);
    assert graph != [] ==> exists m: nat :: MinimumAt(ScanState(minY, minX, iter, graph, records), m);
  }

  /**
   * What the scan's outcome means: the chart and table hold exactly the
   * samples that evaluate, in order, numbered 1, 2, 3, ...; all lie in the
   * range; the answer is the earliest charted sample of smallest |f(x)|, or
   * the start when none evaluates, in particular for a falling range.
   */
  lemma ScanOutcome(f: real -> Option<real>, xStart: real, xEnd: real)
    requires xStart != xEnd
    ensures var step := StepOf(xStart, xEnd);
      var n := SampleCount(xStart, xEnd);
      var st := ScanUpTo(f, xStart, step, n);
      Tabulated(st) && Charted(f, xStart, step, n, st.graph) && Minimised(st, xStart) &&
      (forall j :: 0 <= j < |st.graph| ==> xStart <= st.graph[j].x <= xEnd) &&
      (xEnd < xStart ==> st.graph == [] && st.minX == xStart)
  {
    var step := StepOf(xStart, xEnd);
    var n := SampleCount(xStart, xEnd);
    ScanTabulated(f, xStart, step, n);
    ScanCharted(f, xStart, step, n);
    ScanMinimised(f, xStart, step, n);
    if xStart < xEnd {
      assert Sample(xStart, step, n) - step == Sample(xStart, step, 100);
    }
  }
}
