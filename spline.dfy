/**
 * The spline interpolation page: over the selected points, in selection order,
 * the linear spline has one piece per consecutive pair, and the value at findX
 * comes from the last piece whose interval [x_{i-1}, x_i] contains it. The
 * quadratic and cubic choices compute nothing.
 */
module Spline {
  import opened Wrappers
  import opened Selection

  /**
   * Piece `number` from (x0, f0) to (x1, f1): f0 + slope * (x - x0). The slope
   * is None when x0 == x1, where JavaScript's division gives ±Infinity or NaN.
   */
  datatype Piece = Piece(number: nat, x0: real, x1: real, f0: real, slope: Option<real>)

  /** The interpolated value: unset (`undefined`), a number, or NaN. */
  datatype SplineValue = Undefined | Value(v: real) | NotANumber

  /** How the calculation ends: fewer than two points selected (nothing is set), or the pieces and the value. */
  datatype SplineOutcome =
    | TooFewPoints
    | Spline(pieces: seq<Piece>, value: SplineValue)

  /** The piece for the consecutive pair (i - 1, i). */
  function PieceAt(data: seq<Point>, i: nat): (p: Piece)
    requires 1 <= i < |data|
    ensures p.number == i && p.x0 == data[i - 1].x && p.x1 == data[i].x && p.f0 == data[i - 1].fx
    ensures p.slope.Some? <==> data[i - 1].x != data[i].x
    ensures p.slope.Some? ==> p.slope.value * (data[i].x - data[i - 1].x) == data[i].fx - data[i - 1].fx
  {
    var x0, x1, f0, f1 := data[i - 1].x, data[i].x, data[i - 1].fx, data[i].fx;
    Piece(i, x0, x1, f0, if x1 == x0 then None else Some((f1 - f0) / (x1 - x0)))
  }

  /** A piece's value at findX; NaN for a piece of zero width, since 0 times ±Infinity or NaN is NaN. */
  function PieceValue(p: Piece, findX: real): SplineValue {
    match p.slope
    case None => NotANumber
    case Some(s) => Value(p.f0 + (findX - p.x0) * s)
  }

  /** Interval i, [x_{i-1}, x_i], contains findX. */
  predicate Contains(data: seq<Point>, i: nat, findX: real)
    requires 1 <= i < |data|
  {
    data[i - 1].x <= findX <= data[i].x
  }

  /** The last interval among 1 .. m - 1 that contains findX, if any. */
  function LastContaining(data: seq<Point>, findX: real, m: nat): (r: Option<nat>)
    requires m <= |data|
    ensures r.Some? ==>
      1 <= r.value < m && Contains(data, r.value, findX) &&
      forall i :: r.value < i < m ==> !Contains(data, i, findX)
    ensures r.None? ==> forall i :: 1 <= i < m ==> !Contains(data, i, findX)
  {
    if m <= 1 then None
    else if Contains(data, m - 1, findX) then Some(m - 1)
    else LastContaining(data, findX, m - 1)
  }

  /** The value after the pairs 1 .. m - 1: the last containing piece's, or unset. */
  function ValueUpTo(data: seq<Point>, findX: real, m: nat): SplineValue
    requires m <= |data|
  {
    match LastContaining(data, findX, m)
    case None => Undefined
    case Some(i) => PieceValue(PieceAt(data, i), findX)
  }

  /** The linear spline's value at findX. */
  function SplineAt(data: seq<Point>, findX: real): SplineValue {
    ValueUpTo(data, findX, |data|)
  }

  /** A piece of non-zero width passes through both of its points. */
  lemma PieceEndpoints(data: seq<Point>, i: nat)
    requires 1 <= i < |data| && data[i - 1].x != data[i].x
    ensures PieceValue(PieceAt(data, i), data[i - 1].x) == Value(data[i - 1].fx)
    ensures PieceValue(PieceAt(data, i), data[i].x) == Value(data[i].fx)
  {
  }

  /** Inside its interval a piece of non-zero width lies between the values at its two ends. */
  lemma PieceBetween(data: seq<Point>, i: nat, findX: real)
    requires 1 <= i < |data| && data[i - 1].x != data[i].x && Contains(data, i, findX)
    ensures var v := PieceValue(PieceAt(data, i), findX).v;
      (data[i - 1].fx <= v <= data[i].fx) || (data[i].fx <= v <= data[i - 1].fx)
  {
    var x0, x1, f0, f1 := data[i - 1].x, data[i].x, data[i - 1].fx, data[i].fx;
    var d := x1 - x0;
    var t := (findX - x0) / d;
    assert d > 0.0;
    assert t * d == findX - x0;
    assert (1.0 - t) * d == x1 - findX;
    FactorNonNegative(t, d);
    FactorNonNegative(1.0 - t, d);
    var s := PieceAt(data, i).slope.value;
    assert (findX - x0) * s == t * (f1 - f0);
    if f0 <= f1 {
      ProductNonNegative(t, f1 - f0);
      ProductNonNegative(1.0 - t, f1 - f0);
    } else {
      ProductNonNegative(t, f0 - f1);
      ProductNonNegative(1.0 - t, f0 - f1);
    }
  }

  lemma FactorNonNegative(q: real, d: real)
    requires d > 0.0 && q * d >= 0.0
    ensures q >= 0.0
  {
  }

  lemma ProductNonNegative(a: real, b: real)
    requires a >= 0.0 && b >= 0.0
    ensures a * b >= 0.0
  {
  }

  /**
   * The spline's value comes from the last interval that contains findX: NaN
   * if that interval has zero width, otherwise a value between its two ends.
   * With no containing interval it is unset.
   */
  lemma SplineFromLastInterval(data: seq<Point>, findX: real)
    ensures var r := LastContaining(data, findX, |data|);
      (r.None? <==> SplineAt(data, findX).Undefined?) &&
      (r.Some? ==>
        var i := r.value;
        (SplineAt(data, findX).NotANumber? <==> data[i - 1].x == data[i].x) &&
        (SplineAt(data, findX).Value? ==>
          var v := SplineAt(data, findX).v;
          (data[i - 1].fx <= v <= data[i].fx) || (data[i].fx <= v <= data[i - 1].fx)))
  {
    var r := LastContaining(data, findX, |data|);
    if r.Some? && data[r.value - 1].x != data[r.value].x {
      PieceBetween(data, r.value, findX);
    }
  }

  /** The abscissas rise strictly in selection order. */
  ghost predicate Increasing(data: seq<Point>) {
    forall a, b :: 0 <= a < b < |data| ==> data[a].x < data[b].x
  }

  /**
   * For strictly rising abscissas the spline passes through every point: at an
   * inner knot both neighbouring pieces contain it, the later one wins, and it
   * starts there.
   */
  lemma SplineAtKnot(data: seq<Point>, k: nat)
    requires |data| >= 2 && Increasing(data) && k < |data|
    ensures SplineAt(data, data[k].x) == Value(data[k].fx)
  {
    var n := |data|;
    var x := data[k].x;
    var r := LastContaining(data, x, n);
    var i := if k + 1 < n then k + 1 else k;
    assert Contains(data, i, x);
    assert r.Some?;
    assert r.value == i;
    PieceEndpoints(data, i);
  }

  /** For strictly rising abscissas the spline is unset outside [x_0, x_{n-1}]. */
  lemma SplineOutside(data: seq<Point>, findX: real)
    requires |data| >= 1 && Increasing(data)
    requires findX < data[0].x || data[|data| - 1].x < findX
    ensures SplineAt(data, findX) == Undefined
  {
    forall i | 1 <= i < |data|
      ensures !Contains(data, i, findX)
    {
      assert data[0].x <= data[i - 1].x && data[i].x <= data[|data| - 1].x;
    }
    assert LastContaining(data, findX, |data|).None?;
  }

  /**
   * The page's calculation: filter the selected points; with fewer than two
   * stop; for the linear choice "1" build the piece of every consecutive pair
   * in selection order and keep the value of the last piece containing findX;
   * any other choice leaves the pieces empty and the value unset.
   */
  method Calculate(points: seq<Point>, flags: seq<bool>, degree: string, findX: real) returns (out: SplineOutcome)
    ensures var data := Selected(points, flags);
      (out.TooFewPoints? <==> |data| < 2) &&
      (out.Spline? && degree == "1" ==>
        out.value == SplineAt(data, findX) && |out.pieces| == |data| - 1 &&
        forall k :: 0 <= k < |out.pieces| ==> out.pieces[k] == PieceAt(data, k + 1)) &&
      (out.Spline? && degree != "1" ==> out.pieces == [] && out.value == Undefined)
  {
    var data := Selected(points, flags);
    if |data| < 2 {
      return TooFewPoints;
    }
    var value := Undefined;
    var pieces: seq<Piece> := [];
    if degree == "1" {
      for i := 1 to |data|
        invariant |pieces| == i - 1
        invariant forall k :: 0 <= k < i - 1 ==> pieces[k] == PieceAt(data, k + 1)
        invariant value == ValueUpTo(data, findX, i)
      {
        var x0, x1 := data[i - 1].x, data[i].x;
        var f0, f1 := data[i - 1].fx, data[i].fx;
        var slope := if x1 == x0 then None else Some((f1 - f0) / (x1 - x0));
        pieces := pieces + [Piece(i, x0, x1, f0, slope)];
        if x0 <= findX && findX <= x1 {
          value := PieceValue(Piece(i, x0, x1, f0, slope), findX);
        }
      }
    }
    out := Spline(pieces, value);
  }
}
