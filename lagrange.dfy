/**
 * The Lagrange interpolation page: over the selected points, the value at
 * findX is the sum of each fx_i times its basis polynomial
 * L_i = product over j != i of (findX - x_j) / (x_i - x_j), and the page lists
 * each L_i's value under the label L1, L2, ...
 */
module Lagrange {
  import opened Selection

  /** One entry of the listed equation: the number i + 1 of its label and the value of L_i. */
  datatype BasisTerm = BasisTerm(number: nat, value: real)

  /**
   * How the calculation ends: fewer than two points selected (nothing is set),
   * two selected points sharing an abscissa (a division by zero), or the value
   * and the listed basis terms.
   */
  datatype LagrangeOutcome =
    | TooFewPoints
    | DuplicateAbscissa
    | Interpolated(value: real, equation: seq<BasisTerm>)

  /** Point i's abscissa differs from every other point's among the first m. */
  ghost predicate NodeDistinctUpTo(data: seq<Point>, i: nat, m: nat)
    requires i < |data| && m <= |data|
  {
    forall j :: 0 <= j < m && j != i ==> data[j].x != data[i].x
  }

  /** No two points share an abscissa. */
  ghost predicate Distinct(data: seq<Point>) {
    forall i, j :: 0 <= i < |data| && 0 <= j < |data| && i != j ==> data[i].x != data[j].x
  }

  /** The product of the factors of L_i for j < m, skipping j == i. */
  function BasisUpTo(data: seq<Point>, i: nat, findX: real, m: nat): real
    requires i < |data| && m <= |data| && NodeDistinctUpTo(data, i, m)
  {
    if m == 0 then 1.0
    else if m - 1 == i then BasisUpTo(data, i, findX, m - 1)
    else BasisUpTo(data, i, findX, m - 1) * ((findX - data[m - 1].x) / (data[i].x - data[m - 1].x))
  }

  /** L_i at findX. */
  function Basis(data: seq<Point>, i: nat, findX: real): real
    requires i < |data| && NodeDistinctUpTo(data, i, |data|)
  {
    BasisUpTo(data, i, findX, |data|)
  }

  /** The sum of fx_i * L_i over i < m. */
  function SumUpTo(data: seq<Point>, findX: real, m: nat): real
    requires m <= |data| && forall i :: 0 <= i < m ==> NodeDistinctUpTo(data, i, |data|)
  {
    if m == 0 then 0.0
    else SumUpTo(data, findX, m - 1) + Basis(data, m - 1, findX) * data[m - 1].fx
  }

  /** The interpolating value at findX. */
  function Interpolant(data: seq<Point>, findX: real): real
    requires Distinct(data)
  {
    SumUpTo(data, findX, |data|)
  }

  /** At its own node each factor of L_k is 1, so L_k(x_k) == 1. */
  lemma {:induction false} BasisAtOwnNode(data: seq<Point>, k: nat, m: nat)
    requires k < |data| && m <= |data| && NodeDistinctUpTo(data, k, m)
    ensures BasisUpTo(data, k, data[k].x, m) == 1.0
  {
    if m > 0 {
      BasisAtOwnNode(data, k, m - 1);
    }
  }

  /** At another node x_k the factor j == k of L_i is 0, so L_i(x_k) == 0 once that factor is in. */
  lemma {:induction false} BasisAtOtherNode(data: seq<Point>, i: nat, k: nat, m: nat)
    requires i < |data| && k < |data| && i != k && k < m <= |data| && NodeDistinctUpTo(data, i, m)
    ensures BasisUpTo(data, i, data[k].x, m) == 0.0
  {
    if m - 1 != k {
      BasisAtOtherNode(data, i, k, m - 1);
    } else {
      assert (data[k].x - data[m - 1].x) / (data[i].x - data[m - 1].x) == 0.0;
    }
  }

  /** The partial sums at a node x_k: fx_k once term k is in, 0 before. */
  lemma {:induction false} SumAtNode(data: seq<Point>, k: nat, m: nat)
    requires Distinct(data) && k < |data| && m <= |data|
    ensures SumUpTo(data, data[k].x, m) == if k < m then data[k].fx else 0.0
  {
    if m > 0 {
      SumAtNode(data, k, m - 1);
      if m - 1 == k {
        BasisAtOwnNode(data, k, |data|);
      } else {
        BasisAtOtherNode(data, m - 1, k, |data|);
      }
    }
  }

  /** With distinct abscissas the interpolant passes through every point. */
  lemma Interpolates(data: seq<Point>, k: nat)
    requires Distinct(data) && k < |data|
    ensures Interpolant(data, data[k].x) == data[k].fx
  {
    SumAtNode(data, k, |data|);
  }

  /** Through two points the interpolant is the straight line. */
  lemma TwoPointLine(data: seq<Point>, findX: real)
    requires |data| == 2 && data[0].x != data[1].x
    ensures Interpolant(data, findX) ==
      data[0].fx + (findX - data[0].x) * (data[1].fx - data[0].fx) / (data[1].x - data[0].x)
  {
    var x0, x1, f0, f1 := data[0].x, data[1].x, data[0].fx, data[1].fx;
    assert BasisUpTo(data, 0, findX, 1) == 1.0;
    assert Basis(data, 0, findX) == (findX - x1) / (x0 - x1);
    assert BasisUpTo(data, 1, findX, 1) == (findX - x0) / (x1 - x0);
    assert Basis(data, 1, findX) == (findX - x0) / (x1 - x0);
    assert SumUpTo(data, findX, 1) == Basis(data, 0, findX) * f0;
    assert Interpolant(data, findX) == Basis(data, 0, findX) * f0 + Basis(data, 1, findX) * f1;
    LineThroughTwo(x0, x1, f0, f1, findX);
  }

  /** The two-term Lagrange form of a line is its point-slope form. */
  lemma LineThroughTwo(x0: real, x1: real, f0: real, f1: real, findX: real)
    requires x0 != x1
    ensures (findX - x1) / (x0 - x1) * f0 + (findX - x0) / (x1 - x0) * f1 ==
      f0 + (findX - x0) * (f1 - f0) / (x1 - x0)
  {
    var d := x1 - x0;
    assert (findX - x1) / (x0 - x1) == (x1 - findX) / d;
    assert (x1 - findX) / d * f0 + (findX - x0) / d * f1 == (f0 * (x1 - findX) + f1 * (findX - x0)) / d;
    assert f0 + (findX - x0) * (f1 - f0) / d == (f0 * d + (findX - x0) * (f1 - f0)) / d;
  }

  /**
   * The inner loop: multiply up the factors of L_i, failing at the first
   * other point on the same abscissa.
   */
  method BasisValue(data: seq<Point>, i: nat, findX: real) returns (term: real, ok: bool)
    requires i < |data|
    ensures ok <==> NodeDistinctUpTo(data, i, |data|)
    ensures ok ==> term == Basis(data, i, findX)
  {
    term := 1.0;
    for j := 0 to |data|
      invariant NodeDistinctUpTo(data, i, j)
      invariant term == BasisUpTo(data, i, findX, j)
    {
      if i != j {
        if data[i].x == data[j].x {
          return term, false;
        }
        term := term * ((findX - data[j].x) / (data[i].x - data[j].x));
      }
    }
    ok := true;
  }

  /**
   * The page's calculation: filter the selected points; with fewer than two
   * stop; otherwise accumulate fx_i * L_i and list L1, L2, ... in order. It
   * fails exactly when two selected points share an abscissa, and otherwise
   * gives the interpolant at findX with one listed term per point.
   */
  method Calculate(points: seq<Point>, flags: seq<bool>, findX: real) returns (out: LagrangeOutcome)
    ensures var data := Selected(points, flags);
      (out.TooFewPoints? <==> |data| < 2) &&
      (out.DuplicateAbscissa? <==> |data| >= 2 && !Distinct(data)) &&
      (out.Interpolated? ==>
        Distinct(data) && out.value == Interpolant(data, findX) &&
        |out.equation| == |data| &&
        forall i :: 0 <= i < |data| ==> out.equation[i] == BasisTerm(i + 1, Basis(data, i, findX)))
  {
    var data := Selected(points, flags);
    if |data| < 2 {
      return TooFewPoints;
    }
    var result := 0.0;
    var equation: seq<BasisTerm> := [];
    for i := 0 to |data|
      invariant forall p :: 0 <= p < i ==> NodeDistinctUpTo(data, p, |data|)
      invariant result == SumUpTo(data, findX, i)
      invariant |equation| == i
      invariant forall p :: 0 <= p < i ==> equation[p] == BasisTerm(p + 1, Basis(data, p, findX))
    {
      var term, ok := BasisValue(data, i, findX);
      if !ok {
        return DuplicateAbscissa;
      }
      result := result + term * data[i].fx;
      equation := equation + [BasisTerm(i + 1, term)];
    }
    assert Distinct(data) by {
      forall p, q | 0 <= p < |data| && 0 <= q < |data| && p != q
        ensures data[p].x != data[q].x
      {
        assert NodeDistinctUpTo(data, p, |data|);
      }
    }
    out := Interpolated(result, equation);
  }
}
