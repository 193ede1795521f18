/**
 Transforming with the fitted polynomials, and the iterative removal of the
 worst control point until the rest fits or the minimum is reached.
 */
module GcpRefine {
  import opened LinearAlgebra
  import opened CrsSolver
  import opened LeastSquares
  import opened CrsFit
  import opened RealFacts
  import opened Basics

  // ------------------------------------------------------- evaluating the fit

  /** The powers of a point, as far as an order needs them. */
  datatype Powers = Powers(e: real, n: real, e2: real, en: real, n2: real, e3: real, e2n: real, en2: real, n3: real)

  function PowersOf(e: real, n: real): Powers {
    var e2, en, n2 := e * e, e * n, n * n;
    Powers(e, n, e2, en, n2, e * e2, e2 * n, e * n2, n * n2)
  }

  function Combine(c: seq<real>, w: Powers, order: int): real
    requires |c| >= 10
  {
    if order == 1 then c[0] + c[1] * w.e + c[2] * w.n
    else if order == 2 then
      c[0] + c[1] * w.e + c[2] * w.n + c[3] * w.e2 + c[4] * w.en + c[5] * w.n2
    else if order == 3 then
      c[0] + c[1] * w.e + c[2] * w.n + c[3] * w.e2 + c[4] * w.en + c[5] * w.n2 +
      c[6] * w.e3 + c[7] * w.e2n + c[8] * w.en2 + c[9] * w.n3
    else 0.0
  }

  /** One coordinate of the transformation of a point; 0 when the order is not supported. */
  function Polynomial(c: seq<real>, e: real, n: real, order: int): real
    requires |c| >= 10
  {
    Combine(c, PowersOf(e, n), order)
  }

  ghost function TermSum(c: seq<real>, e: real, n: real, count: nat): real {
    Sum(j => Term(j + 1, e, n) * At(c, j), count)
  }

  lemma SumOfThree(f: int -> real)
    ensures Sum(f, 3) == f(0) + f(1) + f(2)
  {
    assert Sum(f, 1) == f(0) && Sum(f, 2) == f(0) + f(1);
  }

  lemma SumOfThreeMore(f: int -> real, k: nat)
    ensures Sum(f, k + 3) == Sum(f, k) + f(k) + f(k + 1) + f(k + 2)
  {
    assert Sum(f, k + 1) == Sum(f, k) + f(k) && Sum(f, k + 2) == Sum(f, k + 1) + f(k + 1);
  }

  lemma TermsArePowers(e: real, n: real)
    ensures Term(1, e, n) == 1.0
    ensures PowersOf(e, n) == Powers(Term(2, e, n), Term(3, e, n), Term(4, e, n), Term(5, e, n), Term(6, e, n),
                                     Term(7, e, n), Term(8, e, n), Term(9, e, n), Term(10, e, n))
  {
    CubicTerms(e, n);
  }

  lemma CubicTerms(e: real, n: real)
    ensures e * (e * e) == e * e * e && e * (n * n) == e * n * n && n * (n * n) == n * n * n
  {
  }

  lemma TermCounts()
    ensures TermCount(1) == 3 && TermCount(2) == 6 && TermCount(3) == 10
  {
  }

  /** The first terms of the sum, product by product. */
  lemma TermSumUnrolled(c: seq<real>, e: real, n: real)
    requires |c| >= 10
    ensures TermSum(c, e, n, 3) == Term(1, e, n) * c[0] + Term(2, e, n) * c[1] + Term(3, e, n) * c[2]
    ensures TermSum(c, e, n, 6) ==
      TermSum(c, e, n, 3) + Term(4, e, n) * c[3] + Term(5, e, n) * c[4] + Term(6, e, n) * c[5]
    ensures TermSum(c, e, n, 10) ==
      TermSum(c, e, n, 6) + Term(7, e, n) * c[6] + Term(8, e, n) * c[7] + Term(9, e, n) * c[8] + Term(10, e, n) * c[9]
  {
    hide Term;
    var f := j => Term(j + 1, e, n) * At(c, j);
    SumOfThree(f);
    SumOfThreeMore(f, 3);
    SumOfThreeMore(f, 6);
    assert Sum(f, 10) == Sum(f, 9) + f(9);
  }

  /** The closed formulas are the sums of the terms that were fitted. */
  lemma PolynomialIsTermSum(c: seq<real>, e: real, n: real, order: int)
    requires |c| >= 10 && 1 <= order <= 3
    ensures Polynomial(c, e, n, order) == TermSum(c, e, n, TermCount(order))
  {
    TermsArePowers(e, n);
    TermSumUnrolled(c, e, n);
    TermCounts();
    hide Term;
    hide PowersOf;
    hide TermSum;
    hide TermCount;
  }

  lemma RowTimesIsTermSum(t: Matrix, p: int, c: seq<real>, e: real, n: real, count: nat)
    requires 0 <= p < |t| && t[p] == TermRow(e, n, count) && count <= |c|
    ensures RowTimes(t, p, c[..count]) == TermSum(c, e, n, count)
  {
    SumExt(j => Entry(t, p, j) * At(c[..count], j), j => Term(j + 1, e, n) * At(c, j), count);
  }

  /** The data row of an active control point. */
  lemma {:induction false} ActiveRow(cp: seq<ControlPoint>, k: nat, xMean: real, yMean: real, n: nat) returns (p: nat)
    requires k < |cp| && cp[k].status > 0
    ensures p < |Design(cp, xMean, yMean, n)| == |Eastings(cp)| == |Northings(cp)|
    ensures Design(cp, xMean, yMean, n)[p] == TermRow(cp[k].e1 - xMean, cp[k].n1 - yMean, n)
    ensures Eastings(cp)[p] == cp[k].e2 && Northings(cp)[p] == cp[k].n2
  {
    DataSizes(cp, xMean, yMean, n);
    var cp' := cp[..|cp| - 1];
    DataSizes(cp', xMean, yMean, n);
    if k == |cp| - 1 {
      p := |Design(cp', xMean, yMean, n)|;
    } else {
      p := ActiveRow(cp', k, xMean, yMean, n);
    }
  }

  /** With just enough points, the polynomial reproduces every active control point. */
  lemma ExactFitReproduces(cp: seq<ControlPoint>, k: nat, xMean: real, yMean: real, order: int, E: seq<real>, N: seq<real>)
    requires 1 <= order <= 3 && |E| >= 10 && |N| >= 10
    requires Solves(Design(cp, xMean, yMean, TermCount(order)), E[..TermCount(order)], Eastings(cp))
    requires Solves(Design(cp, xMean, yMean, TermCount(order)), N[..TermCount(order)], Northings(cp))
    requires k < |cp| && cp[k].status > 0
    ensures Polynomial(E, cp[k].e1 - xMean, cp[k].n1 - yMean, order) == cp[k].e2
    ensures Polynomial(N, cp[k].e1 - xMean, cp[k].n1 - yMean, order) == cp[k].n2
  {
    hide Polynomial;
    hide TermSum;
    hide Solves;
    hide Design;
    hide Eastings;
    hide Northings;
    TermCounts();
    SumReproduces(cp, k, xMean, yMean, TermCount(order), E, N);
    PolynomialIsTermSum(E, cp[k].e1 - xMean, cp[k].n1 - yMean, order);
    PolynomialIsTermSum(N, cp[k].e1 - xMean, cp[k].n1 - yMean, order);
  }

  lemma SumReproduces(cp: seq<ControlPoint>, k: nat, xMean: real, yMean: real, count: nat, E: seq<real>, N: seq<real>)
    requires |E| >= count && |N| >= count
    requires Solves(Design(cp, xMean, yMean, count), E[..count], Eastings(cp))
    requires Solves(Design(cp, xMean, yMean, count), N[..count], Northings(cp))
    requires k < |cp| && cp[k].status > 0
    ensures TermSum(E, cp[k].e1 - xMean, cp[k].n1 - yMean, count) == cp[k].e2
    ensures TermSum(N, cp[k].e1 - xMean, cp[k].n1 - yMean, count) == cp[k].n2
  {
    var t := Design(cp, xMean, yMean, count);
    var p := ActiveRow(cp, k, xMean, yMean, count);
    RowTimesIsTermSum(t, p, E, cp[k].e1 - xMean, cp[k].n1 - yMean, count);
    RowTimesIsTermSum(t, p, N, cp[k].e1 - xMean, cp[k].n1 - yMean, count);
    assert RowTimes(t, p, E[..count]) == Eastings(cp)[p];
    assert RowTimes(t, p, N[..count]) == Northings(cp)[p];
  }

  // ------------------------------------------------------------ both directions

  function Turned(cp: seq<ControlPoint>): (r: seq<ControlPoint>)
    ensures |r| == |cp|
  {
    seq(|cp|, i requires 0 <= i < |cp| => ControlPoint(cp[i].e2, cp[i].n2, cp[i].e1, cp[i].n1, cp[i].status))
  }

  /** What one direction of the transformation is worth after a successful fit. */
  ghost predicate DirectionFitted(cp: seq<ControlPoint>, xMean: real, yMean: real, E: seq<real>, N: seq<real>, order: int) {
    && 1 <= order <= MAXORDER && |E| >= TermCount(order) && |N| >= TermCount(order)
    && |Design(cp, xMean, yMean, TermCount(order))| >= TermCount(order)
    && Fitted(Design(cp, xMean, yMean, TermCount(order)), Eastings(cp), E[..TermCount(order)])
    && Fitted(Design(cp, xMean, yMean, TermCount(order)), Northings(cp), N[..TermCount(order)])
  }

  /** The polynomials of a transformer in both directions. */
  datatype Coefficients = Coefficients(toX: seq<real>, toY: seq<real>, fromX: seq<real>, fromY: seq<real>)

  ghost predicate Full(c: Coefficients) {
    |c.toX| == |c.toY| == |c.fromX| == |c.fromY| == 20
  }

  /** The centres of the points on both sides. */
  datatype Means = Means(x1: real, y1: real, x2: real, y2: real)

  /**
   What a fit in both directions does to the coefficients: a direction whose fit
   fails keeps the old ones, and the backward direction is fitted only after the
   forward one.
   */
  ghost predicate Refitted(cp: seq<ControlPoint>, means: Means, order: int, allocForward: bool, allocBackward: bool,
                           before: Coefficients, after: Coefficients, status: Status) {
    var forward := FitStatus(cp, means.x1, means.y1, order, allocForward);
    var backward := FitStatus(Turned(cp), means.x2, means.y2, order, allocBackward);
    && Full(after)
    && status == (if forward == MSUCCESS then backward else forward)
    && (if forward == MSUCCESS then DirectionFitted(cp, means.x1, means.y1, after.toX, after.toY, order)
        else after.toX == before.toX && after.toY == before.toY)
    && (if status == MSUCCESS then DirectionFitted(Turned(cp), means.x2, means.y2, after.fromX, after.fromY, order)
        else after.fromX == before.fromX && after.fromY == before.fromY)
  }

  /** Fits the forward polynomials, then the backward ones with the two sides exchanged. */
  method ComputeGeorefEquations(cp: seq<ControlPoint>, x1Mean: real, y1Mean: real, x2Mean: real, y2Mean: real,
                                E12: array<real>, N12: array<real>, E21: array<real>, N21: array<real>,
                                order: int, allocForward: bool, allocBackward: bool) returns (status: Status)
    requires E12.Length == N12.Length == E21.Length == N21.Length == 20
    requires E12 != N12 && E12 != E21 && E12 != N21 && N12 != E21 && N12 != N21 && E21 != N21
    modifies E12, N12, E21, N21
    ensures status == MPARMERR <==> !(1 <= order <= MAXORDER)
    ensures Refitted(cp, Means(x1Mean, y1Mean, x2Mean, y2Mean), order, allocForward, allocBackward,
                     old(Coefficients(E12[..], N12[..], E21[..], N21[..])),
                     Coefficients(E12[..], N12[..], E21[..], N21[..]), status)
  {
    hide FitStatus;
    hide DirectionFitted;
    hide Fitted;
    hide TermCount;
    StatusOfOrder(cp, x1Mean, y1Mean, order, allocForward);
    if order < 1 || order > MAXORDER {
      return MPARMERR;
    }
    StatusOfOrder(Turned(cp), x2Mean, y2Mean, order, allocBackward);
    TermCounts();
    status := CalcCoef(cp, x1Mean, y1Mean, E12, N12, order, allocForward);
    if status != MSUCCESS {
      return;
    }
    DirectionIsFitted(cp, x1Mean, y1Mean, order, allocForward, E12[..], N12[..], E12[..TermCount(order)], N12[..TermCount(order)]);
    status := CalcCoef(Turned(cp), x2Mean, y2Mean, E21, N21, order, allocBackward);
    if status == MSUCCESS {
      DirectionIsFitted(Turned(cp), x2Mean, y2Mean, order, allocBackward, E21[..], N21[..],
                        E21[..TermCount(order)], N21[..TermCount(order)]);
    }
  }

  lemma StatusOfOrder(cp: seq<ControlPoint>, xMean: real, yMean: real, order: int, allocOk: bool)
    ensures FitStatus(cp, xMean, yMean, order, allocOk) == MPARMERR <==> !(1 <= order <= MAXORDER)
  {
  }

  lemma DirectionIsFitted(cp: seq<ControlPoint>, xMean: real, yMean: real, order: int, allocOk: bool,
                          E: seq<real>, N: seq<real>, E': seq<real>, N': seq<real>)
    requires FitStatus(cp, xMean, yMean, order, allocOk) == MSUCCESS
    requires |E| >= TermCount(order) && |N| >= TermCount(order) && TermCount(order) >= 0
    requires E' == E[..TermCount(order)] && N' == N[..TermCount(order)]
    requires Fitted(Design(cp, xMean, yMean, TermCount(order)), Eastings(cp), E')
    requires Fitted(Design(cp, xMean, yMean, TermCount(order)), Northings(cp), N')
    ensures DirectionFitted(cp, xMean, yMean, E, N, order)
  {
    hide Fitted;
    hide Nonsingular;
  }

  /**
   With just enough points, the two transformations undo each other at every control
   point: there and back again, and back and there again.
   */
  lemma RoundTripAtControlPoints(cp: seq<ControlPoint>, k: nat, means: Means, order: int, c: Coefficients)
    requires Full(c) && k < |cp| && cp[k].status > 0
    requires DirectionFitted(cp, means.x1, means.y1, c.toX, c.toY, order)
    requires DirectionFitted(Turned(cp), means.x2, means.y2, c.fromX, c.fromY, order)
    requires |Design(cp, means.x1, means.y1, TermCount(order))| == TermCount(order)
    requires |Design(Turned(cp), means.x2, means.y2, TermCount(order))| == TermCount(order)
    ensures var x := Polynomial(c.toX, cp[k].e1 - means.x1, cp[k].n1 - means.y1, order);
      var y := Polynomial(c.toY, cp[k].e1 - means.x1, cp[k].n1 - means.y1, order);
      && x == cp[k].e2 && y == cp[k].n2
      && Polynomial(c.fromX, x - means.x2, y - means.y2, order) == cp[k].e1
      && Polynomial(c.fromY, x - means.x2, y - means.y2, order) == cp[k].n1
  {
    hide Polynomial;
    hide Design;
    hide Eastings;
    hide Northings;
    hide Solves;
    hide BestFit;
    hide TermCount;
    TermCounts();
    ExactFitReproduces(cp, k, means.x1, means.y1, order, c.toX, c.toY);
    ExactFitReproduces(Turned(cp), k, means.x2, means.y2, order, c.fromX, c.fromY);
  }

  // ------------------------------------------------------------ the worst point

  const FLT_EPSILON := 0.000000119209290

  function SumOfSquares2(a: real, b: real): real {
    a * a + b * b
  }

  /** How far the polynomials miss a control point; `sqrt` is the square root. */
  function Miss(p: ControlPoint, xMean: real, yMean: real, E: seq<real>, N: seq<real>, order: int, sqrt: real -> real): real
    requires |E| >= 10 && |N| >= 10
  {
    var ds := Polynomial(E, p.e1 - xMean, p.n1 - yMean, order) - p.e2;
    var dl := Polynomial(N, p.e1 - xMean, p.n1 - yMean, order) - p.n2;
    sqrt(SumOfSquares2(ds, dl))
  }

  /** Tiny residuals read as zero. */
  function Shown(r: real): real {
    if Abs(r) < FLT_EPSILON then 0.0 else r
  }

  function ShownMiss(p: ControlPoint, xMean: real, yMean: real, E: seq<real>, N: seq<real>, order: int, sqrt: real -> real): real
    requires |E| >= 10 && |N| >= 10
  {
    Shown(Miss(p, xMean, yMean, E, N, order, sqrt))
  }

  lemma MissIsNotNegative(p: ControlPoint, xMean: real, yMean: real, E: seq<real>, N: seq<real>, order: int, sqrt: real -> real)
    requires |E| >= 10 && |N| >= 10
    requires forall v :: v >= 0.0 ==> sqrt(v) >= 0.0
    ensures Miss(p, xMean, yMean, E, N, order, sqrt) >= 0.0
  {
    hide Polynomial;
    var ds := Polynomial(E, p.e1 - xMean, p.n1 - yMean, order) - p.e2;
    var dl := Polynomial(N, p.e1 - xMean, p.n1 - yMean, order) - p.n2;
    assert ds * ds >= 0.0 && dl * dl >= 0.0;
  }

  /** The residual is the distance between where the polynomials put the point and where it is. */
  lemma MissIsDistance(p: ControlPoint, xMean: real, yMean: real, E: seq<real>, N: seq<real>, order: int, sqrt: real -> real)
    requires |E| >= 10 && |N| >= 10 && IsSqrt(sqrt)
    ensures var ds := Polynomial(E, p.e1 - xMean, p.n1 - yMean, order) - p.e2;
      var dl := Polynomial(N, p.e1 - xMean, p.n1 - yMean, order) - p.n2;
      var miss := Miss(p, xMean, yMean, E, N, order, sqrt);
      && miss >= 0.0 && Sq(miss) == Sq(ds) + Sq(dl) && (miss == 0.0 <==> ds == 0.0 && dl == 0.0)
  {
    hide Polynomial;
    var ds := Polynomial(E, p.e1 - xMean, p.n1 - yMean, order) - p.e2;
    var dl := Polynomial(N, p.e1 - xMean, p.n1 - yMean, order) - p.n2;
    SqZero(ds);
    SqZero(dl);
    SqZero(Miss(p, xMean, yMean, E, N, order, sqrt));
  }

  /** No point is an outlier. */
  ghost predicate NoOutlier(cp: seq<ControlPoint>, xMean: real, yMean: real, E: seq<real>, N: seq<real>, order: int,
                            tolerance: real, sqrt: real -> real)
    requires |E| >= 10 && |N| >= 10
  {
    forall k :: 0 <= k < |cp| ==> ShownMiss(cp[k], xMean, yMean, E, N, order, sqrt) < tolerance
  }

  /** Point nIndex misses by the tolerance or more, no point by more, and no point before it by as much. */
  ghost predicate IsWorst(cp: seq<ControlPoint>, xMean: real, yMean: real, E: seq<real>, N: seq<real>, order: int,
                          tolerance: real, sqrt: real -> real, nIndex: int)
    requires |E| >= 10 && |N| >= 10
  {
    && 0 <= nIndex < |cp| && ShownMiss(cp[nIndex], xMean, yMean, E, N, order, sqrt) >= tolerance
    && (forall k :: 0 <= k < |cp| ==>
          ShownMiss(cp[k], xMean, yMean, E, N, order, sqrt) <= ShownMiss(cp[nIndex], xMean, yMean, E, N, order, sqrt))
    && (forall k :: 0 <= k < nIndex ==>
          ShownMiss(cp[k], xMean, yMean, E, N, order, sqrt) < ShownMiss(cp[nIndex], xMean, yMean, E, N, order, sqrt))
  }

  /** The first point whose residual is largest, provided it reaches the tolerance; -1 when none does. */
  method WorstOutlier(cp: seq<ControlPoint>, xMean: real, yMean: real, order: int, E: seq<real>, N: seq<real>,
                      tolerance: real, sqrt: real -> real) returns (nIndex: int)
    requires |E| >= 10 && |N| >= 10
    requires forall v :: v >= 0.0 ==> sqrt(v) >= 0.0
    ensures nIndex == -1 <==> NoOutlier(cp, xMean, yMean, E, N, order, tolerance, sqrt)
    ensures nIndex != -1 ==> IsWorst(cp, xMean, yMean, E, N, order, tolerance, sqrt, nIndex)
  {
    var residuals := Residuals(cp, xMean, yMean, order, E, N, sqrt);
    hide Miss;
    hide Shown;
    nIndex := FirstLargest(residuals, tolerance);
  }

  method Residuals(cp: seq<ControlPoint>, xMean: real, yMean: real, order: int, E: seq<real>, N: seq<real>, sqrt: real -> real)
    returns (residuals: array<real>)
    requires |E| >= 10 && |N| >= 10
    requires forall v :: v >= 0.0 ==> sqrt(v) >= 0.0
    ensures fresh(residuals) && residuals.Length == |cp|
    ensures forall k :: 0 <= k < |cp| ==>
      residuals[k] == Miss(cp[k], xMean, yMean, E, N, order, sqrt) && Shown(residuals[k]) >= 0.0
  {
    hide Polynomial;
    residuals := new real[|cp|];
    for nI := 0 to |cp|
      invariant forall k :: 0 <= k < nI ==>
        residuals[k] == Miss(cp[k], xMean, yMean, E, N, order, sqrt) && Shown(residuals[k]) >= 0.0
    {
      var sampleRes := Polynomial(E, cp[nI].e1 - xMean, cp[nI].n1 - yMean, order) - cp[nI].e2;
      var lineRes := Polynomial(N, cp[nI].e1 - xMean, cp[nI].n1 - yMean, order) - cp[nI].n2;
      residuals[nI] := sqrt(SumOfSquares2(sampleRes, lineRes));
      assert residuals[nI] == Miss(cp[nI], xMean, yMean, E, N, order, sqrt);
      MissIsNotNegative(cp[nI], xMean, yMean, E, N, order, sqrt);
    }
  }

  method FirstLargest(residuals: array<real>, tolerance: real) returns (nIndex: int)
    requires forall k :: 0 <= k < residuals.Length ==> Shown(residuals[k]) >= 0.0
    ensures nIndex == -1 <==> forall k :: 0 <= k < residuals.Length ==> Shown(residuals[k]) < tolerance
    ensures nIndex != -1 ==>
      && 0 <= nIndex < residuals.Length && Shown(residuals[nIndex]) >= tolerance
      && (forall k :: 0 <= k < residuals.Length ==> Shown(residuals[k]) <= Shown(residuals[nIndex]))
      && (forall k :: 0 <= k < nIndex ==> Shown(residuals[k]) < Shown(residuals[nIndex]))
  {
    nIndex := -1;
    var difference := -1.0;
    for nI := 0 to residuals.Length
      invariant -1 <= nIndex < nI
      invariant nIndex == -1 ==> difference == -1.0 && forall k :: 0 <= k < nI ==> Shown(residuals[k]) < tolerance
      invariant nIndex != -1 ==>
        && difference == Shown(residuals[nIndex]) >= tolerance
        && (forall k :: 0 <= k < nI ==> Shown(residuals[k]) <= difference)
        && (forall k :: 0 <= k < nIndex ==> Shown(residuals[k]) < difference)
    {
      var current := residuals[nI];
      if Abs(current) < FLT_EPSILON {
        current := 0.0;
      }
      if current > difference && current >= tolerance {
        difference := current;
        nIndex := nI;
      }
    }
  }

  // -------------------------------------------------------- removing outliers

  datatype Gcp = Gcp(id: string, info: string, pixel: real, line: real, x: real, y: real, z: real)

  /** `kept` names, in order, the original points that are still there. */
  ghost predicate Subsequence(kept: seq<int>, size: int) {
    && |kept| <= size
    && (forall k :: 0 <= k < |kept| ==> 0 <= kept[k] < size)
    && (forall j, k :: 0 <= j < k < |kept| ==> kept[j] < kept[k])
  }

  /** The point that record `g` gives to the fit. */
  function PointOf(g: Gcp): ControlPoint {
    ControlPoint(g.pixel, g.line, g.x, g.y, 1)
  }

  /** The kept points, as the fit sees them. */
  ghost function KeptPoints(original: seq<Gcp>, kept: seq<int>): (cp: seq<ControlPoint>)
    requires Subsequence(kept, |original|)
    ensures |cp| == |kept|
    ensures forall k :: 0 <= k < |kept| ==> cp[k] == PointOf(original[kept[k]])
  {
    seq(|kept|, k requires 0 <= k < |kept| => PointOf(original[kept[k]]))
  }

  /** The fit works on exactly the kept original points. */
  ghost predicate PointsKept(cp: seq<ControlPoint>, original: seq<Gcp>, kept: seq<int>) {
    Subsequence(kept, |original|) && cp == KeptPoints(original, kept)
  }

  /** Names move with their points; elevations stay where they were. */
  ghost predicate NamesKept(gcps: seq<Gcp>, original: seq<Gcp>, kept: seq<int>) {
    && Subsequence(kept, |original|) && |gcps| == |original|
    && (forall k :: 0 <= k < |kept| ==> gcps[k].id == original[kept[k]].id && gcps[k].info == original[kept[k]].info)
    && (forall k :: 0 <= k < |gcps| ==> gcps[k].z == original[k].z)
  }

  lemma WithoutKeepsOrder(kept: seq<int>, size: int, i: int)
    requires Subsequence(kept, size) && 0 <= i < |kept|
    ensures Subsequence(Without(kept, i), size)
  {
  }

  lemma WithoutKeepsPoints(cp: seq<ControlPoint>, original: seq<Gcp>, kept: seq<int>, i: int)
    requires PointsKept(cp, original, kept) && 0 <= i < |kept|
    ensures PointsKept(Without(cp, i), original, Without(kept, i))
  {
    WithoutKeepsOrder(kept, |original|, i);
  }

  /** The four coordinate buffers of the control points. */
  class ControlPoints {
    const e1: array<real>
    const n1: array<real>
    const e2: array<real>
    const n2: array<real>
    var count: int

    ghost predicate Valid()
      reads this
    {
      && 0 <= count <= e1.Length && e1.Length == n1.Length == e2.Length == n2.Length
      && e1 != n1 && e1 != e2 && e1 != n2 && n1 != e2 && n1 != n2 && e2 != n2
    }

    /** The points, all active. */
    function Points(): (cp: seq<ControlPoint>)
      requires Valid()
      reads this, e1, n1, e2, n2
      ensures |cp| == count
      ensures forall k :: 0 <= k < count ==> cp[k] == ControlPoint(e1[k], n1[k], e2[k], n2[k], 1)
    {
      seq(count, k requires 0 <= k < count <= e1.Length && e1.Length == n1.Length == e2.Length == n2.Length
                   reads this, e1, n1, e2, n2 => ControlPoint(e1[k], n1[k], e2[k], n2[k], 1))
    }

    constructor (gcps: seq<Gcp>)
      ensures Valid() && count == |gcps|
      ensures forall k :: 0 <= k < |gcps| ==> Points()[k] == PointOf(gcps[k])
      ensures fresh(e1) && fresh(n1) && fresh(e2) && fresh(n2)
    {
      count := |gcps|;
      e1 := new real[|gcps|](i requires 0 <= i < |gcps| => gcps[i].pixel);
      n1 := new real[|gcps|](i requires 0 <= i < |gcps| => gcps[i].line);
      e2 := new real[|gcps|](i requires 0 <= i < |gcps| => gcps[i].x);
      n2 := new real[|gcps|](i requires 0 <= i < |gcps| => gcps[i].y);
    }

    /** Closes the gap left by point nIndex. */
    method Remove(nIndex: int)
      requires Valid() && 0 <= nIndex < count
      modifies this, e1, n1, e2, n2
      ensures Valid() && count == old(count) - 1
      ensures Points() == Without(old(Points()), nIndex)
    {
      for nI := nIndex to count - 1
        modifies e1, n1, e2, n2
        invariant forall k :: nIndex <= k < nI ==>
          e1[k] == old(e1[k + 1]) && n1[k] == old(n1[k + 1]) && e2[k] == old(e2[k + 1]) && n2[k] == old(n2[k + 1])
        invariant forall k :: 0 <= k < count && !(nIndex <= k < nI) ==>
          e1[k] == old(e1[k]) && n1[k] == old(n1[k]) && e2[k] == old(e2[k]) && n2[k] == old(n2[k])
      {
        e1[nI] := e1[nI + 1];
        n1[nI] := n1[nI + 1];
        e2[nI] := e2[nI + 1];
        n2[nI] := n2[nI + 1];
      }
      count := count - 1;
    }
  }

  /** Record `g` under the name of record `h`. */
  function Renamed(g: Gcp, h: Gcp): Gcp {
    Gcp(h.id, h.info, g.pixel, g.line, g.x, g.y, g.z)
  }

  /** Record k has taken id and info from the next one. */
  ghost predicate MovedDown(gcps: seq<Gcp>, shifted: seq<Gcp>, k: int) {
    0 <= k < |gcps| - 1 && k < |shifted| && shifted[k] == Renamed(gcps[k], gcps[k + 1])
  }

  /** Ids and infos of the records from nIndex on have moved down by one, and nothing else. */
  ghost predicate NamesShifted(gcps: seq<Gcp>, shifted: seq<Gcp>, nIndex: int, end: int) {
    && |shifted| == |gcps| && 0 <= nIndex <= end < |gcps|
    && (forall k :: 0 <= k < |gcps| && !(nIndex <= k < end) ==> shifted[k] == gcps[k])
    && (forall k :: nIndex <= k < end ==> MovedDown(gcps, shifted, k))
  }

  lemma ShiftKeepsNames(gcps: seq<Gcp>, shifted: seq<Gcp>, nIndex: int, original: seq<Gcp>, kept: seq<int>)
    requires NamesKept(gcps, original, kept) && 0 <= nIndex < |kept|
    requires NamesShifted(gcps, shifted, nIndex, |kept| - 1)
    ensures NamesKept(shifted, original, Without(kept, nIndex))
  {
    hide Without;
    WithoutKeepsOrder(kept, |original|, nIndex);
    var fewer := Without(kept, nIndex);
    forall k | 0 <= k < |fewer|
      ensures shifted[k].id == original[fewer[k]].id && shifted[k].info == original[fewer[k]].info
    {
      WithoutAt(kept, nIndex, k);
      assert k >= nIndex ==> MovedDown(gcps, shifted, k);
    }
    forall k | 0 <= k < |shifted|
      ensures shifted[k].z == original[k].z
    {
      assert nIndex <= k < |kept| - 1 ==> MovedDown(gcps, shifted, k);
    }
  }

  method ShiftNames(gcps: seq<Gcp>, nIndex: int, count: int) returns (shifted: seq<Gcp>)
    requires 0 <= nIndex < count <= |gcps|
    ensures NamesShifted(gcps, shifted, nIndex, count - 1)
  {
    shifted := gcps;
    for nI := nIndex to count - 1
      invariant NamesShifted(gcps, shifted, nIndex, nI)
    {
      ghost var before := shifted;
      shifted := shifted[nI := Renamed(shifted[nI], shifted[nI + 1])];
      forall k | nIndex <= k < nI + 1
        ensures MovedDown(gcps, shifted, k)
      {
        assert k < nI ==> MovedDown(gcps, before, k);
      }
    }
  }

  // ---------------------------------------------------------- the whole routine

  /** What the records look like at the end: the kept originals, each with the elevation of its new position. */
  ghost predicate RecordsKept(gcps: seq<Gcp>, original: seq<Gcp>, kept: seq<int>) {
    && Subsequence(kept, |original|) && |gcps| == |kept|
    && forall k :: 0 <= k < |gcps| ==> gcps[k] == original[kept[k]].(z := original[k].z)
  }

  ghost function SumOf(gcps: seq<Gcp>, f: Gcp -> real): real {
    if gcps == [] then 0.0 else SumOf(gcps[..|gcps| - 1], f) + f(gcps[|gcps| - 1])
  }

  /** `mean` is the average of one coordinate; an empty list has any. */
  ghost predicate IsMean(mean: real, gcps: seq<Gcp>, f: Gcp -> real) {
    mean * |gcps| as real == SumOf(gcps, f)
  }

  ghost predicate Centred(means: Means, gcps: seq<Gcp>) {
    && IsMean(means.x1, gcps, (g: Gcp) => g.pixel) && IsMean(means.y1, gcps, (g: Gcp) => g.line)
    && IsMean(means.x2, gcps, (g: Gcp) => g.x) && IsMean(means.y2, gcps, (g: Gcp) => g.y)
  }

  /** What does not change during a refinement. */
  datatype Refinement = Refinement(original: seq<Gcp>, means: Means, order: int, minimumGcps: int, tolerance: real,
                                   sqrt: real -> real, alloc: (int, bool) -> bool)

  /** The refinement after one of its fits: the points still there and what the fit has left. */
  datatype Snapshot = Snapshot(kept: seq<int>, fit: Coefficients, status: Status)

  ghost predicate Proper(r: Refinement, s: Snapshot) {
    Subsequence(s.kept, |r.original|) && Full(s.fit)
  }

  /** Snapshot `s` is the fit of its points, done when the coefficients were `before`. */
  ghost predicate FittedFrom(r: Refinement, before: Coefficients, s: Snapshot) {
    && Proper(r, s)
    && Refitted(KeptPoints(r.original, s.kept), r.means, r.order, r.alloc(|s.kept|, true), r.alloc(|s.kept|, false),
                before, s.fit, s.status)
  }

  ghost predicate WorstIn(r: Refinement, s: Snapshot, nIndex: int)
    requires Proper(r, s)
  {
    IsWorst(KeptPoints(r.original, s.kept), r.means.x1, r.means.y1, s.fit.toX, s.fit.toY, r.order, r.tolerance, r.sqrt, nIndex)
  }

  /** One turn of the loop: the worst outlier leaves and the others are fitted again. */
  ghost predicate Turn(r: Refinement, s: Snapshot, t: Snapshot) {
    && Proper(r, s) && |s.kept| > r.minimumGcps
    && (exists nIndex :: WorstIn(r, s, nIndex) && t.kept == Without(s.kept, nIndex))
    && FittedFrom(r, s.fit, t)
  }

  /** The loop ends here: the minimum is reached or nothing is an outlier. */
  ghost predicate Done(r: Refinement, s: Snapshot)
    requires Proper(r, s)
  {
    || |s.kept| <= r.minimumGcps
    || NoOutlier(KeptPoints(r.original, s.kept), r.means.x1, r.means.y1, s.fit.toX, s.fit.toY, r.order, r.tolerance, r.sqrt)
  }

  ghost predicate TurnAt(r: Refinement, run: seq<Snapshot>, i: int) {
    0 < i < |run| && Turn(r, run[i - 1], run[i])
  }

  ghost predicate Turns(r: Refinement, run: seq<Snapshot>) {
    forall i :: 0 < i < |run| ==> TurnAt(r, run, i)
  }

  /** The fits of a refinement so far, from the one of all points on. */
  ghost predicate Underway(r: Refinement, start: Coefficients, run: seq<Snapshot>) {
    && |run| > 0 && Centred(r.means, r.original)
    && run[0].kept == Everything(|r.original|) && FittedFrom(r, start, run[0])
    && Turns(r, run)
  }

  ghost function Last(run: seq<Snapshot>): Snapshot
    requires |run| > 0
  {
    run[|run| - 1]
  }

  /** All fits of a refinement. */
  ghost predicate IsRun(r: Refinement, start: Coefficients, run: seq<Snapshot>) {
    |run| > 0 && Underway(r, start, run) && Proper(r, Last(run)) && Done(r, Last(run))
  }

  lemma RunGrows(r: Refinement, start: Coefficients, run: seq<Snapshot>, t: Snapshot)
    requires Underway(r, start, run) && Turn(r, Last(run), t)
    ensures Underway(r, start, run + [t])
  {
    hide Turn;
    hide FittedFrom;
    hide Centred;
    var run' := run + [t];
    forall i | 0 < i < |run'|
      ensures TurnAt(r, run', i)
    {
      if i < |run| {
        assert TurnAt(r, run, i);
      }
    }
  }

  class GcpTransform {
    const adfToGeoX: array<real>
    const adfToGeoY: array<real>
    const adfFromGeoX: array<real>
    const adfFromGeoY: array<real>
    var x1Mean: real
    var y1Mean: real
    var x2Mean: real
    var y2Mean: real
    const nOrder: int
    const nMinimumGcps: int
    const dfTolerance: real
    var asGCPs: seq<Gcp>

    ghost predicate Valid() {
      && adfToGeoX.Length == adfToGeoY.Length == adfFromGeoX.Length == adfFromGeoY.Length == 20
      && adfToGeoX != adfToGeoY && adfToGeoX != adfFromGeoX && adfToGeoX != adfFromGeoY
      && adfToGeoY != adfFromGeoX && adfToGeoY != adfFromGeoY && adfFromGeoX != adfFromGeoY
    }

    ghost function Fit(): (c: Coefficients)
      requires Valid()
      reads adfToGeoX, adfToGeoY, adfFromGeoX, adfFromGeoY
      ensures Full(c)
    {
      Coefficients(adfToGeoX[..], adfToGeoY[..], adfFromGeoX[..], adfFromGeoY[..])
    }

    ghost function Centres(): Means
      reads this
    {
      Means(x1Mean, y1Mean, x2Mean, y2Mean)
    }

    /** The refinement of these records under the settings of the transformer. */
    ghost function Refining(original: seq<Gcp>, sqrt: real -> real, alloc: (int, bool) -> bool): Refinement
      reads this
    {
      Refinement(original, Centres(), nOrder, nMinimumGcps, dfTolerance, sqrt, alloc)
    }

    /** A transformer as it is created: no coefficients yet. */
    constructor (gcps: seq<Gcp>, nOrderIn: int, nMinimumGcpsIn: int, dfToleranceIn: real)
      ensures Valid() && asGCPs == gcps && Fit() == Coefficients(Zeros(20), Zeros(20), Zeros(20), Zeros(20))
      ensures nOrder == nOrderIn && nMinimumGcps == nMinimumGcpsIn && dfTolerance == dfToleranceIn
      ensures fresh(adfToGeoX) && fresh(adfToGeoY) && fresh(adfFromGeoX) && fresh(adfFromGeoY)
    {
      asGCPs, nOrder, nMinimumGcps, dfTolerance := gcps, nOrderIn, nMinimumGcpsIn, dfToleranceIn;
      adfToGeoX := new real[20](_ => 0.0);
      adfToGeoY := new real[20](_ => 0.0);
      adfFromGeoX := new real[20](_ => 0.0);
      adfFromGeoY := new real[20](_ => 0.0);
      x1Mean, y1Mean, x2Mean, y2Mean := 0.0, 0.0, 0.0, 0.0;
    }

    /** The polynomials in both directions are the best fit of the points, unless the fit failed. */
    ghost predicate FitStands(cp: seq<ControlPoint>, status: Status)
      reads this`x1Mean, this`y1Mean, this`x2Mean, this`y2Mean, adfToGeoX, adfToGeoY, adfFromGeoX, adfFromGeoY
    {
      status == MSUCCESS ==>
        && DirectionFitted(cp, x1Mean, y1Mean, adfToGeoX[..], adfToGeoY[..], nOrder)
        && DirectionFitted(Turned(cp), x2Mean, y2Mean, adfFromGeoX[..], adfFromGeoY[..], nOrder)
    }

    /**
     Removes the worst outlier and fits again, as long as there are more points
     than the minimum and one of them misses by the tolerance or more. The mean
     of no points at all is undefined.
     */
    method RemoveOutliers(sqrt: real -> real, alloc: (int, bool) -> bool, undefined: real)
      returns (status: Status, ghost run: seq<Snapshot>)
      requires Valid()
      requires forall v :: v >= 0.0 ==> sqrt(v) >= 0.0
      modifies this, adfToGeoX, adfToGeoY, adfFromGeoX, adfFromGeoY
      ensures IsRun(Refining(old(asGCPs), sqrt, alloc), old(Fit()), run)
      ensures status == Last(run).status && Fit() == Last(run).fit
      ensures RecordsKept(asGCPs, old(asGCPs), Last(run).kept)
      ensures |asGCPs| >= nMinimumGcps || |asGCPs| == |old(asGCPs)|
      ensures FitStands(KeptPoints(old(asGCPs), Last(run).kept), status)
      ensures |old(asGCPs)| <= nMinimumGcps ==> asGCPs == old(asGCPs)
      ensures AllEqual(Elevations(old(asGCPs))) ==> Whole(asGCPs, old(asGCPs), Last(run).kept)
    {
      hide Underway;
      hide Proper;
      hide Done;
      hide RecordsKept;
      hide NamesKept;
      hide PointsKept;
      hide Whole;
      hide FitStands;
      ghost var original, start := asGCPs, Fit();
      var points;
      points, status, run := FirstFit(sqrt, alloc, undefined);
      ghost var r := Refining(original, sqrt, alloc);
      status, run := Iterate(points, status, sqrt, alloc, r, start, run);
      RunSizes(r, start, run);
      WriteBack(points, original, Last(run).kept);
      RecordsAtTheEnd(asGCPs, r, start, run);
      LastFitStands(r, start, run);
    }

    /** The buffers of the points are not those of the coefficients. */
    ghost predicate Apart(points: ControlPoints) {
      {points.e1, points.n1, points.e2, points.n2} !! {adfToGeoX, adfToGeoY, adfFromGeoX, adfFromGeoY}
    }

    /** The state of the routine is the last snapshot of the run. */
    ghost predicate Tracking(points: ControlPoints, status: Status, r: Refinement, start: Coefficients, run: seq<Snapshot>)
      requires Valid() && points.Valid()
      reads this, adfToGeoX, adfToGeoY, adfFromGeoX, adfFromGeoY, points, points.e1, points.n1, points.e2, points.n2
    {
      && |run| > 0 && Underway(r, start, run) && Proper(r, Last(run)) && r == Refining(r.original, r.sqrt, r.alloc)
      && Fit() == Last(run).fit && status == Last(run).status
      && NamesKept(asGCPs, r.original, Last(run).kept) && PointsKept(points.Points(), r.original, Last(run).kept)
    }

    /** Copies the coordinates out of the records and fits all of them. */
    method FirstFit(ghost sqrt: real -> real, alloc: (int, bool) -> bool, undefined: real)
      returns (points: ControlPoints, status: Status, ghost run: seq<Snapshot>)
      requires Valid()
      modifies this`x1Mean, this`y1Mean, this`x2Mean, this`y2Mean, adfToGeoX, adfToGeoY, adfFromGeoX, adfFromGeoY
      ensures points.Valid() && Apart(points)
      ensures fresh(points) && fresh(points.e1) && fresh(points.n1) && fresh(points.e2) && fresh(points.n2)
      ensures Tracking(points, status, Refining(asGCPs, sqrt, alloc), old(Fit()), run)
    {
      hide NamesKept;
      hide PointsKept;
      hide Centred;
      hide Refitted;
      ComputeMeans(undefined);
      points := new ControlPoints(asGCPs);
      ghost var kept := Everything(|asGCPs|);
      NothingRemovedYet(asGCPs, kept, points.Points());
      status := Refit(points, alloc);
      run := [Snapshot(kept, Fit(), status)];
      PointsAreKeptPoints(points.Points(), asGCPs, kept);
    }

    method Iterate(points: ControlPoints, status0: Status, sqrt: real -> real, alloc: (int, bool) -> bool,
                   ghost r: Refinement, ghost start: Coefficients, ghost run0: seq<Snapshot>)
      returns (status: Status, ghost run: seq<Snapshot>)
      requires Valid() && points.Valid() && Apart(points) && r.sqrt == sqrt && r.alloc == alloc
      requires forall v :: v >= 0.0 ==> sqrt(v) >= 0.0
      requires Tracking(points, status0, r, start, run0)
      modifies this`asGCPs, adfToGeoX, adfToGeoY, adfFromGeoX, adfFromGeoY, points, points.e1, points.n1, points.e2, points.n2
      ensures points.Valid()
      ensures Tracking(points, status, r, start, run) && IsRun(r, start, run)
    {
      hide Tracking;
      hide NoOutlier;
      hide IsWorst;
      run, status := run0, status0;
      while points.count > nMinimumGcps
        invariant points.Valid()
        invariant Tracking(points, status, r, start, run)
        decreases points.count
      {
        var nIndex := WorstOutlier(points.Points(), x1Mean, y1Mean, nOrder, adfToGeoX[..], adfToGeoY[..], dfTolerance, sqrt);
        if nIndex == -1 {
          NothingLeftToDrop(points, status, r, start, run);
          return;
        }
        status, run := TakeTurn(points, nIndex, status, alloc, r, start, run);
      }
      MinimumReached(points, status, r, start, run);
    }

    lemma NothingLeftToDrop(points: ControlPoints, status: Status, r: Refinement, start: Coefficients, run: seq<Snapshot>)
      requires Valid() && points.Valid() && Tracking(points, status, r, start, run)
      requires NoOutlier(points.Points(), x1Mean, y1Mean, adfToGeoX[..], adfToGeoY[..], nOrder, dfTolerance, r.sqrt)
      ensures IsRun(r, start, run)
    {
      hide Underway;
      hide NoOutlier;
      hide NamesKept;
      PointsAreKeptPoints(points.Points(), r.original, Last(run).kept);
    }

    lemma MinimumReached(points: ControlPoints, status: Status, r: Refinement, start: Coefficients, run: seq<Snapshot>)
      requires Valid() && points.Valid() && Tracking(points, status, r, start, run) && points.count <= nMinimumGcps
      ensures IsRun(r, start, run)
    {
      hide Underway;
      hide NamesKept;
      PointsAreKeptPoints(points.Points(), r.original, Last(run).kept);
    }

    /** The worst point leaves and the others are fitted again. */
    method TakeTurn(points: ControlPoints, nIndex: int, ghost status0: Status, alloc: (int, bool) -> bool,
                    ghost r: Refinement, ghost start: Coefficients, ghost run0: seq<Snapshot>)
      returns (status: Status, ghost run: seq<Snapshot>)
      requires Valid() && points.Valid() && Apart(points) && r.alloc == alloc
      requires Tracking(points, status0, r, start, run0) && points.count > nMinimumGcps
      requires IsWorst(points.Points(), x1Mean, y1Mean, adfToGeoX[..], adfToGeoY[..], nOrder, dfTolerance, r.sqrt, nIndex)
      modifies this`asGCPs, adfToGeoX, adfToGeoY, adfFromGeoX, adfFromGeoY, points, points.e1, points.n1, points.e2, points.n2
      ensures points.Valid() && points.count == old(points.count) - 1
      ensures Tracking(points, status, r, start, run)
    {
      hide Underway;
      hide NamesKept;
      hide PointsKept;
      hide Refitted;
      hide Turn;
      WorstIsAPoint(points.Points(), x1Mean, y1Mean, adfToGeoX[..], adfToGeoY[..], nOrder, dfTolerance, r.sqrt, nIndex);
      hide IsWorst;
      ghost var s := Last(run0);
      PointsAreKeptPoints(points.Points(), r.original, s.kept);
      DropPoint(points, nIndex, r.original, s.kept);
      ghost var fewer := Without(s.kept, nIndex);
      PointsAreKeptPoints(points.Points(), r.original, fewer);
      status := Refit(points, alloc);
      ghost var t := Snapshot(fewer, Fit(), status);
      TurnTaken(r, s, t, nIndex);
      RunGrows(r, start, run0, t);
      run := run0 + [t];
    }

    /** The centres of the points on both sides; they are not moved again later. */
    method ComputeMeans(undefined: real)
      modifies this`x1Mean, this`y1Mean, this`x2Mean, this`y2Mean
      ensures Centred(Centres(), asGCPs)
    {
      hide IsMean;
      hide Quotient;
      ghost var pixel, line := (g: Gcp) => g.pixel, (g: Gcp) => g.line;
      ghost var x, y := (g: Gcp) => g.x, (g: Gcp) => g.y;
      var x1Sum, y1Sum, x2Sum, y2Sum := 0.0, 0.0, 0.0, 0.0;
      for nI := 0 to |asGCPs|
        invariant x1Sum == SumOf(asGCPs[..nI], pixel) && y1Sum == SumOf(asGCPs[..nI], line)
        invariant x2Sum == SumOf(asGCPs[..nI], x) && y2Sum == SumOf(asGCPs[..nI], y)
      {
        assert asGCPs[..nI + 1][..nI] == asGCPs[..nI];
        x1Sum := x1Sum + asGCPs[nI].pixel;
        y1Sum := y1Sum + asGCPs[nI].line;
        x2Sum := x2Sum + asGCPs[nI].x;
        y2Sum := y2Sum + asGCPs[nI].y;
      }
      assert asGCPs[..|asGCPs|] == asGCPs;
      var n := |asGCPs|;
      x1Mean, y1Mean := Quotient(x1Sum, n, undefined), Quotient(y1Sum, n, undefined);
      x2Mean, y2Mean := Quotient(x2Sum, n, undefined), Quotient(y2Sum, n, undefined);
      QuotientIsMean(asGCPs, pixel, undefined);
      QuotientIsMean(asGCPs, line, undefined);
      QuotientIsMean(asGCPs, x, undefined);
      QuotientIsMean(asGCPs, y, undefined);
    }

    method Refit(points: ControlPoints, alloc: (int, bool) -> bool) returns (status: Status)
      requires Valid() && points.Valid() && Apart(points)
      modifies adfToGeoX, adfToGeoY, adfFromGeoX, adfFromGeoY
      ensures Refitted(points.Points(), Centres(), nOrder, alloc(points.count, true), alloc(points.count, false),
                       old(Fit()), Fit(), status)
      ensures points.Points() == old(points.Points())
    {
      hide Refitted;
      var cp := points.Points();
      status := ComputeGeorefEquations(cp, x1Mean, y1Mean, x2Mean, y2Mean, adfToGeoX, adfToGeoY,
                                       adfFromGeoX, adfFromGeoY, nOrder, alloc(points.count, true), alloc(points.count, false));
      assert points.Points() == cp;
    }

    /** One point leaves the buffers, and its name leaves the records. */
    method DropPoint(points: ControlPoints, nIndex: int, ghost original: seq<Gcp>, ghost kept: seq<int>)
      requires points.Valid() && 0 <= nIndex < points.count && |kept| == points.count
      requires NamesKept(asGCPs, original, kept) && PointsKept(points.Points(), original, kept)
      modifies this`asGCPs, points, points.e1, points.n1, points.e2, points.n2
      ensures points.Valid() && points.count == old(points.count) - 1
      ensures NamesKept(asGCPs, original, Without(kept, nIndex)) && PointsKept(points.Points(), original, Without(kept, nIndex))
    {
      hide NamesKept;
      hide PointsKept;
      ghost var cp, gcps := points.Points(), asGCPs;
      KeptSizes(cp, gcps, original, kept);
      asGCPs := ShiftNames(asGCPs, nIndex, points.count);
      ShiftKeepsNames(gcps, asGCPs, nIndex, original, kept);
      WithoutKeepsPoints(cp, original, kept, nIndex);
      points.Remove(nIndex);
    }

    /** The coordinates of the remaining points go back into the records, which are cut to their number. */
    method WriteBack(points: ControlPoints, ghost original: seq<Gcp>, ghost kept: seq<int>)
      requires points.Valid()
      requires NamesKept(asGCPs, original, kept) && PointsKept(points.Points(), original, kept)
      modifies this`asGCPs
      ensures RecordsKept(asGCPs, original, kept) && |asGCPs| == points.count
    {
      ghost var gcps := asGCPs;
      for nI := 0 to points.count
        invariant |asGCPs| == |gcps|
        invariant forall k :: nI <= k < |gcps| ==> asGCPs[k] == gcps[k]
        invariant forall k :: 0 <= k < nI ==> asGCPs[k] == original[kept[k]].(z := original[k].z)
      {
        assert points.Points()[nI] == PointOf(original[kept[nI]]);
        asGCPs := asGCPs[nI := asGCPs[nI].(x := points.e2[nI], y := points.n2[nI], pixel := points.e1[nI], line := points.n1[nI])];
      }
      asGCPs := asGCPs[..points.count];
    }

    lemma LastFitStands(r: Refinement, start: Coefficients, run: seq<Snapshot>)
      requires Valid() && IsRun(r, start, run) && r == Refining(r.original, r.sqrt, r.alloc) && Fit() == Last(run).fit
      ensures FitStands(KeptPoints(r.original, Last(run).kept), Last(run).status)
    {
      hide DirectionFitted;
      if |run| > 1 {
        assert TurnAt(r, run, |run| - 1);
      }
    }
  }

  function Quotient(sum: real, n: nat, undefined: real): real {
    if n == 0 then undefined else sum / n as real
  }

  lemma QuotientIsMean(gcps: seq<Gcp>, f: Gcp -> real, undefined: real)
    ensures IsMean(Quotient(SumOf(gcps, f), |gcps|, undefined), gcps, f)
  {
    if gcps != [] {
      Divide(SumOf(gcps, f), |gcps| as real);
    }
  }

  lemma WorstIsAPoint(cp: seq<ControlPoint>, xMean: real, yMean: real, E: seq<real>, N: seq<real>, order: int,
                      tolerance: real, sqrt: real -> real, nIndex: int)
    requires |E| >= 10 && |N| >= 10 && IsWorst(cp, xMean, yMean, E, N, order, tolerance, sqrt, nIndex)
    ensures 0 <= nIndex < |cp|
  {
  }

  lemma PointsAreKeptPoints(cp: seq<ControlPoint>, original: seq<Gcp>, kept: seq<int>)
    requires PointsKept(cp, original, kept)
    ensures Subsequence(kept, |original|) && cp == KeptPoints(original, kept) && |cp| == |kept|
  {
  }

  lemma TurnTaken(r: Refinement, s: Snapshot, t: Snapshot, nIndex: int)
    requires Proper(r, s) && |s.kept| > r.minimumGcps && WorstIn(r, s, nIndex) && FittedFrom(r, s.fit, t)
    requires t.kept == Without(s.kept, nIndex)
    ensures Turn(r, s, t)
  {
    hide IsWorst;
    hide FittedFrom;
  }

  lemma KeptSizes(cp: seq<ControlPoint>, gcps: seq<Gcp>, original: seq<Gcp>, kept: seq<int>)
    requires NamesKept(gcps, original, kept) && PointsKept(cp, original, kept)
    ensures |kept| == |cp| <= |gcps|
  {
  }

  lemma NothingRemovedYet(original: seq<Gcp>, kept: seq<int>, cp: seq<ControlPoint>)
    requires kept == Everything(|original|) && |cp| == |original|
    requires forall k :: 0 <= k < |cp| ==> cp[k] == PointOf(original[k])
    ensures NamesKept(original, original, kept) && PointsKept(cp, original, kept)
  {
    assert cp == KeptPoints(original, kept);
  }

  // ------------------------------------------------------------ facts about runs

  /** Every turn removes one point. */
  lemma {:induction false} KeptAfter(r: Refinement, start: Coefficients, run: seq<Snapshot>, i: nat)
    requires Underway(r, start, run) && i < |run|
    ensures Proper(r, run[i]) && |run[i].kept| == |r.original| - i
  {
    hide Refitted;
    hide ShownMiss;
    hide Centred;
    if i > 0 {
      KeptAfter(r, start, run, i - 1);
      assert TurnAt(r, run, i);
      var nIndex :| WorstIn(r, run[i - 1], nIndex) && run[i].kept == Without(run[i - 1].kept, nIndex);
    }
  }

  /** A refinement stops at the minimum, and does nothing when there are no more points than that. */
  lemma RunSizes(r: Refinement, start: Coefficients, run: seq<Snapshot>)
    requires IsRun(r, start, run)
    ensures Proper(r, Last(run)) && |Last(run).kept| == |r.original| - |run| + 1
    ensures |Last(run).kept| >= r.minimumGcps || |run| == 1
    ensures |r.original| <= r.minimumGcps ==> |run| == 1
    ensures |run| == 1 ==> Last(run).kept == Everything(|r.original|)
  {
    hide FittedFrom;
    KeptAfter(r, start, run, |run| - 1);
    if |run| > 1 {
      assert TurnAt(r, run, |run| - 1) && TurnAt(r, run, 1);
      KeptAfter(r, start, run, |run| - 2);
    }
  }

  // ------------------------------------------------------------ whole records

  ghost function Elevations(gcps: seq<Gcp>): (z: seq<real>)
    ensures |z| == |gcps| && forall i :: 0 <= i < |z| ==> z[i] == gcps[i].z
  {
    seq(|gcps|, i requires 0 <= i < |gcps| => gcps[i].z)
  }

  ghost predicate AllEqual(z: seq<real>) {
    forall i :: 0 <= i < |z| ==> z[i] == z[0]
  }

  /** The records are the kept originals in all their fields. */
  ghost predicate Whole(gcps: seq<Gcp>, original: seq<Gcp>, kept: seq<int>) {
    && Subsequence(kept, |original|) && |gcps| == |kept|
    && forall k :: 0 <= k < |kept| ==> gcps[k] == original[kept[k]]
  }

  lemma RecordsAtTheEnd(gcps: seq<Gcp>, r: Refinement, start: Coefficients, run: seq<Snapshot>)
    requires IsRun(r, start, run) && RecordsKept(gcps, r.original, Last(run).kept)
    ensures |gcps| >= r.minimumGcps || |gcps| == |r.original|
    ensures |r.original| <= r.minimumGcps ==> gcps == r.original
    ensures AllEqual(Elevations(r.original)) ==> Whole(gcps, r.original, Last(run).kept)
  {
    hide IsRun;
    RunSizes(r, start, run);
    var z := Elevations(r.original);
    if AllEqual(z) {
      forall k | 0 <= k < |gcps|
        ensures gcps[k] == r.original[Last(run).kept[k]]
      {
        assert z[k] == z[Last(run).kept[k]];
      }
    }
  }
}
