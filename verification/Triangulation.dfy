/**
 Barycentric coordinates in the facets of a triangulation, and the two ways to
 find the facet of a point: looking at all facets, and walking from neighbour to
 neighbour.
 */
module Triangulation {
  import opened RealFacts
  import opened Basics

  const EPS := 0.0000000001
  const SMALL := 0.00001

  datatype Point = Point(x: real, y: real)

  /** A triangle: neighbour k lies behind the edge opposite to vertex k, and -1 stands for none. */
  datatype Facet = Facet(vertices: seq<int>, neighbours: seq<int>)

  /** What takes a point to its first two barycentric coordinates. */
  datatype Coefficients = Coefficients(mul1X: real, mul1Y: real, mul2X: real, mul2Y: real, cstX: real, cstY: real)

  ghost predicate ValidFacets(facets: seq<Facet>, pts: seq<Point>) {
    forall f :: 0 <= f < |facets| ==> ValidFacet(facets[f], |facets|, |pts|)
  }

  ghost predicate ValidFacet(facet: Facet, count: int, points: int) {
    && |facet.vertices| == 3 && |facet.neighbours| == 3
    && forall k :: 0 <= k < 3 ==> 0 <= facet.vertices[k] < points && -1 <= facet.neighbours[k] < count
  }

  /** Twice the signed area of a triangle. */
  function Denominator(p1: Point, p2: Point, p3: Point): real {
    (p2.y - p3.y) * (p1.x - p3.x) + (p3.x - p2.x) * (p1.y - p3.y)
  }

  predicate Degenerate(p1: Point, p2: Point, p3: Point) {
    Abs(Denominator(p1, p2, p3)) < SMALL
  }

  function CoefficientsOf(p1: Point, p2: Point, p3: Point): Coefficients {
    var denom := Denominator(p1, p2, p3);
    if Abs(denom) < SMALL then Coefficients(0.0, 0.0, 0.0, 0.0, 0.0, 0.0)
    else Coefficients((p2.y - p3.y) / denom, (p3.x - p2.x) / denom, (p3.y - p1.y) / denom, (p1.x - p3.x) / denom, p3.x, p3.y)
  }

  predicate AllZero(co: Coefficients) {
    co.mul1X == 0.0 && co.mul2X == 0.0 && co.mul1Y == 0.0 && co.mul2Y == 0.0
  }

  /** Barycentric coordinate number k. */
  function Coord(co: Coefficients, k: int, p: Point): real {
    var l1 := co.mul1X * (p.x - co.cstX) + co.mul1Y * (p.y - co.cstY);
    var l2 := co.mul2X * (p.x - co.cstX) + co.mul2Y * (p.y - co.cstY);
    if k == 0 then l1 else if k == 1 then l2 else 1.0 - l1 - l2
  }

  // ------------------------------------------------------- what the coordinates are

  /** The coordinates solve the two equations of the triangle, in coordinates relative to its third vertex. */
  lemma Cramer(a: real, b: real, c: real, d: real, u: real, v: real, denom: real, l1: real, l2: real)
    requires denom == d * a - c * b && denom != 0.0
    requires l1 * denom == d * u - c * v && l2 * denom == a * v - b * u
    ensures l1 * a + l2 * c == u && l1 * b + l2 * d == v
  {
    assert denom * (l1 * a + l2 * c) == (l1 * denom) * a + (l2 * denom) * c;
    assert (d * u - c * v) * a + (a * v - b * u) * c == (d * a - c * b) * u;
    Cancel(denom, l1 * a + l2 * c, u);
    assert denom * (l1 * b + l2 * d) == (l1 * denom) * b + (l2 * denom) * d;
    assert (d * u - c * v) * b + (a * v - b * u) * d == (d * a - c * b) * v;
    Cancel(denom, l1 * b + l2 * d, v);
  }

  lemma RatioSum(p: real, q: real, denom: real, u: real, v: real)
    requires denom != 0.0
    ensures (p / denom * u + q / denom * v) * denom == p * u + q * v
  {
    var m, n := p / denom, q / denom;
    Divide(p, denom);
    Divide(q, denom);
    assert (m * u) * denom == (m * denom) * u;
    assert (n * v) * denom == (n * denom) * v;
  }

  lemma DenominatorIs(p1: Point, p2: Point, p3: Point)
    ensures Denominator(p1, p2, p3) == (p2.y - p3.y) * (p1.x - p3.x) + (p3.x - p2.x) * (p1.y - p3.y)
    ensures Denominator(p1, p2, p3) == (p3.y - p1.y) * (p2.x - p3.x) + (p1.x - p3.x) * (p2.y - p3.y)
  {
    assert (p3.x - p2.x) * (p1.y - p3.y) == (p3.y - p1.y) * (p2.x - p3.x);
  }

  /** A coordinate is the share of the area that is left when the point takes the vertex's place. */
  lemma CoordsAreAreas(p1: Point, p2: Point, p3: Point, p: Point)
    requires !Degenerate(p1, p2, p3)
    ensures var co, denom := CoefficientsOf(p1, p2, p3), Denominator(p1, p2, p3);
      && denom != 0.0
      && Coord(co, 0, p) * denom == Denominator(p, p2, p3)
      && Coord(co, 1, p) * denom == Denominator(p1, p, p3)
  {
    hide Denominator;
    var denom := Denominator(p1, p2, p3);
    RatioSum(p2.y - p3.y, p3.x - p2.x, denom, p.x - p3.x, p.y - p3.y);
    RatioSum(p3.y - p1.y, p1.x - p3.x, denom, p.x - p3.x, p.y - p3.y);
    DenominatorIs(p, p2, p3);
    DenominatorIs(p1, p, p3);
  }

  /** The point with the given weights on three points. */
  function Combine(l1: real, l2: real, l3: real, p1: Point, p2: Point, p3: Point): Point {
    Point(l1 * p1.x + l2 * p2.x + l3 * p3.x, l1 * p1.y + l2 * p2.y + l3 * p3.y)
  }

  /** The coordinates add up to one and reproduce the point from the vertices. */
  lemma CoordsReproduce(p1: Point, p2: Point, p3: Point, p: Point)
    requires !Degenerate(p1, p2, p3)
    ensures var co := CoefficientsOf(p1, p2, p3);
      && Coord(co, 0, p) + Coord(co, 1, p) + Coord(co, 2, p) == 1.0
      && Combine(Coord(co, 0, p), Coord(co, 1, p), Coord(co, 2, p), p1, p2, p3) == p
  {
    hide Coord;
    hide CoefficientsOf;
    hide Denominator;
    hide Combine;
    CoordsAreAreas(p1, p2, p3, p);
    var co := CoefficientsOf(p1, p2, p3);
    LastCoord(co, p);
    AreasReproduce(p1, p2, p3, p, Coord(co, 0, p), Coord(co, 1, p), Coord(co, 2, p));
  }

  lemma AreasReproduce(p1: Point, p2: Point, p3: Point, p: Point, l1: real, l2: real, l3: real)
    requires Denominator(p1, p2, p3) != 0.0 && l3 == 1.0 - l1 - l2
    requires l1 * Denominator(p1, p2, p3) == Denominator(p, p2, p3) && l2 * Denominator(p1, p2, p3) == Denominator(p1, p, p3)
    ensures Combine(l1, l2, l3, p1, p2, p3) == p
  {
    DenominatorIs(p1, p2, p3);
    DenominatorIs(p, p2, p3);
    DenominatorIs(p1, p, p3);
    var a, b, c, d := p1.x - p3.x, p1.y - p3.y, p2.x - p3.x, p2.y - p3.y;
    var u, v, denom := p.x - p3.x, p.y - p3.y, Denominator(p1, p2, p3);
    hide Denominator;
    Signs(a, b, c, d, u, v);
    Cramer(a, b, c, d, u, v, denom, l1, l2);
    Recentre(l1, l2, l3, p1.x, p2.x, p3.x);
    Recentre(l1, l2, l3, p1.y, p2.y, p3.y);
  }

  lemma Signs(a: real, b: real, c: real, d: real, u: real, v: real)
    ensures d * a + (-c) * b == d * a - c * b && d * u + (-c) * v == d * u - c * v && v * a + (-u) * b == a * v - b * u
  {
  }

  lemma Recentre(l1: real, l2: real, l3: real, a: real, b: real, c: real)
    requires l1 + l2 + l3 == 1.0
    ensures l1 * a + l2 * b + l3 * c == l1 * (a - c) + l2 * (b - c) + c
  {
    assert l3 * c == c - l1 * c - l2 * c by {
      assert l3 == 1.0 - l1 - l2;
    }
  }

  /** Each vertex has coordinate 1 for itself and 0 for the others. */
  lemma CoordsOfVertices(p1: Point, p2: Point, p3: Point)
    requires !Degenerate(p1, p2, p3)
    ensures var co := CoefficientsOf(p1, p2, p3);
      && Coord(co, 0, p1) == 1.0 && Coord(co, 1, p1) == 0.0 && Coord(co, 2, p1) == 0.0
      && Coord(co, 0, p2) == 0.0 && Coord(co, 1, p2) == 1.0 && Coord(co, 2, p2) == 0.0
      && Coord(co, 0, p3) == 0.0 && Coord(co, 1, p3) == 0.0 && Coord(co, 2, p3) == 1.0
  {
    var co, denom := CoefficientsOf(p1, p2, p3), Denominator(p1, p2, p3);
    CoordsAreAreas(p1, p2, p3, p1);
    CoordsAreAreas(p1, p2, p3, p2);
    CoordsAreAreas(p1, p2, p3, p3);
    FlatTriangles(p1, p2, p3);
    LastCoord(co, p1);
    LastCoord(co, p2);
    LastCoord(co, p3);
    hide Coord;
    hide CoefficientsOf;
    hide Denominator;
    Cancel(denom, Coord(co, 0, p1), 1.0);
    Cancel(denom, Coord(co, 1, p1), 0.0);
    Cancel(denom, Coord(co, 0, p2), 0.0);
    Cancel(denom, Coord(co, 1, p2), 1.0);
    Cancel(denom, Coord(co, 0, p3), 0.0);
    Cancel(denom, Coord(co, 1, p3), 0.0);
  }

  lemma FlatTriangles(p1: Point, p2: Point, p3: Point)
    ensures Denominator(p2, p2, p3) == 0.0 && Denominator(p3, p2, p3) == 0.0
    ensures Denominator(p1, p1, p3) == 0.0 && Denominator(p1, p3, p3) == 0.0
  {
  }

  lemma LastCoord(co: Coefficients, p: Point)
    ensures Coord(co, 2, p) == 1.0 - Coord(co, 0, p) - Coord(co, 1, p)
  {
  }

  lemma AffineForm(a: real, b: real, cx: real, cy: real, l1: real, l2: real, l3: real, p1: Point, p2: Point, p3: Point)
    requires l1 + l2 + l3 == 1.0
    ensures var p := Combine(l1, l2, l3, p1, p2, p3);
      a * (p.x - cx) + b * (p.y - cy) ==
        l1 * (a * (p1.x - cx) + b * (p1.y - cy)) + l2 * (a * (p2.x - cx) + b * (p2.y - cy)) + l3 * (a * (p3.x - cx) + b * (p3.y - cy))
  {
    OneAxis(a, cx, l1, l2, l3, p1.x, p2.x, p3.x);
    OneAxis(b, cy, l1, l2, l3, p1.y, p2.y, p3.y);
    Spread(l1, a * (p1.x - cx), b * (p1.y - cy));
    Spread(l2, a * (p2.x - cx), b * (p2.y - cy));
    Spread(l3, a * (p3.x - cx), b * (p3.y - cy));
  }

  lemma Spread(l: real, x: real, y: real)
    ensures l * (x + y) == l * x + l * y
  {
  }

  lemma OneAxis(a: real, c: real, l1: real, l2: real, l3: real, x1: real, x2: real, x3: real)
    requires l1 + l2 + l3 == 1.0
    ensures a * (l1 * x1 + l2 * x2 + l3 * x3 - c) == l1 * (a * (x1 - c)) + l2 * (a * (x2 - c)) + l3 * (a * (x3 - c))
  {
    assert l1 * (x1 - c) + l2 * (x2 - c) + l3 * (x3 - c) == l1 * x1 + l2 * x2 + l3 * x3 - c by {
      assert l1 * c + l2 * c + l3 * c == (l1 + l2 + l3) * c;
    }
    assert a * (l1 * (x1 - c) + l2 * (x2 - c) + l3 * (x3 - c)) == a * (l1 * (x1 - c)) + a * (l2 * (x2 - c)) + a * (l3 * (x3 - c));
    assert a * (l1 * (x1 - c)) == l1 * (a * (x1 - c));
    assert a * (l2 * (x2 - c)) == l2 * (a * (x2 - c));
    assert a * (l3 * (x3 - c)) == l3 * (a * (x3 - c));
  }

  lemma LeadingCoordIsAffine(co: Coefficients, k: int, l1: real, l2: real, l3: real, q1: Point, q2: Point, q3: Point)
    requires l1 + l2 + l3 == 1.0 && 0 <= k < 2
    ensures Coord(co, k, Combine(l1, l2, l3, q1, q2, q3)) == l1 * Coord(co, k, q1) + l2 * Coord(co, k, q2) + l3 * Coord(co, k, q3)
  {
    hide Combine;
    if k == 0 {
      AffineForm(co.mul1X, co.mul1Y, co.cstX, co.cstY, l1, l2, l3, q1, q2, q3);
    } else {
      AffineForm(co.mul2X, co.mul2Y, co.cstX, co.cstY, l1, l2, l3, q1, q2, q3);
    }
  }

  /** Every barycentric coordinate is an affine function of the point. */
  lemma CoordIsAffine(co: Coefficients, k: int, l1: real, l2: real, l3: real, q1: Point, q2: Point, q3: Point)
    requires l1 + l2 + l3 == 1.0 && 0 <= k < 3
    ensures Coord(co, k, Combine(l1, l2, l3, q1, q2, q3)) == l1 * Coord(co, k, q1) + l2 * Coord(co, k, q2) + l3 * Coord(co, k, q3)
  {
    hide Combine;
    hide Coord;
    if k < 2 {
      LeadingCoordIsAffine(co, k, l1, l2, l3, q1, q2, q3);
    } else {
      LeadingCoordIsAffine(co, 0, l1, l2, l3, q1, q2, q3);
      LeadingCoordIsAffine(co, 1, l1, l2, l3, q1, q2, q3);
      LastCoord(co, Combine(l1, l2, l3, q1, q2, q3));
      LastCoord(co, q1);
      LastCoord(co, q2);
      LastCoord(co, q3);
      RestOf(l1, Coord(co, 0, q1), Coord(co, 1, q1));
      RestOf(l2, Coord(co, 0, q2), Coord(co, 1, q2));
      RestOf(l3, Coord(co, 0, q3), Coord(co, 1, q3));
    }
  }

  lemma RestOf(l: real, x: real, y: real)
    ensures l * (1.0 - x - y) == l - l * x - l * y
  {
  }

  /** The test for a degenerate facet by its coefficients tells the truth. */
  lemma AllZeroMeansDegenerate(p1: Point, p2: Point, p3: Point)
    ensures AllZero(CoefficientsOf(p1, p2, p3)) <==> Degenerate(p1, p2, p3)
  {
    if !Degenerate(p1, p2, p3) {
      var denom := Denominator(p1, p2, p3);
      Divide(p2.y - p3.y, denom);
      Divide(p3.x - p2.x, denom);
      assert p2.y - p3.y != 0.0 || p3.x - p2.x != 0.0;
    }
  }

  // --------------------------------------------------------------- points and facets

  ghost function Corner(facets: seq<Facet>, pts: seq<Point>, f: int, k: int): Point
    requires ValidFacets(facets, pts) && 0 <= f < |facets| && 0 <= k < 3
  {
    assert ValidFacet(facets[f], |facets|, |pts|);
    pts[facets[f].vertices[k]]
  }

  ghost function Co(facets: seq<Facet>, pts: seq<Point>, f: int): Coefficients
    requires ValidFacets(facets, pts) && 0 <= f < |facets|
  {
    CoefficientsOf(Corner(facets, pts, f, 0), Corner(facets, pts, f, 1), Corner(facets, pts, f, 2))
  }

  ghost predicate Flat(facets: seq<Facet>, pts: seq<Point>, f: int)
    requires ValidFacets(facets, pts) && 0 <= f < |facets|
  {
    Degenerate(Corner(facets, pts, f, 0), Corner(facets, pts, f, 1), Corner(facets, pts, f, 2))
  }

  /** The point lies exactly in a facet that is not degenerate. */
  ghost predicate InFacet(facets: seq<Facet>, pts: seq<Point>, f: int, p: Point)
    requires ValidFacets(facets, pts)
  {
    && 0 <= f < |facets| && !Flat(facets, pts, f)
    && forall k :: 0 <= k < 3 ==> Coord(Co(facets, pts, f), k, p) >= 0.0
  }

  /** The weights are in range up to the tolerance. */
  ghost predicate Accepts(facets: seq<Facet>, pts: seq<Point>, f: int, p: Point)
    requires ValidFacets(facets, pts)
  {
    && 0 <= f < |facets| && !Flat(facets, pts, f)
    && forall k :: 0 <= k < 3 ==> -EPS <= Coord(Co(facets, pts, f), k, p) <= 1.0 + EPS
  }

  ghost predicate OnBoundary(facets: seq<Facet>, pts: seq<Point>, f: int, k: int)
    requires ValidFacets(facets, pts)
  {
    && 0 <= f < |facets| && 0 <= k < 3 && !Flat(facets, pts, f)
    && ValidFacet(facets[f], |facets|, |pts|) && facets[f].neighbours[k] < 0
  }

  /** The point is beyond an edge of the boundary. */
  ghost predicate Beyond(facets: seq<Facet>, pts: seq<Point>, f: int, p: Point)
    requires ValidFacets(facets, pts)
  {
    exists k :: OnBoundary(facets, pts, f, k) && Coord(Co(facets, pts, f), k, p) < -EPS
  }

  /** All vertices lie on the inner side of every boundary edge. */
  ghost predicate ConvexBoundary(facets: seq<Facet>, pts: seq<Point>)
    requires ValidFacets(facets, pts)
  {
    forall f, k, g, j :: OnBoundary(facets, pts, f, k) && 0 <= g < |facets| && 0 <= j < 3 ==>
      Coord(Co(facets, pts, f), k, Corner(facets, pts, g, j)) >= 0.0
  }

  lemma WeightedAtLeastZero(l1: real, l2: real, l3: real, a: real, b: real, c: real)
    requires l1 >= 0.0 && l2 >= 0.0 && l3 >= 0.0 && a >= 0.0 && b >= 0.0 && c >= 0.0
    ensures l1 * a + l2 * b + l3 * c >= 0.0
  {
    assert l1 * a >= 0.0 && l2 * b >= 0.0 && l3 * c >= 0.0;
  }

  /** A point of some facet lies on the inner side of every boundary edge. */
  lemma NeverBeyond(facets: seq<Facet>, pts: seq<Point>, f: int, k: int, g: int, p: Point)
    requires ValidFacets(facets, pts) && ConvexBoundary(facets, pts) && InFacet(facets, pts, g, p)
    requires OnBoundary(facets, pts, f, k)
    ensures Coord(Co(facets, pts, f), k, p) >= 0.0
  {
    var p1, p2, p3 := Corner(facets, pts, g, 0), Corner(facets, pts, g, 1), Corner(facets, pts, g, 2);
    var own, co := Co(facets, pts, g), Co(facets, pts, f);
    assert Coord(co, k, p1) >= 0.0 && Coord(co, k, p2) >= 0.0 && Coord(co, k, p3) >= 0.0;
    var l1, l2, l3 := Coord(own, 0, p), Coord(own, 1, p), Coord(own, 2, p);
    assert l1 >= 0.0 && l2 >= 0.0 && l3 >= 0.0;
    hide Coord;
    hide CoefficientsOf;
    hide ConvexBoundary;
    CoordsReproduce(p1, p2, p3, p);
    CoordIsAffine(co, k, l1, l2, l3, p1, p2, p3);
    WeightedAtLeastZero(l1, l2, l3, Coord(co, k, p1), Coord(co, k, p2), Coord(co, k, p3));
  }

  lemma InFacetIsAccepted(facets: seq<Facet>, pts: seq<Point>, f: int, p: Point)
    requires ValidFacets(facets, pts) && InFacet(facets, pts, f, p)
    ensures Accepts(facets, pts, f, p)
  {
    var co := Co(facets, pts, f);
    LastCoord(co, p);
    hide Coord;
    assert Coord(co, 0, p) >= 0.0 && Coord(co, 1, p) >= 0.0 && Coord(co, 2, p) >= 0.0;
  }

  /** What a search may answer. */
  ghost predicate Answer(facets: seq<Facet>, pts: seq<Point>, p: Point, found: bool, facet: int)
    requires ValidFacets(facets, pts)
  {
    if found then Accepts(facets, pts, facet, p)
    else if facet >= 0 then Beyond(facets, pts, facet, p)
    else facet == -1 && forall f :: !Accepts(facets, pts, f, p)
  }

  /** With a convex boundary, such an answer finds every point that lies in a facet. */
  lemma PointsInFacetsAreFound(facets: seq<Facet>, pts: seq<Point>, g: int, p: Point, found: bool, facet: int)
    requires ValidFacets(facets, pts) && ConvexBoundary(facets, pts) && InFacet(facets, pts, g, p)
    requires Answer(facets, pts, p, found, facet)
    ensures found
  {
    InFacetIsAccepted(facets, pts, g, p);
    if !found {
      assert facet >= 0;
      var k :| OnBoundary(facets, pts, facet, k) && Coord(Co(facets, pts, facet), k, p) < -EPS;
      NeverBeyond(facets, pts, facet, k, g, p);
    }
  }

  /** A found facet gives back the point from its vertices. */
  lemma FoundFacetReproduces(facets: seq<Facet>, pts: seq<Point>, p: Point, facet: int)
    requires ValidFacets(facets, pts) && Answer(facets, pts, p, true, facet)
    ensures var co := Co(facets, pts, facet);
      && Coord(co, 0, p) + Coord(co, 1, p) + Coord(co, 2, p) == 1.0
      && Combine(Coord(co, 0, p), Coord(co, 1, p), Coord(co, 2, p),
                 Corner(facets, pts, facet, 0), Corner(facets, pts, facet, 1), Corner(facets, pts, facet, 2)) == p
  {
    CoordsReproduce(Corner(facets, pts, facet, 0), Corner(facets, pts, facet, 1), Corner(facets, pts, facet, 2), p);
  }

  // -------------------------------------------------------------------- the searches

  class Mesh {
    const facets: seq<Facet>
    var coefficients: Option<seq<Coefficients>>

    constructor (facets: seq<Facet>)
      ensures this.facets == facets && coefficients == None
    {
      this.facets := facets;
      coefficients := None;
    }

    /** The stored coefficients, if any, belong to the facets over these points. */
    ghost predicate Valid(pts: seq<Point>)
      reads this
    {
      && ValidFacets(facets, pts)
      && (coefficients.Some? ==> |coefficients.value| == |facets|)
      && (coefficients.Some? ==> forall f :: 0 <= f < |facets| ==> coefficients.value[f] == Co(facets, pts, f))
    }

    /** Fills in the coefficients, once; whether there is memory for them is up to the system. */
    method ComputeCoefficients(pts: seq<Point>, hasMemory: bool) returns (ok: bool)
      requires Valid(pts)
      modifies this
      ensures Valid(pts)
      ensures ok <==> coefficients.Some?
      ensures ok <==> old(coefficients.Some?) || hasMemory
    {
      if coefficients.Some? {
        return true;
      }
      if !hasMemory {
        return false;
      }
      var filled := [];
      for f := 0 to |facets|
        invariant coefficients == None && |filled| == f
        invariant forall g :: 0 <= g < f ==> filled[g] == Co(facets, pts, g)
      {
        assert ValidFacet(facets[f], |facets|, |pts|);
        var corners := facets[f].vertices;
        filled := filled + [CoefficientsOf(pts[corners[0]], pts[corners[1]], pts[corners[2]])];
      }
      coefficients := Some(filled);
      ok := true;
    }

    /**
     All facets in turn. Without coefficients there is no answer; otherwise the
     first facet that accepts the point, or one with the point beyond its boundary
     edge, or none.
     */
    method FindFacetBruteForce(ghost pts: seq<Point>, p: Point) returns (found: bool, facet: int)
      requires Valid(pts)
      ensures coefficients.None? ==> !found && facet == -1
      ensures coefficients.Some? ==> Answer(facets, pts, p, found, facet)
      ensures forall g :: 0 <= g < facet ==> !Accepts(facets, pts, g, p)
    {
      if coefficients.None? {
        return false, -1;
      }
      for f := 0 to |facets|
        invariant forall g :: 0 <= g < f ==> !Accepts(facets, pts, g, p)
      {
        var co := coefficients.value[f];
        AllZeroMeansDegenerate(Corner(facets, pts, f, 0), Corner(facets, pts, f, 1), Corner(facets, pts, f, 2));
        assert ValidFacet(facets[f], |facets|, |pts|);
        hide CoefficientsOf;
        hide Coord;
        hide Denominator;
        if AllZero(co) {
          continue;
        }
        var l1 := Coord(co, 0, p);
        if l1 < -EPS {
          if facets[f].neighbours[0] < 0 {
            assert OnBoundary(facets, pts, f, 0);
            return false, f;
          }
          continue;
        }
        if l1 > 1.0 + EPS {
          continue;
        }
        var l2 := Coord(co, 1, p);
        if l2 < -EPS {
          if facets[f].neighbours[1] < 0 {
            assert OnBoundary(facets, pts, f, 1);
            return false, f;
          }
          continue;
        }
        if l2 > 1.0 + EPS {
          continue;
        }
        LastCoord(co, p);
        var l3 := 1.0 - l1 - l2;
        if l3 < -EPS {
          if facets[f].neighbours[2] < 0 {
            assert OnBoundary(facets, pts, f, 2);
            return false, f;
          }
          continue;
        }
        if l3 > 1.0 + EPS {
          continue;
        }
        return true, f;
      }
      found, facet := false, -1;
    }

    /**
     Walks over the edge that the point is beyond, for a limited number of steps,
     and looks at all facets if that does not settle it. The walk never leaves the
     facets, and its answer is as good as that of the full search.
     */
    method FindFacetDirected(ghost pts: seq<Point>, start: int, p: Point) returns (found: bool, facet: int)
      requires Valid(pts) && 0 <= start < |facets|
      ensures coefficients.None? ==> !found && facet == -1
      ensures coefficients.Some? ==> Answer(facets, pts, p, found, facet)
    {
      if coefficients.None? {
        return false, -1;
      }
      var f := start;
      var iterMax := 2 + |facets| / 4;
      for i := 0 to iterMax
        invariant 0 <= f < |facets|
      {
        var co := coefficients.value[f];
        AllZeroMeansDegenerate(Corner(facets, pts, f, 0), Corner(facets, pts, f, 1), Corner(facets, pts, f, 2));
        assert ValidFacet(facets[f], |facets|, |pts|);
        hide CoefficientsOf;
        hide Coord;
        hide Denominator;
        if AllZero(co) {
          break;
        }
        var matches := true;
        var l1 := Coord(co, 0, p);
        if l1 < -EPS {
          var neighbour := facets[f].neighbours[0];
          if neighbour < 0 {
            assert OnBoundary(facets, pts, f, 0);
            return false, f;
          }
          f := neighbour;
          continue;
        } else if l1 > 1.0 + EPS {
          matches := false;
        }
        var l2 := Coord(co, 1, p);
        if l2 < -EPS {
          var neighbour := facets[f].neighbours[1];
          if neighbour < 0 {
            assert OnBoundary(facets, pts, f, 1);
            return false, f;
          }
          f := neighbour;
          continue;
        } else if l2 > 1.0 + EPS {
          matches := false;
        }
        LastCoord(co, p);
        var l3 := 1.0 - l1 - l2;
        if l3 < -EPS {
          var neighbour := facets[f].neighbours[2];
          if neighbour < 0 {
            assert OnBoundary(facets, pts, f, 2);
            return false, f;
          }
          f := neighbour;
          continue;
        } else if l3 > 1.0 + EPS {
          matches := false;
        }
        if matches {
          return true, f;
        } else {
          break;
        }
      }
      found, facet := FindFacetBruteForce(pts, p);
    }
  }
}
