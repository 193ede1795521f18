/**
 The gridding estimators that summarise all points in a search ellipse: moving
 average, minimum, maximum, range and count. Each walks either over all points
 or over those that a quadtree finds in the square around the ellipse.
 */
module GridMetrics {
  import opened RealFacts
  import opened Basics

  datatype Point = Point(x: real, y: real, z: real)

  /** A search ellipse with its rotation; `c` and `s` are the cosine and the sine of the angle. */
  datatype Ellipse = Ellipse(r1: real, r2: real, rotated: bool, c: real, s: real)

  ghost predicate ValidEllipse(e: Ellipse) {
    e.r1 >= 0.0 && e.r2 >= 0.0 && (e.rotated ==> e.c * e.c + e.s * e.s == 1.0)
  }

  function RotatedX(e: Ellipse, dx: real, dy: real): real {
    if e.rotated then dx * e.c + dy * e.s else dx
  }

  function RotatedY(e: Ellipse, dx: real, dy: real): real {
    if e.rotated then dy * e.c - dx * e.s else dy
  }

  /** The ellipse test on the squares of the rotated offsets. */
  predicate EllipseTest(a: real, b: real, u: real, v: real) {
    b * u + a * v <= a * b
  }

  predicate Inside(e: Ellipse, p: Point, px: real, py: real) {
    var rx, ry := RotatedX(e, p.x - px, p.y - py), RotatedY(e, p.x - px, p.y - py);
    EllipseTest(Sq(e.r1), Sq(e.r2), Sq(rx), Sq(ry))
  }

  function SearchRadius(e: Ellipse): real {
    if e.r1 > e.r2 then e.r1 else e.r2
  }

  /** The rectangle that the quadtree is asked for. */
  predicate InSquare(e: Ellipse, p: Point, px: real, py: real) {
    var r := SearchRadius(e);
    px - r <= p.x <= px + r && py - r <= p.y <= py + r
  }

  // ----------------------------------------------------------- axes and ellipse

  /** The direction of the first axis of the ellipse; the second one is a quarter turn ahead of it. */
  function AxisX(e: Ellipse): real {
    if e.rotated then e.c else 1.0
  }

  function AxisY(e: Ellipse): real {
    if e.rotated then e.s else 0.0
  }

  /** The offset that lies u along the first axis and v along the second. */
  function AlongX(e: Ellipse, u: real, v: real): real {
    u * AxisX(e) - v * AxisY(e)
  }

  function AlongY(e: Ellipse, u: real, v: real): real {
    u * AxisY(e) + v * AxisX(e)
  }

  /** The rotated offsets are the coordinates along the two axes. */
  lemma RotationUndone(e: Ellipse, u: real, v: real)
    requires ValidEllipse(e)
    ensures RotatedX(e, AlongX(e, u, v), AlongY(e, u, v)) == u && RotatedY(e, AlongX(e, u, v), AlongY(e, u, v)) == v
  {
    if e.rotated {
      var c, s := e.c, e.s;
      assert (u * c - v * s) * c + (u * s + v * c) * s == u * (c * c + s * s);
      assert (u * s + v * c) * c - (u * c - v * s) * s == v * (c * c + s * s);
    }
  }

  /** The point at given fractions of the two radii along the two axes. */
  function AtFractions(e: Ellipse, px: real, py: real, u: real, v: real, z: real): Point {
    Point(px + AlongX(e, u * e.r1, v * e.r2), py + AlongY(e, u * e.r1, v * e.r2), z)
  }

  lemma FractionsCompare(a: real, b: real, u: real, v: real)
    requires a > 0.0 && b > 0.0
    ensures EllipseTest(a, b, u * a, v * b) <==> u + v <= 1.0
  {
    var k, w := a * b, u + v;
    assert b * (u * a) + a * (v * b) == k * w;
    ProductsStrictlyOrdered(a, 0.0, b);
    if w < 1.0 {
      ProductsStrictlyOrdered(k, w, 1.0);
    } else if w > 1.0 {
      ProductsStrictlyOrdered(k, 1.0, w);
    }
  }

  /**
   With both radii positive, the test is that of the ellipse with these radii along
   the two axes, for any rotation: the squared fractions add up to at most one.
   */
  lemma InsideIsTheEllipse(e: Ellipse, px: real, py: real, u: real, v: real, z: real)
    requires ValidEllipse(e) && e.r1 > 0.0 && e.r2 > 0.0
    ensures Inside(e, AtFractions(e, px, py, u, v, z), px, py) <==> Sq(u) + Sq(v) <= 1.0
  {
    var p := AtFractions(e, px, py, u, v, z);
    RotationUndone(e, u * e.r1, v * e.r2);
    assert p.x - px == AlongX(e, u * e.r1, v * e.r2) && p.y - py == AlongY(e, u * e.r1, v * e.r2);
    hide AlongX;
    hide AlongY;
    hide RotatedX;
    hide RotatedY;
    SqOfProduct(u, e.r1);
    SqOfProduct(v, e.r2);
    SqZero(e.r1);
    SqZero(e.r2);
    FractionsCompare(Sq(e.r1), Sq(e.r2), Sq(u), Sq(v));
  }

  /** On an axis: up to the radius, and no farther. */
  lemma InsideOnTheAxes(e: Ellipse, px: real, py: real, t: real, z: real)
    requires ValidEllipse(e) && e.r1 > 0.0 && e.r2 > 0.0
    ensures Inside(e, AtFractions(e, px, py, t, 0.0, z), px, py) <==> -1.0 <= t <= 1.0
    ensures Inside(e, AtFractions(e, px, py, 0.0, t, z), px, py) <==> -1.0 <= t <= 1.0
  {
    hide Inside;
    hide AtFractions;
    InsideIsTheEllipse(e, px, py, t, 0.0, z);
    InsideIsTheEllipse(e, px, py, 0.0, t, z);
    if -1.0 <= t <= 1.0 {
      BoundSq(t, 1.0);
    } else if Sq(t) <= 1.0 {
      SqBound(t, 1.0);
    }
  }

  // ------------------------------------------------ the ellipse is in the square

  /** Semi-axes a and b, squared: the point is no farther from the centre than the longer one. */
  lemma EllipseInDisc(a: real, b: real, u: real, v: real)
    requires a > 0.0 && b > 0.0 && u >= 0.0 && v >= 0.0
    requires EllipseTest(a, b, u, v)
    ensures u + v <= if a > b then a else b
  {
    if a > b {
      var d := a - b;
      assert d * v >= 0.0;
      assert a * v == b * v + d * v;
      assert b * (u + v) == b * u + b * v;
      ProductsCompare(b, u + v, a);
    } else {
      var d := b - a;
      assert d * u >= 0.0;
      assert b * u == a * u + d * u;
      assert a * (u + v) == a * u + a * v;
      ProductsCompare(a, u + v, b);
    }
  }

  lemma RotationKeepsDistance(e: Ellipse, dx: real, dy: real)
    requires ValidEllipse(e)
    ensures Sq(RotatedX(e, dx, dy)) + Sq(RotatedY(e, dx, dy)) == Sq(dx) + Sq(dy)
  {
    if e.rotated {
      var c, s := e.c, e.s;
      RotationIdentity(dx, dy, c, s);
      assert (dx * dx + dy * dy) * (c * c + s * s) == dx * dx + dy * dy;
    }
  }

  lemma RotationIdentity(dx: real, dy: real, c: real, s: real)
    ensures Sq(dx * c + dy * s) + Sq(dy * c - dx * s) == (dx * dx + dy * dy) * (c * c + s * s)
  {
    var a, b, p, q := dx * c, dy * s, dy * c, dx * s;
    assert Sq(a + b) == a * a + 2.0 * (a * b) + b * b;
    assert Sq(p - q) == p * p - 2.0 * (p * q) + q * q;
    assert a * b == p * q;
    assert (dx * dx + dy * dy) * (c * c + s * s) ==
           dx * dx * (c * c) + dx * dx * (s * s) + dy * dy * (c * c) + dy * dy * (s * s);
    assert a * a == dx * dx * (c * c) && q * q == dx * dx * (s * s);
    assert p * p == dy * dy * (c * c) && b * b == dy * dy * (s * s);
  }

  /** With both radii positive, whatever the rotation, the search square holds the whole ellipse. */
  lemma InsideIsInSquare(e: Ellipse, p: Point, px: real, py: real)
    requires ValidEllipse(e) && e.r1 > 0.0 && e.r2 > 0.0
    requires Inside(e, p, px, py)
    ensures InSquare(e, p, px, py)
  {
    var dx, dy := p.x - px, p.y - py;
    var rx, ry, r := RotatedX(e, dx, dy), RotatedY(e, dx, dy), SearchRadius(e);
    SqZero(e.r1);
    SqZero(e.r2);
    SqZero(rx);
    SqZero(ry);
    SqZero(dx);
    SqZero(dy);
    EllipseInDisc(Sq(e.r1), Sq(e.r2), Sq(rx), Sq(ry));
    RotationKeepsDistance(e, dx, dy);
    SqOrdered(r, e.r1);
    SqOrdered(r, e.r2);
    SqBound(dx, r);
    SqBound(dy, r);
  }

  // --------------------------------------------------------- what a walk gathers

  /** What an estimator keeps of the points it has accepted. */
  datatype Tally = Tally(n: nat, sum: real, min: real, max: real)

  /** The largest finite double. */
  const DBL_MAX := 179769313486231570814527423731704356798070567525844996598917476803157260780028538760589558632766878171540458953514382464234321326889464182768467546703537516986049910576551282076245490090389328944075868508455133942304583236903222948165808559332123347764797926204144723168738177180919299881250404026184124858368.0

  function NoPoints(): Tally {
    Tally(0, 0.0, DBL_MAX, -DBL_MAX)
  }

  function Accept(t: Tally, z: real): Tally {
    Tally(t.n + 1, t.sum + z, if t.min > z then z else t.min, if t.max < z then z else t.max)
  }

  function Look(pts: seq<Point>, e: Ellipse, px: real, py: real, t: Tally, i: int): Tally {
    if 0 <= i < |pts| && Inside(e, pts[i], px, py) then Accept(t, pts[i].z) else t
  }

  /** The tally of a walk over the points with the given numbers. */
  function Walk(pts: seq<Point>, e: Ellipse, px: real, py: real, order: seq<int>): Tally {
    if order == [] then NoPoints()
    else Look(pts, e, px, py, Walk(pts, e, px, py, order[..|order| - 1]), order[|order| - 1])
  }

  lemma LooksCommute(pts: seq<Point>, e: Ellipse, px: real, py: real, t: Tally, i: int, j: int)
    ensures Look(pts, e, px, py, Look(pts, e, px, py, t, i), j) == Look(pts, e, px, py, Look(pts, e, px, py, t, j), i)
  {
  }

  /** Any visit could as well have been the last one. */
  lemma {:induction false} VisitMovesToEnd(pts: seq<Point>, e: Ellipse, px: real, py: real, order: seq<int>, k: int)
    requires 0 <= k < |order|
    ensures Walk(pts, e, px, py, order) == Look(pts, e, px, py, Walk(pts, e, px, py, Without(order, k)), order[k])
  {
    var last := |order| - 1;
    if k == last {
      assert Without(order, k) == order[..last];
    } else {
      var front := order[..last];
      VisitMovesToEnd(pts, e, px, py, front, k);
      assert Without(order, k)[..last - 1] == Without(front, k);
      LooksCommute(pts, e, px, py, Walk(pts, e, px, py, Without(front, k)), order[k], order[last]);
    }
  }

  /** The order of the visits does not matter. */
  lemma {:induction false} WalkIgnoresOrder(pts: seq<Point>, e: Ellipse, px: real, py: real, a: seq<int>, b: seq<int>)
    requires multiset(a) == multiset(b)
    ensures Walk(pts, e, px, py, a) == Walk(pts, e, px, py, b)
    decreases |a|
  {
    if a == [] {
      assert |multiset(b)| == 0;
    } else {
      var last := |a| - 1;
      assert a == a[..last] + [a[last]];
      assert a[last] in multiset(b);
      var k :| 0 <= k < |b| && b[k] == a[last];
      assert b == b[..k] + [b[k]] + b[k + 1..];
      assert multiset(Without(b, k)) == multiset(b) - multiset{b[k]};
      WalkIgnoresOrder(pts, e, px, py, a[..last], Without(b, k));
      VisitMovesToEnd(pts, e, px, py, b, k);
    }
  }

  /** The numbers of the points in the search square. */
  ghost function SquareNumbers(pts: seq<Point>, e: Ellipse, px: real, py: real, n: nat): seq<int>
    requires n <= |pts|
  {
    if n == 0 then []
    else SquareNumbers(pts, e, px, py, n - 1) + (if InSquare(e, pts[n - 1], px, py) then [n - 1] else [])
  }

  lemma {:induction false} SquareIsEnough(pts: seq<Point>, e: Ellipse, px: real, py: real, n: nat)
    requires ValidEllipse(e) && e.r1 > 0.0 && e.r2 > 0.0 && n <= |pts|
    ensures Walk(pts, e, px, py, Everything(n)) == Walk(pts, e, px, py, SquareNumbers(pts, e, px, py, n))
  {
    if n > 0 {
      SquareIsEnough(pts, e, px, py, n - 1);
      assert Everything(n)[..n - 1] == Everything(n - 1);
      var found := SquareNumbers(pts, e, px, py, n);
      if InSquare(e, pts[n - 1], px, py) {
        assert found[..|found| - 1] == SquareNumbers(pts, e, px, py, n - 1);
      } else {
        if Inside(e, pts[n - 1], px, py) {
          InsideIsInSquare(e, pts[n - 1], px, py);
        }
        assert found == SquareNumbers(pts, e, px, py, n - 1);
      }
    }
  }

  /** A search that finds exactly the points of the square, in any order. */
  ghost predicate FindsSquare(found: seq<int>, pts: seq<Point>, e: Ellipse, px: real, py: real) {
    multiset(found) == multiset(SquareNumbers(pts, e, px, py, |pts|))
  }

  /** The quadtree branch gathers what the brute-force branch gathers. */
  lemma QuadTreeEqualsBruteForce(pts: seq<Point>, e: Ellipse, px: real, py: real, found: seq<int>)
    requires ValidEllipse(e) && e.r1 > 0.0 && e.r2 > 0.0
    requires FindsSquare(found, pts, e, px, py)
    ensures Walk(pts, e, px, py, found) == Walk(pts, e, px, py, Everything(|pts|))
  {
    SquareIsEnough(pts, e, px, py, |pts|);
    WalkIgnoresOrder(pts, e, px, py, found, SquareNumbers(pts, e, px, py, |pts|));
  }

  // ------------------------------------------------------------ when it fails

  /** On every point set that is large enough for the quadtree, both branches gather the same. */
  ghost predicate BranchesAgree(e: Ellipse, threshold: nat) {
    forall pts: seq<Point>, px: real, py: real, found: seq<int> :: |pts| > threshold && FindsSquare(found, pts, e, px, py) ==>
      Walk(pts, e, px, py, found) == Walk(pts, e, px, py, Everything(|pts|))
  }

  /** A point on the axis of the positive radius, at twice that radius; the other radius is zero. */
  ghost function FarPoint(e: Ellipse): Point {
    if e.r2 == 0.0 then
      (if e.rotated then Point(2.0 * e.r1 * e.c, 2.0 * e.r1 * e.s, 1.0) else Point(2.0 * e.r1, 0.0, 1.0))
    else
      (if e.rotated then Point(-2.0 * e.r2 * e.s, 2.0 * e.r2 * e.c, 1.0) else Point(0.0, 2.0 * e.r2, 1.0))
  }

  lemma FarPointIsAtTwiceTheRadius(e: Ellipse)
    requires ValidEllipse(e) && SearchRadius(e) > 0.0 && (e.r1 == 0.0 || e.r2 == 0.0)
    ensures Sq(FarPoint(e).x) + Sq(FarPoint(e).y) == 4.0 * Sq(SearchRadius(e))
    ensures e.r2 == 0.0 ==> RotatedY(e, FarPoint(e).x, FarPoint(e).y) == 0.0
    ensures e.r2 != 0.0 ==> RotatedX(e, FarPoint(e).x, FarPoint(e).y) == 0.0
  {
    if e.rotated {
      var r, c, s := 2.0 * SearchRadius(e), e.c, e.s;
      assert Sq(r * c) + Sq(r * s) == r * r * (c * c + s * s);
      assert Sq(-r * s) == Sq(r * s);
      assert r * s * c == r * c * s && r * c * s - r * s * c == 0.0;
    }
  }

  lemma FarPointSeparates(e: Ellipse)
    requires ValidEllipse(e) && SearchRadius(e) > 0.0 && (e.r1 == 0.0 || e.r2 == 0.0)
    ensures Inside(e, FarPoint(e), 0.0, 0.0) && !InSquare(e, FarPoint(e), 0.0, 0.0)
  {
    var p, r := FarPoint(e), SearchRadius(e);
    FarPointIsAtTwiceTheRadius(e);
    SqZero(r);
    if InSquare(e, p, 0.0, 0.0) {
      BoundSq(p.x, r);
      BoundSq(p.y, r);
      assert false;
    }
    var rx, ry := RotatedX(e, p.x - 0.0, p.y - 0.0), RotatedY(e, p.x - 0.0, p.y - 0.0);
    if e.r2 == 0.0 {
      assert ry == 0.0;
      assert Sq(ry) == 0.0 && Sq(e.r2) == 0.0;
    } else {
      assert rx == 0.0;
      assert Sq(rx) == 0.0 && Sq(e.r1) == 0.0;
    }
  }

  lemma BoundSq(d: real, r: real)
    requires -r <= d <= r
    ensures Sq(d) <= Sq(r)
  {
    if d >= 0.0 {
      SqOrdered(r, d);
    } else {
      SqOrdered(r, -d);
      SqSign(d);
    }
  }

  /** Copies of a point inside the ellipse are all visited, and none of them is found in the square. */
  lemma {:induction false} CopiesSeparate(e: Ellipse, pts: seq<Point>, n: nat)
    requires n <= |pts| && forall i :: 0 <= i < |pts| ==> pts[i] == FarPoint(e)
    requires Inside(e, FarPoint(e), 0.0, 0.0) && !InSquare(e, FarPoint(e), 0.0, 0.0)
    ensures SquareNumbers(pts, e, 0.0, 0.0, n) == [] && Walk(pts, e, 0.0, 0.0, Everything(n)).n == n
  {
    hide FarPoint;
    hide Inside;
    hide InSquare;
    if n > 0 {
      CopiesSeparate(e, pts, n - 1);
      assert Everything(n)[..n - 1] == Everything(n - 1);
    }
  }

  /**
   With enough points, the quadtree is built as soon as one radius is positive.
   The two branches agree on all such point sets if and only if both radii are
   positive: with one radius zero, the ellipse test accepts a whole line.
   */
  lemma BranchesAgreeIffBothPositive(e: Ellipse, threshold: nat)
    requires ValidEllipse(e) && SearchRadius(e) > 0.0
    ensures BranchesAgree(e, threshold) <==> e.r1 > 0.0 && e.r2 > 0.0
  {
    if e.r1 > 0.0 && e.r2 > 0.0 {
      forall pts: seq<Point>, px: real, py: real, found: seq<int> | |pts| > threshold && FindsSquare(found, pts, e, px, py)
        ensures Walk(pts, e, px, py, found) == Walk(pts, e, px, py, Everything(|pts|))
      {
        QuadTreeEqualsBruteForce(pts, e, px, py, found);
      }
    } else {
      FarPointSeparates(e);
      var pts := seq(threshold + 1, _ => FarPoint(e));
      CopiesSeparate(e, pts, |pts|);
      assert FindsSquare([], pts, e, 0.0, 0.0);
      assert Walk(pts, e, 0.0, 0.0, []).n == 0;
    }
  }

  // ---------------------------------------------------------- the estimators

  lemma {:induction false} SquareNumbersInRange(pts: seq<Point>, e: Ellipse, px: real, py: real, n: nat)
    requires n <= |pts|
    ensures forall i :: i in SquareNumbers(pts, e, px, py, n) ==> 0 <= i < n
  {
    if n > 0 {
      SquareNumbersInRange(pts, e, px, py, n - 1);
    }
  }

  lemma FoundInRange(found: seq<int>, pts: seq<Point>, e: Ellipse, px: real, py: real)
    requires FindsSquare(found, pts, e, px, py)
    ensures forall k :: 0 <= k < |found| ==> 0 <= found[k] < |pts|
  {
    SquareNumbersInRange(pts, e, px, py, |pts|);
    forall k | 0 <= k < |found|
      ensures 0 <= found[k] < |pts|
    {
      assert found[k] in multiset(found);
      assert found[k] in SquareNumbers(pts, e, px, py, |pts|);
    }
  }

  /** The common walk of the estimators: over the search result, or over all points. */
  method Gather(pts: seq<Point>, e: Ellipse, px: real, py: real, hasTree: bool, found: seq<int>) returns (t: Tally)
    requires ValidEllipse(e)
    requires hasTree ==> FindsSquare(found, pts, e, px, py)
    ensures !hasTree || (e.r1 > 0.0 && e.r2 > 0.0) ==> t == Walk(pts, e, px, py, Everything(|pts|))
    ensures hasTree ==> t == Walk(pts, e, px, py, found)
  {
    var n, sum, min, max := 0, 0.0, DBL_MAX, -DBL_MAX;
    if hasTree {
      FoundInRange(found, pts, e, px, py);
      for k := 0 to |found|
        invariant n >= 0 && Tally(n, sum, min, max) == Walk(pts, e, px, py, found[..k])
      {
        assert found[..k + 1][..k] == found[..k];
        var p := pts[found[k]];
        if Inside(e, p, px, py) {
          sum := sum + p.z;
          if min > p.z { min := p.z; }
          if max < p.z { max := p.z; }
          n := n + 1;
        }
      }
      assert found[..|found|] == found;
    } else {
      ghost var order := Everything(|pts|);
      for i := 0 to |pts|
        invariant n >= 0 && Tally(n, sum, min, max) == Walk(pts, e, px, py, order[..i])
      {
        assert order[..i + 1][..i] == order[..i];
        if Inside(e, pts[i], px, py) {
          sum := sum + pts[i].z;
          if min > pts[i].z { min := pts[i].z; }
          if max < pts[i].z { max := pts[i].z; }
          n := n + 1;
        }
      }
      assert order[..|pts|] == order;
    }
    t := Tally(n, sum, min, max);
    if hasTree && e.r1 > 0.0 && e.r2 > 0.0 {
      QuadTreeEqualsBruteForce(pts, e, px, py, found);
    }
  }

  datatype Metric = MovingAverage | Minimum | Maximum | Range | Count

  /** The value of a grid node. */
  function Estimate(m: Metric, t: Tally, nMinPoints: nat, noData: real): real {
    if t.n < nMinPoints || (t.n == 0 && m != Count) then noData
    else match m
      case MovingAverage => if t.n == 0 then noData else t.sum / t.n as real
      case Minimum => t.min
      case Maximum => t.max
      case Range => t.max - t.min
      case Count => t.n as real
  }

  /** The numbers of the points in the ellipse. */
  ghost function InsideNumbers(pts: seq<Point>, e: Ellipse, px: real, py: real, n: nat): set<int>
    requires n <= |pts|
  {
    set i | 0 <= i < n && Inside(e, pts[i], px, py)
  }

  ghost function InsideSum(pts: seq<Point>, e: Ellipse, px: real, py: real, n: nat): real
    requires n <= |pts|
  {
    if n == 0 then 0.0
    else InsideSum(pts, e, px, py, n - 1) + (if Inside(e, pts[n - 1], px, py) then pts[n - 1].z else 0.0)
  }

  ghost function FullWalk(pts: seq<Point>, e: Ellipse, px: real, py: real, n: nat): Tally {
    Walk(pts, e, px, py, Everything(n))
  }

  lemma FullWalkStep(pts: seq<Point>, e: Ellipse, px: real, py: real, n: nat)
    requires 0 < n <= |pts|
    ensures FullWalk(pts, e, px, py, n) == Look(pts, e, px, py, FullWalk(pts, e, px, py, n - 1), n - 1)
    ensures InsideNumbers(pts, e, px, py, n) ==
      InsideNumbers(pts, e, px, py, n - 1) + (if Inside(e, pts[n - 1], px, py) then {n - 1} else {})
  {
    assert Everything(n)[..n - 1] == Everything(n - 1);
  }

  /** The extreme value is attained by a point in the ellipse, unless it is still the starting value. */
  ghost predicate Attained(pts: seq<Point>, inside: set<int>, v: real, start: real)
    requires forall i :: i in inside ==> 0 <= i < |pts|
  {
    v == start || exists i :: i in inside && pts[i].z == v
  }

  lemma AttainedGrows(pts: seq<Point>, inside: set<int>, more: set<int>, v: real, start: real)
    requires forall i :: i in more ==> 0 <= i < |pts|
    requires inside <= more && Attained(pts, inside, v, start)
    ensures Attained(pts, more, v, start)
  {
  }

  /** What the tally over all points means: how many, their sum, the smallest and the largest. */
  lemma {:induction false} WalkMeaning(pts: seq<Point>, e: Ellipse, px: real, py: real, n: nat)
    requires n <= |pts|
    ensures FullWalk(pts, e, px, py, n).n == |InsideNumbers(pts, e, px, py, n)|
    ensures FullWalk(pts, e, px, py, n).sum == InsideSum(pts, e, px, py, n)
    ensures forall i :: i in InsideNumbers(pts, e, px, py, n) ==>
      FullWalk(pts, e, px, py, n).min <= pts[i].z <= FullWalk(pts, e, px, py, n).max
    ensures Attained(pts, InsideNumbers(pts, e, px, py, n), FullWalk(pts, e, px, py, n).min, DBL_MAX)
    ensures Attained(pts, InsideNumbers(pts, e, px, py, n), FullWalk(pts, e, px, py, n).max, -DBL_MAX)
  {
    if n > 0 {
      WalkMeaning(pts, e, px, py, n - 1);
      FullWalkStep(pts, e, px, py, n);
      var was, now := InsideNumbers(pts, e, px, py, n - 1), InsideNumbers(pts, e, px, py, n);
      var t, t' := FullWalk(pts, e, px, py, n - 1), FullWalk(pts, e, px, py, n);
      AttainedGrows(pts, was, now, t.min, DBL_MAX);
      AttainedGrows(pts, was, now, t.max, -DBL_MAX);
      hide Inside;
      hide FullWalk;
      if n - 1 in now {
        assert pts[n - 1].z == t'.min || t'.min == t.min;
        assert pts[n - 1].z == t'.max || t'.max == t.max;
      }
    }
  }

  // -------------------------------------------------------------- the value of a node

  /** Values that a double can hold. */
  ghost predicate Doubles(pts: seq<Point>) {
    forall i :: 0 <= i < |pts| ==> -DBL_MAX <= pts[i].z <= DBL_MAX
  }

  ghost predicate IsMinimum(pts: seq<Point>, inside: set<int>, v: real)
    requires forall i :: i in inside ==> 0 <= i < |pts|
  {
    (forall i :: i in inside ==> v <= pts[i].z) && exists i :: i in inside && pts[i].z == v
  }

  ghost predicate IsMaximum(pts: seq<Point>, inside: set<int>, v: real)
    requires forall i :: i in inside ==> 0 <= i < |pts|
  {
    (forall i :: i in inside ==> pts[i].z <= v) && exists i :: i in inside && pts[i].z == v
  }

  /** What the value of a node means, in terms of the points in the ellipse alone. */
  ghost predicate IsEstimate(m: Metric, pts: seq<Point>, e: Ellipse, px: real, py: real, nMinPoints: nat, noData: real, value: real) {
    var inside := InsideNumbers(pts, e, px, py, |pts|);
    if |inside| < nMinPoints || (inside == {} && m != Count) then value == noData
    else match m
      case MovingAverage => value * |inside| as real == InsideSum(pts, e, px, py, |pts|)
      case Minimum => IsMinimum(pts, inside, value)
      case Maximum => IsMaximum(pts, inside, value)
      case Range => exists low, high :: IsMinimum(pts, inside, low) && IsMaximum(pts, inside, high) && value == high - low
      case Count => value == |inside| as real
  }

  lemma ExtremesAreAttained(pts: seq<Point>, e: Ellipse, px: real, py: real)
    requires Doubles(pts) && InsideNumbers(pts, e, px, py, |pts|) != {}
    ensures IsMinimum(pts, InsideNumbers(pts, e, px, py, |pts|), FullWalk(pts, e, px, py, |pts|).min)
    ensures IsMaximum(pts, InsideNumbers(pts, e, px, py, |pts|), FullWalk(pts, e, px, py, |pts|).max)
  {
    hide Inside;
    hide FullWalk;
    WalkMeaning(pts, e, px, py, |pts|);
    var i :| i in InsideNumbers(pts, e, px, py, |pts|);
  }

  /** One node: through the search tree or through all points, the metric of the points in the ellipse. */
  method EstimateNode(m: Metric, pts: seq<Point>, e: Ellipse, px: real, py: real, hasTree: bool, found: seq<int>,
                      nMinPoints: nat, noData: real) returns (value: real)
    requires ValidEllipse(e) && Doubles(pts)
    requires hasTree ==> FindsSquare(found, pts, e, px, py)
    ensures !hasTree || (e.r1 > 0.0 && e.r2 > 0.0) ==> IsEstimate(m, pts, e, px, py, nMinPoints, noData, value)
  {
    hide Walk;
    hide Inside;
    hide InsideNumbers;
    hide InsideSum;
    hide FindsSquare;
    var t := Gather(pts, e, px, py, hasTree, found);
    value := Estimate(m, t, nMinPoints, noData);
    WalkMeaning(pts, e, px, py, |pts|);
    if InsideNumbers(pts, e, px, py, |pts|) != {} {
      ExtremesAreAttained(pts, e, px, py);
    }
  }
}
