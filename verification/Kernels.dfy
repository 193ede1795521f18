/**
 The two cubic kernels: what their four weights at a location between two pixels
 add up to, and what they make of the four values along one axis.
 */
module Kernels {
  import opened RealFacts

  const SIXTH := 0.16666666666666666667

  function CubicKernel(x: real): real {
    var a := Abs(x);
    if a <= 1.0 then x * x * (1.5 * a - 2.5) + 1.0
    else if a <= 2.0 then x * x * (-0.5 * a + 2.5) - 4.0 * a + 2.0
    else 0.0
  }

  function CubeAbove(x: real): real {
    if x <= 0.0 then 0.0 else x * x * x
  }

  function CubicSplineKernel(x: real): real {
    if x > 2.0 then 0.0
    else Sixth(Differences(CubeAbove(x + 2.0), CubeAbove(x + 1.0), CubeAbove(x), CubeAbove(x - 1.0)))
  }

  function Sixth(x: real): real {
    SIXTH * x
  }

  function Differences(a: real, b: real, c: real, d: real): real {
    a - 4.0 * b + 6.0 * c - 4.0 * d
  }

  /** The weight of the k-th of four pixels for a location `t` beyond pixel number 1. */
  function Weight(spline: bool, t: real, k: int): real {
    var x := (k - 1) as real - t;
    if spline then CubicSplineKernel(x) else CubicKernel(x)
  }

  /** What the four weights add up to. The spline's constant is not quite one sixth. */
  function Scale(spline: bool): real {
    if spline then 6.0 * SIXTH else 1.0
  }

  /** The two pieces of the cubic kernel, by the distance from its centre. */
  lemma CubicPieces(x: real, a: real)
    requires a == Abs(x)
    ensures a <= 1.0 ==> CubicKernel(x) == 1.5 * (a * a * a) - 2.5 * (a * a) + 1.0
    ensures 1.0 <= a <= 2.0 ==> CubicKernel(x) == -0.5 * (a * a * a) + 2.5 * (a * a) - 4.0 * a + 2.0
  {
    assert x * x == a * a;
    assert a * a * (1.5 * a - 2.5) == 1.5 * (a * a * a) - 2.5 * (a * a);
    assert a * a * (-0.5 * a + 2.5) == -0.5 * (a * a * a) + 2.5 * (a * a);
  }

  lemma CubeOfDifference(c: real, t: real)
    ensures (c - t) * (c - t) == c * c - 2.0 * c * t + t * t
    ensures (c - t) * (c - t) * (c - t) == c * c * c - 3.0 * (c * c) * t + 3.0 * c * (t * t) - t * t * t
  {
    var d, t2 := c - t, t * t;
    assert d * d == c * c - 2.0 * (c * t) + t2;
    assert d * d * d == (c * c) * d - 2.0 * ((c * t) * d) + t2 * d;
    assert (c * c) * d == c * c * c - (c * c) * t;
    assert (c * t) * d == (c * c) * t - c * t2;
    assert t2 * d == c * t2 - t2 * t;
  }

  /** The weights of the cubic kernel are cubic polynomials of the location. */
  lemma CubicWeights(t: real)
    requires 0.0 <= t <= 1.0
    ensures Weight(false, t, 0) == -0.5 * t + t * t - 0.5 * (t * t * t)
    ensures Weight(false, t, 1) == 1.0 - 2.5 * (t * t) + 1.5 * (t * t * t)
    ensures Weight(false, t, 2) == 0.5 * t + 2.0 * (t * t) - 1.5 * (t * t * t)
    ensures Weight(false, t, 3) == -0.5 * (t * t) + 0.5 * (t * t * t)
  {
    hide CubicKernel;
    CubicPieces(-1.0 - t, 1.0 + t);
    CubicPieces(0.0 - t, t);
    CubicPieces(1.0 - t, 1.0 - t);
    CubicPieces(2.0 - t, 2.0 - t);
    CubeOfDifference(1.0, t);
    CubeOfDifference(2.0, t);
    CubeOfDifference(1.0, -t);
    assert 1.0 + t == 1.0 - (-t);
    assert (-t) * (-t) == t * t && (-t) * (-t) * (-t) == -(t * t * t);
  }

  lemma CubicMoments(t: real)
    requires 0.0 <= t <= 1.0
    ensures Weight(false, t, 0) + Weight(false, t, 1) + Weight(false, t, 2) + Weight(false, t, 3) == 1.0
    ensures -Weight(false, t, 0) + Weight(false, t, 2) + 2.0 * Weight(false, t, 3) == t
    ensures Weight(false, t, 0) + Weight(false, t, 2) + 4.0 * Weight(false, t, 3) == t * t
  {
    hide Weight;
    CubicWeights(t);
  }

  lemma CubeExpands(c: real, t: real, t2: real, t3: real)
    requires t <= c && t2 == t * t && t3 == t2 * t
    ensures CubeAbove(c - t) == c * c * c - 3.0 * (c * c) * t + 3.0 * c * t2 - t3
  {
    CubeOfDifference(c, t);
  }

  /** The spline's weights, from the four cubes they are made of. */
  lemma SplineWeights(t: real, c1: real, c2: real, c3: real, c4: real)
    requires 0.0 <= t <= 1.0
    requires CubeAbove(1.0 - t) == c1 && CubeAbove(2.0 - t) == c2 && CubeAbove(3.0 - t) == c3 && CubeAbove(4.0 - t) == c4
    ensures Weight(true, t, 0) == Sixth(Differences(c1, 0.0, 0.0, 0.0))
    ensures Weight(true, t, 1) == Sixth(Differences(c2, c1, 0.0, 0.0))
    ensures Weight(true, t, 2) == Sixth(Differences(c3, c2, c1, 0.0))
    ensures Weight(true, t, 3) == Sixth(Differences(c4, c3, c2, c1))
  {
    hide CubeAbove;
    hide Differences;
    hide Sixth;
    NoCube(0.0 - t);
    NoCube(-1.0 - t);
    NoCube(-2.0 - t);
  }

  lemma NoCube(x: real)
    requires x <= 0.0
    ensures CubeAbove(x) == 0.0
  {
  }

  lemma SplineMoments(t: real)
    requires 0.0 <= t <= 1.0
    ensures Weight(true, t, 0) + Weight(true, t, 1) + Weight(true, t, 2) + Weight(true, t, 3) == Scale(true)
    ensures -Weight(true, t, 0) + Weight(true, t, 2) + 2.0 * Weight(true, t, 3) == Scale(true) * t
    ensures Weight(true, t, 0) + Weight(true, t, 2) + 4.0 * Weight(true, t, 3) == Scale(true) * (t * t + 1.0 / 3.0)
    ensures -Weight(true, t, 0) + Weight(true, t, 2) + 8.0 * Weight(true, t, 3) == Scale(true) * (t * t * t + t)
  {
    hide CubeAbove;
    hide Weight;
    var t2 := t * t;
    var t3 := t2 * t;
    CubeExpands(1.0, t, t2, t3);
    CubeExpands(2.0, t, t2, t3);
    CubeExpands(3.0, t, t2, t3);
    CubeExpands(4.0, t, t2, t3);
    var c1, c2, c3, c4 := CubeAbove(1.0 - t), CubeAbove(2.0 - t), CubeAbove(3.0 - t), CubeAbove(4.0 - t);
    SplineWeights(t, c1, c2, c3, c4);
    Distribute(SIXTH, Differences(c1, 0.0, 0.0, 0.0), Differences(c2, c1, 0.0, 0.0), Differences(c3, c2, c1, 0.0),
               Differences(c4, c3, c2, c1), t, t2 + 1.0 / 3.0, t3 + t);
    ScaleIs();
  }

  lemma ScaleIs()
    ensures Scale(true) == SIXTH * 6.0 && Scale(true) > 0.0 && Scale(false) == 1.0
  {
  }

  lemma Distribute(s: real, a: real, b: real, c: real, d: real, m1: real, m2: real, m3: real)
    requires a + b + c + d == 6.0 && -a + c + 2.0 * d == 6.0 * m1 && a + c + 4.0 * d == 6.0 * m2 && -a + c + 8.0 * d == 6.0 * m3
    ensures s * a + s * b + s * c + s * d == s * 6.0
    ensures -(s * a) + s * c + 2.0 * (s * d) == (s * 6.0) * m1
    ensures s * a + s * c + 4.0 * (s * d) == (s * 6.0) * m2
    ensures -(s * a) + s * c + 8.0 * (s * d) == (s * 6.0) * m3
  {
    assert s * a + s * b + s * c + s * d == s * (a + b + c + d);
    assert -(s * a) + s * c + 2.0 * (s * d) == s * (-a + c + 2.0 * d);
    assert s * a + s * c + 4.0 * (s * d) == s * (a + c + 4.0 * d);
    assert -(s * a) + s * c + 8.0 * (s * d) == s * (-a + c + 8.0 * d);
  }

  /** What the squared distances of the four pixels from the location come to on average. */
  function Spread(spline: bool): real {
    if spline then 1.0 / 3.0 else 0.0
  }

  /** Both kernels: the weights add up to the scale, their centre is the location, and so is their spread around it. */
  lemma Moments(spline: bool, t: real)
    requires 0.0 <= t <= 1.0
    ensures Weight(spline, t, 0) + Weight(spline, t, 1) + Weight(spline, t, 2) + Weight(spline, t, 3) == Scale(spline)
    ensures -Weight(spline, t, 0) + Weight(spline, t, 2) + 2.0 * Weight(spline, t, 3) == Scale(spline) * t
    ensures Weight(spline, t, 0) + Weight(spline, t, 2) + 4.0 * Weight(spline, t, 3) == Scale(spline) * (t * t + Spread(spline))
  {
    hide Weight;
    hide Scale;
    ScaleIs();
    if spline {
      SplineMoments(t);
    } else {
      CubicMoments(t);
    }
  }

  /** The second moment around the location. */
  lemma SpreadAroundLocation(spline: bool, t: real)
    requires 0.0 <= t <= 1.0
    ensures Weight(spline, t, 0) * Sq(-1.0 - t) + Weight(spline, t, 1) * Sq(0.0 - t) +
      Weight(spline, t, 2) * Sq(1.0 - t) + Weight(spline, t, 3) * Sq(2.0 - t) == Scale(spline) * Spread(spline)
  {
    hide Weight;
    hide Scale;
    hide Spread;
    Moments(spline, t);
    var w0, w1, w2, w3 := Weight(spline, t, 0), Weight(spline, t, 1), Weight(spline, t, 2), Weight(spline, t, 3);
    SecondMoment(w0, w1, w2, w3, Scale(spline), t, Spread(spline));
  }

  lemma SecondMoment(w0: real, w1: real, w2: real, w3: real, s: real, t: real, spread: real)
    requires w0 + w1 + w2 + w3 == s && -w0 + w2 + 2.0 * w3 == s * t && w0 + w2 + 4.0 * w3 == s * (t * t + spread)
    ensures w0 * Sq(-1.0 - t) + w1 * Sq(0.0 - t) + w2 * Sq(1.0 - t) + w3 * Sq(2.0 - t) == s * spread
  {
    var t2 := t * t;
    assert w0 * Sq(-1.0 - t) == w0 + 2.0 * (w0 * t) + w0 * t2;
    assert w1 * Sq(0.0 - t) == w1 * t2;
    assert w2 * Sq(1.0 - t) == w2 - 2.0 * (w2 * t) + w2 * t2;
    assert w3 * Sq(2.0 - t) == 4.0 * w3 - 4.0 * (w3 * t) + w3 * t2;
    assert w0 * t2 + w1 * t2 + w2 * t2 + w3 * t2 == s * t2;
    assert -(w0 * t) + w2 * t + 2.0 * (w3 * t) == (s * t) * t;
    assert (s * t) * t == s * t2;
    assert s * (t2 + spread) == s * t2 + s * spread;
  }

  // ------------------------------------------------------------ along one axis

  /** The weighted mean of four values. */
  function Across(spline: bool, t: real, a0: real, a1: real, a2: real, a3: real): real {
    ScaleIs();
    Weighted(spline, t, a0, a1, a2, a3) / Scale(spline)
  }

  function Weighted(spline: bool, t: real, a0: real, a1: real, a2: real, a3: real): real {
    Times(Weight(spline, t, 0), a0) + Times(Weight(spline, t, 1), a1) +
    Times(Weight(spline, t, 2), a2) + Times(Weight(spline, t, 3), a3)
  }

  /** The polynomial of degree 3 with the values p and q and the slopes dp and dq at 0 and 1. */
  function Hermite(p: real, q: real, dp: real, dq: real, t: real): real {
    p + dp * t + (3.0 * (q - p) - 2.0 * dp - dq) * (t * t) + (dp + dq - 2.0 * (q - p)) * (t * t * t)
  }

  /** Its slope. */
  function HermiteSlope(p: real, q: real, dp: real, dq: real, t: real): real {
    dp + 2.0 * (3.0 * (q - p) - 2.0 * dp - dq) * t + 3.0 * (dp + dq - 2.0 * (q - p)) * (t * t)
  }

  lemma HermiteEnds(p: real, q: real, dp: real, dq: real)
    ensures Hermite(p, q, dp, dq, 0.0) == p && Hermite(p, q, dp, dq, 1.0) == q
    ensures HermiteSlope(p, q, dp, dq, 0.0) == dp && HermiteSlope(p, q, dp, dq, 1.0) == dq
  {
  }

  /**
   Between two pixels, cubic convolution is the polynomial of degree 3 that meets
   both and has at each the slope of the straight line through its two neighbours.
   */
  lemma CubicIsHermite(t: real, a0: real, a1: real, a2: real, a3: real)
    requires 0.0 <= t <= 1.0
    ensures Across(false, t, a0, a1, a2, a3) == Hermite(a1, a2, (a2 - a0) / 2.0, (a3 - a1) / 2.0, t)
  {
    hide Weight;
    CubicWeights(t);
    var t2, t3 := t * t, t * t * t;
    assert Weight(false, t, 0) * a0 == -0.5 * (t * a0) + t2 * a0 - 0.5 * (t3 * a0);
    assert Weight(false, t, 1) * a1 == a1 - 2.5 * (t2 * a1) + 1.5 * (t3 * a1);
    assert Weight(false, t, 2) * a2 == 0.5 * (t * a2) + 2.0 * (t2 * a2) - 1.5 * (t3 * a2);
    assert Weight(false, t, 3) * a3 == -0.5 * (t2 * a3) + 0.5 * (t3 * a3);
  }

  lemma Collect(s: real, p: real, q: real, r: real, t: real, spread: real)
    requires s != 0.0
    ensures (s * p + (s * t) * q + (s * (t * t + spread)) * r) / s == p + q * t + r * (t * t) + spread * r
  {
    var total := p + q * t + r * (t * t) + spread * r;
    assert (s * t) * q == s * (q * t);
    assert (s * (t * t + spread)) * r == s * (r * (t * t)) + s * (spread * r);
    assert s * p + (s * t) * q + (s * (t * t + spread)) * r == total * s;
    CancelScale(total, s);
  }

  lemma CancelScale(x: real, s: real)
    requires s != 0.0
    ensures (x * s) / s == x
  {
  }

  /** A quadratic. */
  function Quad(p: real, q: real, r: real, t: real): real {
    p + q * t + r * (t * t)
  }

  lemma QuadAtPixels(p: real, q: real, r: real)
    ensures Quad(p, q, r, -1.0) == p - q + r && Quad(p, q, r, 0.0) == p
    ensures Quad(p, q, r, 1.0) == p + q + r && Quad(p, q, r, 2.0) == p + 2.0 * q + 4.0 * r
  {
  }

  /** A quadratic, moved by the spread of a kernel times its curvature. */
  function Curved(spline: bool, p: real, q: real, r: real, t: real): real {
    Quad(p, q, r, t) + Spread(spline) * r
  }

  lemma WeighQuadratic(w0: real, w1: real, w2: real, w3: real, s: real, m1: real, m2: real, p: real, q: real, r: real)
    requires w0 + w1 + w2 + w3 == s && -w0 + w2 + 2.0 * w3 == m1 && w0 + w2 + 4.0 * w3 == m2
    ensures Times(w0, p - q + r) + Times(w1, p) + Times(w2, p + q + r) + Times(w3, p + 2.0 * q + 4.0 * r) ==
      s * p + m1 * q + m2 * r
  {
    assert w0 * (p - q + r) == w0 * p - w0 * q + w0 * r;
    assert w2 * (p + q + r) == w2 * p + w2 * q + w2 * r;
    assert w3 * (p + 2.0 * q + 4.0 * r) == w3 * p + 2.0 * (w3 * q) + 4.0 * (w3 * r);
    assert w0 * p + w1 * p + w2 * p + w3 * p == s * p;
    assert -(w0 * q) + w2 * q + 2.0 * (w3 * q) == m1 * q;
    assert w0 * r + w2 * r + 4.0 * (w3 * r) == m2 * r;
  }

  /** Values of a quadratic give its value at the location, moved by the spread times its curvature. */
  lemma QuadraticAcross(spline: bool, t: real, p: real, q: real, r: real)
    requires 0.0 <= t <= 1.0
    ensures Across(spline, t, Quad(p, q, r, -1.0), Quad(p, q, r, 0.0), Quad(p, q, r, 1.0), Quad(p, q, r, 2.0)) == Curved(spline, p, q, r, t)
  {
    QuadAtPixels(p, q, r);
    hide Weight;
    hide Scale;
    hide Spread;
    hide Times;
    ScaleIs();
    Moments(spline, t);
    var s := Scale(spline);
    WeighQuadratic(Weight(spline, t, 0), Weight(spline, t, 1), Weight(spline, t, 2), Weight(spline, t, 3),
                   s, s * t, s * (t * t + Spread(spline)), p, q, r);
    Collect(s, p, q, r, t, Spread(spline));
  }
}
