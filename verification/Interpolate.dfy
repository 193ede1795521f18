/**
 The value of a raster at a location between its pixel centres: nearest pixel,
 bilinear, or one of two cubic kernels over a 4 x 4 window.
 */
module Interpolate {
  import opened WindowCache
  import opened Kernels
  import opened LinearAlgebra
  import opened RealFacts
  import opened Basics

  datatype Resampling = Nearest | Bilinear | Cubic | CubicSpline

  // ----------------------------------------------------------- filtering a window

  /** The share of cell (r, c) of a window: pixels without data do not count. */
  function Share(v: (int, int) -> real, isNoData: real -> bool, spline: bool, tx: real, ty: real, r: int, c: int): real {
    if isNoData(v(r, c)) then 0.0 else Times(Weight(spline, tx, c), Weight(spline, ty, r))
  }

  ghost function RowShares(v: (int, int) -> real, isNoData: real -> bool, spline: bool, tx: real, ty: real, r: int, n: nat): real {
    Sum(c => Share(v, isNoData, spline, tx, ty, r, c), n)
  }

  ghost function RowValues(v: (int, int) -> real, isNoData: real -> bool, spline: bool, tx: real, ty: real, r: int, n: nat): real {
    Sum(c => Times(v(r, c), Share(v, isNoData, spline, tx, ty, r, c)), n)
  }

  ghost function Shares(v: (int, int) -> real, isNoData: real -> bool, spline: bool, tx: real, ty: real, n: nat): real {
    Sum(r => RowShares(v, isNoData, spline, tx, ty, r, 4), n)
  }

  ghost function Values(v: (int, int) -> real, isNoData: real -> bool, spline: bool, tx: real, ty: real, n: nat): real {
    Sum(r => RowValues(v, isNoData, spline, tx, ty, r, 4), n)
  }

  /** The weighted mean of the window's pixels that hold data, if their weights do not cancel out. */
  ghost function Filtered(v: (int, int) -> real, isNoData: real -> bool, spline: bool, tx: real, ty: real): Option<real> {
    var weight := Shares(v, isNoData, spline, tx, ty, 4);
    if weight == 0.0 then None else Some(Values(v, isNoData, spline, tx, ty, 4) / weight)
  }

  /** `a` holds the window `v`. */
  ghost predicate Holds(a: array2<real>, n: int, v: (int, int) -> real)
    reads a
  {
    Window(a, n) && forall r, c :: 0 <= r < n && 0 <= c < n ==> a[r, c] == v(r, c)
  }

  lemma RowStep(v: (int, int) -> real, isNoData: real -> bool, spline: bool, tx: real, ty: real, r: int, n: nat)
    ensures RowShares(v, isNoData, spline, tx, ty, r, 0) == RowValues(v, isNoData, spline, tx, ty, r, 0) == 0.0
    ensures RowShares(v, isNoData, spline, tx, ty, r, n + 1) ==
      RowShares(v, isNoData, spline, tx, ty, r, n) + Share(v, isNoData, spline, tx, ty, r, n)
    ensures RowValues(v, isNoData, spline, tx, ty, r, n + 1) ==
      RowValues(v, isNoData, spline, tx, ty, r, n) + Times(v(r, n), Share(v, isNoData, spline, tx, ty, r, n))
  {
    hide Share;
  }

  /** One row of the kernel's double loop. */
  method AddRow(a: array2<real>, ghost v: (int, int) -> real, isNoData: real -> bool, spline: bool, tx: real, ty: real,
                i: int, sumH0: real, sumWeight0: real) returns (sumH: real, sumWeight: real)
    requires Holds(a, 4, v) && 0 <= i < 4
    ensures sumH == sumH0 + RowValues(v, isNoData, spline, tx, ty, i, 4)
    ensures sumWeight == sumWeight0 + RowShares(v, isNoData, spline, tx, ty, i, 4)
  {
    sumH, sumWeight := sumH0, sumWeight0;
    hide Weight;
    hide RowValues;
    hide RowShares;
    RowStep(v, isNoData, spline, tx, ty, i, 0);
    for j := 0 to 4
      invariant sumH == sumH0 + RowValues(v, isNoData, spline, tx, ty, i, j)
      invariant sumWeight == sumWeight0 + RowShares(v, isNoData, spline, tx, ty, i, j)
    {
      RowStep(v, isNoData, spline, tx, ty, i, j);
      var weight := Weight(spline, tx, j) * Weight(spline, ty, i);
      var elev := a[i, j];
      if !isNoData(elev) {
        sumH := sumH + elev * weight;
        sumWeight := sumWeight + weight;
      }
    }
  }

  method Apply4x4Kernel(a: array2<real>, ghost v: (int, int) -> real, isNoData: real -> bool, spline: bool, tx: real, ty: real)
    returns (res: Option<real>)
    requires Holds(a, 4, v)
    ensures res == Filtered(v, isNoData, spline, tx, ty)
  {
    hide RowValues;
    hide RowShares;
    var sumH, sumWeight := 0.0, 0.0;
    for i := 0 to 4
      invariant sumH == Values(v, isNoData, spline, tx, ty, i) && sumWeight == Shares(v, isNoData, spline, tx, ty, i)
    {
      sumH, sumWeight := AddRow(a, v, isNoData, spline, tx, ty, i, sumH, sumWeight);
    }
    res := if sumWeight == 0.0 then None else Some(sumH / sumWeight);
  }

  // ------------------------------------------------- what the kernels are good for

  lemma SmallMultiples(x: real)
    ensures Times(x, -1.0) == -x && Times(x, 0.0) == 0.0 && Times(x, 1.0) == x && Times(x, 2.0) == 2.0 * x
  {
  }

  lemma SumFour(f: int -> real)
    ensures Sum(f, 4) == f(0) + f(1) + f(2) + f(3)
  {
    assert Sum(f, 4) == Sum(f, 3) + f(3);
    assert Sum(f, 3) == Sum(f, 2) + f(2);
    assert Sum(f, 2) == Sum(f, 1) + f(1);
    assert Sum(f, 1) == Sum(f, 0) + f(0);
  }

  ghost predicate AllData(v: (int, int) -> real, isNoData: real -> bool) {
    forall r, c :: 0 <= r < 4 && 0 <= c < 4 ==> !isNoData(v(r, c))
  }

  /** Row r of a window, along X. */
  ghost function RowAcross(v: (int, int) -> real, spline: bool, tx: real, r: int): real {
    Across(spline, tx, v(r, 0), v(r, 1), v(r, 2), v(r, 3))
  }

  lemma FactorOut(w0: real, w1: real, w2: real, w3: real, g: real, a0: real, a1: real, a2: real, a3: real)
    ensures Times(w0, g) + Times(w1, g) + Times(w2, g) + Times(w3, g) == Times(w0 + w1 + w2 + w3, g)
    ensures Times(a0, Times(w0, g)) + Times(a1, Times(w1, g)) + Times(a2, Times(w2, g)) + Times(a3, Times(w3, g))
      == Times(Times(w0, a0) + Times(w1, a1) + Times(w2, a2) + Times(w3, a3), g)
  {
    assert a0 * (w0 * g) == (w0 * a0) * g && a1 * (w1 * g) == (w1 * a1) * g;
    assert a2 * (w2 * g) == (w2 * a2) * g && a3 * (w3 * g) == (w3 * a3) * g;
  }

  lemma ScaledAcross(spline: bool, t: real, a0: real, a1: real, a2: real, a3: real)
    ensures Weighted(spline, t, a0, a1, a2, a3) == Times(Scale(spline), Across(spline, t, a0, a1, a2, a3))
  {
    hide Weighted;
    hide Scale;
    ScaleIs();
    Divide(Weighted(spline, t, a0, a1, a2, a3), Scale(spline));
  }

  lemma RowIsAcross(v: (int, int) -> real, isNoData: real -> bool, spline: bool, tx: real, ty: real, r: int)
    requires AllData(v, isNoData) && 0 <= r < 4 && 0.0 <= tx <= 1.0
    ensures RowShares(v, isNoData, spline, tx, ty, r, 4) == Times(Scale(spline), Weight(spline, ty, r))
    ensures RowValues(v, isNoData, spline, tx, ty, r, 4) ==
      Times(Times(Scale(spline), RowAcross(v, spline, tx, r)), Weight(spline, ty, r))
  {
    hide Weight;
    hide Scale;
    hide Times;
    hide Across;
    Moments(spline, tx);
    FactorOut(Weight(spline, tx, 0), Weight(spline, tx, 1), Weight(spline, tx, 2), Weight(spline, tx, 3), Weight(spline, ty, r),
              v(r, 0), v(r, 1), v(r, 2), v(r, 3));
    ScaledAcross(spline, tx, v(r, 0), v(r, 1), v(r, 2), v(r, 3));
    SumFour(c => Share(v, isNoData, spline, tx, ty, r, c));
    SumFour(c => Times(v(r, c), Share(v, isNoData, spline, tx, ty, r, c)));
  }

  lemma Regroup(s: real, w0: real, w1: real, w2: real, w3: real, a0: real, a1: real, a2: real, a3: real)
    ensures Times(s, w0) + Times(s, w1) + Times(s, w2) + Times(s, w3) == Times(s, w0 + w1 + w2 + w3)
    ensures Times(Times(s, a0), w0) + Times(Times(s, a1), w1) + Times(Times(s, a2), w2) + Times(Times(s, a3), w3)
      == Times(s, Times(w0, a0) + Times(w1, a1) + Times(w2, a2) + Times(w3, a3))
  {
    assert (s * a0) * w0 == s * (w0 * a0) && (s * a1) * w1 == s * (w1 * a1);
    assert (s * a2) * w2 == s * (w2 * a2) && (s * a3) * w3 == s * (w3 * a3);
  }

  lemma CancelScales(s: real, x: real)
    requires s > 0.0
    ensures Times(s, s) > 0.0 && Times(s, Times(s, x)) / Times(s, s) == x
  {
    assert s * (s * x) == x * (s * s);
    SqZero(s);
    CancelScale(x, s * s);
  }

  /** Where no pixel is missing, a kernel works along X on the four rows and then along Y on what these give. */
  lemma FilteredIsAcross(v: (int, int) -> real, isNoData: real -> bool, spline: bool, tx: real, ty: real)
    requires AllData(v, isNoData) && 0.0 <= tx <= 1.0 && 0.0 <= ty <= 1.0
    ensures Filtered(v, isNoData, spline, tx, ty) ==
      Some(Across(spline, ty, RowAcross(v, spline, tx, 0), RowAcross(v, spline, tx, 1), RowAcross(v, spline, tx, 2), RowAcross(v, spline, tx, 3)))
  {
    hide Times;
    hide Weight;
    hide Scale;
    hide Across;
    hide RowAcross;
    hide RowShares;
    hide RowValues;
    Moments(spline, ty);
    ScaleIs();
    var s := Scale(spline);
    var a0, a1, a2, a3 := RowAcross(v, spline, tx, 0), RowAcross(v, spline, tx, 1), RowAcross(v, spline, tx, 2), RowAcross(v, spline, tx, 3);
    RowIsAcross(v, isNoData, spline, tx, ty, 0);
    RowIsAcross(v, isNoData, spline, tx, ty, 1);
    RowIsAcross(v, isNoData, spline, tx, ty, 2);
    RowIsAcross(v, isNoData, spline, tx, ty, 3);
    Regroup(s, Weight(spline, ty, 0), Weight(spline, ty, 1), Weight(spline, ty, 2), Weight(spline, ty, 3), a0, a1, a2, a3);
    ScaledAcross(spline, ty, a0, a1, a2, a3);
    SumFour(r => RowShares(v, isNoData, spline, tx, ty, r, 4));
    SumFour(r => RowValues(v, isNoData, spline, tx, ty, r, 4));
    assert Shares(v, isNoData, spline, tx, ty, 4) == Times(s, s);
    assert Values(v, isNoData, spline, tx, ty, 4) == Times(s, Times(s, Across(spline, ty, a0, a1, a2, a3)));
    CancelScales(s, Across(spline, ty, a0, a1, a2, a3));
  }

  /** A quadratic surface. */
  datatype Surface = Surface(at: real, x: real, y: real, xx: real, xy: real, yy: real)

  function SurfaceAt(q: Surface, x: real, y: real): real {
    q.at + q.x * x + q.y * y + q.xx * (x * x) + q.xy * (x * y) + q.yy * (y * y)
  }

  /** The window samples the surface, whose origin is at cell (1, 1). */
  ghost predicate IsSurface(v: (int, int) -> real, q: Surface) {
    forall r, c :: 0 <= r < 4 && 0 <= c < 4 ==> v(r, c) == SurfaceAt(q, (c - 1) as real, (r - 1) as real)
  }

  /** What a kernel adds to a quadratic surface: its spread times the curvature along each axis. */
  function Lift(spline: bool, q: Surface): real {
    Spread(spline) * q.xx + Spread(spline) * q.yy
  }

  /** Along a row, the surface is a quadratic with this value and slope at its middle ... */
  function RowLevel(q: Surface, y: real): real {
    q.at + q.y * y + q.yy * (y * y)
  }

  function RowSlope(q: Surface, y: real): real {
    q.x + q.xy * y
  }

  /** ... and what a kernel makes of the rows is one again, with these. */
  function LevelAcross(q: Surface, spline: bool, tx: real): real {
    q.at + q.x * tx + q.xx * (tx * tx) + Spread(spline) * q.xx
  }

  function SlopeAcross(q: Surface, tx: real): real {
    q.y + q.xy * tx
  }

  lemma RowIsQuad(q: Surface, x: real, y: real)
    ensures SurfaceAt(q, x, y) == Quad(RowLevel(q, y), RowSlope(q, y), q.xx, x)
  {
    assert q.xy * (x * y) == (q.xy * y) * x;
    assert (q.x + q.xy * y) * x == q.x * x + (q.xy * y) * x;
  }

  lemma RowsMakeColumn(q: Surface, spline: bool, tx: real, y: real)
    ensures Curved(spline, RowLevel(q, y), RowSlope(q, y), q.xx, tx) == Quad(LevelAcross(q, spline, tx), SlopeAcross(q, tx), q.yy, y)
  {
    hide Spread;
    assert (q.x + q.xy * y) * tx == q.x * tx + (q.xy * y) * tx;
    assert (q.y + q.xy * tx) * y == q.y * y + (q.xy * tx) * y;
    assert (q.xy * y) * tx == (q.xy * tx) * y;
  }

  lemma ColumnMakesSurface(q: Surface, spline: bool, tx: real, ty: real)
    ensures Curved(spline, LevelAcross(q, spline, tx), SlopeAcross(q, tx), q.yy, ty) == SurfaceAt(q, tx, ty) + Lift(spline, q)
  {
    hide Spread;
    assert (q.y + q.xy * tx) * ty == q.y * ty + (q.xy * tx) * ty;
    assert (q.xy * tx) * ty == q.xy * (tx * ty);
  }

  lemma RowOfSurface(v: (int, int) -> real, q: Surface, spline: bool, tx: real, r: int, y: real)
    requires IsSurface(v, q) && 0 <= r < 4 && y == (r - 1) as real && 0.0 <= tx <= 1.0
    ensures RowAcross(v, spline, tx, r) == Quad(LevelAcross(q, spline, tx), SlopeAcross(q, tx), q.yy, y)
  {
    hide Across;
    hide SurfaceAt;
    hide Quad;
    hide Curved;
    hide RowLevel;
    hide RowSlope;
    hide LevelAcross;
    hide SlopeAcross;
    RowIsQuad(q, -1.0, y);
    RowIsQuad(q, 0.0, y);
    RowIsQuad(q, 1.0, y);
    RowIsQuad(q, 2.0, y);
    assert v(r, 0) == SurfaceAt(q, -1.0, y) && v(r, 1) == SurfaceAt(q, 0.0, y);
    assert v(r, 2) == SurfaceAt(q, 1.0, y) && v(r, 3) == SurfaceAt(q, 2.0, y);
    QuadraticAcross(spline, tx, RowLevel(q, y), RowSlope(q, y), q.xx);
    RowsMakeColumn(q, spline, tx, y);
  }

  /** Cubic convolution gives back a quadratic surface exactly; the spline lifts it by a third of its curvatures. */
  lemma FilteredSurface(v: (int, int) -> real, isNoData: real -> bool, spline: bool, tx: real, ty: real, q: Surface)
    requires AllData(v, isNoData) && IsSurface(v, q) && 0.0 <= tx <= 1.0 && 0.0 <= ty <= 1.0
    ensures Filtered(v, isNoData, spline, tx, ty) == Some(SurfaceAt(q, tx, ty) + Lift(spline, q))
  {
    hide Filtered;
    hide Across;
    hide RowAcross;
    hide IsSurface;
    hide SurfaceAt;
    hide Lift;
    hide Quad;
    hide Curved;
    hide LevelAcross;
    hide SlopeAcross;
    FilteredIsAcross(v, isNoData, spline, tx, ty);
    RowOfSurface(v, q, spline, tx, 0, -1.0);
    RowOfSurface(v, q, spline, tx, 1, 0.0);
    RowOfSurface(v, q, spline, tx, 2, 1.0);
    RowOfSurface(v, q, spline, tx, 3, 2.0);
    QuadraticAcross(spline, ty, LevelAcross(q, spline, tx), SlopeAcross(q, tx), q.yy);
    ColumnMakesSurface(q, spline, tx, ty);
  }

  // -------------------------------------------------------------------- bilinear

  predicate AnyNoData(v: (int, int) -> real, isNoData: real -> bool) {
    isNoData(v(0, 0)) || isNoData(v(0, 1)) || isNoData(v(1, 0)) || isNoData(v(1, 1))
  }

  /** The point `t` of the way from `from` to `to`. */
  function Between(from: real, to: real, t: real): real {
    from + Times(to - from, t)
  }

  /** Straight lines along X on both rows, and then a straight line along Y; any pixel without data spoils it. */
  ghost function BilinearValue(v: (int, int) -> real, isNoData: real -> bool, tx: real, ty: real): Option<real> {
    if AnyNoData(v, isNoData) then None
    else Some(Between(Between(v(0, 0), v(0, 1), tx), Between(v(1, 0), v(1, 1), tx), ty))
  }

  lemma Blend(from: real, to: real, t: real)
    ensures from * (1.0 - t) + to * t == Between(from, to, t)
  {
  }

  method ApplyBilinearKernel(a: array2<real>, ghost v: (int, int) -> real, isNoData: real -> bool, tx: real, ty: real)
    returns (res: Option<real>)
    requires Holds(a, 2, v)
    ensures res == BilinearValue(v, isNoData, tx, ty)
  {
    hide Times;
    hide Between;
    var found := false;
    for k := 0 to 4
      invariant found <==> exists i :: 0 <= i < k && isNoData(a[i / 2, i % 2])
    {
      if isNoData(a[k / 2, k % 2]) {
        found := true;
      }
    }
    if found {
      ghost var i :| 0 <= i < 4 && isNoData(a[i / 2, i % 2]);
      assert i == 0 || i == 1 || i == 2 || i == 3;
      return None;
    }
    assert !isNoData(a[0 / 2, 0 % 2]) && !isNoData(a[1 / 2, 1 % 2]) && !isNoData(a[2 / 2, 2 % 2]) && !isNoData(a[3 / 2, 3 % 2]);
    var tx1, ty1 := 1.0 - tx, 1.0 - ty;
    var xz1 := a[0, 0] * tx1 + a[0, 1] * tx;
    var xz2 := a[1, 0] * tx1 + a[1, 1] * tx;
    res := Some(xz1 * ty1 + xz2 * ty);
    assert xz1 == Between(v(0, 0), v(0, 1), tx) by {
      Blend(a[0, 0], a[0, 1], tx);
    }
    assert xz2 == Between(v(1, 0), v(1, 1), tx) by {
      Blend(a[1, 0], a[1, 1], tx);
    }
    Blend(xz1, xz2, ty);
    assert xz1 * ty1 + xz2 * ty == Between(xz1, xz2, ty);
    assert !AnyNoData(v, isNoData);
  }

  /** On a plane, bilinear interpolation is exact as well. */
  lemma BilinearPlane(v: (int, int) -> real, isNoData: real -> bool, tx: real, ty: real, at: real, slopeX: real, slopeY: real)
    requires !AnyNoData(v, isNoData)
    requires v(0, 0) == at && v(0, 1) == at + slopeX && v(1, 0) == at + slopeY && v(1, 1) == at + slopeX + slopeY
    ensures BilinearValue(v, isNoData, tx, ty) == Some(at + Times(slopeX, tx) + Times(slopeY, ty))
  {
  }

  lemma BetweenStays(from: real, to: real, t: real, low: real, high: real)
    requires 0.0 <= t <= 1.0 && low <= from <= high && low <= to <= high
    ensures low <= Between(from, to, t) <= high
  {
    hide Times;
    if from <= to {
      Fraction(to - from, t);
    } else {
      Fraction(from - to, t);
    }
  }

  lemma Fraction(d: real, t: real)
    requires 0.0 <= d && 0.0 <= t <= 1.0
    ensures 0.0 <= Times(d, t) <= d && Times(-d, t) == -Times(d, t)
  {
    assert d * (1.0 - t) >= 0.0;
  }

  /** Bilinear interpolation never leaves the range of the four pixels. */
  lemma BilinearStaysInRange(v: (int, int) -> real, isNoData: real -> bool, tx: real, ty: real, low: real, high: real)
    requires 0.0 <= tx <= 1.0 && 0.0 <= ty <= 1.0 && !AnyNoData(v, isNoData)
    requires low <= v(0, 0) <= high && low <= v(0, 1) <= high && low <= v(1, 0) <= high && low <= v(1, 1) <= high
    ensures low <= BilinearValue(v, isNoData, tx, ty).value <= high
  {
    hide Between;
    BetweenStays(v(0, 0), v(0, 1), tx, low, high);
    BetweenStays(v(1, 0), v(1, 1), tx, low, high);
    BetweenStays(Between(v(0, 0), v(0, 1), tx), Between(v(1, 0), v(1, 1), tx), ty, low, high);
  }

  // ------------------------------------------------------------ the value at a location

  /** Nearest-neighbour reading brings locations on the right or bottom edge in. */
  function BroughtIn(alg: Resampling, x: real, size: int): real {
    if alg == Nearest && size as real <= x <= size as real + 0.00001 then x - 0.25 else x
  }

  /** Small rasters get a simpler method. */
  function Downgraded(alg: Resampling, width: int, height: int): Resampling {
    var smaller := if (width < 4 || height < 4) && alg in {Cubic, CubicSpline} then Bilinear else alg;
    if (width < 2 || height < 2) && smaller == Bilinear then Nearest else smaller
  }

  ghost function ClampedWindow(b: Band, dX: int, dY: int): (int, int) -> real
    requires ValidBand(b)
  {
    (r, c) => b.pixels[Clamp(dY + r, b.height)][Clamp(dX + c, b.width)]
  }

  predicate Inside(b: Band, x: real, y: real) {
    0.0 <= x <= b.width as real && 0.0 <= y <= b.height as real
  }

  /** The value at a location, as a function of the raster alone: no blocks, no cache, no moving of windows. */
  ghost function ValueAt(b: Band, alg: Resampling, xIn: real, yIn: real, isNoData: real -> bool): Option<real>
    requires ValidBand(b)
  {
    var x, y := BroughtIn(alg, xIn, b.width), BroughtIn(alg, yIn, b.height);
    if !Inside(b, x, y) then None
    else
      var dX, dY := (x - 0.5).Floor, (y - 0.5).Floor;
      var tx, ty := x - 0.5 - dX as real, y - 0.5 - dY as real;
      match Downgraded(alg, b.width, b.height)
      case Cubic => Filtered(ClampedWindow(b, dX - 1, dY - 1), isNoData, false, tx, ty)
      case CubicSpline => Filtered(ClampedWindow(b, dX - 1, dY - 1), isNoData, true, tx, ty)
      case Bilinear => BilinearValue(ClampedWindow(b, dX, dY), isNoData, tx, ty)
      case Nearest =>
        var pixel := PixelRead(b, x.Floor, y.Floor);
        if pixel.Some? && isNoData(pixel.value) then None else pixel
  }

  /** The location is on the raster, and the band refuses a block of the window that it needs. */
  ghost predicate ReadRefused(b: Band, alg: Resampling, xIn: real, yIn: real, readable: (int, int) -> bool) {
    var x, y := BroughtIn(alg, xIn, b.width), BroughtIn(alg, yIn, b.height);
    var dX, dY := (x - 0.5).Floor, (y - 0.5).Floor;
    && Inside(b, x, y)
    && match Downgraded(alg, b.width, b.height)
       case Cubic => WindowRefused(b, dX - 1, dY - 1, 4, readable)
       case CubicSpline => WindowRefused(b, dX - 1, dY - 1, 4, readable)
       case Bilinear => WindowRefused(b, dX, dY, 2, readable)
       case Nearest => !readable(x.Floor / BLOCK_SIZE, y.Floor / BLOCK_SIZE)
  }

  method InterpolateCubic(b: Band, cache: BlockCache, spline: bool, x: real, y: real, isNoData: real -> bool,
                          readable: (int, int) -> bool, evict: (int, int) -> set<int>) returns (res: Option<real>)
    requires ValidBand(b) && cache.Faithful(b) && 4 <= b.width && 4 <= b.height
    modifies cache
    ensures cache.Faithful(b)
    ensures var dX, dY := (x - 0.5).Floor, (y - 0.5).Floor;
      || res == Filtered(ClampedWindow(b, dX - 1, dY - 1), isNoData, spline, x - 0.5 - dX as real, y - 0.5 - dY as real)
      || (res == None && WindowRefused(b, dX - 1, dY - 1, 4, readable))
  {
    hide Filtered;
    var dX, dY := (x - 0.5).Floor, (y - 0.5).Floor;
    var window := new real[4, 4];
    var ok := ReadKernelWindow(b, cache, dX - 1, dY - 1, 4, window, readable, evict);
    if !ok {
      return None;
    }
    res := Apply4x4Kernel(window, ClampedWindow(b, dX - 1, dY - 1), isNoData, spline, x - 0.5 - dX as real, y - 0.5 - dY as real);
  }

  method InterpolateBilinear(b: Band, cache: BlockCache, x: real, y: real, isNoData: real -> bool,
                             readable: (int, int) -> bool, evict: (int, int) -> set<int>) returns (res: Option<real>)
    requires ValidBand(b) && cache.Faithful(b) && 2 <= b.width && 2 <= b.height
    modifies cache
    ensures cache.Faithful(b)
    ensures var dX, dY := (x - 0.5).Floor, (y - 0.5).Floor;
      || res == BilinearValue(ClampedWindow(b, dX, dY), isNoData, x - 0.5 - dX as real, y - 0.5 - dY as real)
      || (res == None && WindowRefused(b, dX, dY, 2, readable))
  {
    hide BilinearValue;
    var dX, dY := (x - 0.5).Floor, (y - 0.5).Floor;
    var window := new real[2, 2];
    var ok := ReadKernelWindow(b, cache, dX, dY, 2, window, readable, evict);
    if !ok {
      return None;
    }
    res := ApplyBilinearKernel(window, ClampedWindow(b, dX, dY), isNoData, x - 0.5 - dX as real, y - 0.5 - dY as real);
  }

  /**
   Interpolation through the cache gives the value that the raster alone
   determines, whatever the cache held before; it fails besides only when the band
   refuses a block that the location needs.
   */
  method InterpolateAtPoint(b: Band, cache: BlockCache, alg: Resampling, xIn: real, yIn: real, isNoData: real -> bool,
                            readable: (int, int) -> bool, evict: (int, int) -> set<int>) returns (res: Option<real>)
    requires ValidBand(b) && cache.Faithful(b)
    modifies cache
    ensures cache.Faithful(b)
    ensures res == ValueAt(b, alg, xIn, yIn, isNoData) || (res == None && ReadRefused(b, alg, xIn, yIn, readable))
  {
    hide Filtered;
    hide BilinearValue;
    hide ClampedWindow;
    hide ValidBand;
    var x, y := BroughtIn(alg, xIn, b.width), BroughtIn(alg, yIn, b.height);
    if !Inside(b, x, y) {
      return None;
    }
    var used := Downgraded(alg, b.width, b.height);
    if used == CubicSpline || used == Cubic {
      res := InterpolateCubic(b, cache, used == CubicSpline, x, y, isNoData, readable, evict);
    } else if used == Bilinear {
      res := InterpolateBilinear(b, cache, x, y, isNoData, readable, evict);
    } else {
      var pixel := ExtractPixel(b, cache, x.Floor, y.Floor, readable, evict);
      res := if pixel.Some? && isNoData(pixel.value) then None else pixel;
    }
  }

  /** The pixels that a method looks at, from `before` columns (rows) before the location's to `after` behind it. */
  predicate KernelFits(used: Resampling, size: int, x: real) {
    var before := if used == Bilinear then 0 else 1;
    var after := if used == Bilinear then 1 else 2;
    before <= (x - 0.5).Floor && (x - 0.5).Floor + after < size
  }

  // ------------------------------------------------ planes and surfaces, end to end

  lemma TimesAdd(p: real, x: real, y: real)
    ensures Times(p, x + y) == Times(p, x) + Times(p, y)
  {
  }

  /** The raster samples a plane at its pixel centres, and no pixel is without data. */
  ghost predicate SamplesPlane(b: Band, isNoData: real -> bool, at: real, slopeX: real, slopeY: real) {
    ValidBand(b) && forall y, x :: 0 <= y < b.height && 0 <= x < b.width ==> b.pixels[y][x] == PlanePixel(at, slopeX, slopeY, x as real, y as real) && !isNoData(b.pixels[y][x])
  }

  function PlanePixel(at: real, slopeX: real, slopeY: real, x: real, y: real): real {
    at + Times(slopeX, x) + Times(slopeY, y)
  }

  /** Moving the origin of a plane. */
  lemma PlaneMoved(at: real, slopeX: real, slopeY: real, x: real, y: real, dx: real, dy: real)
    ensures PlanePixel(at, slopeX, slopeY, x + dx, y + dy) ==
      PlanePixel(at, slopeX, slopeY, x, y) + Times(slopeX, dx) + Times(slopeY, dy)
  {
    hide Times;
    TimesAdd(slopeX, x, dx);
    TimesAdd(slopeY, y, dy);
  }

  lemma WindowCell(b: Band, dX: int, dY: int, r: int, c: int)
    requires ValidBand(b) && 0 <= dY + r < b.height && 0 <= dX + c < b.width
    ensures ClampedWindow(b, dX, dY)(r, c) == b.pixels[dY + r][dX + c]
  {
    assert Clamp(dY + r, b.height) == dY + r && Clamp(dX + c, b.width) == dX + c;
  }

  lemma SmallWindowOfPlane(b: Band, isNoData: real -> bool, at: real, slopeX: real, slopeY: real, dX: int, dY: int, tx: real, ty: real)
    requires SamplesPlane(b, isNoData, at, slopeX, slopeY)
    requires 0 <= dX && dX + 1 < b.width && 0 <= dY && dY + 1 < b.height
    ensures BilinearValue(ClampedWindow(b, dX, dY), isNoData, tx, ty) ==
      Some(PlanePixel(at, slopeX, slopeY, dX as real, dY as real) + Times(slopeX, tx) + Times(slopeY, ty))
  {
    hide Times;
    hide BilinearValue;
    SmallMultiples(slopeX);
    SmallMultiples(slopeY);
    PlaneMoved(at, slopeX, slopeY, dX as real, dY as real, 1.0, 0.0);
    PlaneMoved(at, slopeX, slopeY, dX as real, dY as real, 0.0, 1.0);
    PlaneMoved(at, slopeX, slopeY, dX as real, dY as real, 1.0, 1.0);
    assert (dX + 1) as real == dX as real + 1.0 && (dY + 1) as real == dY as real + 1.0;
    var v := ClampedWindow(b, dX, dY);
    WindowCell(b, dX, dY, 0, 0);
    WindowCell(b, dX, dY, 0, 1);
    WindowCell(b, dX, dY, 1, 0);
    WindowCell(b, dX, dY, 1, 1);
    BilinearPlane(v, isNoData, tx, ty, PlanePixel(at, slopeX, slopeY, dX as real, dY as real), slopeX, slopeY);
  }

  /** The raster samples a surface at its pixel centres, and no pixel is without data. */
  ghost predicate SamplesSurface(b: Band, isNoData: real -> bool, q: Surface) {
    ValidBand(b) && forall y, x :: 0 <= y < b.height && 0 <= x < b.width ==>
      b.pixels[y][x] == SurfaceAt(q, x as real, y as real) && !isNoData(b.pixels[y][x])
  }

  /** The surface seen from another origin. */
  function MovedTo(q: Surface, x: real, y: real): Surface {
    Surface(SurfaceAt(q, x, y), q.x + 2.0 * q.xx * x + q.xy * y, q.y + 2.0 * q.yy * y + q.xy * x, q.xx, q.xy, q.yy)
  }

  lemma SurfaceMoved(q: Surface, x: real, y: real, dx: real, dy: real)
    ensures SurfaceAt(q, x + dx, y + dy) == SurfaceAt(MovedTo(q, x, y), dx, dy)
  {
    assert q.xx * ((x + dx) * (x + dx)) == q.xx * (x * x) + 2.0 * q.xx * x * dx + q.xx * (dx * dx);
    assert q.yy * ((y + dy) * (y + dy)) == q.yy * (y * y) + 2.0 * q.yy * y * dy + q.yy * (dy * dy);
    assert q.xy * ((x + dx) * (y + dy)) == q.xy * (x * y) + q.xy * y * dx + q.xy * x * dy + q.xy * (dx * dy);
    assert (q.x + 2.0 * q.xx * x + q.xy * y) * dx == q.x * dx + 2.0 * q.xx * x * dx + q.xy * y * dx;
    assert (q.y + 2.0 * q.yy * y + q.xy * x) * dy == q.y * dy + 2.0 * q.yy * y * dy + q.xy * x * dy;
  }

  lemma WindowOfSurface(b: Band, isNoData: real -> bool, q: Surface, dX: int, dY: int)
    requires SamplesSurface(b, isNoData, q)
    requires 1 <= dX && dX + 2 < b.width && 1 <= dY && dY + 2 < b.height
    ensures IsSurface(ClampedWindow(b, dX - 1, dY - 1), MovedTo(q, dX as real, dY as real))
    ensures AllData(ClampedWindow(b, dX - 1, dY - 1), isNoData)
  {
    hide SurfaceAt;
    hide MovedTo;
    var v := ClampedWindow(b, dX - 1, dY - 1);
    forall r, c | 0 <= r < 4 && 0 <= c < 4
      ensures v(r, c) == SurfaceAt(MovedTo(q, dX as real, dY as real), (c - 1) as real, (r - 1) as real) && !isNoData(v(r, c))
    {
      SurfaceMoved(q, dX as real, dY as real, (c - 1) as real, (r - 1) as real);
      assert (dX - 1 + c) as real == dX as real + (c - 1) as real;
      assert (dY - 1 + r) as real == dY as real + (r - 1) as real;
      WindowCell(b, dX - 1, dY - 1, r, c);
    }
  }

  /**
   On a raster that samples a quadratic surface, cubic convolution returns the
   surface's value at every location whose kernel lies in the raster; the cubic
   spline returns it lifted by a third of the curvatures.
   */
  lemma SurfacesAreReproduced(b: Band, alg: Resampling, x: real, y: real, isNoData: real -> bool, q: Surface)
    requires SamplesSurface(b, isNoData, q)
    requires Downgraded(alg, b.width, b.height) in {Cubic, CubicSpline}
    requires KernelFits(Downgraded(alg, b.width, b.height), b.width, x) && KernelFits(Downgraded(alg, b.width, b.height), b.height, y)
    ensures ValueAt(b, alg, x, y, isNoData) == Some(SurfaceAt(q, x - 0.5, y - 0.5) + Lift(alg == CubicSpline, q))
  {
    hide Filtered;
    hide SurfaceAt;
    hide IsSurface;
    var dX, dY := (x - 0.5).Floor, (y - 0.5).Floor;
    var tx, ty := x - 0.5 - dX as real, y - 0.5 - dY as real;
    WindowOfSurface(b, isNoData, q, dX, dY);
    var moved := MovedTo(q, dX as real, dY as real);
    FilteredSurface(ClampedWindow(b, dX - 1, dY - 1), isNoData, alg == CubicSpline, tx, ty, moved);
    SurfaceMoved(q, dX as real, dY as real, tx, ty);
    assert x - 0.5 == dX as real + tx && y - 0.5 == dY as real + ty;
    assert Lift(alg == CubicSpline, moved) == Lift(alg == CubicSpline, q);
    assert Downgraded(alg, b.width, b.height) == alg;
  }

  lemma PlaneIsSurface(b: Band, isNoData: real -> bool, at: real, slopeX: real, slopeY: real)
    requires SamplesPlane(b, isNoData, at, slopeX, slopeY)
    ensures SamplesSurface(b, isNoData, Surface(at, slopeX, slopeY, 0.0, 0.0, 0.0))
  {
    hide SurfaceAt;
    hide PlanePixel;
    forall y, x | 0 <= y < b.height && 0 <= x < b.width
      ensures b.pixels[y][x] == SurfaceAt(Surface(at, slopeX, slopeY, 0.0, 0.0, 0.0), x as real, y as real)
    {
      FlatSurface(at, slopeX, slopeY, x as real, y as real, false);
    }
  }

  lemma FlatSurface(at: real, slopeX: real, slopeY: real, x: real, y: real, spline: bool)
    ensures SurfaceAt(Surface(at, slopeX, slopeY, 0.0, 0.0, 0.0), x, y) == PlanePixel(at, slopeX, slopeY, x, y)
    ensures Lift(spline, Surface(at, slopeX, slopeY, 0.0, 0.0, 0.0)) == 0.0
  {
  }

  /**
   On a raster that samples a plane, bilinear and both cubic methods return the
   plane's value at every location whose kernel lies in the raster.
   */
  lemma PlanesAreReproduced(b: Band, alg: Resampling, x: real, y: real, isNoData: real -> bool, at: real, slopeX: real, slopeY: real)
    requires SamplesPlane(b, isNoData, at, slopeX, slopeY)
    requires Downgraded(alg, b.width, b.height) != Nearest
    requires KernelFits(Downgraded(alg, b.width, b.height), b.width, x) && KernelFits(Downgraded(alg, b.width, b.height), b.height, y)
    ensures ValueAt(b, alg, x, y, isNoData) == Some(PlanePixel(at, slopeX, slopeY, x - 0.5, y - 0.5))
  {
    var dX, dY := (x - 0.5).Floor, (y - 0.5).Floor;
    var tx, ty := x - 0.5 - dX as real, y - 0.5 - dY as real;
    hide Filtered;
    hide BilinearValue;
    hide Times;
    var used := Downgraded(alg, b.width, b.height);
    if used == Bilinear {
      SmallWindowOfPlane(b, isNoData, at, slopeX, slopeY, dX, dY, tx, ty);
      PlaneMoved(at, slopeX, slopeY, dX as real, dY as real, tx, ty);
    } else {
      var q := Surface(at, slopeX, slopeY, 0.0, 0.0, 0.0);
      PlaneIsSurface(b, isNoData, at, slopeX, slopeY);
      SurfacesAreReproduced(b, alg, x, y, isNoData, q);
      FlatSurface(at, slopeX, slopeY, x - 0.5, y - 0.5, used == CubicSpline);
    }
  }

  // -------------------------------------------------------------- at a pixel centre

  /** The weights of cubic convolution at a pixel: one for the pixel, nothing for the others. */
  lemma CubicAtPixel(k: int)
    requires 0 <= k < 4
    ensures Weight(false, 0.0, k) == if k == 1 then 1.0 else 0.0
  {
    hide Weight;
    CubicWeights(0.0);
  }

  lemma ShareAtPixel(v: (int, int) -> real, isNoData: real -> bool, r: int, c: int)
    requires 0 <= r < 4 && 0 <= c < 4
    ensures Share(v, isNoData, false, 0.0, 0.0, r, c) == if r == 1 && c == 1 && !isNoData(v(1, 1)) then 1.0 else 0.0
  {
    hide Weight;
    CubicAtPixel(r);
    CubicAtPixel(c);
  }

  lemma RowAtPixel(v: (int, int) -> real, isNoData: real -> bool, r: int)
    requires 0 <= r < 4
    ensures RowShares(v, isNoData, false, 0.0, 0.0, r, 4) == if r == 1 && !isNoData(v(1, 1)) then 1.0 else 0.0
    ensures RowValues(v, isNoData, false, 0.0, 0.0, r, 4) == if r == 1 && !isNoData(v(1, 1)) then v(1, 1) else 0.0
  {
    hide Share;
    hide Times;
    SumFour(c => Share(v, isNoData, false, 0.0, 0.0, r, c));
    SumFour(c => Times(v(r, c), Share(v, isNoData, false, 0.0, 0.0, r, c)));
    ShareAtPixel(v, isNoData, r, 0);
    ShareAtPixel(v, isNoData, r, 1);
    ShareAtPixel(v, isNoData, r, 2);
    ShareAtPixel(v, isNoData, r, 3);
    SmallMultiples(v(r, 0));
    SmallMultiples(v(r, 1));
    SmallMultiples(v(r, 2));
    SmallMultiples(v(r, 3));
  }

  lemma FilteredAtPixel(v: (int, int) -> real, isNoData: real -> bool)
    ensures Filtered(v, isNoData, false, 0.0, 0.0) == if isNoData(v(1, 1)) then None else Some(v(1, 1))
  {
    hide RowShares;
    hide RowValues;
    SumFour(r => RowShares(v, isNoData, false, 0.0, 0.0, r, 4));
    SumFour(r => RowValues(v, isNoData, false, 0.0, 0.0, r, 4));
    RowAtPixel(v, isNoData, 0);
    RowAtPixel(v, isNoData, 1);
    RowAtPixel(v, isNoData, 2);
    RowAtPixel(v, isNoData, 3);
  }

  /** At the centre of any pixel, cubic convolution returns that pixel, or nothing if it is without data. */
  lemma CubicReturnsPixels(b: Band, isNoData: real -> bool, cx: int, cy: int)
    requires ValidBand(b) && b.width >= 4 && b.height >= 4 && 0 <= cx < b.width && 0 <= cy < b.height
    ensures ValueAt(b, Cubic, cx as real + 0.5, cy as real + 0.5, isNoData) ==
      if isNoData(b.pixels[cy][cx]) then None else Some(b.pixels[cy][cx])
  {
    hide Filtered;
    var v := ClampedWindow(b, cx - 1, cy - 1);
    WindowCell(b, cx - 1, cy - 1, 1, 1);
    FilteredAtPixel(v, isNoData);
    assert (cx as real + 0.5 - 0.5).Floor == cx && (cy as real + 0.5 - 0.5).Floor == cy;
  }

  // --------------------------------------------------------------- the raster's edge

  /**
   Reading the nearest pixel stays in the raster exactly when that method was asked
   for, or the location is not on the right or bottom edge: a method downgraded to
   it does not get its edge locations brought in.
   */
  lemma NearestPixelIsInside(b: Band, alg: Resampling, xIn: real, yIn: real)
    requires ValidBand(b) && Downgraded(alg, b.width, b.height) == Nearest
    requires Inside(b, BroughtIn(alg, xIn, b.width), BroughtIn(alg, yIn, b.height))
    ensures (BroughtIn(alg, xIn, b.width).Floor < b.width && BroughtIn(alg, yIn, b.height).Floor < b.height) <==>
      alg == Nearest || (xIn != b.width as real && yIn != b.height as real)
  {
  }

  /** On the right edge of a column of two pixels, the downgraded method returns the lower pixel for the upper one. */
  lemma EdgeReadsNextRow()
    ensures var b := Band([[1.0], [2.0]], 1, 2);
      && ValidBand(b)
      && ValueAt(b, Bilinear, 1.0, 0.5, _ => false) == Some(2.0)
      && ValueAt(b, Nearest, 1.0, 0.5, _ => false) == Some(1.0)
  {
  }
}
