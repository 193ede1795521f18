/**
 Why the normal equations give the best fit: a vector that solves them has the
 smallest sum of squared residuals of all vectors, and when the normal matrix is
 nonsingular it is the only one.
 */
module LeastSquares {
  import opened LinearAlgebra
  import opened RealFacts

  ghost function Residual(t: Matrix, z: Vector, x: Vector, p: int): real {
    RowTimes(t, p, x) - At(z, p)
  }

  /** The sum of the squared residuals of t * x against z. */
  ghost function Error(t: Matrix, z: Vector, x: Vector): real {
    Sum(p => Sq(Residual(t, z, x, p)), |t|)
  }

  ghost function NormalEntry(t: Matrix, i: int, j: int): real {
    Sum(p => Entry(t, p, i) * Entry(t, p, j), |t|)
  }

  ghost function NormalTarget(t: Matrix, z: Vector, i: int): real {
    Sum(p => At(z, p) * Entry(t, p, i), |t|)
  }

  ghost predicate IsNormalMatrix(m: Matrix, t: Matrix, n: nat) {
    Square(m, n) && forall i, j :: 0 <= i < n && 0 <= j < n ==> m[i][j] == NormalEntry(t, i, j)
  }

  ghost predicate IsNormalTarget(a: Vector, t: Matrix, z: Vector, n: nat) {
    |a| == n && forall i :: 0 <= i < n ==> a[i] == NormalTarget(t, z, i)
  }

  /** One term of the normal equations: T[p, j] * x[j] * T[p, i]. */
  ghost function FitTerm(t: Matrix, x: Vector, i: int, p: int, j: int): real {
    Entry(t, p, j) * At(x, j) * Entry(t, p, i)
  }

  ghost function FitTerms(t: Matrix, x: Vector, i: int): (int, int) -> real {
    (p, j) => FitTerm(t, x, i, p, j)
  }

  lemma FitTermsByPoint(t: Matrix, x: Vector, i: int, p: int)
    ensures RowSum(FitTerms(t, x, i), p, |x|) == RowTimes(t, p, x) * Entry(t, p, i)
  {
    hide Entry;
    hide At;
    hide Sum;
    var g, h := j => Entry(t, p, j) * At(x, j), j => FitTerms(t, x, i)(p, j);
    forall j | 0 <= j < |x|
      ensures h(j) == Entry(t, p, i) * g(j)
    {
      assert FitTerms(t, x, i)(p, j) == FitTerm(t, x, i, p, j);
      assert h(j) == FitTerms(t, x, i)(p, j);
    }
    SumScale(g, h, Entry(t, p, i), |x|);
  }

  lemma FitTermsByColumn(t: Matrix, x: Vector, i: int, j: int)
    ensures ColumnSum(FitTerms(t, x, i), j, |t|) == NormalEntry(t, i, j) * At(x, j)
  {
    hide Entry;
    hide At;
    hide Sum;
    var g, h := p => Entry(t, p, i) * Entry(t, p, j), p => FitTerms(t, x, i)(p, j);
    forall p | 0 <= p < |t|
      ensures h(p) == At(x, j) * g(p)
    {
      assert FitTerms(t, x, i)(p, j) == FitTerm(t, x, i, p, j);
      assert h(p) == FitTerms(t, x, i)(p, j);
      Reorder(Entry(t, p, j), At(x, j), Entry(t, p, i));
    }
    SumScale(g, h, At(x, j), |t|);
  }

  lemma Reorder(a: real, b: real, c: real)
    ensures a * b * c == b * (c * a)
  {
  }

  /** The fitted values against column `i`. */
  ghost function FitDot(t: Matrix, x: Vector, i: int): real {
    Sum(p => RowTimes(t, p, x) * Entry(t, p, i), |t|)
  }

  lemma FitDotByPoint(t: Matrix, x: Vector, i: int)
    ensures FitDot(t, x, i) == Sum(p => RowSum(FitTerms(t, x, i), p, |x|), |t|)
  {
    hide Sum;
    hide Entry;
    hide RowSum;
    hide RowTimes;
    forall p {
      FitTermsByPoint(t, x, i, p);
    }
    SumExt(p => RowTimes(t, p, x) * Entry(t, p, i), p => RowSum(FitTerms(t, x, i), p, |x|), |t|);
  }

  lemma FitDotByColumn(t: Matrix, m: Matrix, x: Vector, n: nat, i: int)
    requires IsNormalMatrix(m, t, n) && |x| == n && 0 <= i < n
    ensures RowTimes(m, i, x) == Sum(j => ColumnSum(FitTerms(t, x, i), j, |t|), n)
  {
    forall j {
      FitTermsByColumn(t, x, i, j);
    }
    SumExt(j => Entry(m, i, j) * At(x, j), j => ColumnSum(FitTerms(t, x, i), j, |t|), n);
  }

  ghost function ResidualDot(t: Matrix, z: Vector, x: Vector, i: int): real {
    Sum(p => Residual(t, z, x, p) * Entry(t, p, i), |t|)
  }

  lemma ResidualDotSplits(t: Matrix, z: Vector, x: Vector, i: int)
    ensures ResidualDot(t, z, x, i) == FitDot(t, x, i) - NormalTarget(t, z, i)
  {
    hide Sum;
    hide Entry;
    hide At;
    hide RowTimes;
    var f, g, h := p => RowTimes(t, p, x) * Entry(t, p, i), p => At(z, p) * Entry(t, p, i), p => Residual(t, z, x, p) * Entry(t, p, i);
    forall p | 0 <= p < |t|
      ensures h(p) == f(p) + (-1.0) * g(p)
    {
      SpreadDifference(RowTimes(t, p, x), At(z, p), Entry(t, p, i));
    }
    SumLinear(f, g, h, -1.0, |t|);
  }

  /** The residuals of a solution of the normal equations are orthogonal to every column. */
  lemma ResidualsOrthogonal(t: Matrix, z: Vector, m: Matrix, a: Vector, x: Vector, n: nat, i: int)
    requires IsNormalMatrix(m, t, n) && IsNormalTarget(a, t, z, n)
    requires |x| == n && Solves(m, x, a) && 0 <= i < n
    ensures ResidualDot(t, z, x, i) == 0.0
  {
    FitDotByPoint(t, x, i);
    SumSwap(FitTerms(t, x, i), |t|, n);
    FitDotByColumn(t, m, x, n, i);
    ResidualDotSplits(t, z, x, i);
  }

  // -------------------------------------------------------- comparing two fits

  ghost function CrossTerm(t: Matrix, z: Vector, x: Vector, d: Vector, p: int, j: int): real {
    Residual(t, z, x, p) * Entry(t, p, j) * At(d, j)
  }

  ghost function CrossTerms(t: Matrix, z: Vector, x: Vector, d: Vector): (int, int) -> real {
    (p, j) => CrossTerm(t, z, x, d, p, j)
  }

  lemma CrossByPoint(t: Matrix, z: Vector, x: Vector, d: Vector, p: int)
    ensures RowSum(CrossTerms(t, z, x, d), p, |d|) == Residual(t, z, x, p) * RowTimes(t, p, d)
  {
    hide Residual;
    hide Entry;
    hide At;
    hide Sum;
    var g, h := j => Entry(t, p, j) * At(d, j), j => CrossTerms(t, z, x, d)(p, j);
    forall j | 0 <= j < |d|
      ensures h(j) == Residual(t, z, x, p) * g(j)
    {
      assert CrossTerms(t, z, x, d)(p, j) == CrossTerm(t, z, x, d, p, j);
      assert h(j) == CrossTerms(t, z, x, d)(p, j);
      Associate(Residual(t, z, x, p), Entry(t, p, j), At(d, j));
    }
    SumScale(g, h, Residual(t, z, x, p), |d|);
  }

  lemma Associate(a: real, b: real, c: real)
    ensures a * b * c == a * (b * c)
  {
  }

  lemma CrossByColumn(t: Matrix, z: Vector, x: Vector, d: Vector, j: int)
    requires ResidualDot(t, z, x, j) == 0.0
    ensures ColumnSum(CrossTerms(t, z, x, d), j, |t|) == 0.0
  {
    hide Residual;
    hide Entry;
    hide At;
    hide Sum;
    var g, h := p => Residual(t, z, x, p) * Entry(t, p, j), p => CrossTerms(t, z, x, d)(p, j);
    forall p | 0 <= p < |t|
      ensures h(p) == At(d, j) * g(p)
    {
      assert CrossTerms(t, z, x, d)(p, j) == CrossTerm(t, z, x, d, p, j);
      assert h(p) == CrossTerms(t, z, x, d)(p, j);
    }
    SumScale(g, h, At(d, j), |t|);
  }

  ghost function CrossAt(t: Matrix, z: Vector, x: Vector, d: Vector, p: int): real {
    Residual(t, z, x, p) * RowTimes(t, p, d)
  }

  ghost function Cross(t: Matrix, z: Vector, x: Vector, d: Vector): real {
    Sum(p => CrossAt(t, z, x, d, p), |t|)
  }

  /** The residuals are orthogonal to everything that another coefficient vector could add. */
  lemma CrossVanishes(t: Matrix, z: Vector, x: Vector, d: Vector)
    requires forall j :: 0 <= j < |d| ==> ResidualDot(t, z, x, j) == 0.0
    ensures Cross(t, z, x, d) == 0.0
  {
    var f := CrossTerms(t, z, x, d);
    forall p {
      CrossByPoint(t, z, x, d, p);
    }
    forall j | 0 <= j < |d| {
      CrossByColumn(t, z, x, d, j);
    }
    SumExt(p => CrossAt(t, z, x, d, p), p => RowSum(f, p, |d|), |t|);
    SumSwap(f, |t|, |d|);
    SumZero(j => ColumnSum(f, j, |t|), |d|);
  }

  /** How far the fitted values move along `d`. */
  ghost function Spread(t: Matrix, d: Vector): real {
    Sum(p => Sq(RowTimes(t, p, d)), |t|)
  }

  lemma SquareOfSum(r: real, q: real)
    ensures Sq(r + q) == Sq(r) + (Sq(q) + 2.0 * (r * q))
  {
  }

  ghost function Moved(t: Matrix, z: Vector, x: Vector, d: Vector, p: int): real {
    Sq(RowTimes(t, p, d)) + 2.0 * CrossAt(t, z, x, d, p)
  }

  lemma ErrorTermSplits(t: Matrix, z: Vector, x: Vector, c: Vector, p: int)
    requires |c| == |x|
    ensures Sq(Residual(t, z, c, p)) == Sq(Residual(t, z, x, p)) + Moved(t, z, x, Difference(c, x), p)
  {
    RowTimesDifference(t, p, c, x);
    var r, q := Residual(t, z, x, p), RowTimes(t, p, Difference(c, x));
    assert Residual(t, z, c, p) == r + q;
    SquareOfSum(r, q);
  }

  lemma MovedSum(t: Matrix, z: Vector, x: Vector, d: Vector)
    ensures Sum(p => Moved(t, z, x, d, p), |t|) == Spread(t, d) + 2.0 * Cross(t, z, x, d)
  {
    hide CrossAt;
    hide Sq;
    hide RowTimes;
    SumLinear(p => Sq(RowTimes(t, p, d)), p => CrossAt(t, z, x, d, p), p => Moved(t, z, x, d, p), 2.0, |t|);
  }

  /** error(c) == error(x) + |T * (c - x)|^2 for any x that solves the normal equations. */
  lemma ErrorSplits(t: Matrix, z: Vector, x: Vector, c: Vector)
    requires |c| == |x|
    requires forall j :: 0 <= j < |x| ==> ResidualDot(t, z, x, j) == 0.0
    ensures Error(t, z, c) == Error(t, z, x) + Spread(t, Difference(c, x))
  {
    var d := Difference(c, x);
    CrossVanishes(t, z, x, d);
    MovedSum(t, z, x, d);
    hide Moved;
    hide Sq;
    hide Residual;
    hide CrossAt;
    hide ResidualDot;
    hide Difference;
    hide Cross;
    hide Spread;
    hide RowTimes;
    var ex, mv, ec := p => Sq(Residual(t, z, x, p)), p => Moved(t, z, x, d, p), p => Sq(Residual(t, z, c, p));
    forall p | 0 <= p < |t|
      ensures ec(p) == ex(p) + mv(p)
    {
      ErrorTermSplits(t, z, x, c, p);
    }
    SumAdd(ex, mv, ec, |t|);
  }

  lemma {:induction false} SumOfSquares(f: int -> real, n: nat)
    requires forall p :: 0 <= p < n ==> f(p) >= 0.0
    ensures Sum(f, n) >= 0.0
    ensures Sum(f, n) == 0.0 ==> forall p :: 0 <= p < n ==> f(p) == 0.0
  {
    if n > 0 {
      SumOfSquares(f, n - 1);
    }
  }

  /** No other vector fits better, and none fits as well when the normal matrix is nonsingular. */
  lemma NormalEquationsMinimise(t: Matrix, z: Vector, m: Matrix, a: Vector, x: Vector, n: nat, c: Vector)
    requires IsNormalMatrix(m, t, n) && IsNormalTarget(a, t, z, n)
    requires |x| == |c| == n && Solves(m, x, a)
    ensures Error(t, z, x) <= Error(t, z, c)
    ensures Nonsingular(m, n) && c != x ==> Error(t, z, x) < Error(t, z, c)
  {
    hide Error;
    hide Spread;
    hide Solves;
    hide Nonsingular;
    hide ResidualDot;
    hide IsNormalMatrix;
    hide RowTimes;
    forall j | 0 <= j < n {
      ResidualsOrthogonal(t, z, m, a, x, n, j);
    }
    ErrorSplits(t, z, x, c);
    var d := Difference(c, x);
    SpreadIsSquares(t, d);
    if Spread(t, d) == 0.0 && Nonsingular(m, n) {
      FlatDirectionIsKernel(t, m, d, n);
      KernelOfNonsingular(m, d, n);
      assert forall j :: 0 <= j < n ==> c[j] - x[j] == d[j] == 0.0;
    }
  }

  lemma SpreadIsSquares(t: Matrix, d: Vector)
    ensures Spread(t, d) >= 0.0
    ensures Spread(t, d) == 0.0 ==> forall p :: 0 <= p < |t| ==> RowTimes(t, p, d) == 0.0
  {
    hide RowTimes;
    var sp := p => Sq(RowTimes(t, p, d));
    forall p {
      SqZero(RowTimes(t, p, d));
    }
    hide Sq;
    SumOfSquares(sp, |t|);
    if Spread(t, d) == 0.0 {
      forall p | 0 <= p < |t|
        ensures RowTimes(t, p, d) == 0.0
      {
        assert sp(p) == 0.0;
      }
    }
  }

  lemma KernelOfNonsingular(m: Matrix, d: Vector, n: nat)
    requires Nonsingular(m, n) && |m| == |d| == n && Solves(m, d, Zeros(n))
    ensures d == Zeros(n)
  {
  }

  lemma FlatDirectionIsKernel(t: Matrix, m: Matrix, d: Vector, n: nat)
    requires IsNormalMatrix(m, t, n) && |d| == n
    requires forall p :: 0 <= p < |t| ==> RowTimes(t, p, d) == 0.0
    ensures Solves(m, d, Zeros(n))
  {
    forall i | 0 <= i < n
      ensures RowTimes(m, i, d) == 0.0
    {
      FitDotByPoint(t, d, i);
      SumSwap(FitTerms(t, d, i), |t|, n);
      FitDotByColumn(t, m, d, n, i);
      SumZero(p => RowTimes(t, p, d) * Entry(t, p, i), |t|);
    }
  }

  /** The normal matrix is nonsingular exactly when the data tell all coefficient vectors apart. */
  lemma NormalMatrixRank(t: Matrix, m: Matrix, n: nat)
    requires IsNormalMatrix(m, t, n)
    ensures Nonsingular(m, n) <==> Nonsingular(t, n)
  {
    forall d: Vector | |d| == n
      ensures Solves(m, d, Zeros(n)) <==> Solves(t, d, Zeros(|t|))
    {
      if Solves(t, d, Zeros(|t|)) {
        FlatDirectionIsKernel(t, m, d, n);
      }
      if Solves(m, d, Zeros(n)) {
        KernelIsFlatDirection(t, m, d, n);
      }
    }
  }

  lemma KernelIsFlatDirection(t: Matrix, m: Matrix, d: Vector, n: nat)
    requires IsNormalMatrix(m, t, n) && |d| == n && Solves(m, d, Zeros(n))
    ensures Solves(t, d, Zeros(|t|))
  {
    var z := Zeros(|t|);
    forall i | 0 <= i < n
      ensures NormalTarget(t, z, i) == 0.0
    {
      SumZero(p => At(z, p) * Entry(t, p, i), |t|);
    }
    forall j | 0 <= j < n {
      ResidualsOrthogonal(t, z, m, Zeros(n), d, n, j);
    }
    CrossVanishes(t, z, d, d);
    var sp := p => Sq(RowTimes(t, p, d));
    forall p {
      SqZero(RowTimes(t, p, d));
    }
    SumExt(p => CrossAt(t, z, d, d, p), sp, |t|);
    SumOfSquares(sp, |t|);
    forall p | 0 <= p < |t|
      ensures RowTimes(t, p, d) == 0.0
    {
      assert sp(p) == 0.0;
    }
  }

  /** No other coefficient vector of the same length comes as close to the targets. */
  ghost predicate BestFit(t: Matrix, z: Vector, x: Vector) {
    forall c: Vector :: |c| == |x| && c != x ==> Error(t, z, x) < Error(t, z, c)
  }

  lemma NormalEquationsGiveBestFit(t: Matrix, z: Vector, m: Matrix, a: Vector, x: Vector, n: nat)
    requires IsNormalMatrix(m, t, n) && IsNormalTarget(a, t, z, n)
    requires |x| == n && Solves(m, x, a) && Nonsingular(m, n)
    ensures BestFit(t, z, x)
  {
    forall c: Vector | |c| == n && c != x
      ensures Error(t, z, x) < Error(t, z, c)
    {
      NormalEquationsMinimise(t, z, m, a, x, n, c);
    }
  }

  /** A vector that meets every target is the best fit, if it is the only such vector. */
  lemma ExactFitIsBest(t: Matrix, z: Vector, x: Vector)
    requires |z| == |t| && Solves(t, x, z) && Nonsingular(t, |x|)
    ensures Error(t, z, x) == 0.0 && BestFit(t, z, x)
  {
    forall p | 0 <= p < |t|
      ensures Residual(t, z, x, p) == 0.0
    {
      assert RowTimes(t, p, x) == z[p];
    }
    SumZero(p => Sq(Residual(t, z, x, p)), |t|);
    forall c: Vector | |c| == |x| && c != x
      ensures 0.0 < Error(t, z, c)
    {
      OtherVectorMisses(t, z, x, c);
    }
  }

  lemma OtherVectorMisses(t: Matrix, z: Vector, x: Vector, c: Vector)
    requires |z| == |t| && Solves(t, x, z) && Nonsingular(t, |x|)
    requires |c| == |x| && c != x
    ensures 0.0 < Error(t, z, c)
  {
    var er := p => Sq(Residual(t, z, c, p));
    forall p {
      SqZero(Residual(t, z, c, p));
    }
    SumOfSquares(er, |t|);
    if Error(t, z, c) == 0.0 {
      forall p | 0 <= p < |t|
        ensures RowTimes(t, p, c) == z[p]
      {
        assert er(p) == 0.0;
      }
      SolutionIsUnique(t, x, c, z);
      assert false;
    }
  }

  /** One more data row adds its own products. */
  lemma NormalGrows(t: Matrix, z: Vector, row: Vector, w: real, i: int, j: int)
    requires |z| == |t|
    ensures NormalEntry(t + [row], i, j) == NormalEntry(t, i, j) + At(row, i) * At(row, j)
    ensures NormalTarget(t + [row], z + [w], i) == NormalTarget(t, z, i) + w * At(row, i)
  {
    var t', z' := t + [row], z + [w];
    SumExt(p => Entry(t, p, i) * Entry(t, p, j), p => Entry(t', p, i) * Entry(t', p, j), |t|);
    SumExt(p => At(z, p) * Entry(t, p, i), p => At(z', p) * Entry(t', p, i), |t|);
  }

  lemma NormalSymmetric(t: Matrix, i: int, j: int)
    ensures NormalEntry(t, i, j) == NormalEntry(t, j, i)
  {
    SumExt(p => Entry(t, p, i) * Entry(t, p, j), p => Entry(t, p, j) * Entry(t, p, i), |t|);
  }
}
