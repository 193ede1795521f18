/**
 What the order of a control point polynomial means: its terms are the products
 of powers whose exponents add up to at most the order, each of them once, and
 points on a triangular grid of that order determine it.
 */
module TermBasis {
  import opened RealFacts
  import opened LinearAlgebra
  import opened CrsSolver
  import opened CrsFit
  import opened GcpRefine
  import opened GcpElevation

  function Pow(x: real, k: nat): real {
    if k == 0 then 1.0 else x * Pow(x, k - 1)
  }

  /** Term number k is the product of power i of the easting and power j of the northing. */
  ghost predicate IsProduct(k: int, i: nat, j: nat) {
    forall e, n :: Term(k, e, n) == Pow(e, i) * Pow(n, j)
  }

  /** The exponents of term number k. */
  function Exponents(k: int): (nat, nat) {
    if k == 2 then (1, 0)
    else if k == 3 then (0, 1)
    else if k == 4 then (2, 0)
    else if k == 5 then (1, 1)
    else if k == 6 then (0, 2)
    else if k == 7 then (3, 0)
    else if k == 8 then (2, 1)
    else if k == 9 then (1, 2)
    else if k == 10 then (0, 3)
    else (0, 0)
  }

  lemma SmallPowers(x: real)
    ensures Pow(x, 0) == 1.0 && Pow(x, 1) == x && Pow(x, 2) == x * x && Pow(x, 3) == x * x * x
  {
    assert Pow(x, 1) == x * Pow(x, 0);
    assert Pow(x, 2) == x * Pow(x, 1);
    assert Pow(x, 3) == x * Pow(x, 2);
  }

  lemma TermIsProduct(k: int)
    requires 1 <= k <= 10
    ensures IsProduct(k, Exponents(k).0, Exponents(k).1)
  {
    forall e, n
      ensures Term(k, e, n) == Pow(e, Exponents(k).0) * Pow(n, Exponents(k).1)
    {
      SmallPowers(e);
      SmallPowers(n);
    }
  }

  /** At (2, 3) all terms differ. */
  lemma TermsDiffer(k: int, l: int)
    requires 1 <= k <= 10 && 1 <= l <= 10 && Term(k, 2.0, 3.0) == Term(l, 2.0, 3.0)
    ensures k == l
  {
  }

  lemma ProductAt(k: int, i: nat, j: nat, e: real, n: real)
    requires IsProduct(k, i, j)
    ensures Term(k, e, n) == Times(Pow(e, i), Pow(n, j))
  {
    hide Pow;
    hide Term;
  }

  /** Every product of powers with exponents that add up to at most the order is exactly one term of that order. */
  lemma ProductIsOneTerm(order: int, i: nat, j: nat) returns (k: int)
    requires 1 <= order <= MAXORDER && i + j <= order
    ensures 1 <= k <= TermCount(order) && IsProduct(k, i, j)
    ensures forall l :: 1 <= l <= TermCount(order) && IsProduct(l, i, j) ==> l == k
  {
    hide IsProduct;
    hide Pow;
    hide Term;
    hide Times;
    TermCounts();
    k := if i + j == 0 then 1 else if i + j == 1 then 2 + j else if i + j == 2 then 4 + j else 7 + j;
    TermIsProduct(k);
    assert Exponents(k) == (i, j);
    forall l | 1 <= l <= TermCount(order) && IsProduct(l, i, j)
      ensures l == k
    {
      ProductAt(k, i, j, 2.0, 3.0);
      ProductAt(l, i, j, 2.0, 3.0);
      TermsDiffer(k, l);
    }
  }

  /** And every term of an order is such a product. */
  lemma TermIsInOrder(order: int, k: int)
    requires 1 <= order <= MAXORDER && 1 <= k <= TermCount(order)
    ensures exists i: nat, j: nat :: i + j <= order && IsProduct(k, i, j)
  {
    hide IsProduct;
    TermCounts();
    TermIsProduct(k);
    var i, j := Exponents(k).0, Exponents(k).1;
    assert i + j <= order && IsProduct(k, i, j);
  }

  // ----------------------------------------------- points that determine a polynomial

  /** A polynomial around the point (u, v): its value there and what multiplies the powers of the distance. */
  datatype Around = Around(a: real, e: real, n: real, ee: real, en: real, nn: real)

  ghost function AroundPoint(c: seq<real>, u: real, v: real): Around
    requires |c| == 10
  {
    Around(Polynomial(c, u, v, 3),
           c[1] + 2.0 * c[3] * u + c[4] * v + 3.0 * c[6] * (u * u) + 2.0 * c[7] * (u * v) + c[8] * (v * v),
           c[2] + c[4] * u + 2.0 * c[5] * v + c[7] * (u * u) + 2.0 * c[8] * (u * v) + 3.0 * c[9] * (v * v),
           c[3] + 3.0 * c[6] * u + c[7] * v,
           c[4] + 2.0 * c[7] * u + 2.0 * c[8] * v,
           c[5] + c[8] * u + 3.0 * c[9] * v)
  }

  /** A coefficient times three numbers, under a name of its own. */
  ghost function Prod(a: real, x: real, y: real, z: real): real {
    a * (x * (y * z))
  }

  lemma LinearExpands(a: real, u: real, i: real, e: real)
    requires e == u + i
    ensures Prod(a, e, 1.0, 1.0) == Prod(a, u, 1.0, 1.0) + Prod(a, i, 1.0, 1.0)
  {
  }

  lemma SquareExpands(a: real, u: real, v: real, i: real, j: real, e: real, n: real)
    requires e == u + i && n == v + j
    ensures Prod(a, e, n, 1.0) == Prod(a, u, v, 1.0) + Prod(a, v, i, 1.0) + Prod(a, u, j, 1.0) + Prod(a, i, j, 1.0)
  {
    assert e * n == u * v + v * i + u * j + i * j;
  }

  lemma CubeExpands(a: real, u: real, v: real, i: real, j: real, e: real, n: real)
    requires e == u + i && n == v + j
    ensures Prod(a, e, e, n) == Prod(a, u, u, v) + 2.0 * Prod(a, u, v, i) + Prod(a, u, u, j) +
      Prod(a, v, i, i) + 2.0 * Prod(a, u, i, j) + Prod(a, i, i, j)
  {
    assert e * n == u * v + v * i + u * j + i * j;
    assert e * (e * n) == u * (u * v) + 2.0 * (u * (v * i)) + u * (u * j) + v * (i * i) + 2.0 * (u * (i * j)) + i * (i * j);
  }

  /** The value at a distance from that point. */
  ghost function Moved(w: Around, c: seq<real>, i: real, j: real): real
    requires |c| == 10
  {
    w.a + w.e * i + w.n * j + w.ee * (i * i) + w.en * (i * j) + w.nn * (j * j) +
    c[6] * (i * i * i) + c[7] * (i * i * j) + c[8] * (j * j * i) + c[9] * (j * j * j)
  }

  lemma Spread(w: Around, c: seq<real>, u: real, v: real, i: real, j: real)
    requires |c| == 10 && w == AroundPoint(c, u, v)
    ensures w.a == Polynomial(c, u, v, 3)
    ensures w.e * i == Prod(c[1], i, 1.0, 1.0) + 2.0 * Prod(c[3], u, i, 1.0) + Prod(c[4], v, i, 1.0) +
      3.0 * Prod(c[6], u, u, i) + 2.0 * Prod(c[7], u, v, i) + Prod(c[8], v, v, i)
    ensures w.n * j == Prod(c[2], j, 1.0, 1.0) + Prod(c[4], u, j, 1.0) + 2.0 * Prod(c[5], v, j, 1.0) +
      Prod(c[7], u, u, j) + 2.0 * Prod(c[8], v, u, j) + 3.0 * Prod(c[9], v, v, j)
    ensures w.ee * (i * i) == Prod(c[3], i, i, 1.0) + 3.0 * Prod(c[6], u, i, i) + Prod(c[7], v, i, i)
    ensures w.en * (i * j) == Prod(c[4], i, j, 1.0) + 2.0 * Prod(c[7], u, i, j) + 2.0 * Prod(c[8], v, j, i)
    ensures w.nn * (j * j) == Prod(c[5], j, j, 1.0) + Prod(c[8], u, j, j) + 3.0 * Prod(c[9], v, j, j)
  {
  }

  lemma Written(c: seq<real>, e: real, n: real)
    requires |c| == 10
    ensures Polynomial(c, e, n, 3) == c[0] + Prod(c[1], e, 1.0, 1.0) + Prod(c[2], n, 1.0, 1.0) +
      Prod(c[3], e, e, 1.0) + Prod(c[4], e, n, 1.0) + Prod(c[5], n, n, 1.0) +
      Prod(c[6], e, e, e) + Prod(c[7], e, e, n) + Prod(c[8], n, n, e) + Prod(c[9], n, n, n)
  {
    assert (e * e) * n == e * (e * n) && e * (n * n) == n * (n * e);
  }

  lemma MovedIs(w: Around, c: seq<real>, i: real, j: real)
    requires |c| == 10
    ensures Moved(w, c, i, j) == w.a + w.e * i + w.n * j + w.ee * (i * i) + w.en * (i * j) + w.nn * (j * j) +
      Prod(c[6], i, i, i) + Prod(c[7], i, i, j) + Prod(c[8], j, j, i) + Prod(c[9], j, j, j)
  {
    assert i * i * i == i * (i * i) && i * i * j == i * (i * j) && j * j * i == j * (j * i) && j * j * j == j * (j * j);
  }

  lemma PolynomialMoves(c: seq<real>, u: real, v: real, i: real, j: real)
    requires |c| == 10
    ensures Polynomial(c, u + i, v + j, 3) == Moved(AroundPoint(c, u, v), c, i, j)
  {
    hide Polynomial;
    hide AroundPoint;
    hide Moved;
    hide Prod;
    var e, n, w := u + i, v + j, AroundPoint(c, u, v);
    Written(c, e, n);
    Written(c, u, v);
    MovedIs(w, c, i, j);
    Spread(w, c, u, v, i, j);
    LinearExpands(c[1], u, i, e);
    LinearExpands(c[2], v, j, n);
    SquareExpands(c[3], u, u, i, i, e, e);
    SquareExpands(c[4], u, v, i, j, e, n);
    SquareExpands(c[5], v, v, j, j, n, n);
    CubeExpands(c[6], u, u, i, i, e, e);
    CubeExpands(c[7], u, v, i, j, e, n);
    CubeExpands(c[8], v, u, j, i, n, e);
    CubeExpands(c[9], v, v, j, j, n, n);
  }

  /** The polynomial vanishes at the grid point that term number k stands for. */
  ghost predicate VanishesAt(c: seq<real>, u: real, v: real, k: int)
    requires |c| == 10
  {
    Polynomial(c, u + Exponents(k).0 as real, v + Exponents(k).1 as real, 3) == 0.0
  }

  lemma Vanishing(c: seq<real>, u: real, v: real, k: int, i: real, j: real)
    requires |c| == 10 && VanishesAt(c, u, v, k) && i == Exponents(k).0 as real && j == Exponents(k).1 as real
    ensures Moved(AroundPoint(c, u, v), c, i, j) == 0.0
  {
    hide AroundPoint;
    hide Moved;
    PolynomialMoves(c, u, v, i, j);
  }

  lemma NoCubicPart(c: seq<real>, u: real, v: real)
    requires |c| == 10 && forall k :: 1 <= k <= 10 ==> VanishesAt(c, u, v, k)
    ensures c[6] == c[7] == c[8] == c[9] == 0.0
  {
    hide AroundPoint;
    hide VanishesAt;
    Vanishing(c, u, v, 1, 0.0, 0.0);
    Vanishing(c, u, v, 2, 1.0, 0.0);
    Vanishing(c, u, v, 3, 0.0, 1.0);
    Vanishing(c, u, v, 4, 2.0, 0.0);
    Vanishing(c, u, v, 5, 1.0, 1.0);
    Vanishing(c, u, v, 6, 0.0, 2.0);
    Vanishing(c, u, v, 7, 3.0, 0.0);
    Vanishing(c, u, v, 8, 2.0, 1.0);
    Vanishing(c, u, v, 9, 1.0, 2.0);
    Vanishing(c, u, v, 10, 0.0, 3.0);
  }

  lemma NoQuadraticPart(c: seq<real>, u: real, v: real)
    requires |c| == 10 && c[6] == c[7] == c[8] == c[9] == 0.0 && forall k :: 1 <= k <= 6 ==> VanishesAt(c, u, v, k)
    ensures c[3] == c[4] == c[5] == 0.0
  {
    assert AroundPoint(c, u, v).ee == c[3] && AroundPoint(c, u, v).en == c[4] && AroundPoint(c, u, v).nn == c[5];
    hide AroundPoint;
    hide VanishesAt;
    Vanishing(c, u, v, 1, 0.0, 0.0);
    Vanishing(c, u, v, 2, 1.0, 0.0);
    Vanishing(c, u, v, 3, 0.0, 1.0);
    Vanishing(c, u, v, 4, 2.0, 0.0);
    Vanishing(c, u, v, 5, 1.0, 1.0);
    Vanishing(c, u, v, 6, 0.0, 2.0);
  }

  lemma NoLinearPart(c: seq<real>, u: real, v: real)
    requires |c| == 10 && (forall k :: 3 <= k < 10 ==> c[k] == 0.0) && forall k :: 1 <= k <= 3 ==> VanishesAt(c, u, v, k)
    ensures c[0] == c[1] == c[2] == 0.0
  {
    assert AroundPoint(c, u, v).e == c[1] && AroundPoint(c, u, v).n == c[2];
    assert AroundPoint(c, u, v).ee == AroundPoint(c, u, v).en == AroundPoint(c, u, v).nn == 0.0;
    Vanishing(c, u, v, 1, 0.0, 0.0);
    Vanishing(c, u, v, 2, 1.0, 0.0);
    Vanishing(c, u, v, 3, 0.0, 1.0);
    assert c[1] == c[2] == 0.0;
    assert Polynomial(c, u, v, 3) == c[0];
  }

  /** A polynomial of an order that vanishes on a triangular grid of that order is zero. */
  lemma VanishesEverywhere(c: seq<real>, u: real, v: real, order: int)
    requires 1 <= order <= MAXORDER && |c| == 10 && forall k :: TermCount(order) <= k < 10 ==> c[k] == 0.0
    requires forall k :: 1 <= k <= TermCount(order) ==> VanishesAt(c, u, v, k)
    ensures forall k :: 0 <= k < 10 ==> c[k] == 0.0
  {
    hide VanishesAt;
    TermCounts();
    if order == 3 {
      NoCubicPart(c, u, v);
    }
    if order >= 2 {
      NoQuadraticPart(c, u, v);
    }
    NoLinearPart(c, u, v);
  }

  /** The points of a triangular grid with one corner at (e0, n0): one for every term, at its exponents. */
  ghost predicate OnGrid(cp: seq<ControlPoint>, e0: real, n0: real, order: int) {
    && |cp| == TermCount(order)
    && forall k :: 0 <= k < |cp| ==>
         cp[k].status > 0 && cp[k].e1 == e0 + Exponents(k + 1).0 as real && cp[k].n1 == n0 + Exponents(k + 1).1 as real
  }

  lemma PaddedPolynomial(c: seq<real>, e: real, n: real, order: int)
    requires 1 <= order <= MAXORDER && |c| == 10 && forall k :: TermCount(order) <= k < 10 ==> c[k] == 0.0
    ensures Polynomial(c, e, n, order) == Polynomial(c, e, n, 3)
  {
    hide PowersOf;
    TermCounts();
  }

  lemma KernelVanishes(cp: seq<ControlPoint>, e0: real, n0: real, xMean: real, yMean: real, order: int, c: seq<real>, k: int)
    requires 1 <= order <= MAXORDER && OnGrid(cp, e0, n0, order) && 0 <= k < |cp|
    requires |c| == 10 && forall l :: TermCount(order) <= l < 10 ==> c[l] == 0.0
    requires var t := Design(cp, xMean, yMean, TermCount(order)); Solves(t, c[..TermCount(order)], Zeros(|t|))
    ensures VanishesAt(c, e0 - xMean, n0 - yMean, k + 1)
  {
    hide Design;
    hide Eastings;
    hide Northings;
    hide TermRow;
    hide Polynomial;
    hide RowTimes;
    hide TermSum;
    hide TermCount;
    hide Exponents;
    TermCounts();
    var count := TermCount(order);
    ActiveRows(cp, xMean, yMean, count);
    var t := Design(cp, xMean, yMean, count);
    var e, n := cp[k].e1 - xMean, cp[k].n1 - yMean;
    assert RowOf(cp, t, Eastings(cp), Northings(cp), xMean, yMean, count, k);
    RowTimesIsTermSum(t, k, c, e, n, count);
    PolynomialIsTermSum(c, e, n, order);
    PaddedPolynomial(c, e, n, order);
    assert RowTimes(t, k, c[..count]) == Zeros(|t|)[k];
    assert e == e0 - xMean + Exponents(k + 1).0 as real && n == n0 - yMean + Exponents(k + 1).1 as real;
  }

  /**
   Points on a triangular grid determine the polynomial of its order, wherever the
   grid lies and whatever the means are: six points for order 2, ten for order 3.
   */
  lemma GridDetermines(cp: seq<ControlPoint>, e0: real, n0: real, xMean: real, yMean: real, order: int)
    requires 1 <= order <= MAXORDER && OnGrid(cp, e0, n0, order)
    ensures FitStatus(cp, xMean, yMean, order, true) == MSUCCESS
  {
    hide Design;
    hide VanishesAt;
    hide Solves;
    TermCounts();
    var count := TermCount(order);
    ActiveRows(cp, xMean, yMean, count);
    var t, u, v := Design(cp, xMean, yMean, count), e0 - xMean, n0 - yMean;
    forall x: Vector | |x| == count && Solves(t, x, Zeros(|t|))
      ensures x == Zeros(count)
    {
      var c := x + Zeros(10 - count);
      assert c[..count] == x;
      forall k | 1 <= k <= count
        ensures VanishesAt(c, u, v, k)
      {
        var p := k - 1;
        KernelVanishes(cp, e0, n0, xMean, yMean, order, c, p);
        assert p + 1 == k;
      }
      VanishesEverywhere(c, u, v, order);
      assert forall k :: 0 <= k < count ==> x[k] == c[k];
    }
  }
}
