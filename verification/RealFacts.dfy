/** Absolute values, products, quotients and squares of reals. */
module RealFacts {

  function Abs(x: real): real {
    if x < 0.0 then -x else x
  }

  /** A product under a name of its own, for proofs that need not look into it. */
  function Times(x: real, y: real): real {
    x * y
  }

  lemma Divide(n: real, d: real)
    requires d != 0.0
    ensures n / d * d == n
  {
  }

  lemma Cancel(d: real, x: real, y: real)
    requires d != 0.0 && d * x == d * y
    ensures x == y
  {
  }

  function Sq(a: real): real {
    a * a
  }

  lemma SqOfProduct(a: real, u: real)
    ensures (a * u) * (a * u) == (a * a) * (u * u)
  {
  }

  lemma SqZero(a: real)
    ensures Sq(a) >= 0.0
    ensures Sq(a) == 0.0 <==> a == 0.0
  {
    if a != 0.0 {
      var u := 1.0 / a;
      assert a * u == 1.0;
      SqOfProduct(a, u);
    }
  }

  lemma ProductsCompare(b: real, t: real, a: real)
    requires b > 0.0 && b * t <= a * b
    ensures t <= a
  {
  }

  lemma ProductsStrictlyOrdered(k: real, a: real, b: real)
    requires k > 0.0 && a < b
    ensures k * a < k * b
  {
  }

  lemma SqOrdered(a: real, b: real)
    requires 0.0 <= b <= a
    ensures Sq(b) <= Sq(a)
  {
    assert Sq(a) == Sq(b) + (a - b) * (a + b);
    assert (a - b) * (a + b) >= 0.0;
  }

  lemma SqStrictlyOrdered(a: real, b: real)
    requires 0.0 <= b < a
    ensures Sq(b) < Sq(a)
  {
    SqOrdered(a, b);
    SqZero(a - b);
    assert Sq(a) == Sq(b) + 2.0 * (b * (a - b)) + Sq(a - b);
    assert b * (a - b) >= 0.0;
  }

  lemma SqSign(a: real)
    ensures Sq(-a) == Sq(a)
  {
  }

  lemma SqBound(d: real, r: real)
    requires r >= 0.0 && Sq(d) <= Sq(r)
    ensures -r <= d <= r
  {
    if d > r {
      SqStrictlyOrdered(d, r);
    } else if d < -r {
      SqStrictlyOrdered(-d, r);
      SqSign(d);
    }
  }

  ghost predicate IsSqrt(sqrt: real -> real) {
    forall v :: v >= 0.0 ==> sqrt(v) >= 0.0 && sqrt(v) * sqrt(v) == v
  }
}
