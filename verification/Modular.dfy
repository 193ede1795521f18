/** The few facts about remainders that the row, block and bucket arithmetic needs. */
module Modular {

  lemma MulAtLeast(d: int, n: int)
    requires d >= 1 && n > 0
    ensures d * n >= n
  {
  }

  /** A quotient and a remainder in range are the quotient and the remainder. */
  lemma DivModUnique(x: int, n: int, q: int, r: int)
    requires n > 0 && x == q * n + r && 0 <= r < n
    ensures x / n == q && x % n == r
  {
    var q', r' := x / n, x % n;
    assert x == q' * n + r';
    assert (q - q') * n == r' - r;
    if q > q' {
      MulAtLeast(q - q', n);
    } else if q < q' {
      MulAtLeast(q' - q, n);
    }
  }

  lemma StepMod(r: int, n: int)
    requires n > 0
    ensures (r + n) % n == r % n && (r + n) / n == r / n + 1
  {
    assert (r / n + 1) * n == r / n * n + n;
    DivModUnique(r + n, n, r / n + 1, r % n);
  }

  /** Two numbers with the same remainder that are less than a stride apart are the same. */
  lemma SameResidue(r: int, x: int, n: int)
    requires n > 0 && r % n == x % n && r <= x < r + n
    ensures x == r
  {
    var a, b := r / n, x / n;
    assert r == a * n + r % n && x == b * n + x % n;
    assert (b - a) * n == x - r;
    if b > a {
      MulAtLeast(b - a, n);
    } else if b < a {
      MulAtLeast(a - b, n);
    }
  }
}
