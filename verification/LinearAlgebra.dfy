/**
 Finite sums, matrices and linear systems over the reals: the reference notions
 against which the in-place solvers are stated.
 */
module LinearAlgebra {

  type Vector = seq<real>
  type Matrix = seq<seq<real>>

  /** f(0) + ... + f(n - 1). */
  ghost function Sum(f: int -> real, n: nat): real {
    if n == 0 then 0.0 else Sum(f, n - 1) + f(n - 1)
  }

  lemma SumStep(f: int -> real, n: nat)
    ensures Sum(f, n + 1) == Sum(f, n) + f(n)
  {
  }

  lemma {:induction false} SumExt(f: int -> real, g: int -> real, n: nat)
    requires forall i :: 0 <= i < n ==> f(i) == g(i)
    ensures Sum(f, n) == Sum(g, n)
  {
    if n > 0 {
      SumExt(f, g, n - 1);
    }
  }

  lemma {:induction false} SumZero(f: int -> real, n: nat)
    requires forall i :: 0 <= i < n ==> f(i) == 0.0
    ensures Sum(f, n) == 0.0
  {
    if n > 0 {
      SumZero(f, n - 1);
    }
  }

  /** h = f + c * g summed. */
  lemma {:induction false} SumLinear(f: int -> real, g: int -> real, h: int -> real, c: real, n: nat)
    requires forall i :: 0 <= i < n ==> h(i) == f(i) + c * g(i)
    ensures Sum(h, n) == Sum(f, n) + c * Sum(g, n)
  {
    if n > 0 {
      SumLinear(f, g, h, c, n - 1);
    }
  }

  lemma {:induction false} SumAdd(f: int -> real, g: int -> real, h: int -> real, n: nat)
    requires forall i :: 0 <= i < n ==> h(i) == f(i) + g(i)
    ensures Sum(h, n) == Sum(f, n) + Sum(g, n)
  {
    if n > 0 {
      SumAdd(f, g, h, n - 1);
    }
  }

  lemma {:induction false} SumScale(g: int -> real, h: int -> real, c: real, n: nat)
    requires forall i :: 0 <= i < n ==> h(i) == c * g(i)
    ensures Sum(h, n) == c * Sum(g, n)
  {
    if n > 0 {
      SumScale(g, h, c, n - 1);
    }
  }

  /** Trailing zeros may be dropped. */
  lemma {:induction false} SumTail(f: int -> real, p: nat, n: nat)
    requires p <= n
    requires forall i :: p <= i < n ==> f(i) == 0.0
    ensures Sum(f, n) == Sum(f, p)
  {
    if p < n {
      SumTail(f, p, n - 1);
    }
  }

  /** Only one term differs from zero. */
  lemma {:induction false} SumSingle(f: int -> real, n: nat, k: int)
    requires 0 <= k < n
    requires forall i :: 0 <= i < n && i != k ==> f(i) == 0.0
    ensures Sum(f, n) == f(k)
  {
    if k == n - 1 {
      SumZero(f, n - 1);
    } else {
      SumSingle(f, n - 1, k);
    }
  }

  ghost function RowSum(f: (int, int) -> real, i: int, m: nat): real {
    Sum(j => f(i, j), m)
  }

  ghost function ColumnSum(f: (int, int) -> real, j: int, n: nat): real {
    Sum(i => f(i, j), n)
  }

  lemma {:induction false} ColumnSumStep(f: (int, int) -> real, j: int, n: nat)
    requires n > 0
    ensures ColumnSum(f, j, n) == ColumnSum(f, j, n - 1) + f(n - 1, j)
  {
  }

  /** Summing a table by rows or by columns. */
  lemma {:induction false} SumSwap(f: (int, int) -> real, n: nat, m: nat)
    ensures Sum(i => RowSum(f, i, m), n) == Sum(j => ColumnSum(f, j, n), m)
  {
    if n == 0 {
      SumZero(j => ColumnSum(f, j, n), m);
    } else {
      SumSwap(f, n - 1, m);
      forall j {
        ColumnSumStep(f, j, n);
      }
      SumLinear(j => ColumnSum(f, j, n - 1), j => f(n - 1, j), j => ColumnSum(f, j, n), 1.0, m);
    }
  }

  /** An entry, read as zero outside the matrix. */
  ghost function Entry(m: Matrix, i: int, j: int): real {
    if 0 <= i < |m| && 0 <= j < |m[i]| then m[i][j] else 0.0
  }

  ghost function At(v: Vector, i: int): real {
    if 0 <= i < |v| then v[i] else 0.0
  }

  /** Row `i` of the matrix times the vector. */
  ghost function RowTimes(m: Matrix, i: int, x: Vector): real {
    Sum(j => Entry(m, i, j) * At(x, j), |x|)
  }

  ghost predicate Square(m: Matrix, n: nat) {
    |m| == n && forall i :: 0 <= i < n ==> |m[i]| == n
  }

  /** m * x == b. */
  ghost predicate Solves(m: Matrix, x: Vector, b: Vector) {
    |m| == |b| && forall i :: 0 <= i < |m| ==> RowTimes(m, i, x) == b[i]
  }

  ghost function Zeros(n: nat): Vector {
    seq(n, _ => 0.0)
  }

  /** The only solution of the homogeneous system is zero. */
  ghost predicate Nonsingular(m: Matrix, n: nat) {
    forall x: Vector :: |x| == n && Solves(m, x, Zeros(|m|)) ==> x == Zeros(n)
  }

  ghost function Swapped<T>(m: seq<T>, p: int, q: int): (r: seq<T>)
    requires 0 <= p < |m| && 0 <= q < |m|
    ensures |r| == |m|
  {
    m[p := m[q]][q := m[p]]
  }

  /** The contents of a two-dimensional buffer. */
  ghost function Rows(a: array2<real>): (m: Matrix)
    reads a
    ensures |m| == a.Length0
    ensures forall i :: 0 <= i < |m| ==> |m[i]| == a.Length1
    ensures forall i, j :: 0 <= i < a.Length0 && 0 <= j < a.Length1 ==> m[i][j] == a[i, j]
  {
    seq(a.Length0, i requires 0 <= i < a.Length0 reads a =>
      seq(a.Length1, j requires 0 <= j < a.Length1 reads a => a[i, j]))
  }

  ghost function Column(a: array2<real>, c: int): (v: Vector)
    requires 0 <= c < a.Length1
    reads a
    ensures |v| == a.Length0
    ensures forall i :: 0 <= i < a.Length0 ==> v[i] == a[i, c]
  {
    seq(a.Length0, i requires 0 <= i < a.Length0 reads a => a[i, c])
  }

  lemma SpreadDifference(a: real, b: real, c: real)
    ensures (a - b) * c == a * c + (-1.0) * (b * c)
  {
  }

  /** c - x. */
  ghost function Difference(c: Vector, x: Vector): (d: Vector)
    requires |c| == |x|
    ensures |d| == |x|
  {
    seq(|x|, j requires 0 <= j < |x| => c[j] - x[j])
  }

  lemma RowTimesDifference(t: Matrix, p: int, c: Vector, x: Vector)
    requires |c| == |x|
    ensures RowTimes(t, p, Difference(c, x)) == RowTimes(t, p, c) - RowTimes(t, p, x)
  {
    var d := Difference(c, x);
    var f, g, h := j => Entry(t, p, j) * At(c, j), j => Entry(t, p, j) * At(x, j), j => Entry(t, p, j) * At(d, j);
    forall j | 0 <= j < |x|
      ensures h(j) == f(j) + (-1.0) * g(j)
    {
      SpreadDifference(c[j], x[j], Entry(t, p, j));
    }
    SumLinear(f, g, h, -1.0, |x|);
  }

  /** A nonsingular system has at most one solution. */
  lemma SolutionIsUnique(m: Matrix, x: Vector, y: Vector, b: Vector)
    requires |x| == |y| && Nonsingular(m, |x|) && Solves(m, x, b) && Solves(m, y, b)
    ensures x == y
  {
    var d := Difference(y, x);
    forall i | 0 <= i < |m|
      ensures RowTimes(m, i, d) == 0.0
    {
      RowTimesDifference(m, i, y, x);
    }
    assert Solves(m, d, Zeros(|m|));
    assert d == Zeros(|x|);
    assert forall j :: 0 <= j < |x| ==> y[j] - x[j] == d[j] == 0.0;
  }
}
