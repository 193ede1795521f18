/**
 The Gauss-Jordan solver that finds the two coefficient vectors of a control
 point polynomial. Rows are swapped and combined in place; the solutions of the
 two systems are the same before and after every such step.
 */
module CrsSolver {
  import opened LinearAlgebra
  import opened RealFacts

  datatype Status = MSUCCESS | MNPTERR | MUNSOLVABLE | MMEMERR | MPARMERR | MINTERR

  /** Both systems have the same solutions of length `n`. */
  ghost predicate SameSolutions(m: Matrix, a: Vector, m': Matrix, a': Vector, n: nat) {
    forall x: Vector :: |x| == n ==> (Solves(m, x, a) <==> Solves(m', x, a'))
  }

  lemma SwapKeepsSolutions(m: Matrix, a: Vector, p: int, q: int, n: nat)
    requires |m| == |a| == n && 0 <= p < n && 0 <= q < n
    ensures SameSolutions(m, a, Swapped(m, p, q), Swapped(a, p, q), n)
  {
    var m', a' := Swapped(m, p, q), Swapped(a, p, q);
    forall x: Vector | |x| == n
      ensures Solves(m, x, a) <==> Solves(m', x, a')
    {
      forall i | 0 <= i < n
        ensures RowTimes(m', i, x) == RowTimes(m, if i == p then q else if i == q then p else i, x)
      {
        var r := if i == p then q else if i == q then p else i;
        SumExt(j => Entry(m', i, j) * At(x, j), j => Entry(m, r, j) * At(x, j), n);
      }
      if Solves(m', x, a') {
        forall i | 0 <= i < n
          ensures RowTimes(m, i, x) == a[i]
        {
          var r := if i == p then q else if i == q then p else i;
          assert RowTimes(m', r, x) == a'[r];
        }
      }
    }
  }

  /** u - f * w. */
  ghost function Minus(u: Vector, f: real, w: Vector): (v: Vector)
    requires |u| == |w|
    ensures |v| == |u|
    ensures forall c :: 0 <= c < |u| ==> v[c] == u[c] - f * w[c]
  {
    seq(|u|, c requires 0 <= c < |u| => u[c] - f * w[c])
  }

  /** Row `i` has been taken away `f[r]` times from every other row `r`. */
  ghost predicate RowsCleared(m: Matrix, m': Matrix, i: int, f: Vector, n: nat) {
    && Square(m, n) && |m'| == n && |f| == n && 0 <= i < n && f[i] == 0.0
    && forall r :: 0 <= r < n ==> m'[r] == Minus(m[r], f[r], m[i])
  }

  ghost predicate EntriesCleared(a: Vector, a': Vector, i: int, f: Vector, n: nat) {
    && |a| == |a'| == |f| == n && 0 <= i < n
    && forall r :: 0 <= r < n ==> a'[r] == a[r] - f[r] * a[i]
  }

  lemma ClearedRowTimes(m: Matrix, m': Matrix, i: int, f: Vector, n: nat, r: int, x: Vector)
    requires RowsCleared(m, m', i, f, n) && |x| == n && 0 <= r < n
    ensures RowTimes(m', r, x) == RowTimes(m, r, x) - f[r] * RowTimes(m, i, x)
  {
    var g, h, k := j => Entry(m, r, j) * At(x, j), j => Entry(m, i, j) * At(x, j), j => Entry(m', r, j) * At(x, j);
    forall j | 0 <= j < n
      ensures k(j) == g(j) + (-f[r]) * h(j)
    {
      Distribute(m[r][j], f[r], m[i][j], x[j]);
    }
    SumLinear(g, h, k, -f[r], n);
  }

  lemma Distribute(a: real, f: real, b: real, x: real)
    ensures (a - f * b) * x == a * x + (-f) * (b * x)
  {
  }

  lemma ClearingKeepsSolutions(m: Matrix, a: Vector, m': Matrix, a': Vector, i: int, f: Vector, n: nat)
    requires RowsCleared(m, m', i, f, n) && EntriesCleared(a, a', i, f, n)
    ensures SameSolutions(m, a, m', a', n)
  {
    forall x: Vector | |x| == n
      ensures Solves(m, x, a) <==> Solves(m', x, a')
    {
      forall r | 0 <= r < n
        ensures RowTimes(m', r, x) == RowTimes(m, r, x) - f[r] * RowTimes(m, i, x)
      {
        ClearedRowTimes(m, m', i, f, n, r, x);
      }
      assert f[i] * a[i] == 0.0 && f[i] * RowTimes(m, i, x) == 0.0;
    }
  }

  // ------------------------------------------------------ the reduced matrix

  /** The first `s` columns hold their pivot on the diagonal and zeros elsewhere. */
  ghost predicate ColumnsReduced(m: Matrix, s: nat, n: nat) {
    && Square(m, n) && s <= n
    && (forall c :: 0 <= c < s ==> m[c][c] != 0.0)
    && (forall r, c :: 0 <= r < n && 0 <= c < s && r != c ==> m[r][c] == 0.0)
  }

  lemma SwapKeepsReduced(m: Matrix, s: nat, n: nat, p: int, q: int)
    requires ColumnsReduced(m, s, n) && s <= p < n && s <= q < n
    ensures ColumnsReduced(Swapped(m, p, q), s, n)
  {
  }

  lemma DiagonalRowTimes(m: Matrix, n: nat, i: int, x: Vector)
    requires ColumnsReduced(m, n, n) && |x| == n && 0 <= i < n
    ensures RowTimes(m, i, x) == m[i][i] * x[i]
  {
    SumSingle(j => Entry(m, i, j) * At(x, j), n, i);
  }

  lemma DiagonalIsNonsingular(m: Matrix, n: nat)
    requires ColumnsReduced(m, n, n)
    ensures Nonsingular(m, n)
  {
    forall x: Vector | |x| == n && Solves(m, x, Zeros(n))
      ensures x == Zeros(n)
    {
      forall i | 0 <= i < n
        ensures x[i] == 0.0
      {
        DiagonalRowTimes(m, n, i, x);
        assert RowTimes(m, i, x) == 0.0;
      }
    }
  }

  /** What the reduced columns combine to when column `s` has no pivot of its own. */
  ghost function KernelVector(m: Matrix, s: nat, n: nat): (v: Vector)
    requires ColumnsReduced(m, s, n) && s < n
    ensures |v| == n && v[s] == 1.0
  {
    seq(n, j requires 0 <= j < n => if j < s then -m[j][s] / m[j][j] else if j == s then 1.0 else 0.0)
  }

  lemma KernelVectorMeetsReducedRow(m: Matrix, s: nat, n: nat, i: int)
    requires ColumnsReduced(m, s, n) && 0 <= i < s < n
    ensures RowTimes(m, i, KernelVector(m, s, n)) == 0.0
  {
    var v := KernelVector(m, s, n);
    var d, t := m[i][i] * v[i], m[i][s];
    assert d == -t;
    var f := j => Entry(m, i, j) * At(v, j);
    var g, h := j => if j == i then d else 0.0, j => if j == s then t else 0.0;
    forall j | 0 <= j < n
      ensures f(j) == g(j) + 1.0 * h(j)
    {
      if j < s && j != i {
        assert m[i][j] == 0.0;
      }
    }
    SumSingle(g, n, i);
    SumSingle(h, n, s);
    SumLinear(g, h, f, 1.0, n);
  }

  /** A column without a pivot below the reduced part gives a nonzero kernel vector. */
  lemma MissingPivotIsSingular(m: Matrix, s: nat, n: nat)
    requires ColumnsReduced(m, s, n) && s < n
    requires forall r :: s <= r < n ==> m[r][s] == 0.0
    ensures !Nonsingular(m, n)
  {
    var v := KernelVector(m, s, n);
    forall i | 0 <= i < n
      ensures RowTimes(m, i, v) == 0.0
    {
      if i < s {
        KernelVectorMeetsReducedRow(m, s, n, i);
      } else {
        SumZero(j => Entry(m, i, j) * At(v, j), n);
      }
    }
    assert Solves(m, v, Zeros(n)) && v[s] != Zeros(n)[s];
  }

  lemma NonsingularFollowsSolutions(m: Matrix, m': Matrix, n: nat)
    requires |m| == |m'| == n && SameSolutions(m, Zeros(n), m', Zeros(n), n)
    ensures Nonsingular(m, n) <==> Nonsingular(m', n)
  {
  }

  lemma SameSolutionsTransitive(m: Matrix, a: Vector, m': Matrix, a': Vector, m'': Matrix, a'': Vector, n: nat)
    requires SameSolutions(m, a, m', a', n) && SameSolutions(m', a', m'', a'', n)
    ensures SameSolutions(m, a, m'', a'', n)
  {
  }

  // -------------------------------------------------------------- the solver

  /** The row from `i` on whose entry in column `i` is largest in magnitude, and that entry. */
  method FindPivot(m: array2<real>, i: int) returns (imark: int, pivot: real)
    requires 0 <= i < m.Length0 && m.Length0 == m.Length1
    ensures i <= imark < m.Length0 && pivot == m[imark, i]
    ensures forall r :: i <= r < m.Length0 ==> Abs(m[r, i]) <= Abs(pivot)
  {
    pivot, imark := m[i, i], i;
    for i2 := i + 1 to m.Length0
      invariant i <= imark < m.Length0 && pivot == m[imark, i]
      invariant forall r :: i <= r < i2 ==> Abs(m[r, i]) <= Abs(pivot)
    {
      if Abs(m[i2, i]) > Abs(pivot) {
        pivot, imark := m[i2, i], i2;
      }
    }
  }

  method SwapRows(m: array2<real>, a: array<real>, b: array<real>, p: int, q: int)
    requires m.Length0 == m.Length1 == a.Length == b.Length && a != b
    requires 0 <= p < m.Length0 && 0 <= q < m.Length0
    modifies m, a, b
    ensures Rows(m) == Swapped(old(Rows(m)), p, q)
    ensures a[..] == Swapped(old(a[..]), p, q)
    ensures b[..] == Swapped(old(b[..]), p, q)
  {
    for j2 := 0 to m.Length1
      modifies m
      invariant forall j :: 0 <= j < j2 ==> m[p, j] == old(m[q, j]) && m[q, j] == old(m[p, j])
      invariant forall j :: j2 <= j < m.Length1 ==> m[p, j] == old(m[p, j]) && m[q, j] == old(m[q, j])
      invariant forall i, j :: 0 <= i < m.Length0 && i != p && i != q && 0 <= j < m.Length1 ==> m[i, j] == old(m[i, j])
    {
      m[p, j2], m[q, j2] := m[q, j2], m[p, j2];
    }
    a[p], a[q] := a[q], a[p];
    b[p], b[q] := b[q], b[p];
    forall i | 0 <= i < m.Length0
      ensures Rows(m)[i] == Swapped(old(Rows(m)), p, q)[i]
    {
    }
  }

  /** Takes `factor` times row `i` away from row `i2`; columns before `i` are zero in row `i`. */
  method ClearRow(m: array2<real>, i: int, i2: int, pivot: real) returns (factor: real)
    requires m.Length0 == m.Length1
    requires 0 <= i < m.Length0 && 0 <= i2 < m.Length0 && i != i2
    requires pivot == Rows(m)[i][i] != 0.0
    requires forall c :: 0 <= c < i ==> Rows(m)[i][c] == 0.0
    modifies m
    ensures factor == old(Rows(m))[i2][i] / pivot
    ensures Rows(m) == old(Rows(m))[i2 := Minus(old(Rows(m))[i2], factor, old(Rows(m))[i])]
  {
    factor := m[i2, i] / pivot;
    for j2 := i to m.Length1
      invariant forall c :: i <= c < j2 ==> m[i2, c] == old(m[i2, c]) - factor * old(m[i, c])
      invariant forall r, c :: 0 <= r < m.Length0 && 0 <= c < m.Length1 && !(r == i2 && i <= c < j2) ==> m[r, c] == old(m[r, c])
    {
      m[i2, j2] := m[i2, j2] - factor * m[i, j2];
    }
    ghost var was := old(Rows(m));
    ghost var want := was[i2 := Minus(was[i2], factor, was[i])];
    forall r | 0 <= r < m.Length0
      ensures Rows(m)[r] == want[r]
    {
      assert r == i2 ==> forall c :: 0 <= c < m.Length1 ==> Rows(m)[r][c] == Minus(was[i2], factor, was[i])[c];
    }
  }

  /** Zeros above and below the pivot of column `i`. */
  method ClearColumn(m: array2<real>, a: array<real>, b: array<real>, i: int, pivot: real) returns (ghost f: Vector)
    requires m.Length0 == m.Length1 == a.Length == b.Length && a != b
    requires 0 <= i < m.Length0 && pivot == m[i, i] != 0.0
    requires ColumnsReduced(Rows(m), i, m.Length0)
    modifies m, a, b
    ensures RowsCleared(old(Rows(m)), Rows(m), i, f, m.Length0)
    ensures EntriesCleared(old(a[..]), a[..], i, f, m.Length0)
    ensures EntriesCleared(old(b[..]), b[..], i, f, m.Length0)
    ensures ColumnsReduced(Rows(m), i + 1, m.Length0)
  {
    ghost var m0, a0, b0, n := Rows(m), a[..], b[..], m.Length0;
    f := Zeros(n);
    for i2 := 0 to m.Length0
      invariant FactorsSoFar(m0, i, f, i2, n)
      invariant RowsClearedSoFar(m0, Rows(m), i, f, i2, n)
      invariant EntriesClearedSoFar(a0, a[..], i, f, i2, n) && EntriesClearedSoFar(b0, b[..], i, f, i2, n)
    {
      if i2 != i {
        f := ClearOther(m, a, b, i, i2, pivot, m0, a0, b0, f);
      }
    }
    assert Rows(m)[i] == Minus(m0[i], f[i], m0[i]);
    ClearedColumnIsReduced(m0, Rows(m), i, f, n);
  }

  ghost predicate FactorsSoFar(m: Matrix, i: int, f: Vector, k: int, n: nat) {
    && Square(m, n) && |f| == n && 0 <= i < n && 0 <= k <= n && m[i][i] != 0.0
    && f[i] == 0.0
    && forall r :: 0 <= r < k && r != i ==> f[r] == m[r][i] / m[i][i]
  }

  ghost predicate RowsClearedSoFar(m: Matrix, m': Matrix, i: int, f: Vector, k: int, n: nat) {
    && Square(m, n) && Square(m', n) && |f| == n && 0 <= i < n
    && (forall r :: 0 <= r < n && (k <= r || r == i) ==> m'[r] == m[r])
    && (forall r :: 0 <= r < n && r < k && r != i ==> m'[r] == Minus(m[r], f[r], m[i]))
  }

  ghost predicate EntriesClearedSoFar(a: Vector, a': Vector, i: int, f: Vector, k: int, n: nat) {
    && |a| == |a'| == |f| == n && 0 <= i < n
    && (forall r :: 0 <= r < n && (k <= r || r == i) ==> a'[r] == a[r])
    && (forall r :: 0 <= r < n && r < k && r != i ==> a'[r] == a[r] - f[r] * a[i])
  }

  /** Clears one row of the matrix and of both right-hand sides. */
  method ClearOther(m: array2<real>, a: array<real>, b: array<real>, i: int, i2: int, pivot: real,
                    ghost m0: Matrix, ghost a0: Vector, ghost b0: Vector, ghost f: Vector) returns (ghost f': Vector)
    requires m.Length0 == m.Length1 == a.Length == b.Length && a != b
    requires 0 <= i < m.Length0 && 0 <= i2 < m.Length0 && i2 != i
    requires FactorsSoFar(m0, i, f, i2, m.Length0) && pivot == m0[i][i]
    requires forall c :: 0 <= c < i ==> m0[i][c] == 0.0
    requires RowsClearedSoFar(m0, Rows(m), i, f, i2, m.Length0)
    requires EntriesClearedSoFar(a0, a[..], i, f, i2, a.Length) && EntriesClearedSoFar(b0, b[..], i, f, i2, b.Length)
    modifies m, a, b
    ensures FactorsSoFar(m0, i, f', i2 + 1, m.Length0)
    ensures RowsClearedSoFar(m0, Rows(m), i, f', i2 + 1, m.Length0)
    ensures EntriesClearedSoFar(a0, a[..], i, f', i2 + 1, a.Length) && EntriesClearedSoFar(b0, b[..], i, f', i2 + 1, b.Length)
  {
    ghost var m1, n := Rows(m), m.Length0;
    assert m1[i] == m0[i] && m1[i2] == m0[i2];
    hide RowsClearedSoFar;
    hide EntriesClearedSoFar;
    hide Rows;
    hide Minus;
    var factor := ClearRow(m, i, i2, pivot);
    RowClears(m0, m1, i, f, i2, factor, n);
    f' := f[i2 := factor];
    ClearEntry(a, i, i2, factor, a0, f);
    ClearEntry(b, i, i2, factor, b0, f);
  }

  method ClearEntry(a: array<real>, i: int, i2: int, factor: real, ghost a0: Vector, ghost f: Vector)
    requires 0 <= i < a.Length && 0 <= i2 < a.Length && i != i2
    requires EntriesClearedSoFar(a0, a[..], i, f, i2, a.Length)
    modifies a
    ensures EntriesClearedSoFar(a0, a[..], i, f[i2 := factor], i2 + 1, a.Length)
  {
    a[i2] := a[i2] - factor * a[i];
  }

  lemma RowClears(m: Matrix, m': Matrix, i: int, f: Vector, k: int, factor: real, n: nat)
    requires RowsClearedSoFar(m, m', i, f, k, n) && 0 <= k < n && k != i
    ensures RowsClearedSoFar(m, m'[k := Minus(m'[k], factor, m'[i])], i, f[k := factor], k + 1, n)
  {
  }

  lemma ClearedColumnIsReduced(m: Matrix, m': Matrix, i: nat, f: Vector, n: nat)
    requires RowsCleared(m, m', i, f, n) && ColumnsReduced(m, i, n) && m[i][i] != 0.0
    requires forall r :: 0 <= r < n && r != i ==> f[r] == m[r][i] / m[i][i]
    ensures ColumnsReduced(m', i + 1, n)
  {
    forall r, c | 0 <= r < n && 0 <= c <= i
      ensures m'[r][c] == 0.0 <==> r != c
    {
      assert m'[r][c] == Minus(m[r], f[r], m[i])[c] == m[r][c] - f[r] * m[i][c];
      if c < i {
        assert m[i][c] == 0.0;
      } else if r != i {
        assert f[r] * m[i][i] == m[r][i];
      }
    }
  }

  /** Whatever else of that length solves the system is x. */
  ghost predicate OnlySolution(m: Matrix, x: Vector, b: Vector) {
    forall y: Vector :: |y| == |x| && Solves(m, y, b) ==> y == x
  }

  lemma SolutionIsTheOnlyOne(m: Matrix, x: Vector, b: Vector)
    requires Nonsingular(m, |x|) && Solves(m, x, b)
    ensures OnlySolution(m, x, b)
  {
    forall y: Vector | |y| == |x| && Solves(m, y, b)
      ensures y == x
    {
      SolutionIsUnique(m, x, y, b);
    }
  }

  /**
   Reduces M to diagonal form and reads off both solutions. It succeeds exactly
   when M is nonsingular, and then E and N are the only solutions of M * E = a and
   M * N = b.
   */
  method SolveMat(m: array2<real>, a: array<real>, b: array<real>, E: array<real>, N: array<real>) returns (status: Status)
    requires m.Length0 == m.Length1 == a.Length == b.Length
    requires E.Length >= a.Length && N.Length >= a.Length
    requires a != b && E != N && a != E && a != N && b != E && b != N
    modifies m, a, b, E, N
    ensures status == MSUCCESS || status == MUNSOLVABLE
    ensures status == MSUCCESS <==> Nonsingular(old(Rows(m)), m.Length0)
    ensures status == MSUCCESS ==> Solves(old(Rows(m)), E[..m.Length0], old(a[..]))
    ensures status == MSUCCESS ==> Solves(old(Rows(m)), N[..m.Length0], old(b[..]))
    ensures status == MSUCCESS ==> OnlySolution(old(Rows(m)), E[..m.Length0], old(a[..]))
    ensures status == MSUCCESS ==> OnlySolution(old(Rows(m)), N[..m.Length0], old(b[..]))
    ensures status != MSUCCESS ==> E[..] == old(E[..]) && N[..] == old(N[..])
  {
    hide SameSolutions;
    hide Solves;
    hide Nonsingular;
    hide OnlySolution;
    ghost var m0, a0, b0, n := Rows(m), a[..], b[..], m.Length0;
    status := Diagonalise(m, a, b);
    if status == MSUCCESS {
      ReadOff(m, a, E);
      SolutionTransfers(m0, a0, Rows(m), a[..], E[..n], n);
      ReadOff(m, b, N);
      SolutionTransfers(m0, b0, Rows(m), b[..], N[..n], n);
      SolutionIsTheOnlyOne(m0, E[..n], a0);
      SolutionIsTheOnlyOne(m0, N[..n], b0);
    }
  }

  /** Column after column until the matrix is diagonal or a pivot is missing. */
  method Diagonalise(m: array2<real>, a: array<real>, b: array<real>) returns (status: Status)
    requires m.Length0 == m.Length1 == a.Length == b.Length && a != b
    modifies m, a, b
    ensures status == MSUCCESS || status == MUNSOLVABLE
    ensures status == MSUCCESS <==> Nonsingular(old(Rows(m)), m.Length0)
    ensures status == MSUCCESS ==> ColumnsReduced(Rows(m), m.Length0, m.Length0)
    ensures SameSolutions(old(Rows(m)), old(a[..]), Rows(m), a[..], m.Length0)
    ensures SameSolutions(old(Rows(m)), old(b[..]), Rows(m), b[..], m.Length0)
  {
    hide SameSolutions;
    hide Solves;
    hide Nonsingular;
    ghost var m0, a0, b0, n := Rows(m), a[..], b[..], m.Length0;
    ghost var z := Zeros(n);
    SameSolutionsReflexive(m0, a0, n);
    SameSolutionsReflexive(m0, b0, n);
    SameSolutionsReflexive(m0, z, n);
    for i := 0 to m.Length0
      invariant ColumnsReduced(Rows(m), i, n)
      invariant SameSolutions(m0, a0, Rows(m), a[..], n) && SameSolutions(m0, b0, Rows(m), b[..], n)
      invariant SameSolutions(m0, z, Rows(m), z, n)
    {
      var imark, pivot := FindPivot(m, i);
      if pivot == 0.0 {
        MissingPivotIsSingular(Rows(m), i, n);
        NonsingularFollowsSolutions(m0, Rows(m), n);
        return MUNSOLVABLE;
      }
      ReduceColumn(m, a, b, i, imark, pivot, m0, a0, b0);
    }
    DiagonalIsNonsingular(Rows(m), n);
    NonsingularFollowsSolutions(m0, Rows(m), n);
    status := MSUCCESS;
  }

  lemma SameSolutionsReflexive(m: Matrix, a: Vector, n: nat)
    ensures SameSolutions(m, a, m, a, n)
  {
  }

  lemma SolutionTransfers(m: Matrix, a: Vector, m': Matrix, a': Vector, x: Vector, n: nat)
    requires SameSolutions(m, a, m', a', n) && |x| == n && Solves(m', x, a')
    ensures Solves(m, x, a)
  {
  }

  /** Swap and clear for one column; both systems and the homogeneous one keep their solutions. */
  method ReduceColumn(m: array2<real>, a: array<real>, b: array<real>, i: int, imark: int, pivot: real,
                      ghost m0: Matrix, ghost a0: Vector, ghost b0: Vector)
    requires m.Length0 == m.Length1 == a.Length == b.Length && a != b
    requires 0 <= i <= imark < m.Length0 && pivot == m[imark, i] != 0.0
    requires ColumnsReduced(Rows(m), i, m.Length0)
    requires SameSolutions(m0, a0, Rows(m), a[..], a.Length) && SameSolutions(m0, b0, Rows(m), b[..], a.Length)
    requires SameSolutions(m0, Zeros(a.Length), Rows(m), Zeros(a.Length), a.Length)
    modifies m, a, b
    ensures ColumnsReduced(Rows(m), i + 1, m.Length0)
    ensures SameSolutions(m0, a0, Rows(m), a[..], a.Length) && SameSolutions(m0, b0, Rows(m), b[..], a.Length)
    ensures SameSolutions(m0, Zeros(a.Length), Rows(m), Zeros(a.Length), a.Length)
  {
    hide SameSolutions;
    hide ColumnsReduced;
    hide Rows;
    ghost var n, z := m.Length0, Zeros(m.Length0);
    ghost var m1, a1, b1 := Rows(m), a[..], b[..];
    if imark != i {
      SwapRows(m, a, b, imark, i);
      SwapKeepsSolutions(m1, a1, imark, i, n);
      SwapKeepsSolutions(m1, b1, imark, i, n);
      SwapKeepsSolutions(m1, z, imark, i, n);
      assert Swapped(z, imark, i) == z;
      SwapKeepsReduced(m1, i, n, imark, i);
      SameSolutionsTransitive(m0, a0, m1, a1, Rows(m), a[..], n);
      SameSolutionsTransitive(m0, b0, m1, b1, Rows(m), b[..], n);
      SameSolutionsTransitive(m0, z, m1, z, Rows(m), z, n);
    }
    ghost var m2, a2, b2 := Rows(m), a[..], b[..];
    ghost var f := ClearColumn(m, a, b, i, pivot);
    assert EntriesCleared(z, z, i, f, n);
    ClearingKeepsSolutions(m2, a2, Rows(m), a[..], i, f, n);
    ClearingKeepsSolutions(m2, b2, Rows(m), b[..], i, f, n);
    ClearingKeepsSolutions(m2, z, Rows(m), z, i, f, n);
    SameSolutionsTransitive(m0, a0, m2, a2, Rows(m), a[..], n);
    SameSolutionsTransitive(m0, b0, m2, b2, Rows(m), b[..], n);
    SameSolutionsTransitive(m0, z, m2, z, Rows(m), z, n);
  }

  /** The coefficients of the diagonal system. */
  method ReadOff(m: array2<real>, a: array<real>, E: array<real>)
    requires m.Length0 == m.Length1 == a.Length <= E.Length && a != E
    requires ColumnsReduced(Rows(m), m.Length0, m.Length0)
    modifies E
    ensures Solves(Rows(m), E[..m.Length0], a[..])
    ensures forall k :: m.Length0 <= k < E.Length ==> E[k] == old(E[k])
  {
    for i := 0 to m.Length0
      invariant forall k :: 0 <= k < i ==> E[k] == a[k] / m[k, k]
      invariant forall k :: m.Length0 <= k < E.Length ==> E[k] == old(E[k])
    {
      E[i] := a[i] / m[i, i];
    }
    forall i | 0 <= i < m.Length0
      ensures RowTimes(Rows(m), i, E[..m.Length0]) == a[i]
    {
      DiagonalRowTimes(Rows(m), m.Length0, i, E[..m.Length0]);
    }
  }
}
