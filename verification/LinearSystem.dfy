/**
 Solving A * X = RHS by an in-place LU factorisation with row pivoting, followed
 by forward and back substitution, over exact reals.
 */
module LinearSystem {
  import opened LinearAlgebra
  import opened RealFacts

  // ------------------------------------------------------ the packed factors

  /** Below the diagonal the packed matrix holds the unit lower factor ... */
  ghost function Lower(m: Matrix, i: int, k: int): real {
    if k < i then Entry(m, i, k) else if k == i then 1.0 else 0.0
  }

  /** ... and on and above it the upper factor. */
  ghost function Upper(m: Matrix, k: int, j: int): real {
    if k <= j then Entry(m, k, j) else 0.0
  }

  /** The part that `s` steps have not factored yet. */
  ghost function Rest(m: Matrix, s: int, i: int, j: int): real {
    if s <= i && s <= j then Entry(m, i, j) else 0.0
  }

  ghost function Product(m: Matrix, s: nat, i: int, j: int): real {
    Sum(k => Lower(m, i, k) * Upper(m, k, j), s)
  }

  /** After `s` steps: pa == L * U + rest. */
  ghost predicate Factored(m: Matrix, pa: Matrix, s: nat, n: nat) {
    forall i, j :: 0 <= i < n && 0 <= j < n ==> Entry(pa, i, j) == Product(m, s, i, j) + Rest(m, s, i, j)
  }

  lemma UnfactoredIsRest(m: Matrix, n: nat)
    ensures Factored(m, m, 0, n)
  {
  }

  lemma SwapKeepsFactored(m: Matrix, pa: Matrix, s: nat, n: nat, p: int, q: int)
    requires Factored(m, pa, s, n)
    requires Square(m, n) && Square(pa, n)
    requires s <= p < n && s <= q < n
    ensures Factored(Swapped(m, p, q), Swapped(pa, p, q), s, n)
  {
    var m', pa' := Swapped(m, p, q), Swapped(pa, p, q);
    forall i, j | 0 <= i < n && 0 <= j < n
      ensures Entry(pa', i, j) == Product(m', s, i, j) + Rest(m', s, i, j)
    {
      var r := if i == p then q else if i == q then p else i;
      assert Entry(pa, r, j) == Product(m, s, r, j) + Rest(m, s, r, j);
      SumExt(k => Lower(m, r, k) * Upper(m, k, j), k => Lower(m', i, k) * Upper(m', k, j), s);
    }
  }

  /** One elimination step: the multipliers in column `s`, the reduced trailing block beyond it. */
  ghost function Eliminated(m: Matrix, s: int, i: int, j: int): real
    requires Entry(m, s, s) != 0.0
  {
    if i <= s || j < s then Entry(m, i, j)
    else if j == s then Entry(m, i, s) / Entry(m, s, s)
    else Entry(m, i, j) - Entry(m, i, s) / Entry(m, s, s) * Entry(m, s, j)
  }

  ghost predicate IsEliminated(m: Matrix, m': Matrix, s: nat, n: nat)
    requires Entry(m, s, s) != 0.0
  {
    forall i, j :: 0 <= i < n && 0 <= j < n ==> Entry(m', i, j) == Eliminated(m, s, i, j)
  }

  lemma StepKeepsProduct(m: Matrix, m': Matrix, s: nat, n: nat, i: int, j: int)
    requires s < n && Entry(m, s, s) != 0.0 && IsEliminated(m, m', s, n)
    requires 0 <= i < n && 0 <= j < n
    ensures Product(m', s, i, j) == Product(m, s, i, j)
  {
    forall k | 0 <= k < s
      ensures Lower(m, i, k) == Lower(m', i, k) && Upper(m, k, j) == Upper(m', k, j)
    {
      assert Entry(m', i, k) == Eliminated(m, s, i, k) && Entry(m', k, j) == Eliminated(m, s, k, j);
    }
    SumExt(k => Lower(m, i, k) * Upper(m, k, j), k => Lower(m', i, k) * Upper(m', k, j), s);
  }

  /** What the step takes from the rest is the new row of U times the new column of L. */
  lemma StepSplitsRest(m: Matrix, m': Matrix, s: nat, n: nat, i: int, j: int)
    requires s < n && Entry(m, s, s) != 0.0 && IsEliminated(m, m', s, n)
    requires 0 <= i < n && 0 <= j < n
    ensures Rest(m, s, i, j) == Lower(m', i, s) * Upper(m', s, j) + Rest(m', s + 1, i, j)
  {
    assert Entry(m', i, s) == Eliminated(m, s, i, s) && Entry(m', s, j) == Eliminated(m, s, s, j);
    assert Entry(m', i, j) == Eliminated(m, s, i, j);
    if i > s && j == s {
      assert Entry(m, i, s) / Entry(m, s, s) * Entry(m, s, s) == Entry(m, i, s);
    }
  }

  lemma StepFactors(m: Matrix, m': Matrix, pa: Matrix, s: nat, n: nat)
    requires Factored(m, pa, s, n)
    requires s < n && Entry(m, s, s) != 0.0 && IsEliminated(m, m', s, n)
    ensures Factored(m', pa, s + 1, n)
  {
    forall i, j | 0 <= i < n && 0 <= j < n
      ensures Entry(pa, i, j) == Product(m', s + 1, i, j) + Rest(m', s + 1, i, j)
    {
      hide Eliminated;
      hide IsEliminated;
      hide Lower;
      hide Upper;
      hide Rest;
      hide Product;
      hide Entry;
      StepKeepsProduct(m, m', s, n, i, j);
      StepSplitsRest(m, m', s, n, i, j);
      ProductStep(m', s, i, j);
    }
  }

  lemma ProductStep(m: Matrix, s: nat, i: int, j: int)
    ensures Product(m, s + 1, i, j) == Product(m, s, i, j) + Lower(m, i, s) * Upper(m, s, j)
  {
    hide Lower;
    hide Upper;
  }

  /** The last row needs no elimination. */
  lemma LastStepFactors(m: Matrix, pa: Matrix, n: nat)
    requires n > 0 && Factored(m, pa, n - 1, n)
    ensures Factored(m, pa, n, n)
  {
    forall i, j | 0 <= i < n && 0 <= j < n
      ensures Entry(pa, i, j) == Product(m, n, i, j) + Rest(m, n, i, j)
    {
      assert Product(m, n, i, j) == Product(m, n - 1, i, j) + Lower(m, i, n - 1) * Upper(m, n - 1, j);
    }
  }

  // ------------------------------------------------- what the factors imply

  ghost function UpperTimes(m: Matrix, k: int, x: Vector): real {
    Sum(j => Upper(m, k, j) * At(x, j), |x|)
  }

  ghost function RestTimes(m: Matrix, s: int, i: int, x: Vector): real {
    Sum(j => Rest(m, s, i, j) * At(x, j), |x|)
  }

  /** One term of L * (U * x). */
  ghost function Term(m: Matrix, i: int, x: Vector, j: int, k: int): real {
    Lower(m, i, k) * (Upper(m, k, j) * At(x, j))
  }

  ghost function Spread(m: Matrix, i: int, x: Vector): (int, int) -> real {
    (j, k) => Term(m, i, x, j, k)
  }

  lemma Regroup(a: real, b: real, c: real)
    ensures a * (b * c) == c * (a * b)
  {
  }

  lemma SpreadByColumn(m: Matrix, pa: Matrix, s: nat, n: nat, i: int, x: Vector, j: int)
    requires Factored(m, pa, s, n) && 0 <= i < n && 0 <= j < n
    ensures Entry(pa, i, j) * At(x, j) == RowSum(Spread(m, i, x), j, s) + 1.0 * (Rest(m, s, i, j) * At(x, j))
  {
    hide Sum;
    hide Lower;
    hide Upper;
    hide Rest;
    hide At;
    hide Entry;
    assert Entry(pa, i, j) == Product(m, s, i, j) + Rest(m, s, i, j);
    var g, h := k => Lower(m, i, k) * Upper(m, k, j), k => Spread(m, i, x)(j, k);
    forall k | 0 <= k < s
      ensures h(k) == At(x, j) * g(k)
    {
      assert Spread(m, i, x)(j, k) == Term(m, i, x, j, k);
      assert h(k) == Spread(m, i, x)(j, k);
      Regroup(Lower(m, i, k), Upper(m, k, j), At(x, j));
    }
    SumScale(g, h, At(x, j), s);
  }

  lemma SpreadByFactor(m: Matrix, i: int, x: Vector, k: int)
    ensures ColumnSum(Spread(m, i, x), k, |x|) == Lower(m, i, k) * UpperTimes(m, k, x)
  {
    hide Sum;
    hide Lower;
    hide Upper;
    hide At;
    var g, h := j => Upper(m, k, j) * At(x, j), j => Spread(m, i, x)(j, k);
    forall j | 0 <= j < |x|
      ensures h(j) == Lower(m, i, k) * g(j)
    {
      assert Spread(m, i, x)(j, k) == Term(m, i, x, j, k);
      assert h(j) == Spread(m, i, x)(j, k);
    }
    SumScale(g, h, Lower(m, i, k), |x|);
  }

  ghost function LowerTimes(m: Matrix, i: int, y: Vector): real {
    Sum(k => Lower(m, i, k) * At(y, k), |y|)
  }

  /** The first `s` entries of U * x. */
  ghost function UpperImage(m: Matrix, x: Vector, s: nat): (y: Vector)
    ensures |y| == s
    ensures forall k :: 0 <= k < s ==> y[k] == UpperTimes(m, k, x)
  {
    seq(s, k requires 0 <= k < s => UpperTimes(m, k, x))
  }

  lemma SpreadTimes(m: Matrix, pa: Matrix, s: nat, n: nat, i: int, x: Vector)
    requires Factored(m, pa, s, n) && |x| == n && 0 <= i < n
    ensures RowTimes(pa, i, x) == Sum(j => RowSum(Spread(m, i, x), j, s), n) + RestTimes(m, s, i, x)
  {
    hide Rest;
    hide Entry;
    hide At;
    hide Sum;
    hide RowSum;
    forall j | 0 <= j < n {
      SpreadByColumn(m, pa, s, n, i, x, j);
    }
    SumLinear(j => RowSum(Spread(m, i, x), j, s), j => Rest(m, s, i, j) * At(x, j), j => Entry(pa, i, j) * At(x, j), 1.0, n);
  }

  /** pa * x == L * (U * x) + rest * x. */
  lemma FactoredTimes(m: Matrix, pa: Matrix, s: nat, n: nat, i: int, x: Vector)
    requires Factored(m, pa, s, n) && |x| == n && 0 <= i < n
    ensures RowTimes(pa, i, x) == LowerTimes(m, i, UpperImage(m, x, s)) + RestTimes(m, s, i, x)
  {
    hide Lower;
    hide Upper;
    hide Rest;
    hide Factored;
    hide Sum;
    SpreadTimes(m, pa, s, n, i, x);
    var f := Spread(m, i, x);
    SumSwap(f, n, s);
    forall k | 0 <= k < s {
      SpreadByFactor(m, i, x, k);
    }
    var y := UpperImage(m, x, s);
    SumExt(k => ColumnSum(f, k, n), k => Lower(m, i, k) * At(y, k), s);
  }

  ghost function StrictLowerTimes(m: Matrix, i: int, y: Vector, k: nat): real {
    Sum(c => Entry(m, i, c) * At(y, c), k)
  }

  /** Row `i` of the lower system, for as many unknowns as are known. */
  ghost predicate LowerRowSolved(m: Matrix, i: nat, y: Vector, b: real)
    requires i < |y|
  {
    StrictLowerTimes(m, i, y, i) + y[i] == b
  }

  lemma LowerTimesSplit(m: Matrix, i: nat, y: Vector)
    requires i < |y|
    ensures LowerTimes(m, i, y) == StrictLowerTimes(m, i, y, i) + y[i]
  {
    var f := k => Lower(m, i, k) * At(y, k);
    SumTail(f, i + 1, |y|);
    SumExt(f, c => Entry(m, i, c) * At(y, c), i);
  }

  /** Two triangular systems solved one after the other solve the factored one. */
  lemma SubstitutionSolves(m: Matrix, pa: Matrix, n: nat, x: Vector, y: Vector, b: Vector)
    requires Factored(m, pa, n, n) && |pa| == |x| == |y| == |b| == n
    requires forall i :: 0 <= i < n ==> LowerRowSolved(m, i, y, b[i])
    requires forall k :: 0 <= k < n ==> UpperTimes(m, k, x) == y[k]
    ensures Solves(pa, x, b)
  {
    assert UpperImage(m, x, n) == y;
    forall i | 0 <= i < n
      ensures RowTimes(pa, i, x) == b[i]
    {
      FactoredTimes(m, pa, n, n, i, x);
      SumZero(j => Rest(m, n, i, j) * At(x, j), n);
      LowerTimesSplit(m, i, y);
      assert LowerRowSolved(m, i, y, b[i]);
    }
  }

  /** A unit lower triangular matrix has only the zero vector in its kernel. */
  lemma {:induction false} LowerKernelIsZero(m: Matrix, y: Vector, i: int)
    requires forall r :: 0 <= r < |y| ==> LowerTimes(m, r, y) == 0.0
    requires 0 <= i < |y|
    ensures y[i] == 0.0
  {
    forall k | 0 <= k < i
      ensures y[k] == 0.0
    {
      LowerKernelIsZero(m, y, k);
    }
    LowerTimesSplit(m, i, y);
    SumZero(c => Entry(m, i, c) * At(y, c), i);
    assert LowerTimes(m, i, y) == 0.0;
  }

  /** With nonzero pivots, an upper triangular matrix has only zero in its kernel. */
  lemma {:induction false} UpperKernelIsZero(m: Matrix, x: Vector, p: nat, k: int)
    requires p <= |x|
    requires forall r :: 0 <= r < p ==> UpperTimes(m, r, x) == 0.0 && Entry(m, r, r) != 0.0
    requires forall j :: p <= j < |x| ==> x[j] == 0.0
    requires 0 <= k < |x|
    ensures x[k] == 0.0
    decreases |x| - k
  {
    if k < p {
      forall j | k < j < |x|
        ensures x[j] == 0.0
      {
        UpperKernelIsZero(m, x, p, j);
      }
      SumSingle(j => Upper(m, k, j) * At(x, j), |x|, k);
    }
  }

  /** Nonzero pivots in the first `p` columns: no nonzero kernel vector lives on those columns. */
  lemma PivotsExcludeKernel(m: Matrix, pa: Matrix, n: nat, p: nat, x: Vector)
    requires Factored(m, pa, n, n) && |pa| == |x| == n && p <= n
    requires forall k :: 0 <= k < p ==> Entry(m, k, k) != 0.0
    requires forall j :: p <= j < n ==> x[j] == 0.0
    requires Solves(pa, x, Zeros(n))
    ensures x == Zeros(n)
  {
    var ux := UpperImage(m, x, n);
    forall i | 0 <= i < n
      ensures LowerTimes(m, i, ux) == 0.0
    {
      assert RowTimes(pa, i, x) == 0.0;
      FactoredTimes(m, pa, n, n, i, x);
      SumZero(j => Rest(m, n, i, j) * At(x, j), n);
    }
    forall r | 0 <= r < p
      ensures UpperTimes(m, r, x) == 0.0
    {
      LowerKernelIsZero(m, ux, r);
    }
    forall k | 0 <= k < n
      ensures x[k] == 0.0
    {
      UpperKernelIsZero(m, x, p, k);
    }
  }

  lemma UpperTimesUpdate(m: Matrix, k: int, x: Vector, j: int, t: real)
    requires 0 <= j < |x|
    ensures UpperTimes(m, k, x[j := t]) == UpperTimes(m, k, x) + Upper(m, k, j) * (t - x[j])
  {
    var d := Upper(m, k, j) * (t - x[j]);
    var f, g, h := i => Upper(m, k, i) * At(x, i), i => if i == j then d else 0.0, i => Upper(m, k, i) * At(x[j := t], i);
    SumSingle(g, |x|, j);
    assert h(j) == f(j) + 1.0 * g(j) by {
      assert Upper(m, k, j) * t == Upper(m, k, j) * x[j] + Upper(m, k, j) * (t - x[j]);
    }
    SumLinear(f, g, h, 1.0, |x|);
  }

  /** Back substitution finds a vector that the first `s` rows of U send to zero. */
  lemma {:induction false} UpperKernelVector(m: Matrix, n: nat, s: nat, k: nat) returns (v: Vector)
    requires k <= s < n
    requires forall r :: 0 <= r < s ==> Entry(m, r, r) != 0.0
    ensures |v| == n && v[s] == 1.0
    ensures forall j :: s < j < n ==> v[j] == 0.0
    ensures forall r :: k <= r < s ==> UpperTimes(m, r, v) == 0.0
    decreases s - k
  {
    if k == s {
      v := Zeros(n)[s := 1.0];
    } else {
      var u := UpperKernelVector(m, n, s, k + 1);
      var t := u[k] - UpperTimes(m, k, u) / Entry(m, k, k);
      v := u[k := t];
      forall r | k <= r < s
        ensures UpperTimes(m, r, v) == 0.0
      {
        UpperTimesUpdate(m, r, u, k, t);
      }
    }
  }

  /** A column without a pivot gives a kernel vector that ends in that column. */
  lemma MissingPivotGivesKernel(m: Matrix, pa: Matrix, n: nat, s: nat) returns (v: Vector)
    requires Factored(m, pa, s, n) && s < n && |pa| == n
    requires forall k :: 0 <= k < s ==> Entry(m, k, k) != 0.0
    requires forall i :: s <= i < n ==> Entry(m, i, s) == 0.0
    ensures |v| == n && v[s] == 1.0
    ensures forall j :: s < j < n ==> v[j] == 0.0
    ensures Solves(pa, v, Zeros(n))
  {
    v := UpperKernelVector(m, n, s, 0);
    forall i | 0 <= i < n
      ensures RowTimes(pa, i, v) == 0.0
    {
      FactoredTimes(m, pa, s, n, i, v);
      SumZero(k => Lower(m, i, k) * At(UpperImage(m, v, s), k), s);
      SumZero(j => Rest(m, s, i, j) * At(v, j), n);
    }
  }

  // -------------------------------------------------------- row permutations

  ghost predicate Permutation(perm: seq<int>, n: nat) {
    && |perm| == n
    && (forall i :: 0 <= i < n ==> 0 <= perm[i] < n)
    && (forall r :: 0 <= r < n ==> r in perm)
  }

  ghost function Permuted<T>(a: seq<T>, perm: seq<int>): (pa: seq<T>)
    requires Permutation(perm, |a|)
    ensures |pa| == |a|
  {
    seq(|a|, i requires 0 <= i < |a| => a[perm[i]])
  }

  lemma SwapKeepsPermutation(perm: seq<int>, n: nat, p: int, q: int)
    requires Permutation(perm, n) && 0 <= p < n && 0 <= q < n
    ensures Permutation(Swapped(perm, p, q), n)
  {
    forall r | 0 <= r < n
      ensures r in Swapped(perm, p, q)
    {
      assert r in perm;
      var i :| 0 <= i < n && perm[i] == r;
      assert Swapped(perm, p, q)[if i == p then q else if i == q then p else i] == r;
    }
  }

  lemma SwapCommutesWithPermuting<T>(a: seq<T>, perm: seq<int>, p: int, q: int)
    requires Permutation(perm, |a|) && 0 <= p < |a| && 0 <= q < |a|
    requires Permutation(Swapped(perm, p, q), |a|)
    ensures Permuted(a, Swapped(perm, p, q)) == Swapped(Permuted(a, perm), p, q)
  {
  }

  /** Permuting the equations does not change the solutions. */
  lemma PermutedSolves(a: Matrix, perm: seq<int>, x: Vector, b: Vector)
    requires Permutation(perm, |a|) && |b| == |a|
    ensures Solves(Permuted(a, perm), x, Permuted(b, perm)) <==> Solves(a, x, b)
  {
    var pa, pb := Permuted(a, perm), Permuted(b, perm);
    forall i | 0 <= i < |a|
      ensures RowTimes(pa, i, x) == RowTimes(a, perm[i], x)
    {
      SumExt(j => Entry(pa, i, j) * At(x, j), j => Entry(a, perm[i], j) * At(x, j), |x|);
    }
    if Solves(pa, x, pb) {
      forall r | 0 <= r < |a|
        ensures RowTimes(a, r, x) == b[r]
      {
        assert r in perm;
        var i :| 0 <= i < |a| && perm[i] == r;
        assert RowTimes(pa, i, x) == pb[i];
      }
    }
  }

  // --------------------------------------------------------------- the solver

  /** The row at or below `step` whose entry in column `step` is largest in magnitude. */
  method FindPivot(A: array2<real>, step: int) returns (iMax: int, dMax: real)
    requires 0 <= step < A.Length0 && A.Length0 == A.Length1
    ensures step <= iMax < A.Length0 && dMax == Abs(A[iMax, step])
    ensures forall i :: step <= i < A.Length0 ==> Abs(A[i, step]) <= dMax
  {
    iMax, dMax := step, Abs(A[step, step]);
    for i := step + 1 to A.Length0
      invariant step <= iMax < A.Length0 && dMax == Abs(A[iMax, step])
      invariant forall r :: step <= r < i ==> Abs(A[r, step]) <= dMax
    {
      if Abs(A[i, step]) > dMax {
        iMax, dMax := i, Abs(A[i, step]);
      }
    }
  }

  method SwapRows(A: array2<real>, p: int, q: int)
    requires 0 <= p < A.Length0 && 0 <= q < A.Length0
    modifies A
    ensures Rows(A) == Swapped(old(Rows(A)), p, q)
  {
    for iCol := 0 to A.Length1
      invariant forall j :: 0 <= j < iCol ==> A[p, j] == old(A[q, j]) && A[q, j] == old(A[p, j])
      invariant forall j :: iCol <= j < A.Length1 ==> A[p, j] == old(A[p, j]) && A[q, j] == old(A[q, j])
      invariant forall i, j :: 0 <= i < A.Length0 && i != p && i != q && 0 <= j < A.Length1 ==> A[i, j] == old(A[i, j])
    {
      A[p, iCol], A[q, iCol] := A[q, iCol], A[p, iCol];
    }
    ghost var now, want := Rows(A), Swapped(old(Rows(A)), p, q);
    forall i | 0 <= i < |now|
      ensures now[i] == want[i]
    {
    }
  }

  /** One elimination step of the factorisation, column by column. */
  method Eliminate(A: array2<real>, step: int)
    requires 0 <= step < A.Length0 && A.Length0 == A.Length1 && A[step, step] != 0.0
    modifies A
    ensures Entry(old(Rows(A)), step, step) != 0.0
    ensures IsEliminated(old(Rows(A)), Rows(A), step, A.Length0)
  {
    ghost var m, n := Rows(A), A.Length0;
    for iRow := step + 1 to A.Length0
      invariant forall i, j :: 0 <= i < n && 0 <= j < n ==>
        A[i, j] == if step < i < iRow && j == step then Eliminated(m, step, i, j) else Entry(m, i, j)
    {
      A[iRow, step] := A[iRow, step] / A[step, step];
    }
    for iCol := step + 1 to A.Length0
      invariant forall i, j :: 0 <= i < n && 0 <= j < n ==>
        A[i, j] == if j < iCol then Eliminated(m, step, i, j) else Entry(m, i, j)
    {
      for iRow := step + 1 to A.Length0
        invariant forall i, j :: 0 <= i < n && 0 <= j < n ==>
          A[i, j] == if j < iCol || (j == iCol && i < iRow) then Eliminated(m, step, i, j) else Entry(m, i, j)
      {
        A[iRow, iCol] := A[iRow, iCol] - A[iRow, step] * A[step, iCol];
      }
    }
  }

  /** No nonzero combination of the columns before the last one vanishes. */
  ghost predicate LeadingColumnsIndependent(a: Matrix, n: nat) {
    forall x: Vector :: |x| == n && (n > 0 ==> x[n - 1] == 0.0) && Solves(a, x, Zeros(|a|)) ==> x == Zeros(n)
  }

  lemma KernelRefutesIndependence(a: Matrix, perm: seq<int>, n: nat, s: nat, m: Matrix)
    requires |a| == n && Permutation(perm, n) && Factored(m, Permuted(a, perm), s, n)
    requires forall k :: 0 <= k < s ==> Entry(m, k, k) != 0.0
    requires s < n && forall i :: s <= i < n ==> Entry(m, i, s) == 0.0
    ensures !Nonsingular(a, n)
    ensures s < n - 1 ==> !LeadingColumnsIndependent(a, n)
  {
    var v := MissingPivotGivesKernel(m, Permuted(a, perm), n, s);
    assert Permuted(Zeros(n), perm) == Zeros(n);
    PermutedSolves(a, perm, v, Zeros(n));
    assert v[s] != Zeros(n)[s];
  }

  lemma PivotsGiveIndependence(a: Matrix, perm: seq<int>, n: nat, m: Matrix)
    requires |a| == n && Permutation(perm, n) && Factored(m, Permuted(a, perm), n, n)
    requires forall k :: 0 <= k < n - 1 ==> Entry(m, k, k) != 0.0
    ensures LeadingColumnsIndependent(a, n)
    ensures n > 0 && Entry(m, n - 1, n - 1) != 0.0 ==> Nonsingular(a, n)
  {
    assert Permuted(Zeros(n), perm) == Zeros(n);
    forall x: Vector | |x| == n && Solves(a, x, Zeros(n))
      ensures (n > 0 ==> x[n - 1] == 0.0) ==> x == Zeros(n)
      ensures n > 0 && Entry(m, n - 1, n - 1) != 0.0 ==> x == Zeros(n)
    {
      PermutedSolves(a, perm, x, Zeros(n));
      if n > 0 && x[n - 1] == 0.0 {
        PivotsExcludeKernel(m, Permuted(a, perm), n, n - 1, x);
      }
      if n > 0 && Entry(m, n - 1, n - 1) != 0.0 {
        PivotsExcludeKernel(m, Permuted(a, perm), n, n, x);
      }
    }
  }

  /** Overwrites A by the packed factors of A with its rows permuted; gives up on a column without a pivot. */
  method Factorise(A: array2<real>, perm: array<int>, eps: real) returns (ok: bool)
    requires A.Length0 == A.Length1 == perm.Length && eps >= 0.0
    modifies A, perm
    ensures Permutation(perm[..], A.Length0)
    ensures ok ==> Factored(Rows(A), Permuted(old(Rows(A)), perm[..]), A.Length0, A.Length0)
    ensures ok ==> forall k :: 0 <= k < A.Length0 - 1 ==> A[k, k] != 0.0
    ensures !ok && eps == 0.0 ==> !LeadingColumnsIndependent(old(Rows(A)), A.Length0)
    ensures !ok && eps == 0.0 ==> !Nonsingular(old(Rows(A)), A.Length0)
  {
    ghost var a, n := Rows(A), A.Length0;
    IdentityPermutation(perm, a);
    assert Rows(A) == a;
    UnfactoredIsRest(a, n);
    if A.Length0 == 0 {
      return true;
    }
    hide Factored;
    for step := 0 to A.Length0 - 1
      invariant Permutation(perm[..], n)
      invariant Factored(Rows(A), Permuted(a, perm[..]), step, n)
      invariant forall k :: 0 <= k < step ==> A[k, k] != 0.0
    {
      ok := FactorStep(A, perm, step, eps, a);
      if !ok {
        return;
      }
    }
    LastStepFactors(Rows(A), Permuted(a, perm[..]), n);
    ok := true;
  }

  method IdentityPermutation(perm: array<int>, ghost a: Matrix)
    requires perm.Length == |a|
    modifies perm
    ensures Permutation(perm[..], |a|) && Permuted(a, perm[..]) == a
  {
    for iRow := 0 to perm.Length
      invariant forall i :: 0 <= i < iRow ==> perm[i] == i
    {
      perm[iRow] := iRow;
    }
    forall r | 0 <= r < |a|
      ensures r in perm[..]
    {
      assert perm[..][r] == r;
    }
  }

  /** Pivot, swap and eliminate in column `step`. */
  method FactorStep(A: array2<real>, perm: array<int>, step: int, eps: real, ghost a: Matrix) returns (ok: bool)
    requires A.Length0 == A.Length1 == perm.Length == |a| && eps >= 0.0
    requires Square(a, A.Length0) && Permutation(perm[..], A.Length0)
    requires 0 <= step < A.Length0 - 1
    requires Factored(Rows(A), Permuted(a, perm[..]), step, A.Length0)
    requires forall k :: 0 <= k < step ==> A[k, k] != 0.0
    modifies A, perm
    ensures Permutation(perm[..], A.Length0)
    ensures ok ==> Factored(Rows(A), Permuted(a, perm[..]), step + 1, A.Length0)
    ensures ok ==> forall k :: 0 <= k <= step ==> A[k, k] != 0.0
    ensures !ok && eps == 0.0 ==> !LeadingColumnsIndependent(a, A.Length0) && !Nonsingular(a, A.Length0)
  {
    hide Factored;
    var iMax, dMax := FindPivot(A, step);
    if dMax <= eps {
      if eps == 0.0 {
        KernelRefutesIndependence(a, perm[..], A.Length0, step, Rows(A));
      }
      return false;
    }
    PivotRow(A, perm, step, iMax, a);
    ghost var m := Rows(A);
    Eliminate(A, step);
    StepFactors(m, Rows(A), Permuted(a, perm[..]), step, A.Length0);
    forall k | 0 <= k <= step
      ensures A[k, k] != 0.0
    {
      assert Entry(Rows(A), k, k) == Eliminated(m, step, k, k);
    }
    ok := true;
  }

  /** Brings the pivot row up, in the matrix and in the permutation alike. */
  method PivotRow(A: array2<real>, perm: array<int>, step: int, iMax: int, ghost a: Matrix)
    requires A.Length0 == A.Length1 == perm.Length == |a|
    requires 0 <= step <= iMax < A.Length0 && A[iMax, step] != 0.0
    requires Square(a, A.Length0) && Permutation(perm[..], A.Length0)
    requires Factored(Rows(A), Permuted(a, perm[..]), step, A.Length0)
    modifies A, perm
    ensures Permutation(perm[..], A.Length0)
    ensures Factored(Rows(A), Permuted(a, perm[..]), step, A.Length0)
    ensures A[step, step] != 0.0
    ensures forall k :: 0 <= k < step ==> A[k, k] == old(A[k, k])
  {
    if iMax != step {
      ghost var p, m := perm[..], Rows(A);
      SwapKeepsPermutation(p, |a|, iMax, step);
      SwapCommutesWithPermuting(a, p, iMax, step);
      SwapKeepsFactored(m, Permuted(a, p), step, |a|, iMax, step);
      perm[iMax], perm[step] := perm[step], perm[iMax];
      assert perm[..] == Swapped(p, iMax, step);
      SwapRows(A, iMax, step);
    }
  }

  lemma StrictLowerTimesExtends(m: Matrix, i: int, y: Vector, t: real, k: nat)
    requires k <= |y|
    ensures StrictLowerTimes(m, i, y + [t], k) == StrictLowerTimes(m, i, y, k)
  {
    SumExt(c => Entry(m, i, c) * At(y + [t], c), c => Entry(m, i, c) * At(y, c), k);
  }

  method ForwardRow(A: array2<real>, b: real, X: array2<real>, iRow: int, iCol: int, ghost y: Vector)
    requires A.Length0 == A.Length1 == X.Length0 && X != A
    requires 0 <= iRow < X.Length0 && 0 <= iCol < X.Length1
    requires |y| == iRow && forall k :: 0 <= k < iRow ==> X[k, iCol] == y[k]
    modifies X
    ensures forall i, c :: 0 <= i < X.Length0 && 0 <= c < X.Length1 && !(i == iRow && c == iCol) ==> X[i, c] == old(X[i, c])
    ensures StrictLowerTimes(Rows(A), iRow, y, iRow) + X[iRow, iCol] == b
  {
    X[iRow, iCol] := b;
    for k := 0 to iRow
      invariant forall i, c :: 0 <= i < X.Length0 && 0 <= c < X.Length1 && !(i == iRow && c == iCol) ==> X[i, c] == old(X[i, c])
      invariant X[iRow, iCol] == b - StrictLowerTimes(Rows(A), iRow, y, k)
    {
      X[iRow, iCol] := X[iRow, iCol] - A[iRow, k] * X[k, iCol];
    }
  }

  /** L * y == the permuted right-hand side, into column `iCol` of X. */
  method ForwardSubstitute(A: array2<real>, perm: array<int>, RHS: array2<real>, X: array2<real>, iCol: int)
    requires A.Length0 == A.Length1 == perm.Length == RHS.Length0 == X.Length0
    requires X != A && X != RHS
    requires RHS.Length1 == X.Length1 && 0 <= iCol < X.Length1
    requires Permutation(perm[..], A.Length0)
    modifies X
    ensures forall i :: 0 <= i < A.Length0 ==> LowerRowSolved(Rows(A), i, Column(X, iCol), RHS[perm[i], iCol])
    ensures forall i, c :: 0 <= i < X.Length0 && 0 <= c < X.Length1 && c != iCol ==> X[i, c] == old(X[i, c])
  {
    ghost var m := Rows(A);
    ghost var y: Vector := [];
    for iRow := 0 to A.Length0
      invariant |y| == iRow && forall k :: 0 <= k < iRow ==> X[k, iCol] == y[k]
      invariant forall i :: 0 <= i < iRow ==> LowerRowSolved(m, i, y, RHS[perm[i], iCol])
      invariant forall i, c :: 0 <= i < X.Length0 && 0 <= c < X.Length1 && c != iCol ==> X[i, c] == old(X[i, c])
    {
      ForwardRow(A, RHS[perm[iRow], iCol], X, iRow, iCol, y);
      ghost var t := X[iRow, iCol];
      forall i | 0 <= i <= iRow
        ensures LowerRowSolved(m, i, y + [t], RHS[perm[i], iCol])
      {
        StrictLowerTimesExtends(m, i, y, t, i);
      }
      y := y + [t];
    }
    assert y == Column(X, iCol);
  }

  /** A quotient; what a division by zero leaves behind (an infinity or a NaN) is not modelled and reads as `undefined`. */
  function Quotient(a: real, b: real, undefined: real): real {
    if b == 0.0 then undefined else a / b
  }

  /** No cell but one has changed. */
  twostate predicate OthersKept(X: array2<real>, iRow: int, iCol: int)
    reads X
  {
    forall i, c :: 0 <= i < X.Length0 && 0 <= c < X.Length1 && !(i == iRow && c == iCol) ==> X[i, c] == old(X[i, c])
  }

  /** The row takes away everything right of the diagonal; `x` holds the unknowns found so far. */
  method BackSubtract(A: array2<real>, X: array2<real>, iRow: int, iCol: int, ghost x: Vector)
    requires A.Length0 == A.Length1 == X.Length0 == |x| && X != A
    requires 0 <= iRow < X.Length0 && 0 <= iCol < X.Length1
    requires forall k :: 0 <= k <= iRow ==> x[k] == 0.0
    requires forall k :: iRow < k < |x| ==> X[k, iCol] == x[k]
    modifies X
    ensures OthersKept(X, iRow, iCol)
    ensures X[iRow, iCol] == old(X[iRow, iCol]) - UpperTimes(Rows(A), iRow, x)
  {
    ghost var m, y := Rows(A), X[iRow, iCol];
    ghost var f := UpperTerms(m, iRow, x);
    UpperHead(m, iRow, x);
    hide Upper;
    hide UpperTerms;
    hide At;
    hide Sum;
    hide UpperTimes;
    hide Times;
    for k := iRow + 1 to A.Length0
      invariant OthersKept(X, iRow, iCol)
      invariant X[iRow, iCol] == y - Sum(f, k)
    {
      SumStep(f, k);
      UpperTerm(m, iRow, x, k);
      X[iRow, iCol] := X[iRow, iCol] - Times(A[iRow, k], X[k, iCol]);
    }
  }

  /** Row `iRow` of the upper system, solved for its own unknown. */
  method BackRow(A: array2<real>, X: array2<real>, iRow: int, iCol: int, undefined: real, ghost x: Vector)
    requires A.Length0 == A.Length1 == X.Length0 == |x| && X != A
    requires 0 <= iRow < X.Length0 && 0 <= iCol < X.Length1
    requires forall k :: 0 <= k <= iRow ==> x[k] == 0.0
    requires forall k :: iRow < k < |x| ==> X[k, iCol] == x[k]
    modifies X
    ensures OthersKept(X, iRow, iCol)
    ensures A[iRow, iRow] != 0.0 ==>
      UpperTimes(Rows(A), iRow, x) + A[iRow, iRow] * X[iRow, iCol] == old(X[iRow, iCol])
  {
    hide UpperTimes;
    hide Quotient;
    BackSubtract(A, X, iRow, iCol, x);
    if A[iRow, iRow] != 0.0 {
      QuotientTimes(X[iRow, iCol], A[iRow, iRow], undefined);
    }
    X[iRow, iCol] := Quotient(X[iRow, iCol], A[iRow, iRow], undefined);
  }

  ghost function UpperTerms(m: Matrix, i: int, x: Vector): int -> real {
    j => Upper(m, i, j) * At(x, j)
  }

  lemma UpperTerm(m: Matrix, i: int, x: Vector, k: int)
    requires 0 <= i < k < |x| && |m| > i && |m[i]| > k
    ensures UpperTerms(m, i, x)(k) == Times(m[i][k], x[k])
  {
  }

  lemma UpperHead(m: Matrix, i: int, x: Vector)
    requires 0 <= i < |x| && forall k :: 0 <= k <= i ==> x[k] == 0.0
    ensures Sum(UpperTerms(m, i, x), i + 1) == 0.0
    ensures Sum(UpperTerms(m, i, x), |x|) == UpperTimes(m, i, x)
  {
    SumZero(UpperTerms(m, i, x), i + 1);
  }

  lemma QuotientTimes(n: real, d: real, undefined: real)
    requires d != 0.0
    ensures d * Quotient(n, d, undefined) == n
  {
  }

  /** The rows from `iRow` on of U * x == y. */
  ghost predicate UpperRowsSolved(m: Matrix, x: Vector, y: Vector, iRow: nat) {
    |x| == |y| && forall k :: iRow <= k < |x| ==> UpperTimes(m, k, x) == y[k]
  }

  lemma NoRowsLeft(m: Matrix, x: Vector, y: Vector, n: nat)
    requires |x| == |y| == n
    ensures UpperRowsSolved(m, x, y, n)
  {
  }

  lemma BackStepSolvesRow(m: Matrix, x: Vector, y: Vector, iRow: nat, t: real)
    requires iRow < |x| && UpperRowsSolved(m, x, y, iRow + 1) && x[iRow] == 0.0
    requires UpperTimes(m, iRow, x) + Entry(m, iRow, iRow) * t == y[iRow]
    ensures UpperRowsSolved(m, x[iRow := t], y, iRow)
  {
    forall k | iRow <= k < |x|
      ensures UpperTimes(m, k, x[iRow := t]) == y[k]
    {
      UpperTimesUpdate(m, k, x, iRow, t);
    }
  }

  /** U * x == y, in place in column `iCol` of X, when no pivot is zero. */
  method BackSubstitute(A: array2<real>, X: array2<real>, iCol: int, undefined: real)
    requires A.Length0 == A.Length1 == X.Length0 && X != A
    requires 0 <= iCol < X.Length1
    modifies X
    ensures (forall k :: 0 <= k < A.Length0 ==> A[k, k] != 0.0) ==>
      UpperRowsSolved(Rows(A), Column(X, iCol), old(Column(X, iCol)), 0)
    ensures forall i, c :: 0 <= i < X.Length0 && 0 <= c < X.Length1 && c != iCol ==> X[i, c] == old(X[i, c])
  {
    hide UpperRowsSolved;
    hide UpperTimes;
    hide Rows;
    ghost var m, n, y := Rows(A), A.Length0, Column(X, iCol);
    ghost var good := forall k :: 0 <= k < n ==> A[k, k] != 0.0;
    ghost var x := Zeros(n);
    NoRowsLeft(m, x, y, n);
    for iRow := A.Length0 downto 0
      invariant |x| == n && (forall k :: 0 <= k < iRow ==> x[k] == 0.0 && X[k, iCol] == y[k])
      invariant forall k :: iRow <= k < n ==> X[k, iCol] == x[k]
      invariant good ==> UpperRowsSolved(m, x, y, iRow)
      invariant forall i, c :: 0 <= i < X.Length0 && 0 <= c < X.Length1 && c != iCol ==> X[i, c] == old(X[i, c])
    {
      BackRow(A, X, iRow, iCol, undefined, x);
      if good {
        assert A[iRow, iRow] != 0.0;
        BackStepSolvesRow(m, x, y, iRow, X[iRow, iCol]);
      }
      x := x[iRow := X[iRow, iCol]];
    }
    assert x == Column(X, iCol);
  }

  /** One column of the system: both substitutions. */
  method SolveColumn(A: array2<real>, perm: array<int>, RHS: array2<real>, X: array2<real>, iCol: int, undefined: real,
                     ghost a: Matrix)
    requires A.Length0 == A.Length1 == perm.Length == RHS.Length0 == X.Length0 == |a|
    requires X != A && X != RHS
    requires RHS.Length1 == X.Length1 && 0 <= iCol < X.Length1
    requires Permutation(perm[..], |a|) && Factored(Rows(A), Permuted(a, perm[..]), |a|, |a|)
    modifies X
    ensures (forall k :: 0 <= k < A.Length0 ==> A[k, k] != 0.0) ==> Solves(a, Column(X, iCol), Column(RHS, iCol))
    ensures forall i, c :: 0 <= i < X.Length0 && 0 <= c < X.Length1 && c != iCol ==> X[i, c] == old(X[i, c])
  {
    ghost var p, b := perm[..], Column(RHS, iCol);
    ForwardSubstitute(A, perm, RHS, X, iCol);
    ghost var y := Column(X, iCol);
    ghost var pb := Permuted(b, p);
    assert forall i :: 0 <= i < |a| ==> LowerRowSolved(Rows(A), i, y, pb[i]);
    BackSubstitute(A, X, iCol, undefined);
    if forall k :: 0 <= k < A.Length0 ==> A[k, k] != 0.0 {
      SubstitutionSolves(Rows(A), Permuted(a, p), |a|, Column(X, iCol), y, pb);
      PermutedSolves(a, p, Column(X, iCol), b);
    }
  }

  /**
   Solves A * X = RHS for every column, overwriting A by its factors. The last
   pivot is not looked at: the answer is true exactly when the columns before
   the last are independent, and then the system was solved if the last
   diagonal entry left in A is not zero.
   */
  method Solve(A: array2<real>, RHS: array2<real>, X: array2<real>, eps: real, undefined: real) returns (ok: bool)
    requires A.Length0 == A.Length1 == RHS.Length0 == X.Length0 && RHS.Length1 == X.Length1
    requires X != A && X != RHS && A != RHS
    modifies A, X
    ensures eps < 0.0 ==> !ok
    ensures eps == 0.0 ==> (ok <==> LeadingColumnsIndependent(old(Rows(A)), A.Length0))
    ensures eps == 0.0 && Nonsingular(old(Rows(A)), A.Length0) ==> ok
    ensures ok && A.Length0 > 0 ==> (Nonsingular(old(Rows(A)), A.Length0) <==> A[A.Length0 - 1, A.Length0 - 1] != 0.0)
    ensures ok && Nonsingular(old(Rows(A)), A.Length0) ==>
      forall c :: 0 <= c < X.Length1 ==> Solves(old(Rows(A)), Column(X, c), Column(RHS, c))
  {
    hide Factored;
    hide Solves;
    hide Nonsingular;
    hide LeadingColumnsIndependent;
    hide Permutation;
    hide Rows;
    hide Column;
    if eps < 0.0 {
      return false;
    }
    ghost var a, n := Rows(A), A.Length0;
    var perm := new int[A.Length0];
    ok := Factorise(A, perm, eps);
    if !ok {
      return;
    }
    FactorsTell(a, perm[..], n, Rows(A));
    SolveColumns(A, perm, RHS, X, undefined, a);
  }

  /** The packed factors show whether the matrix is singular. */
  lemma FactorsTell(a: Matrix, perm: seq<int>, n: nat, m: Matrix)
    requires |a| == n && Permutation(perm, n) && Factored(m, Permuted(a, perm), n, n)
    requires forall k :: 0 <= k < n - 1 ==> Entry(m, k, k) != 0.0
    ensures LeadingColumnsIndependent(a, n)
    ensures n > 0 ==> (Nonsingular(a, n) <==> Entry(m, n - 1, n - 1) != 0.0)
  {
    PivotsGiveIndependence(a, perm, n, m);
    if n > 0 && Entry(m, n - 1, n - 1) == 0.0 {
      LastPivotZeroIsSingular(a, perm, n, m);
    }
  }

  method SolveColumns(A: array2<real>, perm: array<int>, RHS: array2<real>, X: array2<real>, undefined: real, ghost a: Matrix)
    requires A.Length0 == A.Length1 == perm.Length == RHS.Length0 == X.Length0 == |a|
    requires X != A && X != RHS && RHS.Length1 == X.Length1
    requires Permutation(perm[..], |a|) && Factored(Rows(A), Permuted(a, perm[..]), |a|, |a|)
    modifies X
    ensures (forall k :: 0 <= k < A.Length0 ==> A[k, k] != 0.0) ==>
      forall c :: 0 <= c < X.Length1 ==> Solves(a, Column(X, c), Column(RHS, c))
  {
    hide Factored;
    hide Solves;
    hide Permutation;
    ghost var good := forall k :: 0 <= k < A.Length0 ==> A[k, k] != 0.0;
    for iCol := 0 to X.Length1
      invariant good ==> forall c :: 0 <= c < iCol ==> Solves(a, Column(X, c), Column(RHS, c))
    {
      label Before:
      SolveColumn(A, perm, RHS, X, iCol, undefined, a);
      forall c | 0 <= c < iCol
        ensures Column(X, c) == old@Before(Column(X, c))
      {
      }
    }
  }

  lemma LastPivotZeroIsSingular(a: Matrix, perm: seq<int>, n: nat, m: Matrix)
    requires |a| == n > 0 && Permutation(perm, n) && Factored(m, Permuted(a, perm), n, n)
    requires forall k :: 0 <= k < n - 1 ==> Entry(m, k, k) != 0.0
    requires Entry(m, n - 1, n - 1) == 0.0
    ensures !Nonsingular(a, n)
  {
    forall i, j | 0 <= i < n && 0 <= j < n
      ensures Entry(Permuted(a, perm), i, j) == Product(m, n - 1, i, j) + Rest(m, n - 1, i, j)
    {
      assert Product(m, n, i, j) == Product(m, n - 1, i, j) + Lower(m, i, n - 1) * Upper(m, n - 1, j);
    }
    KernelRefutesIndependence(a, perm, n, n - 1, m);
  }

  lemma TwoTerms(a: Matrix, i: int, x: Vector)
    requires |x| == 2
    ensures RowTimes(a, i, x) == Entry(a, i, 0) * x[0] + Entry(a, i, 1) * x[1]
  {
    var f := j => Entry(a, i, j) * At(x, j);
    SumStep(f, 0);
    SumStep(f, 1);
  }

  /** A singular matrix on which the solver answers true. */
  lemma TrueOnASingularMatrix()
    ensures LeadingColumnsIndependent([[1.0, 2.0], [2.0, 4.0]], 2) && !Nonsingular([[1.0, 2.0], [2.0, 4.0]], 2)
  {
    var a: Matrix := [[1.0, 2.0], [2.0, 4.0]];
    forall x: Vector | |x| == 2 && x[1] == 0.0 && Solves(a, x, Zeros(2))
      ensures x == Zeros(2)
    {
      TwoTerms(a, 0, x);
      assert RowTimes(a, 0, x) == Zeros(2)[0];
    }
    var v: Vector := [2.0, -1.0];
    TwoTerms(a, 0, v);
    TwoTerms(a, 1, v);
    assert Solves(a, v, Zeros(2)) && v[0] != Zeros(2)[0];
  }
}
