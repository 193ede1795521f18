/**
 Fitting the control point polynomial of order 1, 2 or 3: an exact solution when
 there are just enough active points, the least squares solution when there are
 more.
 */
module CrsFit {
  import opened LinearAlgebra
  import opened CrsSolver
  import opened LeastSquares
  import opened RealFacts

  datatype ControlPoint = ControlPoint(e1: real, n1: real, e2: real, n2: real, status: int)

  const MAXORDER := 3

  function TermCount(order: int): int {
    (order + 1) * (order + 2) / 2
  }

  /** Term number nTerm of the polynomial, counted from 1. */
  function Term(nTerm: int, e: real, n: real): real {
    if nTerm == 1 then 1.0
    else if nTerm == 2 then e
    else if nTerm == 3 then n
    else if nTerm == 4 then e * e
    else if nTerm == 5 then e * n
    else if nTerm == 6 then n * n
    else if nTerm == 7 then e * e * e
    else if nTerm == 8 then e * e * n
    else if nTerm == 9 then e * n * n
    else if nTerm == 10 then n * n * n
    else 0.0
  }

  ghost function TermRow(e: real, n: real, count: nat): (r: Vector)
    ensures |r| == count
    ensures forall j :: 0 <= j < count ==> r[j] == Term(j + 1, e, n)
  {
    seq(count, j requires 0 <= j < count => Term(j + 1, e, n))
  }

  // ------------------------------------------------------------- the data rows

  /** The terms of every active point, in order. */
  ghost function Design(cp: seq<ControlPoint>, xMean: real, yMean: real, n: nat): (t: Matrix)
    ensures forall p :: 0 <= p < |t| ==> |t[p]| == n
  {
    if cp == [] then []
    else
      var k := |cp| - 1;
      Design(cp[..k], xMean, yMean, n) +
      (if cp[k].status > 0 then [TermRow(cp[k].e1 - xMean, cp[k].n1 - yMean, n)] else [])
  }

  ghost function Eastings(cp: seq<ControlPoint>): Vector {
    if cp == [] then []
    else Eastings(cp[..|cp| - 1]) + (if cp[|cp| - 1].status > 0 then [cp[|cp| - 1].e2] else [])
  }

  ghost function Northings(cp: seq<ControlPoint>): Vector {
    if cp == [] then []
    else Northings(cp[..|cp| - 1]) + (if cp[|cp| - 1].status > 0 then [cp[|cp| - 1].n2] else [])
  }

  lemma {:induction false} DataSizes(cp: seq<ControlPoint>, xMean: real, yMean: real, n: nat)
    ensures |Design(cp, xMean, yMean, n)| == |Eastings(cp)| == |Northings(cp)|
  {
    if cp != [] {
      DataSizes(cp[..|cp| - 1], xMean, yMean, n);
    }
  }

  lemma DataStep(cp: seq<ControlPoint>, k: nat, xMean: real, yMean: real, n: nat)
    requires k < |cp|
    ensures Design(cp[..k + 1], xMean, yMean, n) ==
      if cp[k].status > 0 then Design(cp[..k], xMean, yMean, n) + [TermRow(cp[k].e1 - xMean, cp[k].n1 - yMean, n)]
      else Design(cp[..k], xMean, yMean, n)
    ensures Eastings(cp[..k + 1]) == if cp[k].status > 0 then Eastings(cp[..k]) + [cp[k].e2] else Eastings(cp[..k])
    ensures Northings(cp[..k + 1]) == if cp[k].status > 0 then Northings(cp[..k]) + [cp[k].n2] else Northings(cp[..k])
  {
    assert cp[..k + 1][..k] == cp[..k];
  }

  lemma {:induction false} DataGrow(cp: seq<ControlPoint>, k: nat, xMean: real, yMean: real, n: nat)
    requires k < |cp|
    ensures |DesignTo(cp, k, xMean, yMean, n)| <= |Design(cp, xMean, yMean, n)|
    ensures cp[k].status > 0 ==> |DesignTo(cp, k, xMean, yMean, n)| < |Design(cp, xMean, yMean, n)|
  {
    if k == |cp| - 1 {
    } else {
      var cp' := cp[..|cp| - 1];
      assert cp'[..k] == cp[..k];
      DataGrow(cp', k, xMean, yMean, n);
    }
  }

  // --------------------------------------------------------- the two fits

  /** Exactly as many active points as coefficients: fill the system and solve it. */
  method ExactDet(cp: seq<ControlPoint>, m: array2<real>, xMean: real, yMean: real,
                  a: array<real>, b: array<real>, E: array<real>, N: array<real>) returns (status: Status)
    requires m.Length0 == m.Length1 == a.Length == b.Length
    requires E.Length >= a.Length && N.Length >= a.Length
    requires a != b && E != N && a != E && a != N && b != E && b != N
    requires |Design(cp, xMean, yMean, m.Length0)| <= m.Length0
    modifies m, a, b, E, N
    ensures status == MINTERR <==> |Design(cp, xMean, yMean, m.Length0)| < m.Length0
    ensures status == MSUCCESS <==>
      |Design(cp, xMean, yMean, m.Length0)| == m.Length0 && Nonsingular(Design(cp, xMean, yMean, m.Length0), m.Length0)
    ensures status == MSUCCESS ==> Solves(Design(cp, xMean, yMean, m.Length0), E[..m.Length0], Eastings(cp))
    ensures status == MSUCCESS ==> Solves(Design(cp, xMean, yMean, m.Length0), N[..m.Length0], Northings(cp))
    ensures status in {MSUCCESS, MUNSOLVABLE, MINTERR}
    ensures status != MSUCCESS ==> E[..] == old(E[..]) && N[..] == old(N[..])
  {
    ghost var n := m.Length0;
    var currow := FillSystem(cp, m, xMean, yMean, a, b);
    if currow != m.Length0 {
      return MINTERR;
    }
    assert Rows(m)[..currow] == Rows(m) && a[..currow] == a[..] && b[..currow] == b[..];
    hide Nonsingular;
    hide Solves;
    hide OnlySolution;
    status := SolveMat(m, a, b, E, N);
  }

  /** One row of the system for every active point. */
  method FillSystem(cp: seq<ControlPoint>, m: array2<real>, xMean: real, yMean: real, a: array<real>, b: array<real>)
    returns (currow: int)
    requires m.Length0 == m.Length1 == a.Length == b.Length && a != b
    requires |Design(cp, xMean, yMean, m.Length0)| <= m.Length0
    modifies m, a, b
    ensures 0 <= currow == |Design(cp, xMean, yMean, m.Length0)| <= m.Length0
    ensures Rows(m)[..currow] == Design(cp, xMean, yMean, m.Length0)
    ensures a[..currow] == Eastings(cp) && b[..currow] == Northings(cp)
  {
    hide DesignTo;
    hide EastingsTo;
    hide NorthingsTo;
    hide Design;
    hide Eastings;
    hide Northings;
    hide TermRow;
    ghost var n := m.Length0;
    NoData(cp, xMean, yMean, n);
    AllData(cp, xMean, yMean, n);
    currow := 0;
    for pntnow := 0 to |cp|
      invariant 0 <= currow == |DesignTo(cp, pntnow, xMean, yMean, n)| <= n
      invariant Rows(m)[..currow] == DesignTo(cp, pntnow, xMean, yMean, n)
      invariant a[..currow] == EastingsTo(cp, pntnow) && b[..currow] == NorthingsTo(cp, pntnow)
    {
      DataStepTo(cp, pntnow, xMean, yMean, n);
      if cp[pntnow].status > 0 {
        DataGrow(cp, pntnow, xMean, yMean, n);
        FillRow(m, currow, cp[pntnow].e1 - xMean, cp[pntnow].n1 - yMean);
        a[currow] := cp[pntnow].e2;
        b[currow] := cp[pntnow].n2;
        currow := currow + 1;
      }
    }
  }

  method FillRow(m: array2<real>, row: int, e: real, n: real)
    requires 0 <= row < m.Length0
    modifies m
    ensures Rows(m) == old(Rows(m))[row := TermRow(e, n, m.Length1)]
  {
    for j := 0 to m.Length1
      invariant forall c :: 0 <= c < j ==> m[row, c] == Term(c + 1, e, n)
      invariant forall r, c :: 0 <= r < m.Length0 && r != row && 0 <= c < m.Length1 ==> m[r, c] == old(m[r, c])
    {
      m[row, j] := Term(j + 1, e, n);
    }
    forall r | 0 <= r < m.Length0
      ensures Rows(m)[r] == old(Rows(m))[row := TermRow(e, n, m.Length1)][r]
    {
    }
  }

  /** The upper half of the normal equations for the data seen so far. */
  ghost predicate UpperHalfSummed(m: Matrix, a: Vector, b: Vector, t: Matrix, ze: Vector, zn: Vector, n: nat) {
    && Square(m, n) && |a| == |b| == n
    && (forall i, j :: 0 <= i <= j < n ==> m[i][j] == NormalEntry(t, i, j))
    && (forall i :: 0 <= i < n ==> a[i] == NormalTarget(t, ze, i) && b[i] == NormalTarget(t, zn, i))
  }

  method ClearSums(m: array2<real>, a: array<real>, b: array<real>)
    requires m.Length0 == m.Length1 == a.Length == b.Length && a != b
    modifies m, a, b
    ensures Summed(m, a, b, [], [], [])
  {
    for i := 0 to m.Length0
      invariant forall r, c :: 0 <= r < i && r <= c < m.Length0 ==> m[r, c] == 0.0
      invariant forall r :: 0 <= r < i ==> a[r] == b[r] == 0.0
    {
      for j := i to m.Length1
        modifies m
        invariant forall r, c :: 0 <= r < i && r <= c < m.Length0 ==> m[r, c] == 0.0
        invariant forall c :: i <= c < j ==> m[i, c] == 0.0
      {
        m[i, j] := 0.0;
      }
      a[i], b[i] := 0.0, 0.0;
    }
  }

  /** What one point adds to row `i` of the upper half and to both targets. */
  ghost predicate RowAdded(m: Matrix, a: Vector, b: Vector, m': Matrix, a': Vector, b': Vector,
                           row: Vector, e2: real, n2: real, i: int, n: nat) {
    && Square(m, n) && Square(m', n) && |a| == |b| == |a'| == |b'| == |row| == n && 0 <= i < n
    && (forall r :: 0 <= r < n && r != i ==> m'[r] == m[r] && a'[r] == a[r] && b'[r] == b[r])
    && (forall c :: i <= c < n ==> m'[i][c] == m[i][c] + Times(row[i], row[c]))
    && a'[i] == a[i] + Times(e2, row[i])
    && b'[i] == b[i] + Times(n2, row[i])
  }

  method AddToRow(m: array2<real>, a: array<real>, b: array<real>, i: int, e: real, n: real, e2: real, n2: real)
    requires m.Length0 == m.Length1 == a.Length == b.Length && a != b && 0 <= i < m.Length0
    modifies m, a, b
    ensures RowAdded(old(Rows(m)), old(a[..]), old(b[..]), Rows(m), a[..], b[..], TermRow(e, n, m.Length0), e2, n2, i, m.Length0)
  {
    hide Term;
    hide RowAdded;
    hide TermRow;
    ghost var m0, a0, b0 := Rows(m), a[..], b[..];
    for j := i to m.Length1
      modifies m
      invariant forall r, c :: 0 <= r < m.Length0 && 0 <= c < m.Length1 && !(r == i && i <= c < j) ==> m[r, c] == old(m[r, c])
      invariant forall c :: i <= c < j ==> m[i, c] == old(m[i, c]) + Term(i + 1, e, n) * Term(c + 1, e, n)
    {
      m[i, j] := m[i, j] + Term(i + 1, e, n) * Term(j + 1, e, n);
    }
    a[i] := a[i] + e2 * Term(i + 1, e, n);
    b[i] := b[i] + n2 * Term(i + 1, e, n);
    RowIsAdded(m0, a0, b0, Rows(m), a[..], b[..], i, e, n, e2, n2, m.Length0);
  }

  lemma RowIsAdded(m: Matrix, a: Vector, b: Vector, m': Matrix, a': Vector, b': Vector, i: int,
                   e: real, n: real, e2: real, n2: real, size: nat)
    requires Square(m, size) && Square(m', size) && |a| == |b| == |a'| == |b'| == size && 0 <= i < size
    requires forall r, c :: 0 <= r < size && 0 <= c < size && !(r == i && i <= c) ==> m'[r][c] == m[r][c]
    requires forall c :: i <= c < size ==> m'[i][c] == m[i][c] + Term(i + 1, e, n) * Term(c + 1, e, n)
    requires a' == a[i := a[i] + e2 * Term(i + 1, e, n)] && b' == b[i := b[i] + n2 * Term(i + 1, e, n)]
    ensures RowAdded(m, a, b, m', a', b', TermRow(e, n, size), e2, n2, i, size)
  {
    hide Term;
    forall r | 0 <= r < size && r != i
      ensures m'[r] == m[r]
    {
      assert forall c :: 0 <= c < size ==> m'[r][c] == m[r][c];
    }
  }

  /** What one point has added to the first `k` rows of the upper half. */
  ghost predicate PointAdded(m: Matrix, a: Vector, b: Vector, m': Matrix, a': Vector, b': Vector,
                             row: Vector, e2: real, n2: real, k: int, n: nat) {
    && Square(m, n) && Square(m', n) && |a| == |b| == |a'| == |b'| == |row| == n
    && (forall i :: 0 <= i < n && k <= i ==> m'[i] == m[i] && a'[i] == a[i] && b'[i] == b[i])
    && (forall i, j :: 0 <= i <= j < n && i < k ==> m'[i][j] == m[i][j] + Times(row[i], row[j]))
    && (forall i :: 0 <= i < n && i < k ==> a'[i] == a[i] + Times(e2, row[i]) && b'[i] == b[i] + Times(n2, row[i]))
  }

  lemma RowCompletes(m: Matrix, a: Vector, b: Vector, m1: Matrix, a1: Vector, b1: Vector, m2: Matrix, a2: Vector, b2: Vector,
                     row: Vector, e2: real, n2: real, k: int, n: nat)
    requires PointAdded(m, a, b, m1, a1, b1, row, e2, n2, k, n)
    requires RowAdded(m1, a1, b1, m2, a2, b2, row, e2, n2, k, n)
    ensures PointAdded(m, a, b, m2, a2, b2, row, e2, n2, k + 1, n)
  {
    hide Times;
    forall i, j | 0 <= i <= j < n && i <= k
      ensures m2[i][j] == m[i][j] + Times(row[i], row[j])
    {
      assert i < k ==> m2[i] == m1[i];
      assert i == k ==> m1[i] == m[i];
    }
  }

  method AddPoint(m: array2<real>, a: array<real>, b: array<real>, e: real, n: real, e2: real, n2: real)
    requires m.Length0 == m.Length1 == a.Length == b.Length && a != b
    modifies m, a, b
    ensures PointAdded(old(Rows(m)), old(a[..]), old(b[..]), Rows(m), a[..], b[..],
                       TermRow(e, n, m.Length0), e2, n2, m.Length0, m.Length0)
  {
    ghost var m0, a0, b0, row := Rows(m), a[..], b[..], TermRow(e, n, m.Length0);
    for i := 0 to m.Length0
      invariant PointAdded(m0, a0, b0, Rows(m), a[..], b[..], row, e2, n2, i, m.Length0)
    {
      hide PointAdded;
      hide RowAdded;
      ghost var m1, a1, b1 := Rows(m), a[..], b[..];
      AddToRow(m, a, b, i, e, n, e2, n2);
      RowCompletes(m0, a0, b0, m1, a1, b1, Rows(m), a[..], b[..], row, e2, n2, i, m.Length0);
    }
  }

  lemma PointAddedSums(m: Matrix, a: Vector, b: Vector, m': Matrix, a': Vector, b': Vector,
                       t: Matrix, ze: Vector, zn: Vector, row: Vector, e2: real, n2: real, n: nat)
    requires UpperHalfSummed(m, a, b, t, ze, zn, n) && |t| == |ze| == |zn|
    requires PointAdded(m, a, b, m', a', b', row, e2, n2, n, n)
    ensures UpperHalfSummed(m', a', b', t + [row], ze + [e2], zn + [n2], n)
  {
    forall i, j | 0 <= i <= j < n
      ensures m'[i][j] == NormalEntry(t + [row], i, j)
    {
      NormalGrows(t, ze, row, e2, i, j);
    }
    forall i | 0 <= i < n
      ensures a'[i] == NormalTarget(t + [row], ze + [e2], i) && b'[i] == NormalTarget(t + [row], zn + [n2], i)
    {
      NormalGrows(t, ze, row, e2, i, i);
      NormalGrows(t, zn, row, n2, i, i);
    }
  }

  /** Copies the upper half to the lower half. */
  method Mirror(m: array2<real>)
    requires m.Length0 == m.Length1
    modifies m
    ensures forall i, j :: 0 <= i < m.Length0 && 0 <= j < m.Length0 ==>
      m[i, j] == if i <= j then old(m[i, j]) else old(m[j, i])
  {
    for i := 0 to m.Length0
      invariant forall r, c :: 0 <= r < m.Length0 && 0 <= c < m.Length0 ==>
        m[r, c] == if c < r < i then old(m[c, r]) else old(m[r, c])
    {
      for j := 0 to i
        invariant forall r, c :: 0 <= r < m.Length0 && 0 <= c < m.Length0 ==>
          m[r, c] == if c < r && (r < i || (r == i && c < j)) then old(m[c, r]) else old(m[r, c])
      {
        m[i, j] := m[j, i];
      }
    }
  }

  lemma MirroredIsNormal(m: Matrix, m': Matrix, a: Vector, b: Vector, t: Matrix, ze: Vector, zn: Vector, n: nat)
    requires UpperHalfSummed(m, a, b, t, ze, zn, n) && Square(m', n)
    requires forall i, j :: 0 <= i < n && 0 <= j < n ==> m'[i][j] == if i <= j then m[i][j] else m[j][i]
    ensures IsNormalMatrix(m', t, n) && IsNormalTarget(a, t, ze, n) && IsNormalTarget(b, t, zn, n)
  {
    hide NormalEntry;
    hide NormalTarget;
    forall i, j | 0 <= i < n && 0 <= j < n
      ensures m'[i][j] == NormalEntry(t, i, j)
    {
      if i > j {
        assert m'[i][j] == m[j][i] == NormalEntry(t, j, i);
        NormalSymmetric(t, i, j);
      } else {
        assert m'[i][j] == m[i][j] == NormalEntry(t, i, j);
      }
    }
  }

  /** More active points than coefficients: sum up the normal equations and solve them. */
  method CalcLs(cp: seq<ControlPoint>, m: array2<real>, xMean: real, yMean: real,
                a: array<real>, b: array<real>, E: array<real>, N: array<real>) returns (status: Status)
    requires m.Length0 == m.Length1 == a.Length == b.Length
    requires E.Length >= a.Length && N.Length >= a.Length
    requires a != b && E != N && a != E && a != N && b != E && b != N
    modifies m, a, b, E, N
    ensures status in {MSUCCESS, MUNSOLVABLE, MINTERR}
    ensures status == MINTERR <==> |Design(cp, xMean, yMean, m.Length0)| <= m.Length0
    ensures status == MSUCCESS <==>
      |Design(cp, xMean, yMean, m.Length0)| > m.Length0 && Nonsingular(Design(cp, xMean, yMean, m.Length0), m.Length0)
    ensures status == MSUCCESS ==> BestFit(Design(cp, xMean, yMean, m.Length0), Eastings(cp), E[..m.Length0])
    ensures status == MSUCCESS ==> BestFit(Design(cp, xMean, yMean, m.Length0), Northings(cp), N[..m.Length0])
    ensures status != MSUCCESS ==> E[..] == old(E[..]) && N[..] == old(N[..])
  {
    hide Nonsingular;
    hide Solves;
    hide OnlySolution;
    hide BestFit;
    ghost var n, t := m.Length0, Design(cp, xMean, yMean, m.Length0);
    var numactive := SumNormalEquations(cp, m, xMean, yMean, a, b);
    if numactive <= m.Length0 {
      return MINTERR;
    }
    ghost var m1, a1, b1 := Rows(m), a[..], b[..];
    Mirror(m);
    assert a[..] == a1 && b[..] == b1;
    ghost var m2 := Rows(m);
    MirroredIsNormal(m1, m2, a1, b1, t, Eastings(cp), Northings(cp), n);
    NormalMatrixRank(t, m2, n);
    status := SolveMat(m, a, b, E, N);
    if status == MSUCCESS {
      NormalEquationsGiveBestFit(t, Eastings(cp), m2, a1, E[..n], n);
      NormalEquationsGiveBestFit(t, Northings(cp), m2, b1, N[..n], n);
    }
  }

  method SumNormalEquations(cp: seq<ControlPoint>, m: array2<real>, xMean: real, yMean: real, a: array<real>, b: array<real>)
    returns (numactive: int)
    requires m.Length0 == m.Length1 == a.Length == b.Length && a != b
    modifies m, a, b
    ensures numactive == |Design(cp, xMean, yMean, m.Length0)|
    ensures Summed(m, a, b, Design(cp, xMean, yMean, m.Length0), Eastings(cp), Northings(cp))
  {
    hide Summed;
    hide DesignTo;
    hide EastingsTo;
    hide NorthingsTo;
    hide Design;
    hide Eastings;
    hide Northings;
    hide TermRow;
    ghost var n := m.Length0;
    ClearSums(m, a, b);
    numactive := 0;
    NoData(cp, xMean, yMean, n);
    AllData(cp, xMean, yMean, n);
    for k := 0 to |cp|
      invariant numactive == |DesignTo(cp, k, xMean, yMean, n)|
      invariant Summed(m, a, b, DesignTo(cp, k, xMean, yMean, n), EastingsTo(cp, k), NorthingsTo(cp, k))
    {
      DataStepTo(cp, k, xMean, yMean, n);
      if cp[k].status > 0 {
        numactive := numactive + 1;
        AddActivePoint(m, a, b, cp[k].e1 - xMean, cp[k].n1 - yMean, cp[k].e2, cp[k].n2,
                       DesignTo(cp, k, xMean, yMean, n), EastingsTo(cp, k), NorthingsTo(cp, k));
      }
    }
  }

  /** The data of the first k points. */
  ghost function DesignTo(cp: seq<ControlPoint>, k: int, xMean: real, yMean: real, n: nat): Matrix
    requires 0 <= k <= |cp|
  {
    Design(cp[..k], xMean, yMean, n)
  }

  ghost function EastingsTo(cp: seq<ControlPoint>, k: int): Vector
    requires 0 <= k <= |cp|
  {
    Eastings(cp[..k])
  }

  ghost function NorthingsTo(cp: seq<ControlPoint>, k: int): Vector
    requires 0 <= k <= |cp|
  {
    Northings(cp[..k])
  }

  lemma NoData(cp: seq<ControlPoint>, xMean: real, yMean: real, n: nat)
    ensures DesignTo(cp, 0, xMean, yMean, n) == [] && EastingsTo(cp, 0) == [] && NorthingsTo(cp, 0) == []
  {
  }

  lemma AllData(cp: seq<ControlPoint>, xMean: real, yMean: real, n: nat)
    ensures DesignTo(cp, |cp|, xMean, yMean, n) == Design(cp, xMean, yMean, n)
    ensures EastingsTo(cp, |cp|) == Eastings(cp) && NorthingsTo(cp, |cp|) == Northings(cp)
  {
    assert cp[..|cp|] == cp;
  }

  lemma DataStepTo(cp: seq<ControlPoint>, k: nat, xMean: real, yMean: real, n: nat)
    requires k < |cp|
    ensures DesignTo(cp, k + 1, xMean, yMean, n) ==
      if cp[k].status > 0 then DesignTo(cp, k, xMean, yMean, n) + [TermRow(cp[k].e1 - xMean, cp[k].n1 - yMean, n)]
      else DesignTo(cp, k, xMean, yMean, n)
    ensures EastingsTo(cp, k + 1) == if cp[k].status > 0 then EastingsTo(cp, k) + [cp[k].e2] else EastingsTo(cp, k)
    ensures NorthingsTo(cp, k + 1) == if cp[k].status > 0 then NorthingsTo(cp, k) + [cp[k].n2] else NorthingsTo(cp, k)
    ensures |DesignTo(cp, k, xMean, yMean, n)| == |EastingsTo(cp, k)| == |NorthingsTo(cp, k)|
  {
    DataStep(cp, k, xMean, yMean, n);
    DataSizes(cp[..k], xMean, yMean, n);
  }

  /** The arrays hold the upper half of the normal equations of these data. */
  ghost predicate Summed(m: array2<real>, a: array<real>, b: array<real>, t: Matrix, ze: Vector, zn: Vector)
    reads m, a, b
  {
    UpperHalfSummed(Rows(m), a[..], b[..], t, ze, zn, m.Length0)
  }

  method AddActivePoint(m: array2<real>, a: array<real>, b: array<real>, e: real, n: real, e2: real, n2: real,
                        ghost t: Matrix, ghost ze: Vector, ghost zn: Vector)
    requires m.Length0 == m.Length1 == a.Length == b.Length && a != b
    requires Summed(m, a, b, t, ze, zn) && |t| == |ze| == |zn|
    modifies m, a, b
    ensures Summed(m, a, b, t + [TermRow(e, n, m.Length0)], ze + [e2], zn + [n2])
  {
    hide UpperHalfSummed;
    hide PointAdded;
    hide TermRow;
    ghost var m1, a1, b1 := Rows(m), a[..], b[..];
    AddPoint(m, a, b, e, n, e2, n2);
    PointAddedSums(m1, a1, b1, Rows(m), a[..], b[..], t, ze, zn, TermRow(e, n, m.Length0), e2, n2, m.Length0);
  }

  /** What a successful fit promises of one coefficient vector. */
  ghost predicate Fitted(t: Matrix, z: Vector, x: Vector) {
    BestFit(t, z, x) && (|t| == |x| ==> Solves(t, x, z))
  }

  /** What becomes of one fit: it needs a supported order, enough active points, memory, and points that determine it. */
  ghost function FitStatus(cp: seq<ControlPoint>, xMean: real, yMean: real, order: int, allocOk: bool): Status {
    if !(1 <= order <= MAXORDER) then MPARMERR
    else if |Design(cp, xMean, yMean, TermCount(order))| < TermCount(order) then MNPTERR
    else if !allocOk then MMEMERR
    else if Nonsingular(Design(cp, xMean, yMean, TermCount(order)), TermCount(order)) then MSUCCESS
    else MUNSOLVABLE
  }

  /** Counts the active points and chooses the exact or the least squares fit. */
  method CalcCoef(cp: seq<ControlPoint>, xMean: real, yMean: real, E: array<real>, N: array<real>, order: int, allocOk: bool)
    returns (status: Status)
    requires 1 <= order <= MAXORDER
    requires E.Length >= TermCount(order) && N.Length >= TermCount(order) && E != N
    modifies E, N
    ensures status == FitStatus(cp, xMean, yMean, order, allocOk)
    ensures status == MSUCCESS ==> Fitted(Design(cp, xMean, yMean, TermCount(order)), Eastings(cp), E[..TermCount(order)])
    ensures status == MSUCCESS ==> Fitted(Design(cp, xMean, yMean, TermCount(order)), Northings(cp), N[..TermCount(order)])
    ensures status != MSUCCESS ==> E[..] == old(E[..]) && N[..] == old(N[..])
  {
    hide Nonsingular;
    hide Solves;
    hide BestFit;
    var n := TermCount(order);
    ghost var t := Design(cp, xMean, yMean, n);
    var numactive := CountActive(cp, xMean, yMean, n);
    if numactive < n {
      return MNPTERR;
    }
    if !allocOk {
      return MMEMERR;
    }
    var m := new real[n, n]((_, _) => 0.0);
    var a := new real[n](_ => 0.0);
    var b := new real[n](_ => 0.0);
    if numactive == n {
      status := ExactDet(cp, m, xMean, yMean, a, b, E, N);
      if status == MSUCCESS {
        DataSizes(cp, xMean, yMean, n);
        ExactFitIsBest(t, Eastings(cp), E[..n]);
        ExactFitIsBest(t, Northings(cp), N[..n]);
      }
    } else {
      status := CalcLs(cp, m, xMean, yMean, a, b, E, N);
    }
  }

  method CountActive(cp: seq<ControlPoint>, ghost xMean: real, ghost yMean: real, ghost n: nat) returns (numactive: int)
    ensures numactive == |Design(cp, xMean, yMean, n)|
  {
    numactive := 0;
    for i := 0 to |cp|
      invariant numactive == |Design(cp[..i], xMean, yMean, n)|
    {
      assert cp[..i + 1][..i] == cp[..i];
      if cp[i].status > 0 {
        numactive := numactive + 1;
      }
    }
    assert cp[..|cp|] == cp;
  }
}
