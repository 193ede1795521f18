/**
 The refinement of control points moves ids and coordinates from record to
 record, but not elevations. This is what becomes of the elevations: exactly
 when every record that is left is one of the original records in all its
 fields, whatever the coordinates are.
 */
module GcpElevation {
  import opened Basics
  import opened RealFacts
  import opened LinearAlgebra
  import opened CrsSolver
  import opened CrsFit
  import opened LeastSquares
  import opened GcpRefine

  /** The coefficients of a new transformer. */
  ghost function NoCoefficients(): Coefficients {
    Coefficients(Zeros(20), Zeros(20), Zeros(20), Zeros(20))
  }

  /** The records left of the kept points are original records in all their fields. */
  ghost predicate EndsWhole(original: seq<Gcp>, kept: seq<int>) {
    forall gcps :: RecordsKept(gcps, original, kept) ==> Whole(gcps, original, kept)
  }

  /** Every refinement of records with these elevations by a new transformer leaves whole records. */
  ghost predicate AlwaysWhole(z: seq<real>, order: int, minimumGcps: int, tolerance: real,
                              sqrt: real -> real, alloc: (int, bool) -> bool) {
    forall original: seq<Gcp>, means: Means, run: seq<Snapshot> ::
      Elevations(original) == z &&
      IsRun(Refinement(original, means, order, minimumGcps, tolerance, sqrt, alloc), NoCoefficients(), run) ==>
        EndsWhole(original, Last(run).kept)
  }

  /**
   Records are left whole for all coordinates exactly when the elevations do not
   differ, when there are no more points than the minimum, or when the settings
   are such that no point at all can stay.
   */
  lemma AlwaysWholeIff(z: seq<real>, order: int, minimumGcps: int, tolerance: real, sqrt: real -> real,
                       alloc: (int, bool) -> bool)
    requires IsSqrt(sqrt)
    ensures AlwaysWhole(z, order, minimumGcps, tolerance, sqrt, alloc) <==>
      AllEqual(z) || |z| <= minimumGcps || (tolerance <= 0.0 && minimumGcps <= 0)
  {
    if AllEqual(z) || |z| <= minimumGcps || (tolerance <= 0.0 && minimumGcps <= 0) {
      forall original: seq<Gcp>, means: Means, run: seq<Snapshot> |
        Elevations(original) == z &&
        IsRun(Refinement(original, means, order, minimumGcps, tolerance, sqrt, alloc), NoCoefficients(), run)
        ensures EndsWhole(original, Last(run).kept)
      {
        LeavesWhole(Refinement(original, means, order, minimumGcps, tolerance, sqrt, alloc), NoCoefficients(), run);
      }
    } else {
      var r, run := MixedRun(z, order, minimumGcps, tolerance, sqrt, alloc);
      assert IsRun(Refinement(r.original, r.means, order, minimumGcps, tolerance, sqrt, alloc), NoCoefficients(), run);
    }
  }

  // ---------------------------------------------------------------- sufficiency

  lemma LeavesWhole(r: Refinement, start: Coefficients, run: seq<Snapshot>)
    requires IsSqrt(r.sqrt) && IsRun(r, start, run)
    requires AllEqual(Elevations(r.original)) || |r.original| <= r.minimumGcps || (r.tolerance <= 0.0 && r.minimumGcps <= 0)
    ensures EndsWhole(r.original, Last(run).kept)
  {
    RunSizes(r, start, run);
    var kept := Last(run).kept;
    forall gcps | RecordsKept(gcps, r.original, kept)
      ensures Whole(gcps, r.original, kept)
    {
      RecordsAtTheEnd(gcps, r, start, run);
      if r.tolerance <= 0.0 && r.minimumGcps <= 0 {
        NobodyStays(r, start, run);
      }
    }
  }

  lemma NobodyStays(r: Refinement, start: Coefficients, run: seq<Snapshot>)
    requires IsSqrt(r.sqrt) && IsRun(r, start, run) && r.tolerance <= 0.0 && r.minimumGcps <= 0
    ensures Last(run).kept == []
  {
    hide ShownMiss;
    hide Underway;
    var s := Last(run);
    if s.kept != [] {
      var p := KeptPoints(r.original, s.kept)[0];
      ShownMissIsNotNegative(p, r.means.x1, r.means.y1, s.fit.toX, s.fit.toY, r.order, r.sqrt);
      assert false;
    }
  }

  lemma ShownMissIsNotNegative(p: ControlPoint, xMean: real, yMean: real, E: seq<real>, N: seq<real>, order: int,
                               sqrt: real -> real)
    requires |E| >= 10 && |N| >= 10 && IsSqrt(sqrt)
    ensures ShownMiss(p, xMean, yMean, E, N, order, sqrt) >= 0.0
  {
    hide Miss;
    MissIsNotNegative(p, xMean, yMean, E, N, order, sqrt);
  }

  // ------------------------------------------------------------------ necessity

  /** Records in one place, whose fit must fail; the kept ones are where the zero polynomials put them. */
  function MixedRecords(z: seq<real>, keep: seq<int>, far: real): (gcps: seq<Gcp>)
    ensures |gcps| == |z|
    ensures forall i :: 0 <= i < |z| ==>
      gcps[i] == Gcp("", "", 0.0, 0.0, if i in keep then 0.0 else far, 0.0, z[i])
  {
    seq(|z|, i requires 0 <= i < |z| => Gcp("", "", 0.0, 0.0, if i in keep then 0.0 else far, 0.0, z[i]))
  }

  /** A point that moves to a record with another elevation. */
  lemma Misplacing(z: seq<real>, m: nat) returns (keep: seq<int>, k: nat)
    requires !AllEqual(z) && 0 < m < |z|
    ensures |keep| == m && Subsequence(keep, |z|)
    ensures k < m && z[keep[k]] != z[k]
  {
    var p := FirstChange(z);
    if p < m {
      k, keep := p, seq(m, i => i + 1);
    } else {
      var j := if z[p] != z[m - 1] then p else p + 1;
      k, keep := m - 1, Everything(m - 1) + [j];
    }
  }

  lemma FirstChange(z: seq<real>) returns (p: nat)
    requires !AllEqual(z)
    ensures p + 1 < |z| && z[p] != z[p + 1]
  {
    p := 0;
    while z[p + 1] == z[p]
      invariant p + 1 < |z| && forall i :: 0 <= i <= p ==> z[i] == z[0]
      decreases |z| - p
    {
      if p + 2 == |z| {
        assert false;
      }
      p := p + 1;
    }
  }

  /** The refinement that is to mix up the elevations. */
  ghost predicate Mixing(r: Refinement, z: seq<real>, keep: seq<int>, far: real) {
    && r.original == MixedRecords(z, keep, far) && r.means.x1 == r.means.y1 == 0.0
    && IsSqrt(r.sqrt) && far >= 1.0 && far >= r.tolerance
    && Subsequence(keep, |z|) && |keep| >= r.minimumGcps
    && (|keep| <= r.minimumGcps || r.tolerance > 0.0)
  }

  lemma MixedRun(z: seq<real>, order: int, minimumGcps: int, tolerance: real, sqrt: real -> real, alloc: (int, bool) -> bool)
    returns (r: Refinement, run: seq<Snapshot>)
    requires IsSqrt(sqrt)
    requires !AllEqual(z) && |z| > minimumGcps && (tolerance > 0.0 || minimumGcps > 0)
    ensures r == Refinement(r.original, r.means, order, minimumGcps, tolerance, sqrt, alloc) && Elevations(r.original) == z
    ensures IsRun(r, NoCoefficients(), run) && !EndsWhole(r.original, Last(run).kept)
  {
    hide Turns;
    hide Done;
    hide IsSqrt;
    hide FittedFrom;
    hide Centred;
    var m := Max(minimumGcps, 1);
    var keep, k := Misplacing(z, m);
    var far := if tolerance > 1.0 then tolerance else 1.0;
    var original := MixedRecords(z, keep, far);
    var means := MeansAtTheOrigin(original);
    r := Refinement(original, means, order, minimumGcps, tolerance, sqrt, alloc);
    forall x | x in keep
      ensures x in Everything(|z|)
    {
      assert Everything(|z|)[x] == x;
    }
    run := DropTheFar(r, z, keep, far, Everything(|z|));
    FitFails(r, z, keep, far, Everything(|z|));
    StaysMixed(z, keep, far, k);
  }

  lemma StaysMixed(z: seq<real>, keep: seq<int>, far: real, k: nat)
    requires Subsequence(keep, |z|) && k < |keep| && z[keep[k]] != z[k]
    ensures var original := MixedRecords(z, keep, far); Elevations(original) == z && !EndsWhole(original, keep)
  {
    var original := MixedRecords(z, keep, far);
    var left := seq(|keep|, i requires 0 <= i < |keep| => original[keep[i]].(z := z[i]));
    assert RecordsKept(left, original, keep);
    assert left[k].z != original[keep[k]].z;
  }

  lemma {:induction false} SumOfZeros(gcps: seq<Gcp>, f: Gcp -> real)
    requires forall i :: 0 <= i < |gcps| ==> f(gcps[i]) == 0.0
    ensures SumOf(gcps, f) == 0.0
  {
    if gcps != [] {
      SumOfZeros(gcps[..|gcps| - 1], f);
    }
  }

  lemma MeansAtTheOrigin(gcps: seq<Gcp>) returns (means: Means)
    requires forall i :: 0 <= i < |gcps| ==> gcps[i].pixel == gcps[i].line == 0.0
    ensures Centred(means, gcps) && means.x1 == means.y1 == 0.0
  {
    hide Quotient;
    var x, y := (g: Gcp) => g.x, (g: Gcp) => g.y;
    SumOfZeros(gcps, (g: Gcp) => g.pixel);
    SumOfZeros(gcps, (g: Gcp) => g.line);
    QuotientIsMean(gcps, x, 0.0);
    QuotientIsMean(gcps, y, 0.0);
    means := Means(0.0, 0.0, Quotient(SumOf(gcps, x), |gcps|, 0.0), Quotient(SumOf(gcps, y), |gcps|, 0.0));
  }

  // ---------------------------------------------------- a fit that always fails

  ghost function UnitVector(n: nat, i: int): Vector {
    seq(n, j => if j == i then 1.0 else 0.0)
  }

  /** Points in one place do not determine a polynomial. */
  lemma OnePlaceIsSingular(cp: seq<ControlPoint>, n: nat)
    requires n >= 2 && forall k :: 0 <= k < |cp| ==> cp[k].e1 == cp[k].n1 == 0.0
    ensures !Nonsingular(Design(cp, 0.0, 0.0, n), n)
  {
    var t, u := Design(cp, 0.0, 0.0, n), UnitVector(n, 1);
    DesignOfOnePlace(cp, n);
    forall p | 0 <= p < |t|
      ensures RowTimes(t, p, u) == 0.0
    {
      assert t[p] == TermRow(0.0, 0.0, n);
      assert t[p][1] == Term(2, 0.0, 0.0) == 0.0;
      SumZero(j => Entry(t, p, j) * At(u, j), n);
    }
    assert Solves(t, u, Zeros(|t|));
    assert u[1] != Zeros(n)[1];
  }

  lemma {:induction false} DesignOfOnePlace(cp: seq<ControlPoint>, n: nat)
    requires forall k :: 0 <= k < |cp| ==> cp[k].e1 == cp[k].n1 == 0.0
    ensures forall p :: 0 <= p < |Design(cp, 0.0, 0.0, n)| ==> Design(cp, 0.0, 0.0, n)[p] == TermRow(0.0, 0.0, n)
  {
    if cp != [] {
      DesignOfOnePlace(cp[..|cp| - 1], n);
    }
  }

  /** The snapshot with these points and no coefficients. */
  ghost function Still(r: Refinement, kept: seq<int>): Snapshot
    requires Subsequence(kept, |r.original|)
  {
    Snapshot(kept, NoCoefficients(), FitStatus(KeptPoints(r.original, kept), r.means.x1, r.means.y1, r.order, r.alloc(|kept|, true)))
  }

  lemma FitFails(r: Refinement, z: seq<real>, keep: seq<int>, far: real, kept: seq<int>)
    requires Mixing(r, z, keep, far) && Subsequence(kept, |z|)
    ensures FittedFrom(r, NoCoefficients(), Still(r, kept))
  {
    hide Nonsingular;
    hide DirectionFitted;
    hide Design;
    hide IsSqrt;
    var cp := KeptPoints(r.original, kept);
    if 1 <= r.order <= MAXORDER {
      TermCounts();
      OnePlaceIsSingular(cp, TermCount(r.order));
    }
    assert Still(r, kept).status != MSUCCESS;
  }

  // ------------------------------------------------------- dropping the far points

  /** The root of a square. */
  lemma RootOfSquare(sqrt: real -> real, x: real, v: real)
    requires IsSqrt(sqrt) && x >= 0.0 && v == x * x
    ensures sqrt(v) == x
  {
    var s := sqrt(v);
    assert x * x >= 0.0 && s >= 0.0 && Sq(s) == Sq(x);
    if s < x {
      SqStrictlyOrdered(x, s);
    } else if x < s {
      SqStrictlyOrdered(s, x);
    }
  }

  lemma NoPolynomial(e: real, n: real, order: int)
    ensures Polynomial(Zeros(20), e, n, order) == 0.0
  {
    hide PowersOf;
  }

  /** The zero polynomials put every point at the origin. */
  lemma MissOfNoCoefficients(p: ControlPoint, order: int, sqrt: real -> real)
    requires IsSqrt(sqrt) && p.e2 >= 0.0 && p.n2 == 0.0
    ensures ShownMiss(p, 0.0, 0.0, Zeros(20), Zeros(20), order, sqrt) == Shown(p.e2)
  {
    hide Polynomial;
    hide IsSqrt;
    NoPolynomial(p.e1 - 0.0, p.n1 - 0.0, order);
    var z := Zeros(20);
    var ds, dl := Polynomial(z, p.e1 - 0.0, p.n1 - 0.0, order) - p.e2, Polynomial(z, p.e1 - 0.0, p.n1 - 0.0, order) - p.n2;
    assert ds == -p.e2 && dl == 0.0;
    RootOfSquare(sqrt, p.e2, SumOfSquares2(ds, dl));
  }

  /** The residual of a kept point: it is where the zero polynomials put it, or far away. */
  lemma MissOfMixed(r: Refinement, z: seq<real>, keep: seq<int>, far: real, kept: seq<int>, k: int)
    requires Mixing(r, z, keep, far) && Subsequence(kept, |z|) && 0 <= k < |kept|
    ensures ShownMiss(KeptPoints(r.original, kept)[k], r.means.x1, r.means.y1, NoCoefficients().toX, NoCoefficients().toY, r.order, r.sqrt)
      == if kept[k] in keep then 0.0 else far
  {
    hide ShownMiss;
    MissOfNoCoefficients(KeptPoints(r.original, kept)[k], r.order, r.sqrt);
  }

  lemma FarIsWorst(r: Refinement, z: seq<real>, keep: seq<int>, far: real, kept: seq<int>, i: int)
    requires Mixing(r, z, keep, far) && Subsequence(kept, |z|) && 0 <= i < |kept|
    requires kept[i] !in keep && forall k :: 0 <= k < i ==> kept[k] in keep
    ensures Proper(r, Still(r, kept)) && WorstIn(r, Still(r, kept), i)
  {
    hide ShownMiss;
    hide FitStatus;
    forall k | 0 <= k < |kept| {
      MissOfMixed(r, z, keep, far, kept, k);
    }
  }

  lemma NobodyIsFar(r: Refinement, z: seq<real>, keep: seq<int>, far: real)
    requires Mixing(r, z, keep, far)
    ensures Proper(r, Still(r, keep)) && Done(r, Still(r, keep))
  {
    hide ShownMiss;
    hide FitStatus;
    forall k | 0 <= k < |keep| {
      MissOfMixed(r, z, keep, far, keep, k);
    }
  }

  ghost predicate Increasing(a: seq<int>) {
    forall j, k :: 0 <= j < k < |a| ==> a[j] < a[k]
  }

  /** An increasing sequence within another one is not longer, and the same if it is as long. */
  lemma {:induction false} Contained(a: seq<int>, b: seq<int>)
    requires Increasing(a) && Increasing(b) && forall x :: x in a ==> x in b
    ensures |a| <= |b| && (|a| == |b| ==> a == b)
    decreases |b|
  {
    if a != [] {
      var x := a[|a| - 1];
      assert x in b;
      var y, a', b' := b[|b| - 1], a[..|a| - 1], b[..|b| - 1];
      if x == y {
        forall w | w in a'
          ensures w in b'
        {
          assert w in b && w < y;
        }
        Contained(a', b');
        assert a == a' + [x] && b == b' + [y];
      } else {
        forall w | w in a
          ensures w in b'
        {
          assert w in b && w <= x < y;
        }
        Contained(a, b');
      }
    }
  }

  lemma FirstFar(keep: seq<int>, kept: seq<int>) returns (i: nat)
    requires exists x :: x in kept && x !in keep
    ensures i < |kept| && kept[i] !in keep && forall k :: 0 <= k < i ==> kept[k] in keep
  {
    i := 0;
    while kept[i] in keep
      invariant i < |kept| && forall k :: 0 <= k < i ==> kept[k] in keep
      decreases |kept| - i
    {
      if i + 1 == |kept| {
        assert false;
      }
      i := i + 1;
    }
  }

  lemma WithoutOne(keep: seq<int>, kept: seq<int>, size: int, i: nat)
    requires Subsequence(kept, size) && Increasing(keep) && (forall x :: x in keep ==> x in kept) && i < |kept| && kept[i] !in keep
    ensures Subsequence(Without(kept, i), size) && (forall x :: x in keep ==> x in Without(kept, i)) && |keep| < |kept|
  {
    WithoutKeepsOrder(kept, size, i);
    forall x | x in keep
      ensures x in Without(kept, i)
    {
      var k :| 0 <= k < |kept| && kept[k] == x;
      assert Without(kept, i)[if k < i then k else k - 1] == x;
    }
    Contained(keep, Without(kept, i));
  }

  /** The points that are not to be kept are the worst ones, one after the other. */
  lemma {:induction false} DropTheFar(r: Refinement, z: seq<real>, keep: seq<int>, far: real, kept: seq<int>) returns (run: seq<Snapshot>)
    requires Mixing(r, z, keep, far) && Subsequence(kept, |z|) && forall x :: x in keep ==> x in kept
    ensures |run| > 0 && run[0] == Still(r, kept) && Turns(r, run)
    ensures Last(run).kept == keep && Proper(r, Last(run)) && Done(r, Last(run))
    decreases |kept|
  {
    hide IsSqrt;
    hide FitStatus;
    hide FittedFrom;
    hide WorstIn;
    hide Done;
    if exists x :: x in kept && x !in keep {
      var i := FirstFar(keep, kept);
      FarIsWorst(r, z, keep, far, kept, i);
      WithoutOne(keep, kept, |z|, i);
      var fewer := Without(kept, i);
      var rest := DropTheFar(r, z, keep, far, fewer);
      FitFails(r, z, keep, far, fewer);
      assert Turn(r, Still(r, kept), Still(r, fewer));
      run := [Still(r, kept)] + rest;
      TurnsBefore(r, Still(r, kept), rest);
    } else {
      Contained(keep, kept);
      Contained(kept, keep);
      run := [Still(r, keep)];
      NobodyIsFar(r, z, keep, far);
    }
  }

  lemma TurnsBefore(r: Refinement, s: Snapshot, rest: seq<Snapshot>)
    requires |rest| > 0 && Turn(r, s, rest[0]) && Turns(r, rest)
    ensures Turns(r, [s] + rest)
  {
    hide Turn;
    var run := [s] + rest;
    forall i | 0 < i < |run|
      ensures TurnAt(r, run, i)
    {
      if i > 1 {
        assert TurnAt(r, rest, i - 1);
      }
    }
  }

  // ----------------------------------------- one outlier in an accepted transformer

  /** Four corners of a square; the first one is off by 4 to the east. */
  function Corners(): seq<Gcp> {
    [Gcp("1", "", 0.0, 0.0, 4.0, 0.0, 100.0), Gcp("2", "", 2.0, 0.0, 2.0, 0.0, 200.0),
     Gcp("3", "", 0.0, 2.0, 0.0, 2.0, 300.0), Gcp("4", "", 2.0, 2.0, 2.0, 2.0, 400.0)]
  }

  /**
   The refinement succeeds and removes the first corner. The other three are left
   with the elevations 100, 200 and 300 instead of 200, 300 and 400.
   */
  method RefineCorners(sqrt: real -> real) returns (status: Status, left: seq<Gcp>)
    requires IsSqrt(sqrt)
    ensures status == MSUCCESS
    ensures left == [Corners()[1].(z := 100.0), Corners()[2].(z := 200.0), Corners()[3].(z := 300.0)]
  {
    hide IsRun;
    hide IsSqrt;
    var transform := new GcpTransform(Corners(), 1, 3, 1.0);
    var alloc := (_: int, _: bool) => true;
    RootsAreNotNegative(sqrt);
    ghost var run;
    status, run := transform.RemoveOutliers(sqrt, alloc, 0.0);
    CornersRun(transform.Refining(Corners(), sqrt, alloc), NoCoefficients(), run);
    left := transform.asGCPs;
  }

  lemma RootsAreNotNegative(sqrt: real -> real)
    requires IsSqrt(sqrt)
    ensures forall v :: v >= 0.0 ==> sqrt(v) >= 0.0
  {
  }

  lemma CornersRun(r: Refinement, start: Coefficients, run: seq<Snapshot>)
    requires IsRun(r, start, run) && r.original == Corners() && r.order == 1 && r.minimumGcps == 3 && r.tolerance == 1.0
    requires IsSqrt(r.sqrt) && forall k, forward :: r.alloc(k, forward)
    ensures Last(run).kept == [1, 2, 3] && Last(run).status == MSUCCESS
  {
    hide Refitted;
    hide WorstIn;
    hide NoOutlier;
    hide IsSqrt;
    CornersAreCentred(r.means);
    RunSizes(r, start, run);
    KeptAfter(r, start, run, 0);
    var s := run[0];
    FirstCornerIsWorst(r, start, s);
    assert |run| > 1;
    assert TurnAt(r, run, 1);
    var t := run[1];
    var nIndex :| WorstIn(r, s, nIndex) && t.kept == Without(s.kept, nIndex);
    assert t.kept == [1, 2, 3];
    OtherCornersFit(r, s.fit, t);
  }

  lemma SumOfFour(gcps: seq<Gcp>, f: Gcp -> real)
    requires |gcps| == 4
    ensures SumOf(gcps, f) == f(gcps[0]) + f(gcps[1]) + f(gcps[2]) + f(gcps[3])
  {
    assert gcps[..3][..2] == gcps[..2] && gcps[..2][..1] == gcps[..1] && gcps[..1][..0] == [];
    assert SumOf(gcps[..1], f) == f(gcps[0]) && SumOf(gcps[..2], f) == SumOf(gcps[..1], f) + f(gcps[1]);
  }

  lemma CornersAreCentred(means: Means)
    requires Centred(means, Corners())
    ensures means == Means(1.0, 1.0, 2.0, 1.0)
  {
    SumOfFour(Corners(), (g: Gcp) => g.pixel);
    SumOfFour(Corners(), (g: Gcp) => g.line);
    SumOfFour(Corners(), (g: Gcp) => g.x);
    SumOfFour(Corners(), (g: Gcp) => g.y);
  }

  /** Data row k belongs to point k. */
  ghost predicate RowOf(cp: seq<ControlPoint>, t: Matrix, ze: Vector, zn: Vector, xMean: real, yMean: real, n: nat, k: int) {
    && 0 <= k < |cp| == |t| == |ze| == |zn|
    && t[k] == TermRow(cp[k].e1 - xMean, cp[k].n1 - yMean, n) && ze[k] == cp[k].e2 && zn[k] == cp[k].n2
  }

  /** The data rows when all points are active. */
  lemma {:induction false} ActiveRows(cp: seq<ControlPoint>, xMean: real, yMean: real, n: nat)
    requires forall k :: 0 <= k < |cp| ==> cp[k].status > 0
    ensures |Design(cp, xMean, yMean, n)| == |Eastings(cp)| == |Northings(cp)| == |cp|
    ensures forall k :: 0 <= k < |cp| ==> RowOf(cp, Design(cp, xMean, yMean, n), Eastings(cp), Northings(cp), xMean, yMean, n, k)
  {
    hide TermRow;
    hide Design;
    hide Eastings;
    hide Northings;
    if cp == [] {
      NoData(cp, xMean, yMean, n);
      AllData(cp, xMean, yMean, n);
    } else {
      var last := |cp| - 1;
      var cp' := cp[..last];
      ActiveRows(cp', xMean, yMean, n);
      DataStep(cp, last, xMean, yMean, n);
      assert cp[..last + 1] == cp;
      var t, ze, zn := Design(cp', xMean, yMean, n), Eastings(cp'), Northings(cp');
      forall k | 0 <= k < |cp|
        ensures RowOf(cp, Design(cp, xMean, yMean, n), Eastings(cp), Northings(cp), xMean, yMean, n, k)
      {
        if k < last {
          assert RowOf(cp', t, ze, zn, xMean, yMean, n, k);
        }
      }
    }
  }

  lemma LinearRow(t: Matrix, p: int, c: Vector, e: real, n: real)
    requires 0 <= p < |t| && t[p] == TermRow(e, n, 3) && |c| == 3
    ensures RowTimes(t, p, c) == c[0] + c[1] * e + c[2] * n
  {
    SumOfThree(j => Entry(t, p, j) * At(c, j));
    assert t[p][0] == Term(1, e, n) && t[p][1] == Term(2, e, n) && t[p][2] == Term(3, e, n);
  }

  /** Twice the signed area of the triangle of three points. */
  ghost function Area(e: seq<real>, n: seq<real>): real
    requires |e| >= 3 && |n| >= 3
  {
    (e[1] - e[0]) * (n[2] - n[0]) - (e[2] - e[0]) * (n[1] - n[0])
  }

  lemma Cramer(a: real, b: real, c: real, d: real, x: real, y: real)
    requires a * d - c * b != 0.0 && x * a + y * b == 0.0 && x * c + y * d == 0.0
    ensures x == 0.0 && y == 0.0
  {
    assert x * (a * d - c * b) == (x * a + y * b) * d - (x * c + y * d) * b;
    assert y * (a * d - c * b) == (x * c + y * d) * a - (x * a + y * b) * c;
    Cancel(a * d - c * b, x, 0.0);
    Cancel(a * d - c * b, y, 0.0);
  }

  lemma PlanesDiffer(a: real, b: real, c: real, e0: real, n0: real, e1: real, n1: real)
    requires a + b * e0 + c * n0 == 0.0 && a + b * e1 + c * n1 == 0.0
    ensures b * (e1 - e0) + c * (n1 - n0) == 0.0
  {
  }

  /** Three points that are not on a line determine a polynomial of order 1. */
  lemma TriangleIsNonsingular(t: Matrix, e: seq<real>, n: seq<real>)
    requires |t| == |e| == |n| >= 3 && (forall p :: 0 <= p < |t| ==> t[p] == TermRow(e[p], n[p], 3)) && Area(e, n) != 0.0
    ensures Nonsingular(t, 3)
  {
    forall x: Vector | |x| == 3 && Solves(t, x, Zeros(|t|))
      ensures x == Zeros(3)
    {
      TriangleKernel(t, e, n, x);
    }
  }

  lemma ThreePlanes(a: real, b: real, c: real, e: seq<real>, n: seq<real>)
    requires |e| >= 3 && |n| >= 3 && Area(e, n) != 0.0
    requires a + b * e[0] + c * n[0] == 0.0 && a + b * e[1] + c * n[1] == 0.0 && a + b * e[2] + c * n[2] == 0.0
    ensures a == b == c == 0.0
  {
    PlanesDiffer(a, b, c, e[0], n[0], e[1], n[1]);
    PlanesDiffer(a, b, c, e[0], n[0], e[2], n[2]);
    Cramer(e[1] - e[0], n[1] - n[0], e[2] - e[0], n[2] - n[0], b, c);
  }

  lemma TriangleKernel(t: Matrix, e: seq<real>, n: seq<real>, x: Vector)
    requires |t| == |e| == |n| >= 3 && (forall p :: 0 <= p < |t| ==> t[p] == TermRow(e[p], n[p], 3)) && Area(e, n) != 0.0
    requires |x| == 3 && Solves(t, x, Zeros(|t|))
    ensures x == Zeros(3)
  {
    hide TermRow;
    hide RowTimes;
    hide Area;
    LinearRow(t, 0, x, e[0], n[0]);
    LinearRow(t, 1, x, e[1], n[1]);
    LinearRow(t, 2, x, e[2], n[2]);
    assert RowTimes(t, 0, x) == RowTimes(t, 1, x) == RowTimes(t, 2, x) == 0.0;
    ThreePlanes(x[0], x[1], x[2], e, n);
  }

  lemma ErrorOfFour(t: Matrix, z: Vector, c: Vector)
    requires |t| == |z| == 4
    ensures Error(t, z, c) ==
      Sq(Residual(t, z, c, 0)) + Sq(Residual(t, z, c, 1)) + Sq(Residual(t, z, c, 2)) + Sq(Residual(t, z, c, 3))
  {
    hide Residual;
    var f := p => Sq(Residual(t, z, c, p));
    SumOfThree(f);
    assert Sum(f, 4) == Sum(f, 3) + f(3);
  }

  /** The rows of the four corners. */
  ghost predicate CornerRows(t: Matrix) {
    && |t| == 4 && t[0] == TermRow(-1.0, -1.0, 3) && t[1] == TermRow(1.0, -1.0, 3)
    && t[2] == TermRow(-1.0, 1.0, 3) && t[3] == TermRow(1.0, 1.0, 3)
  }

  lemma CornerError(t: Matrix, z: Vector, c: Vector)
    requires CornerRows(t) && |z| == 4 && |c| == 3
    ensures Error(t, z, c) == Sq(c[0] - c[1] - c[2] - z[0]) + Sq(c[0] + c[1] - c[2] - z[1])
      + Sq(c[0] - c[1] + c[2] - z[2]) + Sq(c[0] + c[1] + c[2] - z[3])
  {
    hide Sq;
    hide TermRow;
    ErrorOfFour(t, z, c);
    LinearRow(t, 0, c, -1.0, -1.0);
    LinearRow(t, 1, c, 1.0, -1.0);
    LinearRow(t, 2, c, -1.0, 1.0);
    LinearRow(t, 3, c, 1.0, 1.0);
  }

  lemma BestIsUnique(t: Matrix, z: Vector, x: Vector, c: Vector)
    requires BestFit(t, z, x) && |c| == |x| && Error(t, z, c) <= Error(t, z, x)
    ensures x == c
  {
  }

  lemma ErrorIsNotNegative(t: Matrix, z: Vector, c: Vector)
    ensures Error(t, z, c) >= 0.0
  {
    forall p {
      SqZero(Residual(t, z, c, p));
    }
    SumOfSquares(p => Sq(Residual(t, z, c, p)), |t|);
  }

  lemma CornerEastings(t: Matrix, z: Vector, E: Vector)
    requires CornerRows(t) && z == [4.0, 2.0, 0.0, 2.0] && |E| == 3 && BestFit(t, z, E)
    ensures E == [2.0, 0.0, -1.0]
  {
    hide BestFit;
    hide Error;
    hide CornerRows;
    var best := [2.0, 0.0, -1.0];
    CornerError(t, z, E);
    CornerError(t, z, best);
    Tilted(E[0] - 2.0, E[1], E[2] + 1.0);
    BestIsUnique(t, z, E, best);
  }

  lemma CornerNorthings(t: Matrix, z: Vector, N: Vector)
    requires CornerRows(t) && z == [0.0, 0.0, 2.0, 2.0] && |N| == 3 && BestFit(t, z, N)
    ensures N == [1.0, 0.0, 1.0]
  {
    hide BestFit;
    hide Error;
    hide CornerRows;
    var best := [1.0, 0.0, 1.0];
    ErrorIsNotNegative(t, z, N);
    CornerError(t, z, best);
    BestIsUnique(t, z, N, best);
  }

  /** No plane comes closer to the eastings than the one that misses each by 1. */
  lemma Tilted(u: real, v: real, w: real)
    ensures Sq(u - v - w - 1.0) + Sq(u + v - w + 1.0) + Sq(u - v + w + 1.0) + Sq(u + v + w - 1.0) >= 4.0
  {
    SqZero(u);
    SqZero(v);
    SqZero(w);
    assert Sq(u - v - w - 1.0) + Sq(u + v - w + 1.0) + Sq(u - v + w + 1.0) + Sq(u + v + w - 1.0)
      == 4.0 + 4.0 * Sq(u) + 4.0 * Sq(v) + 4.0 * Sq(w);
  }

  /** Points whose first three are not on a line determine a polynomial of order 1. */
  lemma {:induction false} TriangleDetermines(cp: seq<ControlPoint>, xMean: real, yMean: real, e: seq<real>, n: seq<real>)
    requires |cp| == |e| == |n| >= 3 && Area(e, n) != 0.0
    requires forall k :: 0 <= k < |cp| ==> cp[k].status > 0 && e[k] == cp[k].e1 - xMean && n[k] == cp[k].n1 - yMean
    ensures FitStatus(cp, xMean, yMean, 1, true) == MSUCCESS
  {
    hide Nonsingular;
    hide TermRow;
    hide Area;
    hide Design;
    hide Eastings;
    hide Northings;
    TermCounts();
    ActiveRows(cp, xMean, yMean, 3);
    var t := Design(cp, xMean, yMean, 3);
    forall p | 0 <= p < |t|
      ensures t[p] == TermRow(e[p], n[p], 3)
    {
      assert RowOf(cp, t, Eastings(cp), Northings(cp), xMean, yMean, 3, p);
    }
    TriangleIsNonsingular(t, e, n);
  }

  /** The data of the four corners. */
  lemma {:induction false} CornerData(cp: seq<ControlPoint>)
    requires |cp| == 4 && forall k :: 0 <= k < 4 ==> cp[k] == PointOf(Corners()[k])
    ensures CornerRows(Design(cp, 1.0, 1.0, 3))
    ensures Eastings(cp) == [4.0, 2.0, 0.0, 2.0] && Northings(cp) == [0.0, 0.0, 2.0, 2.0]
  {
    hide TermRow;
    hide Design;
    hide Eastings;
    hide Northings;
    ActiveRows(cp, 1.0, 1.0, 3);
    var t, ze, zn := Design(cp, 1.0, 1.0, 3), Eastings(cp), Northings(cp);
    assert RowOf(cp, t, ze, zn, 1.0, 1.0, 3, 0) && RowOf(cp, t, ze, zn, 1.0, 1.0, 3, 1);
    assert RowOf(cp, t, ze, zn, 1.0, 1.0, 3, 2) && RowOf(cp, t, ze, zn, 1.0, 1.0, 3, 3);
  }

  /** The coefficients that a fit of the four corners gives. */
  lemma {:induction false} CornerCoefficients(cp: seq<ControlPoint>, E: seq<real>, N: seq<real>)
    requires |cp| == 4 && forall k :: 0 <= k < 4 ==> cp[k] == PointOf(Corners()[k])
    requires DirectionFitted(cp, 1.0, 1.0, E, N, 1)
    ensures E[..3] == [2.0, 0.0, -1.0] && N[..3] == [1.0, 0.0, 1.0]
  {
    hide BestFit;
    hide Solves;
    hide CornerRows;
    hide Design;
    hide Eastings;
    hide Northings;
    TermCounts();
    CornerData(cp);
    var t := Design(cp, 1.0, 1.0, 3);
    CornerEastings(t, Eastings(cp), E[..3]);
    CornerNorthings(t, Northings(cp), N[..3]);
  }

  /** The fit of the four corners misses each of them by 1. */
  lemma CornersMiss(r: Refinement, start: Coefficients, s: Snapshot)
    requires FittedFrom(r, start, s) && r.original == Corners() && r.order == 1 && s.kept == Everything(4)
    requires r.means == Means(1.0, 1.0, 2.0, 1.0) && IsSqrt(r.sqrt) && forall k, forward :: r.alloc(k, forward)
    ensures forall k :: 0 <= k < 4 ==>
      ShownMiss(KeptPoints(r.original, s.kept)[k], 1.0, 1.0, s.fit.toX, s.fit.toY, 1, r.sqrt) == 1.0
  {
    hide IsSqrt;
    hide DirectionFitted;
    hide FitStatus;
    hide ShownMiss;
    var cp := KeptPoints(r.original, s.kept);
    TriangleDetermines(cp, 1.0, 1.0, [-1.0, 1.0, -1.0, 1.0], [-1.0, -1.0, 1.0, 1.0]);
    CornerCoefficients(cp, s.fit.toX, s.fit.toY);
    forall k | 0 <= k < 4
      ensures ShownMiss(cp[k], 1.0, 1.0, s.fit.toX, s.fit.toY, 1, r.sqrt) == 1.0
    {
      UnitMiss(cp[k], s.fit.toX, s.fit.toY, r.sqrt);
    }
  }

  lemma UnitMiss(p: ControlPoint, E: seq<real>, N: seq<real>, sqrt: real -> real)
    requires |E| == |N| == 20 && E[..3] == [2.0, 0.0, -1.0] && N[..3] == [1.0, 0.0, 1.0] && IsSqrt(sqrt)
    requires p in [PointOf(Corners()[0]), PointOf(Corners()[1]), PointOf(Corners()[2]), PointOf(Corners()[3])]
    ensures ShownMiss(p, 1.0, 1.0, E, N, 1, sqrt) == 1.0
  {
    hide IsSqrt;
    assert E[0] == 2.0 && E[1] == 0.0 && E[2] == -1.0 && N[0] == 1.0 && N[1] == 0.0 && N[2] == 1.0;
    var ds := Polynomial(E, p.e1 - 1.0, p.n1 - 1.0, 1) - p.e2;
    var dl := Polynomial(N, p.e1 - 1.0, p.n1 - 1.0, 1) - p.n2;
    assert (ds == 1.0 || ds == -1.0) && dl == 0.0;
    RootOfSquare(sqrt, 1.0, SumOfSquares2(ds, dl));
  }

  lemma FirstCornerIsWorst(r: Refinement, start: Coefficients, s: Snapshot)
    requires FittedFrom(r, start, s) && r.original == Corners() && r.order == 1 && s.kept == Everything(4)
    requires r.minimumGcps == 3 && r.tolerance == 1.0
    requires r.means == Means(1.0, 1.0, 2.0, 1.0) && IsSqrt(r.sqrt) && forall k, forward :: r.alloc(k, forward)
    ensures !Done(r, s) && forall nIndex :: WorstIn(r, s, nIndex) ==> nIndex == 0
  {
    hide Refitted;
    hide ShownMiss;
    hide IsSqrt;
    CornersMiss(r, start, s);
    var cp := KeptPoints(r.original, s.kept);
    assert ShownMiss(cp[0], 1.0, 1.0, s.fit.toX, s.fit.toY, 1, r.sqrt) == 1.0;
  }

  /** Without the first corner, both directions can be fitted. */
  lemma OtherCornersFit(r: Refinement, before: Coefficients, t: Snapshot)
    requires FittedFrom(r, before, t) && r.original == Corners() && r.order == 1 && t.kept == [1, 2, 3]
    requires r.means == Means(1.0, 1.0, 2.0, 1.0) && forall k, forward :: r.alloc(k, forward)
    ensures t.status == MSUCCESS
  {
    hide DirectionFitted;
    hide FitStatus;
    var cp := KeptPoints(r.original, t.kept);
    TriangleDetermines(cp, 1.0, 1.0, [1.0, -1.0, 1.0], [-1.0, 1.0, 1.0]);
    TriangleDetermines(Turned(cp), 2.0, 1.0, [0.0, -2.0, 0.0], [-1.0, 1.0, 1.0]);
  }
}
