/**
 The per-quadrant point selection of the gridding estimators: points in the
 ellipse are filed by distance in one sorted list per quadrant, and are then
 taken in turn, the nearest of each quadrant first, until a limit is reached or
 nothing is left.
 */
module GridQuadrant {
  import opened GridMetrics
  import opened RealFacts
  import opened Basics

  datatype Sample = Sample(dist: real, z: real)

  type Quadrants = qs: seq<seq<Sample>> | |qs| == 4 witness [[], [], [], []]

  ghost predicate NearestFirst(list: seq<Sample>) {
    forall i, j :: 0 <= i < j < |list| ==> list[i].dist <= list[j].dist
  }

  // ------------------------------------------------------------ filing points

  /** Insertion into a list sorted by distance, after entries at the same distance. */
  function Insert(list: seq<Sample>, p: Sample): seq<Sample> {
    if list == [] || list[|list| - 1].dist <= p.dist then list + [p]
    else Insert(list[..|list| - 1], p) + [list[|list| - 1]]
  }

  lemma {:induction false} InsertFiles(list: seq<Sample>, p: Sample)
    requires NearestFirst(list)
    ensures NearestFirst(Insert(list, p))
    ensures multiset(Insert(list, p)) == multiset(list) + multiset{p}
  {
    if list == [] || list[|list| - 1].dist <= p.dist {
    } else {
      var front, last := list[..|list| - 1], list[|list| - 1];
      InsertFiles(front, p);
      assert list == front + [last];
      LastStaysLast(front, last, p, Insert(front, p));
    }
  }

  lemma LastStaysLast(front: seq<Sample>, last: Sample, p: Sample, filed: seq<Sample>)
    requires NearestFirst(front + [last]) && p.dist < last.dist
    requires NearestFirst(filed) && multiset(filed) == multiset(front) + multiset{p}
    ensures NearestFirst(filed + [last]) && multiset(filed + [last]) == multiset(front + [last]) + multiset{p}
  {
    forall i | 0 <= i < |filed|
      ensures filed[i].dist <= last.dist
    {
      assert filed[i] in multiset(filed);
      if filed[i] != p {
        var j :| 0 <= j < |front| && front[j] == filed[i];
        assert (front + [last])[j] == front[j] && (front + [last])[|front|] == last;
      }
    }
  }

  /** The side of a point: two bits, for the sign of either coordinate; zero counts as positive. */
  function QuadrantOf(rx: real, ry: real): (q: int)
    ensures 0 <= q < 4
    ensures q % 2 == 1 <==> rx >= 0.0
    ensures q / 2 == 1 <==> ry >= 0.0
  {
    (if rx >= 0.0 then 1 else 0) + (if ry >= 0.0 then 2 else 0)
  }

  // ----------------------------------------------------------- taking in turn

  /** How many points of a quadrant may be used at most; 0 means no limit. */
  function Cap(size: nat, nMaxPerQuadrant: nat): nat {
    if nMaxPerQuadrant > 0 && nMaxPerQuadrant < size then nMaxPerQuadrant else size
  }

  ghost function CapOf(qs: Quadrants, nMax: nat, q: int): nat
    requires 0 <= q < 4
  {
    Cap(|qs[q]|, nMax)
  }

  /** After `k` full rounds and the first `i` quadrants of the next one. */
  ghost predicate InTurn(qs: Quadrants, nMax: nat, taken: seq<nat>, k: nat, i: int) {
    && |taken| == 4 && 0 <= i <= 4
    && forall q :: 0 <= q < 4 ==> taken[q] == Min(CapOf(qs, nMax, q), if q < i then k + 1 else k)
  }

  ghost function Total(t: seq<nat>): nat
    requires |t| == 4
  {
    t[0] + t[1] + t[2] + t[3]
  }

  ghost function CapTotal(qs: Quadrants, nMax: nat): nat {
    CapOf(qs, nMax, 0) + CapOf(qs, nMax, 1) + CapOf(qs, nMax, 2) + CapOf(qs, nMax, 3)
  }

  /** The contribution of the first `n` points of a list. */
  ghost function PrefixSum(list: seq<Sample>, f: Sample -> real, n: nat): real
    requires n <= |list|
  {
    if n == 0 then 0.0 else PrefixSum(list, f, n - 1) + f(list[n - 1])
  }

  ghost function TakenSum(qs: Quadrants, f: Sample -> real, taken: seq<nat>): real
    requires |taken| == 4 && forall q :: 0 <= q < 4 ==> taken[q] <= |qs[q]|
  {
    PrefixSum(qs[0], f, taken[0]) + PrefixSum(qs[1], f, taken[1]) + PrefixSum(qs[2], f, taken[2]) + PrefixSum(qs[3], f, taken[3])
  }

  /** Quadrants left to look at before one that is not known to be finished; 4 when all are. */
  ghost function Distance(finished: seq<bool>, i: int): nat
    requires |finished| == 4 && 0 <= i < 4
  {
    if !finished[i] then 0
    else if !finished[(i + 1) % 4] then 1
    else if !finished[(i + 2) % 4] then 2
    else if !finished[(i + 3) % 4] then 3
    else 4
  }

  ghost function Unfinished(finished: seq<bool>): nat
    requires |finished| == 4
  {
    (if finished[0] then 0 else 1) + (if finished[1] then 0 else 1) + (if finished[2] then 0 else 1) + (if finished[3] then 0 else 1)
  }

  /** One turn later: the next quadrant, of the next round after the last one. */
  ghost predicate Turn(qs: Quadrants, nMax: nat, taken: seq<nat>, i: int) {
    0 <= i < 4 && exists k :: InTurn(qs, nMax, taken, k, i)
  }

  lemma NextTurn(qs: Quadrants, nMax: nat, taken: seq<nat>, k: nat, i: int)
    requires InTurn(qs, nMax, taken, k, i + 1) && 0 <= i < 4
    ensures Turn(qs, nMax, taken, (i + 1) % 4)
  {
    if i == 3 {
      assert InTurn(qs, nMax, taken, k + 1, 0);
    } else {
      assert InTurn(qs, nMax, taken, k, i + 1);
    }
  }

  lemma SkipKeepsTurns(qs: Quadrants, nMax: nat, taken: seq<nat>, i: int)
    requires Turn(qs, nMax, taken, i) && |taken| == 4 && taken[i] == CapOf(qs, nMax, i)
    ensures Turn(qs, nMax, taken, (i + 1) % 4)
  {
    var k :| InTurn(qs, nMax, taken, k, i);
    NextTurn(qs, nMax, taken, k, i);
  }

  /** No quadrant that could still give a point is more than one behind another, and none is over its cap. */
  ghost predicate Fair(qs: Quadrants, nMax: nat, taken: seq<nat>) {
    && |taken| == 4
    && (forall q :: 0 <= q < 4 ==> taken[q] <= CapOf(qs, nMax, q))
    && (forall a, b :: 0 <= a < 4 && 0 <= b < 4 && taken[a] < CapOf(qs, nMax, a) ==> taken[b] <= taken[a] + 1)
  }

  lemma TurnsAreFair(qs: Quadrants, nMax: nat, taken: seq<nat>, k: nat, i: int)
    requires InTurn(qs, nMax, taken, k, i)
    ensures Fair(qs, nMax, taken)
  {
  }

  lemma FairTotal(qs: Quadrants, nMax: nat, taken: seq<nat>)
    requires Fair(qs, nMax, taken)
    ensures Total(taken) <= CapTotal(qs, nMax)
  {
    assert taken[0] <= CapOf(qs, nMax, 0) && taken[1] <= CapOf(qs, nMax, 1);
    assert taken[2] <= CapOf(qs, nMax, 2) && taken[3] <= CapOf(qs, nMax, 3);
  }

  /** The flags agree with what has been taken. */
  ghost predicate FlagsTrue(qs: Quadrants, nMax: nat, taken: seq<nat>, finished: seq<bool>) {
    |finished| == |taken| == 4 && forall q :: 0 <= q < 4 && finished[q] ==> taken[q] == CapOf(qs, nMax, q)
  }

  lemma TakeInRound(qs: Quadrants, nMax: nat, taken: seq<nat>, k: nat, i: int)
    requires InTurn(qs, nMax, taken, k, i) && 0 <= i < 4 && taken[i] < CapOf(qs, nMax, i)
    ensures InTurn(qs, nMax, taken[i := taken[i] + 1], k, i + 1)
  {
    hide CapOf;
  }

  /** A point is taken: the turns stay fair, one point fewer is left. */
  lemma TakeKeepsTurns(qs: Quadrants, nMax: nat, taken: seq<nat>, finished: seq<bool>, i: int)
    requires Turn(qs, nMax, taken, i) && |taken| == 4 && taken[i] < CapOf(qs, nMax, i)
    requires FlagsTrue(qs, nMax, taken, finished)
    ensures Turn(qs, nMax, taken[i := taken[i] + 1], (i + 1) % 4)
    ensures Fair(qs, nMax, taken[i := taken[i] + 1]) && FlagsTrue(qs, nMax, taken[i := taken[i] + 1], finished)
    ensures Total(taken[i := taken[i] + 1]) == Total(taken) + 1 <= CapTotal(qs, nMax)
  {
    hide InTurn;
    hide CapOf;
    hide CapTotal;
    hide Fair;
    var taken' := taken[i := taken[i] + 1];
    var k :| InTurn(qs, nMax, taken, k, i);
    TakeInRound(qs, nMax, taken, k, i);
    NextTurn(qs, nMax, taken', k, i);
    TurnsAreFair(qs, nMax, taken', k, i + 1);
    FairTotal(qs, nMax, taken');
  }

  lemma FlagGoesUp(qs: Quadrants, nMax: nat, taken: seq<nat>, finished: seq<bool>, i: int)
    requires FlagsTrue(qs, nMax, taken, finished) && 0 <= i < 4 && taken[i] == CapOf(qs, nMax, i)
    ensures FlagsTrue(qs, nMax, taken, finished[i := true])
  {
  }

  lemma AllFinished(qs: Quadrants, nMax: nat, taken: seq<nat>)
    requires FlagsTrue(qs, nMax, taken, [true, true, true, true])
    ensures Total(taken) == CapTotal(qs, nMax)
  {
    var f := [true, true, true, true];
    assert f[0] && f[1] && f[2] && f[3];
  }

  lemma TakenSumStep(qs: Quadrants, f: Sample -> real, taken: seq<nat>, i: int)
    requires |taken| == 4 && 0 <= i < 4 && (forall q :: 0 <= q < 4 ==> taken[q] <= |qs[q]|) && taken[i] < |qs[i]|
    ensures TakenSum(qs, f, taken[i := taken[i] + 1]) == TakenSum(qs, f, taken) + f(qs[i][taken[i]])
  {
  }

  /** Passing a quadrant brings the loop nearer to its end. */
  lemma SkipMakesProgress(finished: seq<bool>, i: int)
    requires |finished| == 4 && 0 <= i < 4
    ensures !finished[i] ==> Unfinished(finished[i := true]) < Unfinished(finished)
    ensures finished[i] && Unfinished(finished) > 0 ==>
      finished[i := true] == finished && Distance(finished, (i + 1) % 4) < Distance(finished, i)
  {
  }

  /** What has been taken so far, and what it adds up to. */
  datatype Progress = Progress(taken: seq<nat>, n: nat, numerator: real, denominator: real)

  ghost predicate Sound(qs: Quadrants, nMax: nat, num: Sample -> real, den: Sample -> real, g: Progress) {
    && Fair(qs, nMax, g.taken)
    && (forall q :: 0 <= q < 4 ==> g.taken[q] <= |qs[q]|)
    && g.n == Total(g.taken) <= CapTotal(qs, nMax)
    && g.numerator == TakenSum(qs, num, g.taken)
    && g.denominator == TakenSum(qs, den, g.taken)
  }

  function Take(g: Progress, q: int, p: Sample, num: Sample -> real, den: Sample -> real): Progress
    requires 0 <= q < |g.taken|
  {
    Progress(g.taken[q := g.taken[q] + 1], g.n + 1, g.numerator + num(p), g.denominator + den(p))
  }

  lemma CapInList(qs: Quadrants, nMax: nat, q: int)
    requires 0 <= q < 4
    ensures CapOf(qs, nMax, q) <= |qs[q]|
  {
  }

  lemma WithinCaps(qs: Quadrants, nMax: nat, taken: seq<nat>)
    requires Fair(qs, nMax, taken)
    ensures |taken| == 4 && forall q :: 0 <= q < 4 ==> taken[q] <= CapOf(qs, nMax, q)
  {
  }

  lemma TakeIsSound(qs: Quadrants, nMax: nat, num: Sample -> real, den: Sample -> real, g: Progress, finished: seq<bool>, i: int)
    requires Sound(qs, nMax, num, den, g) && Turn(qs, nMax, g.taken, i) && FlagsTrue(qs, nMax, g.taken, finished)
    requires g.taken[i] < CapOf(qs, nMax, i)
    ensures g.taken[i] < |qs[i]|
    ensures Sound(qs, nMax, num, den, Take(g, i, qs[i][g.taken[i]], num, den))
    ensures Turn(qs, nMax, Take(g, i, qs[i][g.taken[i]], num, den).taken, (i + 1) % 4)
    ensures FlagsTrue(qs, nMax, Take(g, i, qs[i][g.taken[i]], num, den).taken, finished)
  {
    hide TakenSum;
    hide InTurn;
    hide FlagsTrue;
    hide CapTotal;
    hide CapOf;
    hide Fair;
    hide Total;
    CapInList(qs, nMax, i);
    assert |g.taken| == 4 by {
      WithinCaps(qs, nMax, g.taken);
    }
    TakeKeepsTurns(qs, nMax, g.taken, finished, i);
    TakenSumStep(qs, num, g.taken, i);
    TakenSumStep(qs, den, g.taken, i);
  }

  lemma NothingTaken(qs: Quadrants, nMax: nat, num: Sample -> real, den: Sample -> real)
    ensures Sound(qs, nMax, num, den, Progress([0, 0, 0, 0], 0, 0.0, 0.0))
    ensures Turn(qs, nMax, [0, 0, 0, 0], 0) && FlagsTrue(qs, nMax, [0, 0, 0, 0], [false, false, false, false])
  {
    assert InTurn(qs, nMax, [0, 0, 0, 0], 0, 0);
  }

  /** The endless round-robin loop: it ends, takes the nearest points of each quadrant in turn, and sums what they contribute. */
  method TakeInTurn(qs: Quadrants, nMaxPoints: nat, nMaxPerQuadrant: nat, num: Sample -> real, den: Sample -> real)
    returns (g: Progress)
    ensures Sound(qs, nMaxPerQuadrant, num, den, g)
    ensures g.n == if nMaxPoints > 0 then Min(nMaxPoints, CapTotal(qs, nMaxPerQuadrant)) else CapTotal(qs, nMaxPerQuadrant)
  {
    hide Fair;
    hide Total;
    hide InTurn;
    var finished := [false, false, false, false];
    g := Progress([0, 0, 0, 0], 0, 0.0, 0.0);
    NothingTaken(qs, nMaxPerQuadrant, num, den);
    var iQuadrant := 0;
    assert Unfinished(finished) == 4;
    hide Turn;
    hide TakenSum;
    hide Distance;
    hide FlagsTrue;
    hide CapTotal;
    hide Unfinished;
    while true
      invariant 0 <= iQuadrant < 4 && |finished| == 4 && Unfinished(finished) > 0
      invariant Sound(qs, nMaxPerQuadrant, num, den, g) && (nMaxPoints > 0 ==> g.n < nMaxPoints)
      invariant Turn(qs, nMaxPerQuadrant, g.taken, iQuadrant) && FlagsTrue(qs, nMaxPerQuadrant, g.taken, finished)
      decreases CapTotal(qs, nMaxPerQuadrant) - g.n, Unfinished(finished), Distance(finished, iQuadrant)
    {
      if g.taken[iQuadrant] == |qs[iQuadrant]| || (nMaxPerQuadrant > 0 && g.taken[iQuadrant] >= nMaxPerQuadrant) {
        SkipMakesProgress(finished, iQuadrant);
        WithinCaps(qs, nMaxPerQuadrant, g.taken);
        SkipKeepsTurns(qs, nMaxPerQuadrant, g.taken, iQuadrant);
        FlagGoesUp(qs, nMaxPerQuadrant, g.taken, finished, iQuadrant);
        finished := finished[iQuadrant := true];
        if finished == [true, true, true, true] {
          AllFinished(qs, nMaxPerQuadrant, g.taken);
          break;
        }
        SomeUnfinished(finished);
      } else {
        TakeIsSound(qs, nMaxPerQuadrant, num, den, g, finished, iQuadrant);
        g := Take(g, iQuadrant, qs[iQuadrant][g.taken[iQuadrant]], num, den);
        if nMaxPoints > 0 && g.n >= nMaxPoints {
          break;
        }
      }
      iQuadrant := (iQuadrant + 1) % 4;
    }
  }

  lemma SomeUnfinished(finished: seq<bool>)
    requires |finished| == 4
    ensures finished != [true, true, true, true] ==> Unfinished(finished) > 0
  {
    if Unfinished(finished) == 0 {
      assert finished == [finished[0], finished[1], finished[2], finished[3]];
    }
  }

  // ------------------------------------------------------- the moving average

  /** What a point becomes when it is filed: its squared distance and its value. */
  function SampleOf(e: Ellipse, p: Point, px: real, py: real): Sample {
    Sample(Sq(RotatedX(e, p.x - px, p.y - py)) + Sq(RotatedY(e, p.x - px, p.y - py)), p.z)
  }

  function SideOf(e: Ellipse, p: Point, px: real, py: real): int {
    QuadrantOf(RotatedX(e, p.x - px, p.y - py), RotatedY(e, p.x - px, p.y - py))
  }

  /** Two points are filed on the same side exactly if both their coordinates along the axes have the same sign. */
  lemma SidesAreSigns(e: Ellipse, p: Point, p': Point, px: real, py: real)
    ensures SideOf(e, p, px, py) == SideOf(e, p', px, py) <==>
      && (RotatedX(e, p.x - px, p.y - py) >= 0.0 <==> RotatedX(e, p'.x - px, p'.y - py) >= 0.0)
      && (RotatedY(e, p.x - px, p.y - py) >= 0.0 <==> RotatedY(e, p'.x - px, p'.y - py) >= 0.0)
  {
    hide RotatedX;
    hide RotatedY;
  }

  /** On which side a point lies that is u along the first axis and v along the second, for any rotation. */
  lemma SideAlongAxes(e: Ellipse, px: real, py: real, u: real, v: real, z: real)
    requires ValidEllipse(e)
    ensures SideOf(e, Point(px + AlongX(e, u, v), py + AlongY(e, u, v), z), px, py) ==
      if v < 0.0 then (if u < 0.0 then 0 else 1) else (if u < 0.0 then 2 else 3)
  {
    RotationUndone(e, u, v);
    var p := Point(px + AlongX(e, u, v), py + AlongY(e, u, v), z);
    assert p.x - px == AlongX(e, u, v) && p.y - py == AlongY(e, u, v);
    hide RotatedX;
    hide RotatedY;
    hide AlongX;
    hide AlongY;
  }

  /** Points are filed by their squared distance from the node, whatever the rotation, with their own value. */
  lemma FiledByDistance(e: Ellipse, p: Point, px: real, py: real)
    requires ValidEllipse(e)
    ensures SampleOf(e, p, px, py) == Sample(Sq(p.x - px) + Sq(p.y - py), p.z)
  {
    hide RotatedX;
    hide RotatedY;
    RotationKeepsDistance(e, p.x - px, p.y - py);
  }

  /** The samples that belong to quadrant `q`. */
  ghost function Belonging(pts: seq<Point>, e: Ellipse, px: real, py: real, found: seq<int>, q: int): multiset<Sample> {
    if found == [] then multiset{}
    else
      var i := found[|found| - 1];
      var before := Belonging(pts, e, px, py, found[..|found| - 1], q);
      if 0 <= i < |pts| && Inside(e, pts[i], px, py) && SideOf(e, pts[i], px, py) == q
      then before + multiset{SampleOf(e, pts[i], px, py)} else before
  }

  /** Point number k is in the ellipse on side q, at this squared distance from the node. */
  ghost predicate IsFiled(pts: seq<Point>, e: Ellipse, px: real, py: real, found: seq<int>, q: int, k: int, s: Sample) {
    && k in found && 0 <= k < |pts| && Inside(e, pts[k], px, py) && SideOf(e, pts[k], px, py) == q
    && s == Sample(Sq(pts[k].x - px) + Sq(pts[k].y - py), pts[k].z)
  }

  /** Every sample of a quadrant stems from a point on its side. */
  lemma {:induction false} SampleHasPoint(pts: seq<Point>, e: Ellipse, px: real, py: real, found: seq<int>, q: int, s: Sample)
    returns (k: int)
    requires ValidEllipse(e) && s in Belonging(pts, e, px, py, found, q)
    ensures IsFiled(pts, e, px, py, found, q, k, s)
  {
    hide Inside;
    hide SideOf;
    hide SampleOf;
    var i := found[|found| - 1];
    if 0 <= i < |pts| && Inside(e, pts[i], px, py) && SideOf(e, pts[i], px, py) == q && s == SampleOf(e, pts[i], px, py) {
      FiledByDistance(e, pts[i], px, py);
      k := i;
    } else {
      k := SampleHasPoint(pts, e, px, py, found[..|found| - 1], q, s);
    }
  }

  /** Of each side, the points that were used are no farther from the node than those that were not. */
  lemma TakenAreNearest(qs: Quadrants, pts: seq<Point>, e: Ellipse, px: real, py: real, found: seq<int>,
                        nMax: nat, num: Sample -> real, den: Sample -> real, g: Progress, q: int, i: int, j: int)
    returns (used: int, left: int)
    requires ValidEllipse(e) && FiledRight(qs, pts, e, px, py, found) && Sound(qs, nMax, num, den, g)
    requires 0 <= q < 4 && 0 <= i < g.taken[q] <= j < |qs[q]|
    ensures IsFiled(pts, e, px, py, found, q, used, qs[q][i]) && IsFiled(pts, e, px, py, found, q, left, qs[q][j])
    ensures Sq(pts[used].x - px) + Sq(pts[used].y - py) <= Sq(pts[left].x - px) + Sq(pts[left].y - py)
  {
    hide Belonging;
    hide Inside;
    hide SideOf;
    assert qs[q][i] in multiset(qs[q]) && qs[q][j] in multiset(qs[q]);
    used := SampleHasPoint(pts, e, px, py, found, q, qs[q][i]);
    left := SampleHasPoint(pts, e, px, py, found, q, qs[q][j]);
  }

  ghost function Filed(qs: Quadrants): nat {
    |qs[0]| + |qs[1]| + |qs[2]| + |qs[3]|
  }

  ghost predicate FiledRight(qs: Quadrants, pts: seq<Point>, e: Ellipse, px: real, py: real, found: seq<int>) {
    forall q :: 0 <= q < 4 ==> NearestFirst(qs[q]) && multiset(qs[q]) == Belonging(pts, e, px, py, found, q)
  }

  /** Files every found point that is in the ellipse under its quadrant. */
  method FilePoints(pts: seq<Point>, e: Ellipse, px: real, py: real, found: seq<int>) returns (qs: Quadrants)
    requires forall k :: 0 <= k < |found| ==> 0 <= found[k] < |pts|
    ensures FiledRight(qs, pts, e, px, py, found)
    ensures Filed(qs) == Walk(pts, e, px, py, found).n
  {
    hide Inside;
    hide SampleOf;
    hide SideOf;
    hide FiledRight;
    hide Walk;
    qs := [[], [], [], []];
    NothingFiled(pts, e, px, py, found);
    for k := 0 to |found|
      invariant FiledRight(qs, pts, e, px, py, found[..k])
      invariant Filed(qs) == Walk(pts, e, px, py, found[..k]).n
    {
      var p := pts[found[k]];
      ghost var was := qs;
      if Inside(e, p, px, py) {
        var q, s := SideOf(e, p, px, py), SampleOf(e, p, px, py);
        SideInRange(e, p, px, py);
        InsertLonger(qs[q], s);
        qs := qs[q := Insert(qs[q], s)];
      }
      OneFiled(was, qs, pts, e, px, py, found, k);
      OneWalked(pts, e, px, py, found, k);
    }
    assert found[..|found|] == found;
  }

  lemma NothingFiled(pts: seq<Point>, e: Ellipse, px: real, py: real, found: seq<int>)
    ensures FiledRight([[], [], [], []], pts, e, px, py, found[..0]) && Walk(pts, e, px, py, found[..0]).n == 0
  {
  }

  lemma OneWalked(pts: seq<Point>, e: Ellipse, px: real, py: real, found: seq<int>, k: nat)
    requires k < |found| && 0 <= found[k] < |pts|
    ensures Walk(pts, e, px, py, found[..k + 1]).n ==
      Walk(pts, e, px, py, found[..k]).n + (if Inside(e, pts[found[k]], px, py) then 1 else 0)
  {
    hide Inside;
    assert found[..k + 1][..k] == found[..k];
  }

  lemma {:induction false} InsertLonger(list: seq<Sample>, s: Sample)
    ensures |Insert(list, s)| == |list| + 1
  {
    if list != [] && list[|list| - 1].dist > s.dist {
      InsertLonger(list[..|list| - 1], s);
    }
  }

  lemma OneFiled(was: Quadrants, qs: Quadrants, pts: seq<Point>, e: Ellipse, px: real, py: real, found: seq<int>, k: nat)
    requires k < |found| && 0 <= found[k] < |pts| && FiledRight(was, pts, e, px, py, found[..k])
    requires !Inside(e, pts[found[k]], px, py) ==> qs == was
    requires Inside(e, pts[found[k]], px, py) ==>
      var q := SideOf(e, pts[found[k]], px, py);
      0 <= q < 4 && qs == was[q := Insert(was[q], SampleOf(e, pts[found[k]], px, py))]
    ensures FiledRight(qs, pts, e, px, py, found[..k + 1])
  {
    hide Inside;
    hide SampleOf;
    hide SideOf;
    hide NearestFirst;
    hide Insert;
    hide Belonging;
    forall q | 0 <= q < 4
      ensures NearestFirst(qs[q]) && multiset(qs[q]) == Belonging(pts, e, px, py, found[..k + 1], q)
    {
      assert NearestFirst(was[q]) && multiset(was[q]) == Belonging(pts, e, px, py, found[..k], q);
      InsertFiles(was[q], SampleOf(e, pts[found[k]], px, py));
      OneBelongs(pts, e, px, py, found, k, q);
    }
  }

  lemma OneBelongs(pts: seq<Point>, e: Ellipse, px: real, py: real, found: seq<int>, k: nat, q: int)
    requires k < |found| && 0 <= found[k] < |pts|
    ensures Belonging(pts, e, px, py, found[..k + 1], q) == Belonging(pts, e, px, py, found[..k], q) +
      (if Inside(e, pts[found[k]], px, py) && SideOf(e, pts[found[k]], px, py) == q
       then multiset{SampleOf(e, pts[found[k]], px, py)} else multiset{})
  {
    hide Inside;
    hide SampleOf;
    hide SideOf;
    assert found[..k + 1][..k] == found[..k];
  }

  lemma SideInRange(e: Ellipse, p: Point, px: real, py: real)
    ensures 0 <= SideOf(e, p, px, py) < 4
  {
  }

  function ValueOf(s: Sample): real {
    s.z
  }

  function One(s: Sample): real {
    1.0
  }

  predicate TooFewSomewhere(taken: seq<nat>, nMinPerQuadrant: nat)
    requires |taken| == 4
  {
    nMinPerQuadrant > 0 &&
    (taken[0] < nMinPerQuadrant || taken[1] < nMinPerQuadrant || taken[2] < nMinPerQuadrant || taken[3] < nMinPerQuadrant)
  }

  /** The moving average over the points that are used, or no data. */
  method MovingAveragePerQuadrant(pts: seq<Point>, e: Ellipse, px: real, py: real, found: seq<int>,
                                  nMinPoints: nat, nMaxPoints: nat, nMinPerQuadrant: nat, nMaxPerQuadrant: nat, noData: real)
    returns (value: real, qs: Quadrants, g: Progress)
    requires ValidEllipse(e) && FindsSquare(found, pts, e, px, py)
    ensures FiledRight(qs, pts, e, px, py, found)
    ensures e.r1 > 0.0 && e.r2 > 0.0 ==> Filed(qs) == |InsideNumbers(pts, e, px, py, |pts|)|
    ensures Sound(qs, nMaxPerQuadrant, ValueOf, One, g)
    ensures g.n == if nMaxPoints > 0 then Min(nMaxPoints, CapTotal(qs, nMaxPerQuadrant)) else CapTotal(qs, nMaxPerQuadrant)
    ensures value ==
      if TooFewSomewhere(g.taken, nMinPerQuadrant) || g.n < nMinPoints || g.n == 0 then noData
      else g.numerator / g.n as real
  {
    FoundInRange(found, pts, e, px, py);
    var lists := FilePoints(pts, e, px, py, found);
    if e.r1 > 0.0 && e.r2 > 0.0 {
      QuadTreeEqualsBruteForce(pts, e, px, py, found);
      WalkMeaning(pts, e, px, py, |pts|);
    }
    hide FiledRight;
    hide InsideNumbers;
    hide Walk;
    hide CapTotal;
    var taken := TakeInTurn(lists, nMaxPoints, nMaxPerQuadrant, ValueOf, One);
    qs, g := lists, taken;
    if TooFewSomewhere(taken.taken, nMinPerQuadrant) {
      value := noData;
    } else if taken.n < nMinPoints || taken.n == 0 {
      value := noData;
    } else {
      value := taken.numerator / taken.n as real;
    }
  }
}
