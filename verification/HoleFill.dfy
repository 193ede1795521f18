/**
 The last pass over the back map of a geolocation array: holes in a line are
 filled from the two valid cells beside them. It goes tile by tile, and carries
 each line's last valid cell from one tile to the next.
 */
module HoleFill {
  import opened LinearAlgebra
  import opened RealFacts
  import opened Tiling

  const INVALID := -10.0

  predicate Valid(v: real) {
    v != INVALID
  }

  // --------------------------------------------- what the pass is for, line by line

  /** The last valid cell before `k`, or -1. */
  function PrevValid(xs: seq<real>, k: int): (p: int)
    requires 0 <= k <= |xs|
    ensures -1 <= p < k && (p >= 0 ==> Valid(xs[p]))
    ensures forall j :: p < j < k ==> !Valid(xs[j])
  {
    if k == 0 then -1 else if Valid(xs[k - 1]) then k - 1 else PrevValid(xs, k - 1)
  }

  /** The first valid cell from `k` on, or the end of the line. */
  function NextValid(xs: seq<real>, k: int): (n: int)
    requires 0 <= k <= |xs|
    ensures k <= n <= |xs| && (n < |xs| ==> Valid(xs[n]))
    ensures forall j :: k <= j < n ==> !Valid(xs[j])
    decreases |xs| - k
  {
    if k == |xs| then k else if Valid(xs[k]) then k else NextValid(xs, k + 1)
  }

  /** Two valid cells close enough in both coordinates. */
  predicate Close(xs: seq<real>, ys: seq<real>, p: int, n: int)
    requires 0 <= p < |xs| && 0 <= n < |xs| && |ys| == |xs|
  {
    Abs(xs[n] - xs[p]) <= 2.0 && Abs(ys[n] - ys[p]) <= 2.0
  }

  /** Cell `k` gets filled: it is a hole between two close valid cells. */
  predicate Fills(xs: seq<real>, ys: seq<real>, k: int)
    requires 0 <= k < |xs| && |ys| == |xs|
  {
    var p, n := PrevValid(xs, k), NextValid(xs, k);
    !Valid(xs[k]) && p >= 0 && n < |xs| && Close(xs, ys, p, n)
  }

  /** The straight line from v0 at p to v1 at n. */
  function Line(v0: real, v1: real, p: int, n: int, k: int): real
    requires p < n
  {
    var alpha := (k - p) as real / (n - p) as real;
    (1.0 - alpha) * v0 + alpha * v1
  }

  /** The straight line from cell p to cell n, at cell k. */
  function Interpolated(vs: seq<real>, p: int, n: int, k: int): real
    requires 0 <= p < n < |vs|
  {
    Line(vs[p], vs[n], p, n, k)
  }

  /** What becomes of cell k of `vs`, which is the line of either coordinate. */
  function Filled(xs: seq<real>, ys: seq<real>, vs: seq<real>, k: int): real
    requires 0 <= k < |xs| && |ys| == |xs| && |vs| == |xs|
  {
    if Fills(xs, ys, k) then Interpolated(vs, PrevValid(xs, k), NextValid(xs, k), k) else vs[k]
  }

  /** Valid cells stay, and a hole gets a value between those of its two neighbours. */
  lemma FilledStaysBetween(xs: seq<real>, ys: seq<real>, vs: seq<real>, k: int, low: real, high: real)
    requires 0 <= k < |xs| && |ys| == |xs| && |vs| == |xs|
    ensures Valid(xs[k]) ==> Filled(xs, ys, vs, k) == vs[k]
    ensures Fills(xs, ys, k) && low <= vs[PrevValid(xs, k)] <= high && low <= vs[NextValid(xs, k)] <= high ==>
      low <= Filled(xs, ys, vs, k) <= high
  {
    if Fills(xs, ys, k) {
      var p, n := PrevValid(xs, k), NextValid(xs, k);
      if low <= vs[p] <= high && low <= vs[n] <= high {
        LineStaysBetween(vs[p], vs[n], p, n, k, low, high);
      }
    }
  }

  /** The line meets both ends, and goes from one to the other in equal steps. */
  lemma LineIsStraight(v0: real, v1: real, p: int, n: int, k: int)
    requires p < n
    ensures Line(v0, v1, p, n, p) == v0 && Line(v0, v1, p, n, n) == v1
    ensures Line(v0, v1, p, n, k + 1) - Line(v0, v1, p, n, k) == (v1 - v0) / (n - p) as real
  {
    var width := (n - p) as real;
    var alpha, next := (k - p) as real / width, (k + 1 - p) as real / width;
    assert width / width == 1.0;
    assert next == alpha + 1.0 / width;
    LineByAlpha(v0, v1, alpha, 1.0 / width);
    assert (1.0 / width) * (v1 - v0) == (v1 - v0) / width;
  }

  lemma LineByAlpha(v0: real, v1: real, alpha: real, step: real)
    ensures ((1.0 - (alpha + step)) * v0 + (alpha + step) * v1) - ((1.0 - alpha) * v0 + alpha * v1) == step * (v1 - v0)
  {
  }

  lemma LineStaysBetween(v0: real, v1: real, p: int, n: int, k: int, low: real, high: real)
    requires p < k < n && low <= v0 <= high && low <= v1 <= high
    ensures low <= Line(v0, v1, p, n, k) <= high
  {
    var alpha := (k - p) as real / (n - p) as real;
    ShareInRange((k - p) as real, (n - p) as real);
    Weighted(alpha, v0 - low, v1 - low);
    Weighted(alpha, high - v0, high - v1);
    assert (1.0 - alpha) * (v0 - low) + alpha * (v1 - low) == (1.0 - alpha) * v0 + alpha * v1 - low;
    assert (1.0 - alpha) * (high - v0) + alpha * (high - v1) == high - ((1.0 - alpha) * v0 + alpha * v1);
  }

  lemma ShareInRange(a: real, b: real)
    requires 0.0 < a < b
    ensures 0.0 <= a / b <= 1.0
  {
    var q := a / b;
    assert q * b == a;
    assert q < 0.0 ==> q * b < 0.0;
    assert q > 1.0 ==> (q - 1.0) * b > 0.0;
  }

  lemma Weighted(alpha: real, a: real, b: real)
    requires 0.0 <= alpha <= 1.0 && a >= 0.0 && b >= 0.0
    ensures (1.0 - alpha) * a + alpha * b >= 0.0
  {
    assert (1.0 - alpha) * a >= 0.0 && alpha * b >= 0.0;
  }

  // ------------------------------------------------------------ how far a line is done

  /** Cell k once the line has been seen up to column x: a hole waits for its right neighbour. */
  function SoFar(xs: seq<real>, ys: seq<real>, vs: seq<real>, k: int, x: int): real
    requires 0 <= k < |xs| && |ys| == |xs| && |vs| == |xs|
  {
    if NextValid(xs, k) < x then Filled(xs, ys, vs, k) else vs[k]
  }

  lemma AllDone(xs: seq<real>, ys: seq<real>, vs: seq<real>, k: int)
    requires 0 <= k < |xs| && |ys| == |xs| && |vs| == |xs|
    ensures SoFar(xs, ys, vs, k, |xs|) == Filled(xs, ys, vs, k)
  {
  }

  lemma NothingDone(xs: seq<real>, ys: seq<real>, vs: seq<real>, k: int)
    requires 0 <= k < |xs| && |ys| == |xs| && |vs| == |xs|
    ensures SoFar(xs, ys, vs, k, 0) == vs[k]
  {
  }

  /** A hole at column x changes nothing. */
  lemma SeeingHole(xs: seq<real>, ys: seq<real>, vs: seq<real>, k: int, x: int)
    requires 0 <= k < |xs| && |ys| == |xs| && |vs| == |xs| && 0 <= x < |xs| && !Valid(xs[x])
    ensures SoFar(xs, ys, vs, k, x + 1) == SoFar(xs, ys, vs, k, x) && PrevValid(xs, x + 1) == PrevValid(xs, x)
  {
  }

  /** A valid cell at column x settles the holes between it and the last valid one, and nothing else. */
  lemma SeeingValid(xs: seq<real>, ys: seq<real>, vs: seq<real>, k: int, x: int)
    requires 0 <= k < |xs| && |ys| == |xs| && |vs| == |xs| && 0 <= x < |xs| && Valid(xs[x])
    ensures PrevValid(xs, x + 1) == x
    ensures var p := PrevValid(xs, x);
      SoFar(xs, ys, vs, k, x + 1) ==
        if p < k < x && p >= 0 && Close(xs, ys, p, x) then Interpolated(vs, p, x, k) else SoFar(xs, ys, vs, k, x)
  {
    var p := PrevValid(xs, x);
    if p < k < x {
      assert NextValid(xs, k) == x;
      assert PrevValid(xs, k) == p;
    } else if k <= p {
      assert NextValid(xs, k) <= p;
    } else {
      assert NextValid(xs, k) >= x;
      assert k == x ==> NextValid(xs, k) == x && Valid(xs[k]);
    }
  }

  // ------------------------------------------------------------------------- the pass

  /** `ox` and `oy` have the shape of the two arrays of the back map. */
  ghost predicate Shape(bmX: array2<real>, bmY: array2<real>, ox: seq<seq<real>>, oy: seq<seq<real>>) {
    && bmX != bmY && bmX.Length0 == bmY.Length0 == |ox| == |oy| && bmX.Length1 == bmY.Length1
    && forall r :: 0 <= r < |ox| ==> |ox[r]| == |oy[r]| == bmX.Length1
  }

  /** Cell k of line r of both arrays, for the line seen up to column x. */
  ghost predicate CellSoFar(bmX: array2<real>, bmY: array2<real>, ox: seq<seq<real>>, oy: seq<seq<real>>, r: int, k: int, x: int)
    requires Shape(bmX, bmY, ox, oy) && 0 <= r < |ox| && 0 <= k < bmX.Length1
    reads bmX, bmY
  {
    bmX[r, k] == SoFar(ox[r], oy[r], ox[r], k, x) && bmY[r, k] == SoFar(ox[r], oy[r], oy[r], k, x)
  }

  ghost predicate LineSoFar(bmX: array2<real>, bmY: array2<real>, ox: seq<seq<real>>, oy: seq<seq<real>>, r: int, x: int)
    requires Shape(bmX, bmY, ox, oy) && 0 <= r < |ox|
    reads bmX, bmY
  {
    forall k :: 0 <= k < bmX.Length1 ==> CellSoFar(bmX, bmY, ox, oy, r, k, x)
  }

  /** The last valid cell as it is carried along: its column and its X entry. */
  ghost predicate Carries(xs: seq<real>, x: int, last: int, bmLast: real) {
    0 <= x <= |xs| && last == PrevValid(xs, x) && (last >= 0 ==> bmLast == xs[last])
  }

  method FillGap(bmX: array2<real>, bmY: array2<real>, r: int, p: int, n: int)
    requires bmX != bmY && bmX.Length0 == bmY.Length0 && bmX.Length1 == bmY.Length1
    requires 0 <= r < bmX.Length0 && 0 <= p < n < bmX.Length1
    modifies bmX, bmY
    ensures forall k :: p < k < n ==> bmX[r, k] == Line(old(bmX[r, p]), old(bmX[r, n]), p, n, k) && bmY[r, k] == Line(old(bmY[r, p]), old(bmY[r, n]), p, n, k)
    ensures forall j, k :: 0 <= j < bmX.Length0 && 0 <= k < bmX.Length1 && !(j == r && p < k < n) ==> bmX[j, k] == old(bmX[j, k]) && bmY[j, k] == old(bmY[j, k])
  {
    var x0, x1, y0, y1 := bmX[r, p], bmX[r, n], bmY[r, p], bmY[r, n];
    for i := p + 1 to n
      invariant forall k :: p < k < i ==> bmX[r, k] == Line(x0, x1, p, n, k) && bmY[r, k] == Line(y0, y1, p, n, k)
      invariant forall j, k :: 0 <= j < bmX.Length0 && 0 <= k < bmX.Length1 && !(j == r && p < k < i) ==> bmX[j, k] == old(bmX[j, k]) && bmY[j, k] == old(bmY[j, k])
    {
      var alpha := (i - p) as real / (n - p) as real;
      bmX[r, i] := (1.0 - alpha) * x0 + alpha * x1;
      bmY[r, i] := (1.0 - alpha) * y0 + alpha * y1;
    }
  }

  /** All lines but r are as they were. */
  twostate predicate OtherLinesKept(bmX: array2<real>, bmY: array2<real>, r: int)
    requires bmX.Length0 == bmY.Length0 && bmX.Length1 == bmY.Length1
    reads bmX, bmY
  {
    forall j, k :: 0 <= j < bmX.Length0 && j != r && 0 <= k < bmX.Length1 ==> bmX[j, k] == old(bmX[j, k]) && bmY[j, k] == old(bmY[j, k])
  }

  /** One cell of the scan. */
  method ScanCell(bmX: array2<real>, bmY: array2<real>, ghost ox: seq<seq<real>>, ghost oy: seq<seq<real>>,
                  r: int, x: int, last0: int, bmLast0: real) returns (last: int, bmLast: real)
    requires Shape(bmX, bmY, ox, oy) && 0 <= r < |ox| && 0 <= x < bmX.Length1
    requires LineSoFar(bmX, bmY, ox, oy, r, x) && Carries(ox[r], x, last0, bmLast0)
    modifies bmX, bmY
    ensures LineSoFar(bmX, bmY, ox, oy, r, x + 1) && Carries(ox[r], x + 1, last, bmLast)
    ensures OtherLinesKept(bmX, bmY, r)
  {
    ghost var xs, ys, next := ox[r], oy[r], x + 1;
    last, bmLast := last0, bmLast0;
    var value := bmX[r, x];
    assert CellSoFar(bmX, bmY, ox, oy, r, x, x);
    assert value == xs[x] && bmY[r, x] == ys[x];
    if !Valid(value) {
      forall k | 0 <= k < bmX.Length1
        ensures CellSoFar(bmX, bmY, ox, oy, r, k, next)
      {
        assert CellSoFar(bmX, bmY, ox, oy, r, k, x);
        SeeingHole(xs, ys, xs, k, x);
        SeeingHole(xs, ys, ys, k, x);
      }
      SeeingHole(xs, ys, xs, x, x);
      return;
    }
    if last != -1 {
      assert CellSoFar(bmX, bmY, ox, oy, r, last, x);
      KeepsValid(xs, ys, xs, last, x);
      KeepsValid(xs, ys, ys, last, x);
    }
    label before:
    if last != -1 && x > last + 1 && Abs(value - bmLast) <= 2.0 {
      if Abs(bmY[r, x] - bmY[r, last]) <= 2.0 {
        FillGap(bmX, bmY, r, last, x);
      }
    }
    forall k | 0 <= k < bmX.Length1
      ensures CellSoFar(bmX, bmY, ox, oy, r, k, next)
    {
      assert old@before(CellSoFar(bmX, bmY, ox, oy, r, k, x));
      hide SoFar;
      SeeingValid(xs, ys, xs, k, x);
      SeeingValid(xs, ys, ys, k, x);
    }
    SeeingValid(xs, ys, xs, x, x);
    last, bmLast := x, value;
  }

  lemma KeepsValid(xs: seq<real>, ys: seq<real>, vs: seq<real>, k: int, x: int)
    requires 0 <= k < |xs| && |ys| == |xs| && |vs| == |xs| && Valid(xs[k])
    ensures SoFar(xs, ys, vs, k, x) == vs[k]
  {
  }

  /** The columns of one tile, on one of its lines. */
  method ScanSegment(bmX: array2<real>, bmY: array2<real>, ghost ox: seq<seq<real>>, ghost oy: seq<seq<real>>,
                     r: int, xStart: int, xEnd: int, last0: int, bmLast0: real) returns (last: int, bmLast: real)
    requires Shape(bmX, bmY, ox, oy) && 0 <= r < |ox| && 0 <= xStart <= xEnd <= bmX.Length1
    requires LineSoFar(bmX, bmY, ox, oy, r, xStart) && Carries(ox[r], xStart, last0, bmLast0)
    modifies bmX, bmY
    ensures LineSoFar(bmX, bmY, ox, oy, r, xEnd) && Carries(ox[r], xEnd, last, bmLast)
    ensures forall j, x :: 0 <= j < |ox| && j != r && old(LineSoFar(bmX, bmY, ox, oy, j, x)) ==> LineSoFar(bmX, bmY, ox, oy, j, x)
  {
    last, bmLast := last0, bmLast0;
    for x := xStart to xEnd
      invariant LineSoFar(bmX, bmY, ox, oy, r, x) && Carries(ox[r], x, last, bmLast)
      invariant OtherLinesKept(bmX, bmY, r)
    {
      last, bmLast := ScanCell(bmX, bmY, ox, oy, r, x, last, bmLast);
    }
    forall j, x | 0 <= j < |ox| && j != r && old(LineSoFar(bmX, bmY, ox, oy, j, x))
      ensures LineSoFar(bmX, bmY, ox, oy, j, x)
    {
      forall k | 0 <= k < bmX.Length1
        ensures CellSoFar(bmX, bmY, ox, oy, j, k, x)
      {
        assert old(CellSoFar(bmX, bmY, ox, oy, j, k, x));
      }
    }
  }

  // ---------------------------------------------------------------------- tile by tile

  datatype LastValid = LastValid(iX: int, bmX: real)

  /** Lines outside [yStart, yEnd) stay as far as they were. */
  twostate predicate LinesBesideKept(bmX: array2<real>, bmY: array2<real>, ox: seq<seq<real>>, oy: seq<seq<real>>, yStart: int, yEnd: int)
    requires Shape(bmX, bmY, ox, oy)
    reads bmX, bmY
  {
    forall j, x :: 0 <= j < |ox| && !(yStart <= j < yEnd) && old(LineSoFar(bmX, bmY, ox, oy, j, x)) ==> LineSoFar(bmX, bmY, ox, oy, j, x)
  }

  /** One tile: each of its lines goes on from where the tile to the left has left it. */
  method ScanTile(bmX: array2<real>, bmY: array2<real>, ghost ox: seq<seq<real>>, ghost oy: seq<seq<real>>,
                  yStart: int, yEnd: int, xStart: int, xEnd: int, lastValid: array<LastValid>)
    requires Shape(bmX, bmY, ox, oy) && 0 <= yStart <= yEnd <= |ox| && 0 <= xStart <= xEnd <= bmX.Length1
    requires yEnd - yStart <= lastValid.Length
    requires forall j :: yStart <= j < yEnd ==> LineSoFar(bmX, bmY, ox, oy, j, xStart)
    requires forall j :: yStart <= j < yEnd ==> Carries(ox[j], xStart, lastValid[j - yStart].iX, lastValid[j - yStart].bmX)
    modifies bmX, bmY, lastValid
    ensures forall j :: yStart <= j < yEnd ==> LineSoFar(bmX, bmY, ox, oy, j, xEnd)
    ensures forall j :: yStart <= j < yEnd ==> Carries(ox[j], xEnd, lastValid[j - yStart].iX, lastValid[j - yStart].bmX)
    ensures LinesBesideKept(bmX, bmY, ox, oy, yStart, yEnd)
  {
    hide LineSoFar;
    hide Carries;
    for y := yStart to yEnd
      invariant forall j :: yStart <= j < y ==> LineSoFar(bmX, bmY, ox, oy, j, xEnd)
      invariant forall j :: y <= j < yEnd ==> LineSoFar(bmX, bmY, ox, oy, j, xStart)
      invariant forall j :: yStart <= j < y ==> Carries(ox[j], xEnd, lastValid[j - yStart].iX, lastValid[j - yStart].bmX)
      invariant forall j :: y <= j < yEnd ==> Carries(ox[j], xStart, lastValid[j - yStart].iX, lastValid[j - yStart].bmX)
      invariant LinesBesideKept(bmX, bmY, ox, oy, yStart, yEnd)
    {
      var i := y - yStart;
      var last, bmLast := ScanSegment(bmX, bmY, ox, oy, y, xStart, xEnd, lastValid[i].iX, lastValid[i].bmX);
      lastValid[i] := LastValid(last, bmLast);
    }
  }

  /** One row of tiles, from left to right, with nothing carried into it. */
  method ScanStrip(bmX: array2<real>, bmY: array2<real>, ghost ox: seq<seq<real>>, ghost oy: seq<seq<real>>,
                   tile: int, yStart: int, yEnd: int)
    requires Shape(bmX, bmY, ox, oy) && tile >= 1 && 0 <= yStart <= yEnd <= |ox| && yEnd - yStart <= tile
    requires forall j :: yStart <= j < yEnd ==> LineSoFar(bmX, bmY, ox, oy, j, 0)
    modifies bmX, bmY
    ensures forall j :: yStart <= j < yEnd ==> LineSoFar(bmX, bmY, ox, oy, j, bmX.Length1)
    ensures LinesBesideKept(bmX, bmY, ox, oy, yStart, yEnd)
  {
    var lastValid := new LastValid[tile](_ => LastValid(-1, 0.0));
    var width := bmX.Length1;
    var blocks := Blocks(width, tile);
    ghost var seen := 0;
    assert forall j :: yStart <= j < yEnd ==> Carries(ox[j], seen, lastValid[j - yStart].iX, lastValid[j - yStart].bmX);
    hide LineSoFar;
    hide Carries;
    NoBlocks(width, tile);
    for b := 0 to blocks
      invariant seen == Reached(width, tile, b) && 0 <= seen <= width
      invariant forall j :: yStart <= j < yEnd ==> LineSoFar(bmX, bmY, ox, oy, j, seen)
      invariant forall j :: yStart <= j < yEnd ==> Carries(ox[j], seen, lastValid[j - yStart].iX, lastValid[j - yStart].bmX)
      invariant LinesBesideKept(bmX, bmY, ox, oy, yStart, yEnd)
    {
      BlocksTile(width, tile, b);
      ScanTile(bmX, bmY, ox, oy, yStart, yEnd, BlockStart(tile, b), BlockEnd(width, tile, b), lastValid);
      seen := BlockEnd(width, tile, b);
    }
  }

  /** The whole pass, for any tile size: every cell of both arrays gets what its line alone determines. */
  method FillHoles(bmX: array2<real>, bmY: array2<real>, tile: int)
    requires bmX != bmY && bmX.Length0 == bmY.Length0 && bmX.Length1 == bmY.Length1 && tile >= 1
    modifies bmX, bmY
    ensures var ox, oy := old(Rows(bmX)), old(Rows(bmY));
      forall r, k :: 0 <= r < bmX.Length0 && 0 <= k < bmX.Length1 ==>
        bmX[r, k] == Filled(ox[r], oy[r], ox[r], k) && bmY[r, k] == Filled(ox[r], oy[r], oy[r], k)
  {
    ghost var ox, oy := Rows(bmX), Rows(bmY);
    var width, height := bmX.Length1, bmX.Length0;
    var blocks := Blocks(height, tile);
    forall j | 0 <= j < height
      ensures LineSoFar(bmX, bmY, ox, oy, j, 0)
    {
      forall k | 0 <= k < width
        ensures CellSoFar(bmX, bmY, ox, oy, j, k, 0)
      {
        NothingDone(ox[j], oy[j], ox[j], k);
        NothingDone(ox[j], oy[j], oy[j], k);
      }
    }
    ghost var done := 0;
    NoBlocks(height, tile);
    for b := 0 to blocks
      invariant done == Reached(height, tile, b) && 0 <= done <= height
      invariant forall j :: 0 <= j < done ==> LineSoFar(bmX, bmY, ox, oy, j, width)
      invariant forall j :: done <= j < height ==> LineSoFar(bmX, bmY, ox, oy, j, 0)
    {
      hide LineSoFar;
      BlocksTile(height, tile, b);
      ScanStrip(bmX, bmY, ox, oy, tile, BlockStart(tile, b), BlockEnd(height, tile, b));
      done := BlockEnd(height, tile, b);
    }
    forall r, k | 0 <= r < height && 0 <= k < width
      ensures bmX[r, k] == Filled(ox[r], oy[r], ox[r], k) && bmY[r, k] == Filled(ox[r], oy[r], oy[r], k)
    {
      assert LineSoFar(bmX, bmY, ox, oy, r, width);
      assert CellSoFar(bmX, bmY, ox, oy, r, k, width);
      AllDone(ox[r], oy[r], ox[r], k);
      AllDone(ox[r], oy[r], oy[r], k);
    }
  }
}
