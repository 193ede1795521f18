/**
 Enumerating the polygons of a whole raster, as the polygonizer does: a first
 pass builds the id map, its merges are completed, and a second pass with a
 fresh enumerator hands out the final labels.
 */
module Polygonize {
  import opened RasterGraph
  import opened PolygonEnumerator

  /** The provisional ids of the first `n` lines; they do not depend on any merge. */
  ghost function RasterIds(conn: int, raster: Raster, width: nat, n: nat): (r: (seq<seq<int>>, int))
    requires Rectangular(raster, width) && n <= |raster|
    ensures |r.0| == n && forall y :: 0 <= y < n ==> |r.0[y]| == width
  {
    if n == 0 then ([], 0)
    else
      var (ids, next) := RasterIds(conn, raster, width, n - 1);
      var (line, next') := LineIds(conn, Above(raster, ids), raster[n - 1], width, next);
      (ids + [line], next')
  }

  ghost function Above(raster: Raster, ids: seq<seq<int>>): PreviousLine
    requires |ids| <= |raster|
  {
    if ids == [] then NoLine else Line(raster[|ids| - 1], ids[|ids| - 1])
  }

  /** Runs an enumerator over all lines, each with the values and ids of the line before. */
  method ProcessAllLines(e: Enumerator, raster: Raster, width: nat, mem: nat -> bool)
    returns (ok: bool, ids: seq<seq<int>>)
    requires e.Valid() && e.nNextPolygonId == 0 && e.first == [] && e.root == []
    requires Rectangular(raster, width)
    modifies e
    ensures e.Valid() && e.ValuesMatch(raster)
    ensures !ok ==> |raster| * width >= INT_MAX || exists n :: !mem(n)
    ensures ok ==>
      && ids == RasterIds(e.nConnectedness, raster, width, |raster|).0
      && Labelling(raster, e.nConnectedness, ids, e.first, e.root)
      && FirstPixelsScanned(ids, e.first)
  {
    ids := [];
    ok := true;
    var prev := NoLine;
    while |ids| < |raster|
      invariant 0 <= |ids| <= |raster|
      invariant e.Valid() && e.ValuesMatch(raster)
      invariant (ids, e.nNextPolygonId) == RasterIds(e.nConnectedness, raster, width, |ids|)
      invariant e.nNextPolygonId <= |ids| * width
      invariant prev == Above(raster, ids)
      invariant Labelling(raster, e.nConnectedness, ids, e.first, e.root)
      invariant FirstPixelsScanned(ids, e.first)
      decreases |raster| - |ids|
    {
      hide Labelling;
      hide FirstPixelsScanned;
      var line := new int[width];
      var vals := raster[|ids|];
      PixelsSoFar(|ids|, |raster|, width);
      ok := e.ProcessLine(prev, vals, line, mem, raster, ids);
      if !ok {
        return;
      }
      ids := ids + [line[..]];
      prev := Line(vals, line[..]);
    }
  }

  lemma PixelsSoFar(n: nat, height: nat, width: nat)
    requires n < height
    ensures n * width + width == (n + 1) * width <= height * width
  {
  }

  ghost function Image<A, B>(s: set<A>, f: A -> B): set<B> {
    set a | a in s :: f(a)
  }

  lemma {:induction false} InjectiveImageSize<A, B>(s: set<A>, f: A -> B)
    requires forall a, b :: a in s && b in s && f(a) == f(b) ==> a == b
    ensures |Image(s, f)| == |s|
  {
    if s != {} {
      var x :| x in s;
      InjectiveImageSize(s - {x}, f);
      assert Image(s, f) == Image(s - {x}, f) + {f(x)};
    }
  }

  ghost function Representatives(root: seq<int>): set<int> {
    set k | 0 <= k < |root| && root[k] == k
  }

  /** The component that representative `k` stands for. */
  ghost function ComponentOf(raster: Raster, conn: int, first: seq<Pixel>, k: int): set<Pixel> {
    if 0 <= k < |first| then Component(raster, conn, first[k]) else {}
  }

  lemma RepresentativesStandForDifferentComponents(
      raster: Raster, conn: int, ids: seq<seq<int>>, first: seq<Pixel>, root: seq<int>, i: int, j: int)
    requires Labelling(raster, conn, ids, first, root) && FirstPixelsScanned(ids, first)
    requires forall p :: HasData(raster, p) ==> Scanned(ids, p)
    requires i in Representatives(root) && j in Representatives(root)
    requires ComponentOf(raster, conn, first, i) == ComponentOf(raster, conn, first, j)
    ensures i == j
  {
    DataPixelsAreThoseWithData(raster, first[j]);
    ConnectedReflexive(raster, conn, first[j]);
    assert first[j] in Component(raster, conn, first[j]);
    LabellingIsConnectivity(raster, conn, ids, first, root, first[i], first[j]);
  }

  lemma EveryPixelHasItsRepresentative(raster: Raster, conn: int, ids: seq<seq<int>>, first: seq<Pixel>, root: seq<int>, p: Pixel)
      returns (k: int)
    requires Labelling(raster, conn, ids, first, root)
    requires HasData(raster, p) && Scanned(ids, p)
    requires forall i :: 0 <= i < |root| ==> root[i] in Representatives(root)
    ensures k in Representatives(root) && ComponentOf(raster, conn, first, k) == Component(raster, conn, p)
  {
    var id := IdAt(ids, p);
    k := root[id];
    ConnectedTransitive(raster, conn, p, first[id], first[k]);
    ConnectedHaveSameComponent(raster, conn, p, first[k]);
  }

  /** There are as many representatives as connected components. */
  lemma RepresentativesCountComponents(raster: Raster, conn: int, ids: seq<seq<int>>, first: seq<Pixel>, root: seq<int>)
    requires Labelling(raster, conn, ids, first, root) && FirstPixelsScanned(ids, first)
    requires forall p :: HasData(raster, p) ==> Scanned(ids, p)
    requires forall i :: 0 <= i < |root| ==> root[i] in Representatives(root)
    ensures |Representatives(root)| == |Components(raster, conn)|
  {
    var roots := Representatives(root);
    var f := k => ComponentOf(raster, conn, first, k);
    forall i, j | i in roots && j in roots && f(i) == f(j)
      ensures i == j
    {
      RepresentativesStandForDifferentComponents(raster, conn, ids, first, root, i, j);
    }
    InjectiveImageSize(roots, f);
    var image := Image(roots, f);
    forall c | c in image
      ensures c in Components(raster, conn)
    {
      var k :| k in roots && c == f(k);
      assert HasData(raster, first[k]);
      DataPixelsAreThoseWithData(raster, first[k]);
    }
    forall c | c in Components(raster, conn)
      ensures c in image
    {
      var p :| p in DataPixels(raster) && c == Component(raster, conn, p);
      DataPixelsAreThoseWithData(raster, p);
      var k := EveryPixelHasItsRepresentative(raster, conn, ids, first, root, p);
      assert k in roots && f(k) == c;
    }
    assert image == Components(raster, conn);
  }

  lemma ConnectedHaveSameComponent(raster: Raster, conn: int, p: Pixel, q: Pixel)
    requires Connected(raster, conn, p, q)
    ensures Component(raster, conn, p) == Component(raster, conn, q)
  {
    ConnectedSymmetric(raster, conn, p, q);
    forall r | r in DataPixels(raster)
      ensures Connected(raster, conn, p, r) <==> Connected(raster, conn, q, r)
    {
      if Connected(raster, conn, p, r) {
        ConnectedTransitive(raster, conn, q, p, r);
      }
      if Connected(raster, conn, q, r) {
        ConnectedTransitive(raster, conn, p, q, r);
      }
    }
  }

  /** The labels are exactly the connected components of the data pixels. */
  ghost predicate LabelsAreComponents(raster: Raster, conn: int, labels: seq<seq<int>>) {
    && (forall p :: HasData(raster, p) ==> Scanned(labels, p) && IdAt(labels, p) >= 0)
    && (forall p, q :: HasData(raster, p) && HasData(raster, q) ==>
          (IdAt(labels, p) == IdAt(labels, q) <==> Connected(raster, conn, p, q)))
    && (forall p :: InRaster(raster, p) && !HasData(raster, p) ==> Scanned(labels, p) && IdAt(labels, p) == -1)
  }

  function FinalLabel(idMap: seq<int>, id: int): int {
    if 0 <= id < |idMap| then idMap[id] else -1
  }

  function FinalLabels(idMap: seq<int>, ids: seq<seq<int>>): (labels: seq<seq<int>>)
    ensures |labels| == |ids|
    ensures forall y :: 0 <= y < |ids| ==> |labels[y]| == |ids[y]|
    ensures forall y, x :: 0 <= y < |ids| && 0 <= x < |ids[y]| ==> labels[y][x] == FinalLabel(idMap, ids[y][x])
  {
    seq(|ids|, y requires 0 <= y < |ids| =>
      seq(|ids[y]|, x requires 0 <= x < |ids[y]| => FinalLabel(idMap, ids[y][x])))
  }

  lemma RootsAreRepresentatives(m: seq<int>, root: seq<int>, depth: seq<nat>)
    requires Forest(m, root, depth)
    ensures forall i :: 0 <= i < |root| ==> root[i] in Representatives(root)
  {
    forall i | 0 <= i < |root|
      ensures root[i] in Representatives(root)
    {
      assert Rooted(m, root, depth, i);
    }
  }

  /** A data pixel's final label is the id of a polygon that holds its value. */
  lemma FinalLabelHasValue(raster: Raster, conn: int, ids: seq<seq<int>>, first: seq<Pixel>, root: seq<int>, p: Pixel)
    requires Labelling(raster, conn, ids, first, root)
    requires HasData(raster, p) && Scanned(ids, p)
    ensures 0 <= IdAt(ids, p) < |root| && 0 <= root[IdAt(ids, p)] < |first|
    ensures HasData(raster, first[root[IdAt(ids, p)]])
    ensures Value(raster, first[root[IdAt(ids, p)]]) == Value(raster, p)
  {
    var k := IdAt(ids, p);
    ConnectedTransitive(raster, conn, p, first[k], first[root[k]]);
    ConnectedSameValue(raster, conn, p, first[root[k]]);
  }

  lemma FinalLabelAt(root: seq<int>, ids: seq<seq<int>>, p: Pixel)
    requires Scanned(ids, p)
    ensures Scanned(FinalLabels(root, ids), p) && IdAt(FinalLabels(root, ids), p) == FinalLabel(root, IdAt(ids, p))
  {
  }

  lemma NoDataLabel(raster: Raster, conn: int, ids: seq<seq<int>>, first: seq<Pixel>, root: seq<int>, p: Pixel)
    requires Labelling(raster, conn, ids, first, root) && Scanned(ids, p) && !HasData(raster, p)
    ensures IdAt(ids, p) == -1
  {
  }

  lemma FinalLabelsAreComponents(raster: Raster, conn: int, ids: seq<seq<int>>, first: seq<Pixel>, root: seq<int>)
    requires forall p :: InRaster(raster, p) ==> Scanned(ids, p)
    requires Labelling(raster, conn, ids, first, root)
    ensures LabelsAreComponents(raster, conn, FinalLabels(root, ids))
    ensures forall p :: HasData(raster, p) ==>
              && 0 <= IdAt(FinalLabels(root, ids), p) < |first|
              && HasData(raster, first[IdAt(FinalLabels(root, ids), p)])
              && Value(raster, first[IdAt(FinalLabels(root, ids), p)]) == Value(raster, p)
  {
    hide Labelling;
    hide FinalLabels;
    hide Connected;
    hide IdAt;
    hide Scanned;
    var labels := FinalLabels(root, ids);
    forall p | HasData(raster, p)
      ensures Scanned(labels, p) && 0 <= IdAt(labels, p) < |first| && HasData(raster, first[IdAt(labels, p)])
      ensures Value(raster, first[IdAt(labels, p)]) == Value(raster, p)
    {
      FinalLabelAt(root, ids, p);
      FinalLabelHasValue(raster, conn, ids, first, root, p);
    }
    forall p, q | HasData(raster, p) && HasData(raster, q)
      ensures IdAt(labels, p) == IdAt(labels, q) <==> Connected(raster, conn, p, q)
    {
      FinalLabelAt(root, ids, p);
      FinalLabelAt(root, ids, q);
      FinalLabelHasValue(raster, conn, ids, first, root, p);
      FinalLabelHasValue(raster, conn, ids, first, root, q);
      LabellingIsConnectivity(raster, conn, ids, first, root, p, q);
    }
    forall p | InRaster(raster, p) && !HasData(raster, p)
      ensures Scanned(labels, p) && IdAt(labels, p) == -1
    {
      FinalLabelAt(root, ids, p);
      NoDataLabel(raster, conn, ids, first, root, p);
    }
  }

  /** Both passes of the polygonizer over one raster. */
  method EnumeratePolygons(raster: Raster, width: nat, nConnectedness: int, mem: nat -> bool)
    returns (ok: bool, labels: seq<seq<int>>, values: seq<int>, nFinalPolyCount: int)
    requires nConnectedness == 4 || nConnectedness == 8
    requires Rectangular(raster, width)
    ensures ok ==> LabelsAreComponents(raster, nConnectedness, labels)
    ensures ok ==> forall p :: HasData(raster, p) ==>
              0 <= IdAt(labels, p) < |values| && values[IdAt(labels, p)] == Value(raster, p)
    ensures ok ==> nFinalPolyCount == |Components(raster, nConnectedness)|
    ensures |raster| * width < INT_MAX && (forall n :: mem(n)) ==> ok
  {
    labels, values, nFinalPolyCount := [], [], 0;
    var firstEnum := new Enumerator(nConnectedness);
    var firstIds, secondIds;
    ok, firstIds := ProcessAllLines(firstEnum, raster, width, mem);
    if !ok {
      return;
    }
    nFinalPolyCount := firstEnum.CompleteMerges();
    var idMap := firstEnum.panPolyIdMap;
    RootsAreRepresentatives(idMap, firstEnum.root, firstEnum.depth);
    RepresentativesCountComponents(raster, nConnectedness, firstIds, firstEnum.first, idMap);
    FinalLabelsAreComponents(raster, nConnectedness, firstIds, firstEnum.first, idMap);
    values := firstEnum.panPolyValue;

    var secondEnum := new Enumerator(nConnectedness);
    ok, secondIds := ProcessAllLines(secondEnum, raster, width, mem);
    if !ok {
      return;
    }
    labels := FinalLabels(idMap, secondIds);
  }
}
