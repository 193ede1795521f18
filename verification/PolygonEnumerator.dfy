/**
 The one-pass, line-by-line polygon enumerator. Pixels receive provisional
 polygon ids; when two provisional polygons turn out to touch, their ids are
 merged in a union-find map with path compression. Parents may be larger or
 smaller than their children, so the map is kept acyclic by a ghost depth.
 */
module PolygonEnumerator {
  import opened RasterGraph

  /** The largest value of the 32-bit int in which polygon ids are kept. */
  const INT_MAX := 0x7fff_ffff

  // ---------------------------------------------------------------- the forest

  /** Id `i` points towards its representative `root[i]`; `depth` shrinks on the way. */
  ghost predicate Rooted(m: seq<int>, root: seq<int>, depth: seq<nat>, i: int)
    requires |root| == |m| == |depth|
  {
    && 0 <= i < |m|
    && 0 <= m[i] < |m|
    && 0 <= root[i] < |m|
    && root[m[i]] == root[i]
    && root[root[i]] == root[i]
    && (m[i] != i ==> depth[m[i]] < depth[i])
    && (root[i] != i ==> depth[root[i]] < depth[i])
  }

  /** The id map is acyclic and leads every id to its representative. */
  ghost predicate Forest(m: seq<int>, root: seq<int>, depth: seq<nat>) {
    && |root| == |m| == |depth|
    && (forall i :: 0 <= i < |m| ==> Rooted(m, root, depth, i))
    && (forall i :: 0 <= i < |m| ==> (m[i] == i <==> root[i] == i))
  }

  lemma CompressKeepsForest(m: seq<int>, root: seq<int>, depth: seq<nat>, i: int)
    requires Forest(m, root, depth)
    requires 0 <= i < |m|
    ensures Forest(m[i := root[i]], root, depth)
  {
    var m' := m[i := root[i]];
    assert Rooted(m, root, depth, i);
    forall k | 0 <= k < |m'|
      ensures Rooted(m', root, depth, k) && (m'[k] == k <==> root[k] == k)
    {
      assert Rooted(m, root, depth, k);
    }
  }

  /** The representatives once the classes of `src` and `dst` are one. */
  ghost function Merged(root: seq<int>, src: int, dst: int): (r: seq<int>)
    requires 0 <= src < |root| && 0 <= dst < |root|
    ensures |r| == |root|
  {
    seq(|root|, i requires 0 <= i < |root| => if root[i] == root[src] then root[dst] else root[i])
  }

  /** Merging unites exactly two classes and leaves every other one as it was. */
  lemma MergedUnitesTwoClasses(root: seq<int>, src: int, dst: int, i: int, j: int)
    requires 0 <= src < |root| && 0 <= dst < |root| && 0 <= i < |root| && 0 <= j < |root|
    ensures Merged(root, src, dst)[i] == Merged(root, src, dst)[j] <==>
      || root[i] == root[j]
      || ((root[i] == root[src] || root[i] == root[dst]) && (root[j] == root[src] || root[j] == root[dst]))
  {
  }

  /** Depths that let the class of `src` hang below the root of `dst`. */
  ghost function Deepened(root: seq<int>, depth: seq<nat>, src: int, dst: int): (d: seq<nat>)
    requires |root| == |depth| && 0 <= src < |root| && 0 <= dst < |root|
    requires 0 <= root[dst] < |root|
    ensures |d| == |depth|
  {
    if root[src] == root[dst] then depth
    else seq(|depth|, i requires 0 <= i < |depth| =>
               if root[i] == root[src] then depth[i] + depth[root[dst]] + 1 else depth[i])
  }

  /** As a forest for the merged classes, except that the source root is not yet linked. */
  ghost predicate MergeUnderway(m: seq<int>, root: seq<int>, depth: seq<nat>, srcRoot: int) {
    && |root| == |m| == |depth|
    && 0 <= srcRoot < |m|
    && m[srcRoot] == srcRoot
    && (forall i :: 0 <= i < |m| ==> Rooted(m, root, depth, i))
    && (forall i :: 0 <= i < |m| && i != srcRoot ==> (m[i] == i <==> root[i] == i))
  }

  lemma MergeStarts(m: seq<int>, root: seq<int>, depth: seq<nat>, src: int, dst: int)
    requires Forest(m, root, depth)
    requires 0 <= src < |m| && 0 <= dst < |m|
    requires 0 <= root[src] < |m| && 0 <= root[dst] < |m|
    ensures MergeUnderway(m, Merged(root, src, dst), Deepened(root, depth, src, dst), root[src])
  {
    var root', depth' := Merged(root, src, dst), Deepened(root, depth, src, dst);
    assert Rooted(m, root, depth, src) && Rooted(m, root, depth, dst);
    assert Rooted(m, root, depth, root[src]) && Rooted(m, root, depth, root[dst]);
    forall i | 0 <= i < |m|
      ensures Rooted(m, root', depth', i)
    {
      assert Rooted(m, root, depth, i);
    }
    forall i | 0 <= i < |m| && i != root[src]
      ensures m[i] == i <==> root'[i] == i
    {
      assert Rooted(m, root, depth, i);
    }
  }

  lemma RelinkKeepsMergeUnderway(m: seq<int>, root: seq<int>, depth: seq<nat>, srcRoot: int, i: int)
    requires MergeUnderway(m, root, depth, srcRoot)
    requires 0 <= i < |m| && i != srcRoot && m[i] != i
    ensures MergeUnderway(m[i := root[i]], root, depth, srcRoot)
  {
    var m' := m[i := root[i]];
    assert Rooted(m, root, depth, i);
    forall k | 0 <= k < |m'|
      ensures Rooted(m', root, depth, k)
    {
      assert Rooted(m, root, depth, k);
    }
  }

  lemma LinkingTheRootEndsTheMerge(m: seq<int>, root: seq<int>, depth: seq<nat>, srcRoot: int)
    requires MergeUnderway(m, root, depth, srcRoot)
    ensures Forest(m[srcRoot := root[srcRoot]], root, depth)
  {
    var m' := m[srcRoot := root[srcRoot]];
    assert Rooted(m, root, depth, srcRoot);
    forall k | 0 <= k < |m'|
      ensures Rooted(m', root, depth, k)
    {
      assert Rooted(m, root, depth, k);
    }
  }

  // -------------------------------------------------------- what the ids mean

  ghost predicate Scanned(ids: seq<seq<int>>, p: Pixel) {
    0 <= p.row < |ids| && 0 <= p.col < |ids[p.row]|
  }

  ghost function IdAt(ids: seq<seq<int>>, p: Pixel): int
    requires Scanned(ids, p)
  {
    ids[p.row][p.col]
  }

  /** Every scanned pixel is connected to the first pixel of the polygon whose id it carries. */
  ghost predicate IdsSound(raster: Raster, conn: int, ids: seq<seq<int>>, first: seq<Pixel>) {
    && (forall k :: 0 <= k < |first| ==> HasData(raster, first[k]))
    && (forall p :: Scanned(ids, p) && HasData(raster, p) ==>
          0 <= IdAt(ids, p) < |first| && Connected(raster, conn, p, first[IdAt(ids, p)]))
    && (forall p :: Scanned(ids, p) && !HasData(raster, p) ==> IdAt(ids, p) == -1)
  }

  /** Ids are merged only when their polygons really touch. */
  ghost predicate MergesSound(raster: Raster, conn: int, first: seq<Pixel>, root: seq<int>) {
    && |root| == |first|
    && (forall k :: 0 <= k < |root| ==>
          0 <= root[k] < |root| && Connected(raster, conn, first[k], first[root[k]]))
  }

  /** Any two scanned pixels that are joined have had their ids merged. */
  ghost predicate MergesComplete(raster: Raster, conn: int, ids: seq<seq<int>>, root: seq<int>) {
    forall p, q :: Scanned(ids, p) && Scanned(ids, q) && Joined(raster, conn, p, q) ==>
      && 0 <= IdAt(ids, p) < |root|
      && 0 <= IdAt(ids, q) < |root|
      && root[IdAt(ids, p)] == root[IdAt(ids, q)]
  }

  ghost predicate Labelling(raster: Raster, conn: int, ids: seq<seq<int>>, first: seq<Pixel>, root: seq<int>) {
    && IdsSound(raster, conn, ids, first)
    && MergesSound(raster, conn, first, root)
    && MergesComplete(raster, conn, ids, root)
  }

  /** The pixel for which an id was made carries that id. */
  ghost predicate FirstPixelsScanned(ids: seq<seq<int>>, first: seq<Pixel>) {
    forall k :: 0 <= k < |first| ==> Scanned(ids, first[k]) && IdAt(ids, first[k]) == k
  }

  lemma MergeKeepsLabelling(raster: Raster, conn: int, ids: seq<seq<int>>, first: seq<Pixel>, root: seq<int>,
                            src: int, dst: int)
    requires Labelling(raster, conn, ids, first, root)
    requires 0 <= src < |root| && 0 <= dst < |root|
    requires Connected(raster, conn, first[src], first[dst])
    ensures Labelling(raster, conn, ids, first, Merged(root, src, dst))
  {
    var root' := Merged(root, src, dst);
    forall k | 0 <= k < |root'|
      ensures 0 <= root'[k] < |root'| && Connected(raster, conn, first[k], first[root'[k]])
    {
      if root[k] == root[src] {
        ConnectedSymmetric(raster, conn, first[src], first[root[src]]);
        ConnectedTransitive(raster, conn, first[k], first[root[k]], first[src]);
        ConnectedTransitive(raster, conn, first[k], first[src], first[dst]);
        ConnectedTransitive(raster, conn, first[k], first[dst], first[root[dst]]);
      }
    }
  }

  lemma NewPolygonKeepsLabelling(raster: Raster, conn: int, ids: seq<seq<int>>, first: seq<Pixel>, root: seq<int>,
                                 p: Pixel)
    requires Labelling(raster, conn, ids, first, root)
    requires HasData(raster, p)
    ensures Labelling(raster, conn, ids, first + [p], root + [|root|])
  {
    ConnectedReflexive(raster, conn, p);
    var first' := first + [p];
    var root' := root + [|root|];
    assert forall k :: 0 <= k < |root| ==> first'[root'[k]] == first[root[k]];
  }

  /** The already scanned neighbours of the next pixel that hold its value share the class of id `k`. */
  ghost predicate NeighboursAgree(raster: Raster, conn: int, ids: seq<seq<int>>, done: seq<int>, k: int, root: seq<int>)
    requires |ids| < |raster| && |done| < |raster[|ids|]|
  {
    var y := |ids|;
    var x := |done|;
    var v := raster[y][x];
    && 0 <= k < |root|
    && (x > 0 && raster[y][x - 1] == v ==>
          0 <= done[x - 1] < |root| && root[done[x - 1]] == root[k])
    && (y > 0 ==>
          && AboveAgrees(raster, ids, x, v, k, root)
          && (conn == 8 ==> AboveAgrees(raster, ids, x - 1, v, k, root) && AboveAgrees(raster, ids, x + 1, v, k, root)))
  }

  ghost predicate AboveAgrees(raster: Raster, ids: seq<seq<int>>, x: int, v: int, k: int, root: seq<int>)
    requires 0 < |ids| <= |raster|
    requires 0 <= k < |root|
  {
    var y := |ids| - 1;
    0 <= x < |raster[y]| && x < |ids[y]| && raster[y][x] == v ==>
      0 <= ids[y][x] < |root| && root[ids[y][x]] == root[k]
  }

  lemma PixelKeepsLabelling(raster: Raster, conn: int, ids: seq<seq<int>>, done: seq<int>, k: int,
                            first: seq<Pixel>, root: seq<int>)
    requires |ids| < |raster| && |done| < |raster[|ids|]|
    requires Labelling(raster, conn, ids + [done], first, root)
    requires raster[|ids|][|done|] == NODATA_MARKER ==> k == -1
    requires raster[|ids|][|done|] != NODATA_MARKER ==>
               && 0 <= k < |first|
               && Connected(raster, conn, Pixel(|ids|, |done|), first[k])
               && NeighboursAgree(raster, conn, ids, done, k, root)
    ensures Labelling(raster, conn, ids + [done + [k]], first, root)
  {
    var was := ids + [done];
    var now := ids + [done + [k]];
    var here := Pixel(|ids|, |done|);
    assert forall p :: Scanned(was, p) ==> Scanned(now, p) && IdAt(now, p) == IdAt(was, p);
    assert forall p :: Scanned(now, p) && p != here ==> Scanned(was, p);
    assert Scanned(now, here) && IdAt(now, here) == k;
    forall p, q | Scanned(now, p) && Scanned(now, q) && Joined(raster, conn, p, q)
      ensures 0 <= IdAt(now, p) < |root| && 0 <= IdAt(now, q) < |root| && root[IdAt(now, p)] == root[IdAt(now, q)]
    {
      if p != here && q != here {
        assert Scanned(was, p) && Scanned(was, q);
      } else if p == here {
        JoinedNeighbourAgrees(raster, conn, ids, done, k, root, q);
      } else {
        assert Joined(raster, conn, q, p);
        JoinedNeighbourAgrees(raster, conn, ids, done, k, root, p);
      }
    }
  }

  lemma JoinedNeighbourAgrees(raster: Raster, conn: int, ids: seq<seq<int>>, done: seq<int>, k: int,
                              root: seq<int>, q: Pixel)
    requires |ids| < |raster| && |done| < |raster[|ids|]|
    requires NeighboursAgree(raster, conn, ids, done, k, root)
    requires Scanned(ids + [done + [k]], q)
    requires Joined(raster, conn, Pixel(|ids|, |done|), q)
    ensures 0 <= IdAt(ids + [done + [k]], q) < |root| && root[IdAt(ids + [done + [k]], q)] == root[k]
  {
    var y, x := |ids|, |done|;
    if q.row == y {
      assert q.col == x - 1;
    } else {
      assert q.row == y - 1;
      assert AboveAgrees(raster, ids, q.col, raster[y][x], k, root);
    }
  }

  /** Two data pixels of a fully scanned raster share a representative exactly when they are connected. */
  lemma LabellingIsConnectivity(raster: Raster, conn: int, ids: seq<seq<int>>, first: seq<Pixel>, root: seq<int>,
                                p: Pixel, q: Pixel)
    requires Labelling(raster, conn, ids, first, root)
    requires forall r :: HasData(raster, r) ==> Scanned(ids, r)
    requires HasData(raster, p) && HasData(raster, q)
    ensures 0 <= IdAt(ids, p) < |root| && 0 <= IdAt(ids, q) < |root|
    ensures root[IdAt(ids, p)] == root[IdAt(ids, q)] <==> Connected(raster, conn, p, q)
  {
    var i, j := IdAt(ids, p), IdAt(ids, q);
    if root[i] == root[j] {
      ConnectedTransitive(raster, conn, p, first[i], first[root[i]]);
      ConnectedSymmetric(raster, conn, q, first[j]);
      ConnectedSymmetric(raster, conn, first[j], first[root[j]]);
      ConnectedTransitive(raster, conn, first[root[j]], first[j], q);
      ConnectedTransitive(raster, conn, p, first[root[i]], q);
    }
    if Connected(raster, conn, p, q) {
      var path :| IsPath(raster, conn, path, p, q);
      var n := 0;
      while n < |path| - 1
        invariant 0 <= n < |path|
        invariant root[IdAt(ids, path[n])] == root[i]
      {
        assert Joined(raster, conn, path[n], path[n + 1]);
        n := n + 1;
      }
    }
  }

  // ------------------------------------------------------------ the algorithm

  /** The line above, or nothing when the first line is processed. */
  datatype PreviousLine = NoLine | Line(vals: seq<int>, ids: seq<int>)

  /** The id a pixel takes from its neighbours or, when none fits, the fresh id `next`. */
  function ChosenId(conn: int, prev: PreviousLine, vals: seq<int>, done: seq<int>, next: int): int
    requires |done| < |vals|
    requires prev.Line? ==> |prev.vals| == |prev.ids| == |vals|
  {
    var x := |done|;
    if vals[x] == NODATA_MARKER then -1
    else if x > 0 && vals[x] == vals[x - 1] then done[x - 1]
    else if prev.NoLine? then next
    else if prev.vals[x] == vals[x] then prev.ids[x]
    else if x > 0 && conn == 8 && prev.vals[x - 1] == vals[x] then prev.ids[x - 1]
    else if x < |vals| - 1 && conn == 8 && prev.vals[x + 1] == vals[x] then prev.ids[x + 1]
    else next
  }

  /** None of the already scanned neighbours of pixel `x` holds its value. */
  ghost predicate NoNeighbourFits(conn: int, prev: PreviousLine, vals: seq<int>, x: int)
    requires 0 <= x < |vals|
    requires prev.Line? ==> |prev.vals| == |vals|
  {
    && (x > 0 ==> vals[x - 1] != vals[x])
    && (prev.Line? ==>
          && prev.vals[x] != vals[x]
          && (conn == 8 && x > 0 ==> prev.vals[x - 1] != vals[x])
          && (conn == 8 && x < |vals| - 1 ==> prev.vals[x + 1] != vals[x]))
  }

  /** The ids of the first `n` pixels of a line, and the next unused id after them. */
  function LineIds(conn: int, prev: PreviousLine, vals: seq<int>, n: nat, next: int): (r: (seq<int>, int))
    requires n <= |vals|
    requires prev.Line? ==> |prev.vals| == |prev.ids| == |vals|
    ensures |r.0| == n
  {
    if n == 0 then ([], next)
    else
      var (done, unused) := LineIds(conn, prev, vals, n - 1, next);
      var id := ChosenId(conn, prev, vals, done, unused);
      (done + [id], if id == unused then unused + 1 else unused)
  }

  /** The scan stands on line |ids| of the raster, whose values are `vals`, below the line `prev`. */
  ghost predicate AtLine(raster: Raster, ids: seq<seq<int>>, prev: PreviousLine, vals: seq<int>) {
    && |ids| < |raster|
    && Rectangular(raster, |vals|)
    && vals == raster[|ids|]
    && (forall y :: 0 <= y < |ids| ==> |ids[y]| == |vals|)
    && prev == (if ids == [] then NoLine else Line(raster[|ids| - 1], ids[|ids| - 1]))
  }

  /** Ids taken over from a joined neighbour lead back to the neighbour's polygon. */
  lemma NeighbourIdIsSound(raster: Raster, conn: int, ids: seq<seq<int>>, first: seq<Pixel>, p: Pixel, q: Pixel)
    requires IdsSound(raster, conn, ids, first)
    requires Scanned(ids, q) && Joined(raster, conn, p, q)
    ensures 0 <= IdAt(ids, q) < |first|
    ensures Connected(raster, conn, p, first[IdAt(ids, q)])
  {
    JoinedConnected(raster, conn, p, q);
    ConnectedTransitive(raster, conn, p, q, first[IdAt(ids, q)]);
  }

  class Enumerator {
    const nConnectedness: int
    var panPolyIdMap: seq<int>
    var panPolyValue: seq<int>
    var nNextPolygonId: int
    var nPolyAlloc: int

    ghost var root: seq<int>      // the representative of every id
    ghost var depth: seq<nat>     // shrinks along panPolyIdMap
    ghost var first: seq<Pixel>   // the pixel for which every id was made

    ghost predicate Valid()
      reads this
    {
      && 0 <= nNextPolygonId <= nPolyAlloc <= INT_MAX
      && |panPolyIdMap| == |panPolyValue| == |first| == nNextPolygonId
      && Forest(panPolyIdMap, root, depth)
    }

    /** Polygons carry the value of their pixels. */
    ghost predicate ValuesMatch(raster: Raster)
      reads this
    {
      && |first| == |panPolyValue|
      && forall k :: 0 <= k < |first| ==> HasData(raster, first[k]) && panPolyValue[k] == Value(raster, first[k])
    }

    constructor (nConnectednessIn: int)
      requires nConnectednessIn == 4 || nConnectednessIn == 8
      ensures Valid() && nConnectedness == nConnectednessIn && panPolyIdMap == []
      ensures first == [] && root == []
    {
      nConnectedness := nConnectednessIn;
      panPolyIdMap, panPolyValue, nNextPolygonId, nPolyAlloc := [], [], 0, 0;
      root, depth, first := [], [], [];
    }

    /** Unites exactly the classes of the two ids. */
    method MergePolygon(nSrcIdInit: int, nDstIdInit: int)
      requires Valid()
      requires 0 <= nSrcIdInit < nNextPolygonId && 0 <= nDstIdInit < nNextPolygonId
      modifies this`panPolyIdMap, this`root, this`depth
      ensures Valid()
      ensures root == Merged(old(root), nSrcIdInit, nDstIdInit)
      ensures panPolyIdMap[nDstIdInit] == root[nDstIdInit] && panPolyIdMap[nSrcIdInit] == root[nSrcIdInit]
    {
      // Climbs from the destination to its root; the map is only read.
      var nDstIdFinal := nDstIdInit;
      while panPolyIdMap[nDstIdFinal] != nDstIdFinal
        invariant 0 <= nDstIdFinal < nNextPolygonId && root[nDstIdFinal] == root[nDstIdInit]
        decreases depth[nDstIdFinal]
      {
        assert Rooted(panPolyIdMap, root, depth, nDstIdFinal);
        nDstIdFinal := panPolyIdMap[nDstIdFinal];
      }

      // Climbs again and hangs each id passed directly below that root; no id changes its class.
      var nDstIdCur := nDstIdInit;
      while panPolyIdMap[nDstIdCur] != nDstIdCur
        invariant root == old(root) && depth == old(depth)
        invariant Forest(panPolyIdMap, root, depth) && |panPolyIdMap| == nNextPolygonId
        invariant 0 <= nDstIdCur < nNextPolygonId && root[nDstIdCur] == nDstIdFinal
        invariant nDstIdCur != nDstIdInit ==> panPolyIdMap[nDstIdInit] == nDstIdFinal
        decreases depth[nDstIdCur]
      {
        assert Rooted(panPolyIdMap, root, depth, nDstIdCur);
        CompressKeepsForest(panPolyIdMap, root, depth, nDstIdCur);
        var nNextDstId := panPolyIdMap[nDstIdCur];
        panPolyIdMap := panPolyIdMap[nDstIdCur := nDstIdFinal];
        nDstIdCur := nNextDstId;
      }

      // Climbs from the source and does the same: the ids passed change over to the destination's class,
      // and the rest of the source's class follows when its root is linked at the end.
      ghost var before, nSrcRoot := panPolyIdMap, root[nSrcIdInit];
      ghost var root' := Merged(root, nSrcIdInit, nDstIdInit);
      assert Rooted(before, root, depth, nSrcIdInit) && Rooted(before, root, depth, nDstIdInit);
      ghost var depth' := Deepened(root, depth, nSrcIdInit, nDstIdInit);
      MergeStarts(panPolyIdMap, root, depth, nSrcIdInit, nDstIdInit);
      var nSrcId := nSrcIdInit;
      while panPolyIdMap[nSrcId] != nSrcId
        invariant root == old(root) && depth == old(depth)
        invariant 0 <= nSrcId < nNextPolygonId && root[nSrcId] == nSrcRoot
        invariant |panPolyIdMap| == nNextPolygonId
        invariant MergeUnderway(panPolyIdMap, root', depth', nSrcRoot)
        invariant forall i :: 0 <= i < nNextPolygonId && root[i] == nSrcRoot && depth[i] <= depth[nSrcId] ==>
                    panPolyIdMap[i] == before[i]
        invariant panPolyIdMap[nDstIdInit] == nDstIdFinal
        invariant nSrcId != nSrcIdInit ==> panPolyIdMap[nSrcIdInit] == nDstIdFinal
        decreases depth[nSrcId]
      {
        assert Rooted(before, root, depth, nSrcId);
        RelinkKeepsMergeUnderway(panPolyIdMap, root', depth', nSrcRoot, nSrcId);
        var nNextSrcId := panPolyIdMap[nSrcId];
        panPolyIdMap := panPolyIdMap[nSrcId := nDstIdFinal];
        nSrcId := nNextSrcId;
      }
      assert Rooted(before, root, depth, nSrcId);
      assert nSrcId == nSrcRoot;
      LinkingTheRootEndsTheMerge(panPolyIdMap, root', depth', nSrcRoot);
      panPolyIdMap := panPolyIdMap[nSrcId := nDstIdFinal];
      root, depth := root', depth';
    }

    /** A fresh singleton class; fails when the ids or the memory run out. */
    method NewPolygon(nValue: int, mem: nat -> bool, ghost at: Pixel) returns (nPolyId: int)
      requires Valid()
      modifies this
      ensures Valid()
      ensures nPolyId == -1 ==> unchanged(this) && (nNextPolygonId == INT_MAX || exists n :: !mem(n))
      ensures nPolyId != -1 ==>
        && nPolyId == old(nNextPolygonId)
        && nNextPolygonId == old(nNextPolygonId) + 1
        && panPolyIdMap == old(panPolyIdMap) + [nPolyId]
        && panPolyValue == old(panPolyValue) + [nValue]
        && root == old(root) + [nPolyId]
        && first == old(first) + [at]
    {
      if nNextPolygonId == INT_MAX {
        return -1;
      }
      if nNextPolygonId >= nPolyAlloc {
        var nPolyAllocNew := if nPolyAlloc < (INT_MAX - 20) / 2 then nPolyAlloc * 2 + 20 else INT_MAX;
        if !mem(nPolyAllocNew) {
          return -1;
        }
        nPolyAlloc := nPolyAllocNew;
      }
      nPolyId := nNextPolygonId;
      forall i | 0 <= i < nPolyId
        ensures Rooted(panPolyIdMap + [nPolyId], root + [nPolyId], depth + [0], i)
      {
        assert Rooted(panPolyIdMap, root, depth, i);
      }
      panPolyIdMap := panPolyIdMap + [nPolyId];
      panPolyValue := panPolyValue + [nValue];
      root, depth, first := root + [nPolyId], depth + [0], first + [at];
      nNextPolygonId := nNextPolygonId + 1;
    }

    /** Afterwards every id maps straight to its representative; returns how many there are. */
    method CompleteMerges() returns (nFinalPolyCount: int)
      requires Valid()
      modifies this`panPolyIdMap
      ensures Valid()
      ensures panPolyIdMap == root
      ensures nFinalPolyCount == |set i | 0 <= i < |root| && root[i] == i|
    {
      nFinalPolyCount := 0;
      var iPoly := 0;
      ghost var roots: set<int> := {};
      while iPoly < nNextPolygonId
        invariant 0 <= iPoly <= nNextPolygonId == |panPolyIdMap|
        invariant Forest(panPolyIdMap, root, depth)
        invariant forall i :: 0 <= i < iPoly ==> panPolyIdMap[i] == root[i]
        invariant roots == set i | 0 <= i < iPoly && root[i] == i
        invariant nFinalPolyCount == |roots|
      {
        CompressChain(iPoly);
        if panPolyIdMap[iPoly] == iPoly {
          roots := roots + {iPoly};
          nFinalPolyCount := nFinalPolyCount + 1;
        }
        iPoly := iPoly + 1;
      }
      assert roots == set i | 0 <= i < |root| && root[i] == i;
    }

    /** One round of CompleteMerges: the whole chain of `iPoly` is mapped to its end. */
    method CompressChain(iPoly: int)
      requires |panPolyIdMap| == nNextPolygonId && Forest(panPolyIdMap, root, depth)
      requires 0 <= iPoly < nNextPolygonId
      modifies this`panPolyIdMap
      ensures |panPolyIdMap| == nNextPolygonId && Forest(panPolyIdMap, root, depth)
      ensures panPolyIdMap[iPoly] == root[iPoly]
      ensures forall i :: 0 <= i < nNextPolygonId ==> panPolyIdMap[i] == old(panPolyIdMap[i]) || panPolyIdMap[i] == root[i]
    {
      assert Rooted(panPolyIdMap, root, depth, iPoly);
      var nId := panPolyIdMap[iPoly];
      while nId != panPolyIdMap[nId]
        invariant 0 <= nId < nNextPolygonId && root[nId] == root[iPoly]
        decreases depth[nId]
      {
        assert Rooted(panPolyIdMap, root, depth, nId);
        nId := panPolyIdMap[nId];
      }
      var nIdCur := panPolyIdMap[iPoly];
      CompressKeepsForest(panPolyIdMap, root, depth, iPoly);
      panPolyIdMap := panPolyIdMap[iPoly := nId];
      while nIdCur != panPolyIdMap[nIdCur]
        invariant |panPolyIdMap| == nNextPolygonId && Forest(panPolyIdMap, root, depth)
        invariant 0 <= nIdCur < nNextPolygonId && root[nIdCur] == nId
        invariant panPolyIdMap[iPoly] == nId
        invariant forall i :: 0 <= i < nNextPolygonId ==> panPolyIdMap[i] == old(panPolyIdMap[i]) || panPolyIdMap[i] == root[i]
        decreases depth[nIdCur]
      {
        assert Rooted(panPolyIdMap, root, depth, nIdCur);
        CompressKeepsForest(panPolyIdMap, root, depth, nIdCur);
        var nNextId := panPolyIdMap[nIdCur];
        panPolyIdMap := panPolyIdMap[nIdCur := nId];
        nIdCur := nNextId;
      }
    }

    /** Merges the polygon of a joined pixel `q` above with that of the current pixel `p`, unless already mapped alike. */
    method LinkAbove(nLastId: int, nThisId: int, ghost raster: Raster, ghost ids: seq<seq<int>>, ghost p: Pixel, ghost q: Pixel)
      requires Valid() && Labelling(raster, nConnectedness, ids, first, root)
      requires 0 <= nThisId < nNextPolygonId && Connected(raster, nConnectedness, p, first[nThisId])
      requires Scanned(ids, q) && IdAt(ids, q) == nLastId && Joined(raster, nConnectedness, p, q)
      modifies this`panPolyIdMap, this`root, this`depth
      ensures Valid() && Labelling(raster, nConnectedness, ids, first, root)
      ensures 0 <= nLastId < nNextPolygonId && root[nLastId] == root[nThisId]
      ensures root == Merged(old(root), nLastId, nThisId)
    {
      NeighbourIdIsSound(raster, nConnectedness, ids, first, p, q);
      ConnectedSymmetric(raster, nConnectedness, p, first[nLastId]);
      ConnectedTransitive(raster, nConnectedness, first[nLastId], p, first[nThisId]);
      assert Rooted(panPolyIdMap, root, depth, nLastId) && Rooted(panPolyIdMap, root, depth, nThisId);
      MergeKeepsLabelling(raster, nConnectedness, ids, first, root, nLastId, nThisId);
      if panPolyIdMap[nLastId] != panPolyIdMap[nThisId] {
        MergePolygon(nLastId, nThisId);
      } else {
        assert root == Merged(root, nLastId, nThisId);
      }
    }

    /** Links the pixel of the line above in column `c`, if it fits; links already made stay. */
    method LinkColumn(prev: PreviousLine, vals: seq<int>, done: seq<int>, c: int, id: int,
                      ghost raster: Raster, ghost ids: seq<seq<int>>)
      requires Valid() && AtLine(raster, ids, prev, vals) && prev.Line?
      requires |done| < |vals| && vals[|done|] != NODATA_MARKER && 0 <= id < nNextPolygonId
      requires 0 <= c < |vals| && Neighbours(nConnectedness, Pixel(|ids|, |done|), Pixel(|ids| - 1, c))
      requires Labelling(raster, nConnectedness, ids + [done], first, root)
      requires Connected(raster, nConnectedness, Pixel(|ids|, |done|), first[id])
      modifies this`panPolyIdMap, this`root, this`depth
      ensures Valid() && Labelling(raster, nConnectedness, ids + [done], first, root)
      ensures AboveAgrees(raster, ids, c, vals[|done|], id, root)
      ensures forall x :: AboveAgrees(raster, ids, x, vals[|done|], id, old(root)) ==>
                          AboveAgrees(raster, ids, x, vals[|done|], id, root)
      ensures forall k :: 0 <= k < nNextPolygonId && old(root)[k] == old(root)[id] ==> root[k] == root[id]
    {
      if prev.vals[c] == vals[|done|] {
        LinkAbove(prev.ids[c], id, raster, ids + [done], Pixel(|ids|, |done|), Pixel(|ids| - 1, c));
      }
    }

    /** The pixel continues the run to its left: it takes over that id and links every fitting pixel above. */
    method ContinueRun(prev: PreviousLine, vals: seq<int>, done: seq<int>, ghost raster: Raster, ghost ids: seq<seq<int>>)
      returns (id: int)
      requires Valid() && AtLine(raster, ids, prev, vals)
      requires 0 < |done| < |vals| && vals[|done|] == vals[|done| - 1] != NODATA_MARKER
      requires Labelling(raster, nConnectedness, ids + [done], first, root)
      modifies this`panPolyIdMap, this`root, this`depth
      ensures Valid() && Labelling(raster, nConnectedness, ids + [done], first, root)
      ensures id == done[|done| - 1] && 0 <= id < nNextPolygonId
      ensures Connected(raster, nConnectedness, Pixel(|ids|, |done|), first[id])
      ensures NeighboursAgree(raster, nConnectedness, ids, done, id, root)
    {
      var i := |done|;
      id := done[i - 1];
      assert 0 <= id < nNextPolygonId && Connected(raster, nConnectedness, Pixel(|ids|, i), first[id]) by {
        NeighbourIdIsSound(raster, nConnectedness, ids + [done], first, Pixel(|ids|, i), Pixel(|ids|, i - 1));
      }
      if prev.Line? {
        LinkColumn(prev, vals, done, i, id, raster, ids);
        if nConnectedness == 8 {
          LinkColumn(prev, vals, done, i - 1, id, raster, ids);
        }
        if nConnectedness == 8 && i < |vals| - 1 {
          LinkColumn(prev, vals, done, i + 1, id, raster, ids);
        }
      }
    }

    /** The pixel starts a run below-right of a fitting pixel: it takes over that id and links the other corner. */
    method TakeFromCorner(prev: PreviousLine, vals: seq<int>, done: seq<int>, ghost raster: Raster, ghost ids: seq<seq<int>>)
      returns (id: int)
      requires Valid() && AtLine(raster, ids, prev, vals) && prev.Line? && nConnectedness == 8
      requires 0 < |done| < |vals| && vals[|done|] != vals[|done| - 1] && vals[|done|] != NODATA_MARKER
      requires prev.vals[|done|] != vals[|done|] && prev.vals[|done| - 1] == vals[|done|]
      requires Labelling(raster, nConnectedness, ids + [done], first, root)
      modifies this`panPolyIdMap, this`root, this`depth
      ensures Valid() && Labelling(raster, nConnectedness, ids + [done], first, root)
      ensures id == prev.ids[|done| - 1] && 0 <= id < nNextPolygonId
      ensures Connected(raster, nConnectedness, Pixel(|ids|, |done|), first[id])
      ensures NeighboursAgree(raster, nConnectedness, ids, done, id, root)
    {
      var i := |done|;
      ghost var y, p, scanned := |ids|, Pixel(|ids|, i), ids + [done];
      id := prev.ids[i - 1];
      assert Joined(raster, nConnectedness, p, Pixel(y - 1, i - 1)) && IdAt(scanned, Pixel(y - 1, i - 1)) == id;
      NeighbourIdIsSound(raster, nConnectedness, scanned, first, p, Pixel(y - 1, i - 1));
      if i < |vals| - 1 && prev.vals[i + 1] == vals[i] {
        LinkAbove(prev.ids[i + 1], id, raster, scanned, p, Pixel(y - 1, i + 1));
      }
    }

    /** No scanned neighbour fits: the pixel starts a polygon of its own. */
    method StartPolygon(prev: PreviousLine, vals: seq<int>, done: seq<int>, mem: nat -> bool,
                        ghost raster: Raster, ghost ids: seq<seq<int>>)
      returns (id: int)
      requires Valid() && ValuesMatch(raster)
      requires AtLine(raster, ids, prev, vals) && |done| < |vals|
      requires vals[|done|] != NODATA_MARKER
      requires NoNeighbourFits(nConnectedness, prev, vals, |done|)
      requires Labelling(raster, nConnectedness, ids + [done], first, root)
      modifies this
      ensures Valid() && ValuesMatch(raster)
      ensures id == -1 ==> unchanged(this) && (nNextPolygonId == INT_MAX || exists n :: !mem(n))
      ensures id != -1 ==>
        && id == old(nNextPolygonId) && nNextPolygonId == old(nNextPolygonId) + 1
        && first == old(first) + [Pixel(|ids|, |done|)]
        && Labelling(raster, nConnectedness, ids + [done], first, root)
        && Connected(raster, nConnectedness, Pixel(|ids|, |done|), first[id])
        && NeighboursAgree(raster, nConnectedness, ids, done, id, root)
    {
      ghost var p := Pixel(|ids|, |done|);
      NewPolygonKeepsLabelling(raster, nConnectedness, ids + [done], first, root, p);
      ConnectedReflexive(raster, nConnectedness, p);
      id := NewPolygon(vals[|done|], mem, p);
    }

    /** One turn of the loop of ProcessLine: the id of the next pixel of the line, or failure. */
    method ProcessPixel(prev: PreviousLine, vals: seq<int>, done: seq<int>, mem: nat -> bool,
                        ghost raster: Raster, ghost ids: seq<seq<int>>)
      returns (ok: bool, id: int)
      requires Valid() && ValuesMatch(raster)
      requires AtLine(raster, ids, prev, vals) && |done| < |vals|
      requires Labelling(raster, nConnectedness, ids + [done], first, root)
      requires FirstPixelsScanned(ids + [done], first)
      modifies this
      ensures Valid() && ValuesMatch(raster)
      ensures old(nNextPolygonId) <= nNextPolygonId <= old(nNextPolygonId) + 1
      ensures !ok ==> nNextPolygonId == INT_MAX || exists n :: !mem(n)
      ensures ok ==>
        && id == ChosenId(nConnectedness, prev, vals, done, old(nNextPolygonId))
        && nNextPolygonId == (if id == old(nNextPolygonId) then old(nNextPolygonId) + 1 else old(nNextPolygonId))
        && Labelling(raster, nConnectedness, ids + [done + [id]], first, root)
        && FirstPixelsScanned(ids + [done + [id]], first)
    {
      var i := |done|;
      ok := true;
      if vals[i] == NODATA_MARKER {
        id := -1;
      } else if i > 0 && vals[i] == vals[i - 1] {
        id := ContinueRun(prev, vals, done, raster, ids);
      } else if prev.Line? && prev.vals[i] == vals[i] {
        id := prev.ids[i];
        AboveNeighboursAlreadyAgree(raster, nConnectedness, ids, done, first, root);
      } else if prev.Line? && i > 0 && nConnectedness == 8 && prev.vals[i - 1] == vals[i] {
        id := TakeFromCorner(prev, vals, done, raster, ids);
      } else if prev.Line? && i < |vals| - 1 && nConnectedness == 8 && prev.vals[i + 1] == vals[i] {
        id := prev.ids[i + 1];
        OnlyRightCornerFits(raster, ids, prev, vals, done, first, root);
      } else {
        id := StartPolygon(prev, vals, done, mem, raster, ids);
        if id < 0 {
          ok := false;
          return;
        }
      }
      PixelKeepsLabelling(raster, nConnectedness, ids, done, id, first, root);
      assert FirstPixelsScanned(ids + [done + [id]], first) by {
        PixelKeepsFirstPixels(ids, done, id, old(first), first);
      }
    }

    /** Gives every pixel of a line its id, and merges the polygons that the line shows to touch. */
    method ProcessLine(prev: PreviousLine, vals: seq<int>, panThisLineId: array<int>, mem: nat -> bool,
                       ghost raster: Raster, ghost ids: seq<seq<int>>)
      returns (ok: bool)
      requires Valid() && ValuesMatch(raster)
      requires AtLine(raster, ids, prev, vals) && panThisLineId.Length == |vals|
      requires Labelling(raster, nConnectedness, ids, first, root) && FirstPixelsScanned(ids, first)
      modifies this, panThisLineId
      ensures Valid() && ValuesMatch(raster)
      ensures old(nNextPolygonId) <= nNextPolygonId <= old(nNextPolygonId) + |vals|
      ensures !ok ==> nNextPolygonId == INT_MAX || exists n :: !mem(n)
      ensures ok ==>
        && (panThisLineId[..], nNextPolygonId) == LineIds(nConnectedness, prev, vals, |vals|, old(nNextPolygonId))
        && Labelling(raster, nConnectedness, ids + [panThisLineId[..]], first, root)
        && FirstPixelsScanned(ids + [panThisLineId[..]], first)
    {
      EmptyLineKeepsLabelling(raster, nConnectedness, ids, first, root);
      assert FirstPixelsScanned(ids + [[]], first);
      hide Labelling;
      hide FirstPixelsScanned;
      var i := 0;
      assert panThisLineId[..0] == [];
      while i < |vals|
        invariant 0 <= i <= |vals|
        invariant Valid() && ValuesMatch(raster)
        invariant old(nNextPolygonId) <= nNextPolygonId <= old(nNextPolygonId) + i
        invariant (panThisLineId[..i], nNextPolygonId) == LineIds(nConnectedness, prev, vals, i, old(nNextPolygonId))
        invariant Labelling(raster, nConnectedness, ids + [panThisLineId[..i]], first, root)
        invariant FirstPixelsScanned(ids + [panThisLineId[..i]], first)
      {
        var id;
        ok, id := ProcessPixel(prev, vals, panThisLineId[..i], mem, raster, ids);
        if !ok {
          panThisLineId[i] := -1;
          return;
        }
        panThisLineId[i] := id;
        assert panThisLineId[..i + 1] == panThisLineId[..i] + [id];
        i := i + 1;
      }
      assert panThisLineId[..|vals|] == panThisLineId[..];
      ok := true;
    }
  }

  lemma PixelKeepsFirstPixels(ids: seq<seq<int>>, done: seq<int>, id: int, was: seq<Pixel>, now: seq<Pixel>)
    requires FirstPixelsScanned(ids + [done], was)
    requires now == was || (now == was + [Pixel(|ids|, |done|)] && id == |was|)
    ensures FirstPixelsScanned(ids + [done + [id]], now)
  {
    forall k | 0 <= k < |was|
      ensures Scanned(ids + [done + [id]], was[k]) && IdAt(ids + [done + [id]], was[k]) == k
    {
      assert Scanned(ids + [done], was[k]) && IdAt(ids + [done], was[k]) == k;
    }
  }

  lemma EmptyLineKeepsLabelling(raster: Raster, conn: int, ids: seq<seq<int>>, first: seq<Pixel>, root: seq<int>)
    requires Labelling(raster, conn, ids, first, root)
    ensures Labelling(raster, conn, ids + [[]], first, root)
  {
    var now := ids + [[]];
    assert forall p :: Scanned(now, p) ==> Scanned(ids, p) && IdAt(now, p) == IdAt(ids, p);
  }

  /** When the pixel above fits, its own neighbours that fit were merged with it a line earlier. */
  lemma AboveNeighboursAlreadyAgree(raster: Raster, conn: int, ids: seq<seq<int>>, done: seq<int>,
                                    first: seq<Pixel>, root: seq<int>)
    requires 0 < |ids| < |raster| && |done| < |raster[|ids|]|
    requires Rectangular(raster, |raster[|ids|]|)
    requires forall y :: 0 <= y < |ids| ==> |ids[y]| == |raster[|ids|]|
    requires raster[|ids|][|done|] != NODATA_MARKER
    requires raster[|ids| - 1][|done|] == raster[|ids|][|done|]
    requires |done| > 0 ==> raster[|ids|][|done| - 1] != raster[|ids|][|done|]
    requires Labelling(raster, conn, ids + [done], first, root)
    ensures 0 <= ids[|ids| - 1][|done|] < |first|
    ensures Connected(raster, conn, Pixel(|ids|, |done|), first[ids[|ids| - 1][|done|]])
    ensures NeighboursAgree(raster, conn, ids, done, ids[|ids| - 1][|done|], root)
  {
    var y, x := |ids| - 1, |done|;
    var scanned := ids + [done];
    NeighbourIdIsSound(raster, conn, scanned, first, Pixel(|ids|, x), Pixel(y, x));
    if x > 0 && raster[y][x - 1] == raster[y][x] {
      assert Joined(raster, conn, Pixel(y, x), Pixel(y, x - 1)) && Scanned(scanned, Pixel(y, x - 1));
    }
    if x + 1 < |raster[y]| && raster[y][x + 1] == raster[y][x] {
      assert Joined(raster, conn, Pixel(y, x), Pixel(y, x + 1)) && Scanned(scanned, Pixel(y, x + 1));
    }
  }

  lemma OnlyRightCornerFits(raster: Raster, ids: seq<seq<int>>, prev: PreviousLine, vals: seq<int>, done: seq<int>,
                            first: seq<Pixel>, root: seq<int>)
    requires AtLine(raster, ids, prev, vals) && prev.Line?
    requires |done| < |vals| - 1 && vals[|done|] != NODATA_MARKER
    requires |done| > 0 ==> vals[|done|] != vals[|done| - 1] && prev.vals[|done| - 1] != vals[|done|]
    requires prev.vals[|done|] != vals[|done|] && prev.vals[|done| + 1] == vals[|done|]
    requires Labelling(raster, 8, ids + [done], first, root)
    ensures 0 <= prev.ids[|done| + 1] < |first|
    ensures Connected(raster, 8, Pixel(|ids|, |done|), first[prev.ids[|done| + 1]])
    ensures NeighboursAgree(raster, 8, ids, done, prev.ids[|done| + 1], root)
  {
    var y, x := |ids| - 1, |done|;
    NeighbourIdIsSound(raster, 8, ids + [done], first, Pixel(|ids|, x), Pixel(y, x + 1));
  }
}
