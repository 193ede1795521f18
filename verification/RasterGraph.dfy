/**
 A raster seen as a graph: pixels that carry data are vertices, and two of them
 are joined when they are neighbours in the chosen connectedness and hold the
 same value. This is the reference meaning of "the same polygon".
 */
module RasterGraph {

  /** The value that marks a masked-out pixel. */
  const NODATA_MARKER := -51502112

  datatype Pixel = Pixel(row: int, col: int)

  type Raster = seq<seq<int>>

  ghost predicate Rectangular(raster: Raster, width: nat) {
    forall y :: 0 <= y < |raster| ==> |raster[y]| == width
  }

  ghost predicate InRaster(raster: Raster, p: Pixel) {
    0 <= p.row < |raster| && 0 <= p.col < |raster[p.row]|
  }

  ghost function Value(raster: Raster, p: Pixel): int
    requires InRaster(raster, p)
  {
    raster[p.row][p.col]
  }

  ghost predicate HasData(raster: Raster, p: Pixel) {
    InRaster(raster, p) && Value(raster, p) != NODATA_MARKER
  }

  /** Side neighbours for connectedness 4; side and corner neighbours for 8. */
  ghost predicate Neighbours(conn: int, p: Pixel, q: Pixel) {
    var dy := q.row - p.row;
    var dx := q.col - p.col;
    && p != q
    && -1 <= dy <= 1
    && -1 <= dx <= 1
    && (conn == 8 || dy == 0 || dx == 0)
  }

  ghost predicate Joined(raster: Raster, conn: int, p: Pixel, q: Pixel) {
    && HasData(raster, p)
    && HasData(raster, q)
    && Value(raster, p) == Value(raster, q)
    && Neighbours(conn, p, q)
  }

  ghost predicate IsPath(raster: Raster, conn: int, path: seq<Pixel>, p: Pixel, q: Pixel) {
    && |path| > 0
    && path[0] == p
    && path[|path| - 1] == q
    && (forall i :: 0 <= i < |path| ==> HasData(raster, path[i]))
    && (forall i :: 0 <= i < |path| - 1 ==> Joined(raster, conn, path[i], path[i + 1]))
  }

  /** A chain of joined neighbours leads from p to q. */
  ghost predicate Connected(raster: Raster, conn: int, p: Pixel, q: Pixel) {
    exists path :: IsPath(raster, conn, path, p, q)
  }

  lemma ConnectedReflexive(raster: Raster, conn: int, p: Pixel)
    requires HasData(raster, p)
    ensures Connected(raster, conn, p, p)
  {
    assert IsPath(raster, conn, [p], p, p);
  }

  lemma JoinedConnected(raster: Raster, conn: int, p: Pixel, q: Pixel)
    requires Joined(raster, conn, p, q)
    ensures Connected(raster, conn, p, q)
  {
    assert IsPath(raster, conn, [p, q], p, q);
  }

  lemma ConnectedSymmetric(raster: Raster, conn: int, p: Pixel, q: Pixel)
    requires Connected(raster, conn, p, q)
    ensures Connected(raster, conn, q, p)
  {
    var path :| IsPath(raster, conn, path, p, q);
    var n := |path|;
    var back := seq(n, i requires 0 <= i < n => path[n - 1 - i]);
    forall i | 0 <= i < n - 1
      ensures Joined(raster, conn, back[i], back[i + 1])
    {
      assert Joined(raster, conn, path[n - 2 - i], path[n - 2 - i + 1]);
    }
    assert IsPath(raster, conn, back, q, p);
  }

  lemma ConnectedTransitive(raster: Raster, conn: int, p: Pixel, q: Pixel, r: Pixel)
    requires Connected(raster, conn, p, q)
    requires Connected(raster, conn, q, r)
    ensures Connected(raster, conn, p, r)
  {
    var first :| IsPath(raster, conn, first, p, q);
    var second :| IsPath(raster, conn, second, q, r);
    var whole := first + second[1..];
    forall i | 0 <= i < |whole| - 1
      ensures Joined(raster, conn, whole[i], whole[i + 1])
    {
      if i < |first| - 1 {
        assert Joined(raster, conn, first[i], first[i + 1]);
      } else {
        var k := i - (|first| - 1);
        assert whole[i] == second[k] && whole[i + 1] == second[k + 1];
        assert Joined(raster, conn, second[k], second[k + 1]);
      }
    }
    assert IsPath(raster, conn, whole, p, r);
  }

  lemma ConnectedSameValue(raster: Raster, conn: int, p: Pixel, q: Pixel)
    requires Connected(raster, conn, p, q)
    ensures HasData(raster, p) && HasData(raster, q)
    ensures Value(raster, p) == Value(raster, q)
  {
    var path :| IsPath(raster, conn, path, p, q);
    var i := |path| - 1;
    while i > 0
      invariant 0 <= i < |path|
      invariant Value(raster, path[i]) == Value(raster, q)
    {
      assert Joined(raster, conn, path[i - 1], path[i - 1 + 1]);
      i := i - 1;
    }
  }

  /** All pixels of the raster that carry data. */
  ghost function DataPixels(raster: Raster): set<Pixel> {
    set y, x | 0 <= y < |raster| && 0 <= x < |raster[y]| && raster[y][x] != NODATA_MARKER :: Pixel(y, x)
  }

  lemma DataPixelsAreThoseWithData(raster: Raster, p: Pixel)
    ensures p in DataPixels(raster) <==> HasData(raster, p)
  {
    if HasData(raster, p) {
      assert p == Pixel(p.row, p.col);
    }
  }

  /** The connected component that holds p. */
  ghost function Component(raster: Raster, conn: int, p: Pixel): set<Pixel> {
    set q | q in DataPixels(raster) && Connected(raster, conn, p, q)
  }

  ghost function Components(raster: Raster, conn: int): set<set<Pixel>> {
    set p | p in DataPixels(raster) :: Component(raster, conn, p)
  }
}
