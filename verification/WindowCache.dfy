/**
 Reading the small window of pixels around a location for interpolation: the
 window is moved inside the raster, put together from cached 64 x 64 blocks, and
 then dragged back so that pixels beyond the border repeat the border.
 */
module WindowCache {
  import opened Basics

  const BLOCK_SIZE := 64

  /** A raster of size width x height, both positive and below 2^31. */
  datatype Band = Band(pixels: seq<seq<real>>, width: int, height: int)

  ghost predicate ValidBand(b: Band) {
    && 0 < b.width < 0x8000_0000 && 0 < b.height < 0x8000_0000
    && |b.pixels| == b.height
    && forall y :: 0 <= y < b.height ==> |b.pixels[y]| == b.width
  }

  function Clamp(v: int, size: int): int {
    if v < 0 then 0 else if v >= size then size - 1 else v
  }

  // ---------------------------------------------------------------- the blocks

  /** How much of block number `block` lies in a raster of the given size, along one axis. */
  function BlockExtent(size: int, block: int): int {
    Min(size - block * BLOCK_SIZE, BLOCK_SIZE)
  }

  /** Blocks that start in the raster, or right behind it, where they are empty. */
  ghost predicate IsBlock(b: Band, cx: int, cy: int) {
    0 <= cx && 0 <= cy && cx * BLOCK_SIZE <= b.width && cy * BLOCK_SIZE <= b.height
  }

  /** Row `j` of a block in row-major order with `w` values a row. */
  ghost predicate BlockRow(v: seq<real>, b: Band, cx: int, cy: int, w: int, j: int) {
    && ValidBand(b) && 0 <= j && 0 <= w && 0 <= cx && 0 <= cx * BLOCK_SIZE && cx * BLOCK_SIZE + w <= b.width
    && 0 <= cy * BLOCK_SIZE + j < b.height
    && 0 <= j * w <= j * w + w <= |v|
    && v[j * w..j * w + w] == b.pixels[cy * BLOCK_SIZE + j][cx * BLOCK_SIZE..cx * BLOCK_SIZE + w]
  }

  /** A block as the raster band delivers it. */
  ghost predicate IsCopy(v: seq<real>, b: Band, cx: int, cy: int) {
    && |v| == BlockExtent(b.height, cy) * BlockExtent(b.width, cx)
    && forall j :: 0 <= j < BlockExtent(b.height, cy) ==> BlockRow(v, b, cx, cy, BlockExtent(b.width, cx), j)
  }

  function Key(cy: int, cx: int): int {
    cy * 0x1_0000_0000 + cx
  }

  /** The key tells blocks apart. */
  lemma KeyInjective(cy: int, cx: int, cy': int, cx': int)
    requires 0 <= cx < 0x1_0000_0000 && 0 <= cx' < 0x1_0000_0000 && Key(cy, cx) == Key(cy', cx')
    ensures cy == cy' && cx == cx'
  {
  }

  /** Reads a block from the band; whether the read succeeds is up to the band. */
  method ReadBlock(b: Band, cx: int, cy: int) returns (v: seq<real>)
    requires ValidBand(b) && IsBlock(b, cx, cy)
    ensures IsCopy(v, b, cx, cy)
  {
    var w, h := BlockExtent(b.width, cx), BlockExtent(b.height, cy);
    v := [];
    for j := 0 to h
      invariant |v| == j * w
      invariant forall r :: 0 <= r < j ==> BlockRow(v, b, cx, cy, w, r)
    {
      var row := b.pixels[cy * BLOCK_SIZE + j][cx * BLOCK_SIZE..cx * BLOCK_SIZE + w];
      forall r | 0 <= r < j
        ensures BlockRow(v + row, b, cx, cy, w, r)
      {
        RowStays(v, row, b, cx, cy, w, r);
      }
      NextRow(j, w);
      assert (v + row)[j * w..j * w + w] == row;
      v := v + row;
    }
  }

  lemma NextRow(j: int, w: int)
    requires 0 <= j && 0 <= w
    ensures (j + 1) * w == j * w + w >= w
  {
    assert j * w >= 0;
  }

  lemma RowStays(v: seq<real>, more: seq<real>, b: Band, cx: int, cy: int, w: int, r: int)
    requires BlockRow(v, b, cx, cy, w, r)
    ensures BlockRow(v + more, b, cx, cy, w, r)
  {
    assert (v + more)[r * w..r * w + w] == v[r * w..r * w + w];
  }

  /** The cache of blocks. Inserting may push out any other entries. */
  class BlockCache {
    var entries: map<int, seq<real>>

    constructor ()
      ensures entries == map[]
    {
      entries := map[];
    }

    method Insert(key: int, v: seq<real>, evicted: set<int>)
      modifies this
      ensures key in entries && entries[key] == v
      ensures forall k :: k in entries && k != key ==> k in old(entries) && entries[k] == old(entries)[k]
    {
      entries := (entries - evicted)[key := v];
    }

    /** Every entry is a true copy of its block. */
    ghost predicate Faithful(b: Band)
      reads this
    {
      forall cx, cy :: IsBlock(b, cx, cy) && Key(cy, cx) in entries ==> IsCopy(entries[Key(cy, cx)], b, cx, cy)
    }

    /** A block from the cache, or else from the band, which may refuse. */
    method Fetch(b: Band, cx: int, cy: int, readable: (int, int) -> bool, evicted: set<int>) returns (ok: bool, v: seq<real>)
      requires ValidBand(b) && IsBlock(b, cx, cy) && Faithful(b)
      modifies this
      ensures Faithful(b)
      ensures ok <==> Key(cy, cx) in old(entries) || readable(cx, cy)
      ensures ok ==> IsCopy(v, b, cx, cy)
    {
      var key := Key(cy, cx);
      if key in entries {
        return true, entries[key];
      }
      if !readable(cx, cy) {
        return false, [];
      }
      v := ReadBlock(b, cx, cy);
      ghost var was := entries;
      assert forall x, y :: IsBlock(b, x, y) && Key(y, x) in was ==> IsCopy(was[Key(y, x)], b, x, y);
      hide IsCopy;
      Insert(key, v, evicted);
      ok := true;
      forall x, y | IsBlock(b, x, y) && Key(y, x) in entries
        ensures IsCopy(entries[Key(y, x)], b, x, y)
      {
        if Key(y, x) == key {
          KeyInjective(y, x, cy, cx);
        }
      }
    }
  }

  // ------------------------------------------------- cutting a window into blocks

  /** Number of blocks that a window of `size` values from `n` on touches. */
  function Iters(n: int, size: int): int {
    (n + size - 1) / BLOCK_SIZE - n / BLOCK_SIZE + 1
  }

  function FirstInBlock(n: int, i: int): int {
    if i == 0 then n % BLOCK_SIZE else 0
  }

  function FirstInOutput(n: int, i: int): int {
    if i == 0 then 0 else BLOCK_SIZE - n % BLOCK_SIZE + (i - 1) * BLOCK_SIZE
  }

  function ToCopy(n: int, size: int, i: int): int {
    if Iters(n, size) == 1 then size
    else if i == 0 then BLOCK_SIZE - n % BLOCK_SIZE
    else if i == Iters(n, size) - 1 then 1 + (n + size - 1) % BLOCK_SIZE
    else BLOCK_SIZE
  }

  /** The pieces lie where they belong, inside their blocks, and leave no gap. */
  lemma Pieces(n: int, size: int, limit: int, i: int)
    requires 0 <= n && 1 <= size && n + size <= limit && 0 <= i < Iters(n, size)
    ensures n + FirstInOutput(n, i) == (n / BLOCK_SIZE + i) * BLOCK_SIZE + FirstInBlock(n, i)
    ensures 0 <= FirstInBlock(n, i) && 0 <= FirstInOutput(n, i) && 1 <= ToCopy(n, size, i)
    ensures FirstInBlock(n, i) + ToCopy(n, size, i) <= BlockExtent(limit, n / BLOCK_SIZE + i)
    ensures FirstInOutput(n, i) + ToCopy(n, size, i) ==
      if i == Iters(n, size) - 1 then size else FirstInOutput(n, i + 1)
    ensures FirstInOutput(n, i) + ToCopy(n, size, i) <= size
    ensures 0 <= (n / BLOCK_SIZE + i) * BLOCK_SIZE < limit
  {
  }

  /** Cell (r, c) of the window holds the pixel it stands for. */
  ghost predicate CellRight(out: array2<real>, b: Band, nX: int, nY: int, r: int, c: int)
    reads out
  {
    && 0 <= r < out.Length0 && 0 <= c < out.Length1 && ValidBand(b)
    && 0 <= nY + r < b.height && 0 <= nX + c < b.width
    && out[r, c] == b.pixels[nY + r][nX + c]
  }

  /** (r, c) lies in the rectangle that starts at (row, col). */
  predicate InRect(r: int, c: int, row: int, rows: int, col: int, cols: int) {
    row <= r < row + rows && col <= c < col + cols
  }

  /** Copies one line of a block to its place in the window. */
  method CopyLine(out: array2<real>, line: seq<real>, row: int, col: int)
    requires 0 <= row < out.Length0 && 0 <= col && col + |line| <= out.Length1
    modifies out
    ensures forall c :: col <= c < col + |line| ==> out[row, c] == line[c - col]
    ensures forall r, c :: 0 <= r < out.Length0 && 0 <= c < out.Length1 && !InRect(r, c, row, 1, col, |line|) ==> out[r, c] == old(out[r, c])
  {
    for k := 0 to |line|
      invariant forall c :: col <= c < col + k ==> out[row, c] == line[c - col]
      invariant forall r, c :: 0 <= r < out.Length0 && 0 <= c < out.Length1 && !InRect(r, c, row, 1, col, k) ==> out[r, c] == old(out[r, c])
    {
      out[row, col + k] := line[k];
    }
  }

  lemma BlockRowCells(v: seq<real>, b: Band, cx: int, cy: int, w: int, j: int, col: int, cols: int)
    requires BlockRow(v, b, cx, cy, w, j) && 0 <= col && 0 <= cols && col + cols <= w
    ensures j * w + col + cols <= |v|
    ensures v[j * w + col..j * w + col + cols] ==
      b.pixels[cy * BLOCK_SIZE + j][cx * BLOCK_SIZE + col..cx * BLOCK_SIZE + col + cols]
  {
    SliceOfSlice(v, j * w, w, col, cols);
    SliceOfSlice(b.pixels[cy * BLOCK_SIZE + j], cx * BLOCK_SIZE, w, col, cols);
  }

  lemma SliceOfSlice(s: seq<real>, start: int, len: int, col: int, cols: int)
    requires 0 <= start && 0 <= col && 0 <= cols && col + cols <= len && start + len <= |s|
    ensures s[start + col..start + col + cols] == s[start..start + len][col..col + cols]
  {
    var piece, again := s[start + col..start + col + cols], s[start..start + len][col..col + cols];
    forall k | 0 <= k < cols
      ensures piece[k] == again[k]
    {
      assert s[start..start + len][col + k] == s[start + (col + k)];
    }
  }

  /** Line `j` of a block goes to row `row` of the window; the size guard is there, and does not trip. */
  method CopyBlockLine(out: array2<real>, b: Band, v: seq<real>, cx: int, cy: int, nX: int, nY: int,
                       j: int, row: int, colIn: int, colOut: int, cols: int) returns (ok: bool)
    requires ValidBand(b) && IsBlock(b, cx, cy) && IsCopy(v, b, cx, cy)
    requires nY + row == cy * BLOCK_SIZE + j && nX + colOut == cx * BLOCK_SIZE + colIn
    requires 0 <= j < BlockExtent(b.height, cy)
    requires 0 <= colIn && 0 <= cols && colIn + cols <= BlockExtent(b.width, cx)
    requires 0 <= row < out.Length0 && 0 <= colOut && colOut + cols <= out.Length1
    modifies out
    ensures ok
    ensures forall c :: colOut <= c < colOut + cols ==> CellRight(out, b, nX, nY, row, c)
    ensures forall r, c :: 0 <= r < out.Length0 && 0 <= c < out.Length1 && !InRect(r, c, row, 1, colOut, cols) ==> out[r, c] == old(out[r, c])
  {
    var reqX := BlockExtent(b.width, cx);
    var srcOffset := j * reqX + colIn;
    assert BlockRow(v, b, cx, cy, reqX, j);
    BlockRowCells(v, b, cx, cy, reqX, j, colIn, cols);
    if srcOffset + cols > |v| {
      return false;
    }
    CopyLine(out, v[srcOffset..srcOffset + cols], row, colOut);
    ok := true;
  }

  /** One block's share of the window. */
  method CopyBlock(out: array2<real>, b: Band, v: seq<real>, cx: int, cy: int, nX: int, nY: int,
                   lineIn: int, lineOut: int, lines: int, colIn: int, colOut: int, cols: int) returns (ok: bool)
    requires ValidBand(b) && IsBlock(b, cx, cy) && IsCopy(v, b, cx, cy)
    requires nY + lineOut == cy * BLOCK_SIZE + lineIn && nX + colOut == cx * BLOCK_SIZE + colIn
    requires 0 <= lineIn && 0 <= colIn && 0 <= lines && 0 <= cols
    requires lineIn + lines <= BlockExtent(b.height, cy) && colIn + cols <= BlockExtent(b.width, cx)
    requires 0 <= lineOut && lineOut + lines <= out.Length0 && 0 <= colOut && colOut + cols <= out.Length1
    modifies out
    ensures ok
    ensures forall r, c :: InRect(r, c, lineOut, lines, colOut, cols) ==> CellRight(out, b, nX, nY, r, c)
    ensures forall r, c :: 0 <= r < out.Length0 && 0 <= c < out.Length1 && !InRect(r, c, lineOut, lines, colOut, cols) ==> out[r, c] == old(out[r, c])
  {
    hide IsCopy;
    hide ValidBand;
    for j := 0 to lines
      invariant forall r, c :: InRect(r, c, lineOut, j, colOut, cols) ==> CellRight(out, b, nX, nY, r, c)
      invariant forall r, c :: 0 <= r < out.Length0 && 0 <= c < out.Length1 && !InRect(r, c, lineOut, j, colOut, cols) ==> out[r, c] == old(out[r, c])
    {
      label before:
      ok := CopyBlockLine(out, b, v, cx, cy, nX, nY, lineIn + j, lineOut + j, colIn, colOut, cols);
      if !ok {
        return;
      }
      forall r, c | InRect(r, c, lineOut, j + 1, colOut, cols)
        ensures CellRight(out, b, nX, nY, r, c)
      {
        if r < lineOut + j {
          assert InRect(r, c, lineOut, j, colOut, cols) && old@before(CellRight(out, b, nX, nY, r, c));
        }
      }
    }
    ok := true;
  }

  /** How far a window is filled along one axis before piece `i`. */
  function Filled(n: int, size: int, i: int): int {
    if i == Iters(n, size) then size else FirstInOutput(n, i)
  }

  /** The blocks that a window touches. */
  ghost predicate Touches(nX: int, nY: int, nWidth: int, nHeight: int, cx: int, cy: int) {
    && nX / BLOCK_SIZE <= cx <= (nX + nWidth - 1) / BLOCK_SIZE
    && nY / BLOCK_SIZE <= cy <= (nY + nHeight - 1) / BLOCK_SIZE
  }

  /** The rows of the window that one row of blocks supplies. */
  method ExtractStrip(b: Band, cache: BlockCache, nX: int, nY: int, nWidth: int, nHeight: int, iY: int,
                      out: array2<real>, readable: (int, int) -> bool, evict: (int, int) -> set<int>) returns (ok: bool)
    requires ValidBand(b) && cache.Faithful(b)
    requires 0 <= nX && 1 <= nWidth && nX + nWidth <= b.width && 0 <= nY && 1 <= nHeight && nY + nHeight <= b.height
    requires out.Length0 == nHeight && out.Length1 == nWidth && 0 <= iY < Iters(nY, nHeight)
    modifies cache, out
    ensures cache.Faithful(b)
    ensures !ok ==> exists cx, cy :: Touches(nX, nY, nWidth, nHeight, cx, cy) && !readable(cx, cy)
    ensures ok ==> forall r, c :: InRect(r, c, FirstInOutput(nY, iY), ToCopy(nY, nHeight, iY), 0, nWidth) ==> CellRight(out, b, nX, nY, r, c)
    ensures forall r, c :: 0 <= r < nHeight && 0 <= c < nWidth && !InRect(r, c, FirstInOutput(nY, iY), ToCopy(nY, nHeight, iY), 0, nWidth) ==> out[r, c] == old(out[r, c])
  {
    Pieces(nY, nHeight, b.height, iY);
    var cy := nY / BLOCK_SIZE + iY;
    var lineOut, lines := FirstInOutput(nY, iY), ToCopy(nY, nHeight, iY);
    for iX := 0 to Iters(nX, nWidth)
      invariant cache.Faithful(b)
      invariant 0 <= Filled(nX, nWidth, iX) <= nWidth
      invariant forall r, c :: InRect(r, c, lineOut, lines, 0, Filled(nX, nWidth, iX)) ==> CellRight(out, b, nX, nY, r, c)
      invariant forall r, c :: 0 <= r < nHeight && 0 <= c < nWidth && !InRect(r, c, lineOut, lines, 0, nWidth) ==> out[r, c] == old(out[r, c])
    {
      Pieces(nX, nWidth, b.width, iX);
      var cx := nX / BLOCK_SIZE + iX;
      var colOut, cols := FirstInOutput(nX, iX), ToCopy(nX, nWidth, iX);
      var v;
      ok, v := cache.Fetch(b, cx, cy, readable, evict(cx, cy));
      if !ok {
        assert Touches(nX, nY, nWidth, nHeight, cx, cy);
        return;
      }
      label before:
      ok := CopyBlock(out, b, v, cx, cy, nX, nY, FirstInBlock(nY, iY), lineOut, lines, FirstInBlock(nX, iX), colOut, cols);
      if !ok {
        return;
      }
      forall r, c | InRect(r, c, lineOut, lines, 0, Filled(nX, nWidth, iX + 1))
        ensures CellRight(out, b, nX, nY, r, c)
      {
        if c < colOut {
          assert InRect(r, c, lineOut, lines, 0, Filled(nX, nWidth, iX)) && old@before(CellRight(out, b, nX, nY, r, c));
          assert !InRect(r, c, lineOut, lines, colOut, cols);
        } else {
          assert InRect(r, c, lineOut, lines, colOut, cols);
        }
      }
    }
    ok := true;
  }

  /**
   A window inside the raster, put together from its blocks: whatever the cache
   holds and whatever gets pushed out of it, the window is exactly that part of
   the raster, and only a refused read makes it fail.
   */
  method ExtractWindow(b: Band, cache: BlockCache, nX: int, nY: int, nWidth: int, nHeight: int,
                       out: array2<real>, readable: (int, int) -> bool, evict: (int, int) -> set<int>) returns (ok: bool)
    requires ValidBand(b) && cache.Faithful(b)
    requires 0 <= nX && 1 <= nWidth && nX + nWidth <= b.width && 0 <= nY && 1 <= nHeight && nY + nHeight <= b.height
    requires out.Length0 == nHeight && out.Length1 == nWidth
    modifies cache, out
    ensures cache.Faithful(b)
    ensures !ok ==> exists cx, cy :: Touches(nX, nY, nWidth, nHeight, cx, cy) && !readable(cx, cy)
    ensures ok ==> forall r, c :: 0 <= r < nHeight && 0 <= c < nWidth ==> out[r, c] == b.pixels[nY + r][nX + c]
  {
    for iY := 0 to Iters(nY, nHeight)
      invariant cache.Faithful(b)
      invariant 0 <= Filled(nY, nHeight, iY) <= nHeight
      invariant forall r, c :: InRect(r, c, 0, Filled(nY, nHeight, iY), 0, nWidth) ==> CellRight(out, b, nX, nY, r, c)
    {
      Pieces(nY, nHeight, b.height, iY);
      var lineOut, lines := FirstInOutput(nY, iY), ToCopy(nY, nHeight, iY);
      label before:
      ok := ExtractStrip(b, cache, nX, nY, nWidth, nHeight, iY, out, readable, evict);
      if !ok {
        return;
      }
      forall r, c | InRect(r, c, 0, Filled(nY, nHeight, iY + 1), 0, nWidth)
        ensures CellRight(out, b, nX, nY, r, c)
      {
        if r < lineOut {
          assert InRect(r, c, 0, Filled(nY, nHeight, iY), 0, nWidth) && old@before(CellRight(out, b, nX, nY, r, c));
          assert !InRect(r, c, lineOut, lines, 0, nWidth);
        } else {
          assert InRect(r, c, lineOut, lines, 0, nWidth);
        }
      }
    }
    ok := true;
    forall r, c | 0 <= r < nHeight && 0 <= c < nWidth
      ensures out[r, c] == b.pixels[nY + r][nX + c]
    {
      assert InRect(r, c, 0, nHeight, 0, nWidth);
      assert CellRight(out, b, nX, nY, r, c);
    }
  }

  // ------------------------------------------------------- windows over the border

  /** How far the window is moved to bring it inside. */
  function OutOfBorder(d: int, rasterSize: int, kernelSize: int): int {
    if d + kernelSize >= rasterSize then d + kernelSize - rasterSize
    else if d < 0 then d
    else 0
  }

  /** The moved window is inside, and moving back by clamping gives the pixel asked for, or the border. */
  lemma CorrectionBringsInside(d: int, rasterSize: int, kernelSize: int, k: int)
    requires 1 <= kernelSize <= rasterSize && 0 <= k < kernelSize
    ensures var shift := OutOfBorder(d, rasterSize, kernelSize);
      && 0 <= d - shift && d - shift + kernelSize <= rasterSize
      && d - shift + Clamp(k + shift, kernelSize) == Clamp(d + k, rasterSize)
  {
  }

  ghost predicate Window(a: array2<real>, n: int) {
    1 <= n && a.Length0 == n && a.Length1 == n
  }

  /** Cell `i` along line `j`: lines are rows when dragging along X, and columns otherwise. */
  function Cell(a: array2<real>, n: int, isX: bool, j: int, i: int): real
    requires Window(a, n) && 0 <= i < n && 0 <= j < n
    reads a
  {
    if isX then a[j, i] else a[i, j]
  }

  /** Pushes line `j` one cell on; the first cell stays. */
  method PushLine(a: array2<real>, n: int, isX: bool, j: int)
    requires Window(a, n) && 0 <= j < n
    modifies a
    ensures forall i :: 0 <= i < n ==> Cell(a, n, isX, j, i) == old(Cell(a, n, isX, j, Clamp(i - 1, n)))
    ensures forall l, i :: 0 <= l < n && l != j && 0 <= i < n ==> Cell(a, n, isX, l, i) == old(Cell(a, n, isX, l, i))
  {
    for ii := 0 to n - 1
      invariant forall i :: n - 1 - ii < i < n ==> Cell(a, n, isX, j, i) == old(Cell(a, n, isX, j, i - 1))
      invariant forall i :: 0 <= i <= n - 1 - ii ==> Cell(a, n, isX, j, i) == old(Cell(a, n, isX, j, i))
      invariant forall l, i :: 0 <= l < n && l != j && 0 <= i < n ==> Cell(a, n, isX, l, i) == old(Cell(a, n, isX, l, i))
    {
      var i := n - ii - 2;
      assert Cell(a, n, isX, j, i) == old(Cell(a, n, isX, j, i));
      label before:
      if isX {
        a[j, i + 1] := a[j, i];
      } else {
        a[i + 1, j] := a[i, j];
      }
      forall k | i < k < n
        ensures Cell(a, n, isX, j, k) == old(Cell(a, n, isX, j, k - 1))
      {
        assert k > i + 1 ==> old@before(Cell(a, n, isX, j, k)) == old(Cell(a, n, isX, j, k - 1));
      }
    }
  }

  /** Pulls line `j` one cell back; the last cell stays. */
  method PullLine(a: array2<real>, n: int, isX: bool, j: int)
    requires Window(a, n) && 0 <= j < n
    modifies a
    ensures forall i :: 0 <= i < n ==> Cell(a, n, isX, j, i) == old(Cell(a, n, isX, j, Clamp(i + 1, n)))
    ensures forall l, i :: 0 <= l < n && l != j && 0 <= i < n ==> Cell(a, n, isX, l, i) == old(Cell(a, n, isX, l, i))
  {
    for i := 0 to n - 1
      invariant forall k :: 0 <= k < i ==> Cell(a, n, isX, j, k) == old(Cell(a, n, isX, j, k + 1))
      invariant forall k :: i <= k < n ==> Cell(a, n, isX, j, k) == old(Cell(a, n, isX, j, k))
      invariant forall l, k :: 0 <= l < n && l != j && 0 <= k < n ==> Cell(a, n, isX, l, k) == old(Cell(a, n, isX, l, k))
    {
      assert Cell(a, n, isX, j, i + 1) == old(Cell(a, n, isX, j, i + 1));
      label before:
      if isX {
        a[j, i] := a[j, i + 1];
      } else {
        a[i, j] := a[i + 1, j];
      }
      forall k | 0 <= k < i + 1
        ensures Cell(a, n, isX, j, k) == old(Cell(a, n, isX, j, k + 1))
      {
        assert k < i ==> old@before(Cell(a, n, isX, j, k)) == old(Cell(a, n, isX, j, k + 1));
      }
    }
  }

  /** Drags all lines by one cell: on when `on` holds, back otherwise. */
  method DragOnce(a: array2<real>, n: int, isX: bool, on: bool)
    requires Window(a, n)
    modifies a
    ensures forall j, i :: 0 <= j < n && 0 <= i < n ==> Cell(a, n, isX, j, i) == old(Cell(a, n, isX, j, Clamp(if on then i - 1 else i + 1, n)))
  {
    for j := 0 to n
      invariant forall l, i :: 0 <= l < j && 0 <= i < n ==> Cell(a, n, isX, l, i) == old(Cell(a, n, isX, l, Clamp(if on then i - 1 else i + 1, n)))
      invariant forall l, i :: j <= l < n && 0 <= i < n ==> Cell(a, n, isX, l, i) == old(Cell(a, n, isX, l, i))
    {
      if on {
        PushLine(a, n, isX, j);
      } else {
        PullLine(a, n, isX, j);
      }
    }
  }

  /** Drags by `shift` cells, one at a time, in place: every cell ends up with the clamped one. */
  method DragInBorder(a: array2<real>, n: int, isX: bool, shift: int)
    requires Window(a, n)
    modifies a
    ensures forall j, i :: 0 <= j < n && 0 <= i < n ==> Cell(a, n, isX, j, i) == old(Cell(a, n, isX, j, Clamp(i + shift, n)))
  {
    var left := shift;
    while left < 0
      invariant shift < 0 ==> left <= 0
      invariant 0 <= shift ==> left == shift
      invariant forall j, i :: 0 <= j < n && 0 <= i < n ==> Cell(a, n, isX, j, i) == old(Cell(a, n, isX, j, Clamp(i + (shift - left), n)))
    {
      label before:
      DragOnce(a, n, isX, true);
      forall j, i | 0 <= j < n && 0 <= i < n
        ensures Cell(a, n, isX, j, i) == old(Cell(a, n, isX, j, Clamp(i + (shift - (left + 1)), n)))
      {
        assert Cell(a, n, isX, j, i) == old@before(Cell(a, n, isX, j, Clamp(i - 1, n)));
        assert Clamp(Clamp(i - 1, n) + (shift - left), n) == Clamp(i + (shift - (left + 1)), n);
      }
      left := left + 1;
    }
    while left > 0
      invariant shift < 0 ==> left == 0
      invariant 0 <= shift ==> 0 <= left
      invariant forall j, i :: 0 <= j < n && 0 <= i < n ==> Cell(a, n, isX, j, i) == old(Cell(a, n, isX, j, Clamp(i + (shift - left), n)))
    {
      label before:
      DragOnce(a, n, isX, false);
      forall j, i | 0 <= j < n && 0 <= i < n
        ensures Cell(a, n, isX, j, i) == old(Cell(a, n, isX, j, Clamp(i + (shift - (left - 1)), n)))
      {
        assert Cell(a, n, isX, j, i) == old@before(Cell(a, n, isX, j, Clamp(i + 1, n)));
        assert Clamp(Clamp(i + 1, n) + (shift - left), n) == Clamp(i + (shift - (left - 1)), n);
      }
      left := left - 1;
    }
  }

  // ---------------------------------------------------------- the window of a kernel

  /** The band refuses one of the blocks that the kernel's window touches once it is moved inside. */
  ghost predicate WindowRefused(b: Band, dX: int, dY: int, n: int, readable: (int, int) -> bool) {
    exists cx, cy ::
      Touches(dX - OutOfBorder(dX, b.width, n), dY - OutOfBorder(dY, b.height, n), n, n, cx, cy) && !readable(cx, cy)
  }

  /**
   The kernel's window around column `dX` and row `dY`, wherever these lie: moved
   inside, read block by block, and dragged back along both axes. It holds the
   raster's pixels, and beyond the border the nearest border pixel.
   */
  method ReadKernelWindow(b: Band, cache: BlockCache, dX: int, dY: int, n: int, out: array2<real>,
                          readable: (int, int) -> bool, evict: (int, int) -> set<int>) returns (ok: bool)
    requires ValidBand(b) && cache.Faithful(b)
    requires n <= b.width && n <= b.height && Window(out, n)
    modifies cache, out
    ensures cache.Faithful(b)
    ensures !ok ==> WindowRefused(b, dX, dY, n, readable)
    ensures ok ==> forall r, c :: 0 <= r < n && 0 <= c < n ==> out[r, c] == b.pixels[Clamp(dY + r, b.height)][Clamp(dX + c, b.width)]
  {
    var shiftX, shiftY := OutOfBorder(dX, b.width, n), OutOfBorder(dY, b.height, n);
    CorrectionBringsInside(dX, b.width, n, 0);
    CorrectionBringsInside(dY, b.height, n, 0);
    ok := ExtractWindow(b, cache, dX - shiftX, dY - shiftY, n, n, out, readable, evict);
    if !ok {
      return;
    }
    label inside:
    DragInBorder(out, n, true, shiftX);
    label dragged:
    DragInBorder(out, n, false, shiftY);
    forall r, c | 0 <= r < n && 0 <= c < n
      ensures out[r, c] == b.pixels[Clamp(dY + r, b.height)][Clamp(dX + c, b.width)]
    {
      CorrectionBringsInside(dX, b.width, n, c);
      CorrectionBringsInside(dY, b.height, n, r);
      var r', c' := Clamp(r + shiftY, n), Clamp(c + shiftX, n);
      assert Cell(out, n, false, c, r) == old@dragged(Cell(out, n, false, c, r'));
      assert old@dragged(Cell(out, n, true, r', c)) == old@inside(Cell(out, n, true, r', c'));
    }
  }

  // ------------------------------------------------------------------ a single pixel

  /**
   What a window of one pixel holds, when its corner may also lie on the right or
   bottom edge: nothing, or the first pixel that the last block keeps of the next row.
   */
  ghost function PixelRead(b: Band, nX: int, nY: int): Option<real>
    requires ValidBand(b) && 0 <= nX <= b.width && 0 <= nY <= b.height
  {
    if nX < b.width && nY < b.height then Some(b.pixels[nY][nX])
    else if nY < b.height && b.width % BLOCK_SIZE != 0 && nY % BLOCK_SIZE + 1 < BlockExtent(b.height, nY / BLOCK_SIZE) then
      Some(b.pixels[nY + 1][b.width / BLOCK_SIZE * BLOCK_SIZE])
    else None
  }

  /** The block arithmetic for a window of one pixel, which touches one block. */
  method ExtractPixel(b: Band, cache: BlockCache, nX: int, nY: int, readable: (int, int) -> bool, evict: (int, int) -> set<int>)
    returns (res: Option<real>)
    requires ValidBand(b) && cache.Faithful(b) && 0 <= nX <= b.width && 0 <= nY <= b.height
    modifies cache
    ensures cache.Faithful(b)
    ensures res == PixelRead(b, nX, nY) || (res == None && !readable(nX / BLOCK_SIZE, nY / BLOCK_SIZE))
  {
    var cx, cy := nX / BLOCK_SIZE, nY / BLOCK_SIZE;
    var ok, v := cache.Fetch(b, cx, cy, readable, evict(cx, cy));
    if !ok {
      return None;
    }
    PixelOffset(b, v, nX, nY);
    var srcOffset := nY % BLOCK_SIZE * BlockExtent(b.width, cx) + nX % BLOCK_SIZE;
    if srcOffset + 1 > |v| {
      return None;
    }
    res := Some(v[srcOffset]);
  }

  /** What a block holds at the offset of a pixel. */
  lemma PixelOffset(b: Band, v: seq<real>, nX: int, nY: int)
    requires ValidBand(b) && 0 <= nX <= b.width && 0 <= nY <= b.height
    requires IsCopy(v, b, nX / BLOCK_SIZE, nY / BLOCK_SIZE)
    ensures var offset := nY % BLOCK_SIZE * BlockExtent(b.width, nX / BLOCK_SIZE) + nX % BLOCK_SIZE;
      && 0 <= offset
      && PixelRead(b, nX, nY) == if offset < |v| then Some(v[offset]) else None
  {
    var cx, cy := nX / BLOCK_SIZE, nY / BLOCK_SIZE;
    var w, h, j := BlockExtent(b.width, cx), BlockExtent(b.height, cy), nY % BLOCK_SIZE;
    assert j * w >= 0;
    if nY == b.height {
      assert j == h;
    } else {
      NextRow(j, w);
      assert BlockRow(v, b, cx, cy, w, j);
      if nX < b.width {
        BlockRowCells(v, b, cx, cy, w, j, nX % BLOCK_SIZE, 1);
        assert v[j * w + nX % BLOCK_SIZE] == v[j * w + nX % BLOCK_SIZE..j * w + nX % BLOCK_SIZE + 1][0];
      } else if w > 0 && j + 1 < h {
        assert BlockRow(v, b, cx, cy, w, j + 1);
        BlockRowCells(v, b, cx, cy, w, j + 1, 0, 1);
        assert v[(j + 1) * w] == v[(j + 1) * w..(j + 1) * w + 1][0];
      } else {
        assert w > 0 ==> (j + 1) * w == h * w;
      }
    }
  }
}
