/** A range cut into blocks of one size, the last of which may be smaller. */
module Tiling {

  function Blocks(size: int, tile: int): int
    requires tile >= 1
  {
    (size + tile - 1) / tile
  }

  function BlockStart(tile: int, block: int): int {
    block * tile
  }

  function BlockEnd(size: int, tile: int, block: int): int
    requires tile >= 1
  {
    if block == Blocks(size, tile) - 1 then size else BlockStart(tile, block) + tile
  }

  /** Blocks follow one another, do not exceed the tile size, and end with the raster. */
  lemma BlocksTile(size: int, tile: int, block: int)
    requires tile >= 1 && size >= 0 && 0 <= block < Blocks(size, tile)
    ensures 0 <= BlockStart(tile, block) <= BlockEnd(size, tile, block) <= size
    ensures BlockEnd(size, tile, block) - BlockStart(tile, block) <= tile
    ensures BlockEnd(size, tile, block) == if block + 1 == Blocks(size, tile) then size else BlockStart(tile, block + 1)
  {
    var n := Blocks(size, tile);
    assert n * tile + (size + tile - 1) % tile == size + tile - 1;
    AtLeast(block, 0, tile);
    AtLeast(n - 1, block, tile);
    assert (n - 1) * tile == n * tile - tile;
    assert (block + 1) * tile == block * tile + tile;
    if block + 1 < n {
      AtLeast(n - 1, block + 1, tile);
    }
  }

  lemma AtLeast(a: int, b: int, t: int)
    requires a >= b && t >= 0
    ensures a * t >= b * t
  {
    assert (a - b) * t >= 0;
  }

  /** How far one is before a block. */
  function Reached(size: int, tile: int, block: int): int
    requires tile >= 1
  {
    if block == Blocks(size, tile) then size else BlockStart(tile, block)
  }

  lemma NoBlocks(size: int, tile: int)
    requires tile >= 1 && size >= 0
    ensures Blocks(size, tile) >= 0 && Reached(size, tile, 0) == 0
  {
    var n := Blocks(size, tile);
    assert n * tile + (size + tile - 1) % tile == size + tile - 1;
    if n < 0 {
      AtLeast(-1, n, tile);
    }
  }
}
