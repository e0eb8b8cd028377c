/** A chunk of the tile map (`Chunk` in src/assets.rs): a 16 x 16 block of tile ids stored
    row-major, placed at an origin given in tile units. The origin never changes; the tile
    buffer is mutated in place (opening a door clears a collision tile). */
module Chunks {
  import opened Wrappers

  /** Side length of a chunk, in tiles. */
  const Side: int := 16
  /** Number of tiles in a chunk. */
  const Area: int := 256

  class Chunk {
    const x: int
    const y: int
    const tiles: array<int>

    constructor (x: int, y: int, tiles: array<int>)
      ensures this.x == x && this.y == y && this.tiles == tiles
    {
      this.x := x;
      this.y := y;
      this.tiles := tiles;
    }

    /** `tile_at` exactly as src/assets.rs writes it: the guard rejects `x > 16`, so the column
        `x == 16` passes and reads past the end of the row. Kept to state the discrepancy. */
    function TileAtAsWritten(lx: nat, ly: nat): (r: Option<int>)
      reads tiles
      ensures tiles.Length == Area ==> (r.Some? <==> lx <= Side && lx + Side * ly < Area)
    {
      if lx > Side then None
      else if lx + Side * ly < tiles.Length then Some(tiles[lx + Side * ly])
      else None
    }

    /** The chunk-local lookup with the guard the row-major layout needs (`x >= 16` is
        outside the chunk). A cell index past the buffer is absent, as `Vec::get` makes it. */
    function TileAt(lx: nat, ly: nat): (r: Option<int>)
      reads tiles
      ensures tiles.Length == Area ==> (r.Some? <==> lx < Side && ly < Side)
      ensures r.Some? ==> lx < Side && LocalIndexOf(lx, ly) < tiles.Length && r.value == tiles[LocalIndexOf(lx, ly)]
    {
      if lx >= Side then None
      else if lx + Side * ly < tiles.Length then Some(tiles[lx + Side * ly])
      else None
    }
  }

  /** Row-major index of the chunk-local cell (lx, ly). */
  function LocalIndexOf(lx: int, ly: int): int
  {
    lx + Side * ly
  }

  /** For a full chunk the corrected lookup reaches every cell exactly once: cell `i` sits at
      column `i % 16` and row `i / 16`, and two distinct in-chunk coordinates never share a cell. */
  lemma TileAtCoversChunk(c: Chunk, i: int)
    requires c.tiles.Length == Area && 0 <= i < Area
    ensures c.TileAt(i % Side, i / Side) == Some(c.tiles[i])
  {
    assert LocalIndexOf(i % Side, i / Side) == i;
  }

  lemma TileAtInjective(lx: int, ly: int, lx': int, ly': int)
    requires 0 <= lx < Side && 0 <= ly && 0 <= lx' < Side && 0 <= ly'
    requires LocalIndexOf(lx, ly) == LocalIndexOf(lx', ly')
    ensures lx == lx' && ly == ly'
  {
  }

  /** The code as written answers for column 16 with the first cell of the next row, so two
      different local coordinates read the same tile. */
  lemma TileAtAsWrittenAliases(c: Chunk, ly: nat)
    requires c.tiles.Length == Area && ly < Side - 1
    ensures c.TileAtAsWritten(Side, ly) == c.TileAtAsWritten(0, ly + 1) == Some(c.tiles[Side * (ly + 1)])
    ensures c.TileAt(Side, ly) == None
  {
  }

  /** Below column 16, the only columns a lookup through `get_tile` produces, the code as
      written and the corrected lookup agree. */
  lemma TileAtAgreesInsideChunk(c: Chunk, lx: nat, ly: nat)
    requires lx < Side
    ensures c.TileAtAsWritten(lx, ly) == c.TileAt(lx, ly)
  {
  }

  /** The origin of the chunk holding world tile coordinate `v`: `floor(v / 16) * 16`
      (Dafny's `/` with a positive divisor is floor division). */
  function ChunkOrigin(v: int): (o: int)
    ensures o % Side == 0 && o <= v < o + Side
  {
    (v / Side) * Side
  }

  /** Index into the owning chunk's buffer of world tile (x, y): `(x - cx) + 16 * (y - cy)`. */
  function LocalIndex(x: int, y: int): (i: int)
    ensures 0 <= i < Area
    ensures i % Side == x - ChunkOrigin(x) && i / Side == y - ChunkOrigin(y)
  {
    LocalIndexOf(x - ChunkOrigin(x), y - ChunkOrigin(y))
  }

  predicate HasOrigin(c: Chunk, ox: int, oy: int)
  {
    c.x == ox && c.y == oy
  }

  /** `iter().find(|f| f.x == cx && f.y == cy)`: the position of the first chunk with
      origin (ox, oy), or `None` when no chunk has it. */
  function FindChunk(cs: seq<Chunk>, ox: int, oy: int): (r: Option<nat>)
    ensures r.Some? ==> r.value < |cs| && HasOrigin(cs[r.value], ox, oy)
    ensures r.Some? ==> forall j :: 0 <= j < r.value ==> !HasOrigin(cs[j], ox, oy)
    ensures r.None? <==> forall j :: 0 <= j < |cs| ==> !HasOrigin(cs[j], ox, oy)
    decreases |cs|
  {
    if |cs| == 0 then None
    else if HasOrigin(cs[0], ox, oy) then Some(0)
    else match FindChunk(cs[1..], ox, oy)
      case None => None
      case Some(k) => Some(k + 1)
  }
}
