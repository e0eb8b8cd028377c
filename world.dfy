/** The tile world (`World` in src/assets.rs): four chunk layers and the chunk-origin bounds
    derived from them once, at construction. Afterwards only single tiles change. */
module Worlds {
  import opened Wrappers
  import opened Chunks

  /** The smallest and largest chunk origins, per axis. */
  datatype Bounds = Bounds(xMin: int, xMax: int, yMin: int, yMax: int)

  /** The values `World::default` starts the bounds from before it looks at any chunk. */
  const Sentinels: Bounds := Bounds(999, -999, 999, -999)

  /** One step of the bounds loop: widen `b` to take in chunk `c`'s origin. */
  function Include(b: Bounds, c: Chunk): Bounds
  {
    Bounds(if c.x < b.xMin then c.x else b.xMin, if c.x > b.xMax then c.x else b.xMax,
           if c.y < b.yMin then c.y else b.yMin, if c.y > b.yMax then c.y else b.yMax)
  }

  /** The bounds the loop of `World::default` reaches after visiting `cs` in order. */
  function BoundsOf(cs: seq<Chunk>): Bounds
    decreases |cs|
  {
    if |cs| == 0 then Sentinels else Include(BoundsOf(cs[..|cs| - 1]), cs[|cs| - 1])
  }

  /** Every chunk lies inside the bounds. */
  lemma {:induction false} BoundsContainChunks(cs: seq<Chunk>)
    ensures forall k :: 0 <= k < |cs| ==>
      BoundsOf(cs).xMin <= cs[k].x <= BoundsOf(cs).xMax && BoundsOf(cs).yMin <= cs[k].y <= BoundsOf(cs).yMax
    decreases |cs|
  {
    if |cs| > 0 {
      BoundsContainChunks(cs[..|cs| - 1]);
      assert forall k :: 0 <= k < |cs| - 1 ==> cs[k] == cs[..|cs| - 1][k];
    }
  }

  /** Each bound is either its sentinel or the coordinate of some chunk, so together with
      BoundsContainChunks the bounds are min(999, smallest origin) and max(-999, largest
      origin); with no chunk at all the sentinels remain. */
  lemma {:induction false} BoundsAttained(cs: seq<Chunk>)
    ensures |cs| == 0 ==> BoundsOf(cs) == Sentinels
    ensures BoundsOf(cs).xMin <= 999 && BoundsOf(cs).yMin <= 999
    ensures BoundsOf(cs).xMax >= -999 && BoundsOf(cs).yMax >= -999
    ensures BoundsOf(cs).xMin == 999 || exists k :: 0 <= k < |cs| && cs[k].x == BoundsOf(cs).xMin
    ensures BoundsOf(cs).xMax == -999 || exists k :: 0 <= k < |cs| && cs[k].x == BoundsOf(cs).xMax
    ensures BoundsOf(cs).yMin == 999 || exists k :: 0 <= k < |cs| && cs[k].y == BoundsOf(cs).yMin
    ensures BoundsOf(cs).yMax == -999 || exists k :: 0 <= k < |cs| && cs[k].y == BoundsOf(cs).yMax
    decreases |cs|
  {
    if |cs| > 0 {
      var init := cs[..|cs| - 1];
      BoundsAttained(init);
      assert forall k :: 0 <= k < |init| ==> init[k] == cs[k];
    }
  }

  /** Every chunk has a full 256-tile buffer and no two chunks share a buffer (each `Chunk`
      owns its `Vec`). */
  predicate WellFormed(cs: seq<Chunk>)
  {
    (forall k :: 0 <= k < |cs| ==> cs[k].tiles.Length == Area) &&
    (forall j, k :: 0 <= j < k < |cs| ==> cs[j].tiles != cs[k].tiles)
  }

  /** Chunk lists concatenated in order. */
  function Concat(layers: seq<seq<Chunk>>): seq<Chunk>
    decreases |layers|
  {
    if |layers| == 0 then [] else Concat(layers[..|layers| - 1]) + layers[|layers| - 1]
  }

  lemma BoundsOfSnoc(cs: seq<Chunk>, c: Chunk)
    ensures BoundsOf(cs + [c]) == Include(BoundsOf(cs), c)
  {
    assert (cs + [c])[..|cs|] == cs;
  }

  lemma ConcatOfLayers(a: seq<Chunk>, b: seq<Chunk>, c: seq<Chunk>, d: seq<Chunk>)
    ensures Concat([a, b, c, d]) == a + b + c + d
  {
    var none: seq<seq<Chunk>> := [];
    assert [a, b, c, d][..3] == [a, b, c];
    assert [a, b, c][..2] == [a, b];
    assert [a, b][..1] == [a];
    assert [a][..0] == none;
    assert Concat([a]) == a;
    assert Concat([a, b]) == a + b;
    assert Concat([a, b, c]) == a + b + c;
  }

  /** The buffers of a list of chunks: what reading their tiles depends on. */
  function Buffers(cs: seq<Chunk>): set<array<int>>
  {
    set c | c in cs :: c.tiles
  }

  /** Tile `v` does not occur among the first `n` tiles of chunk `c`. */
  ghost predicate MarkerFree(c: Chunk, v: int, n: int)
    reads c.tiles
  {
    forall i :: 0 <= i < n && i < c.tiles.Length ==> c.tiles[i] != v
  }

  /** Tile `v` occurs somewhere in the layer. */
  ghost predicate HasMarker(cs: seq<Chunk>, v: int)
    reads Buffers(cs)
  {
    exists c :: 0 <= c < |cs| && !MarkerFree(cs[c], v, cs[c].tiles.Length)
  }

  /** Tile `i` of chunk `c` holds `v`, and no earlier chunk and no earlier tile of chunk `c` does. */
  ghost predicate IsFirstMarker(cs: seq<Chunk>, v: int, c: int, i: int)
    reads Buffers(cs)
  {
    0 <= c < |cs| && 0 <= i < cs[c].tiles.Length && cs[c].tiles[i] == v &&
    (forall c' :: 0 <= c' < c ==> MarkerFree(cs[c'], v, cs[c'].tiles.Length)) &&
    MarkerFree(cs[c], v, i)
  }

  /** There is only one first marker. */
  lemma FirstMarkerUnique(cs: seq<Chunk>, v: int, c: int, i: int, c': int, i': int)
    requires IsFirstMarker(cs, v, c, i) && IsFirstMarker(cs, v, c', i')
    ensures c == c' && i == i'
  {
  }

  /** Pixel position of tile `i` of chunk `c`: its world tile coordinate times 16. */
  function SpawnPosition(c: Chunk, i: int): (int, int)
  {
    ((i % Side + c.x) * Side, (i / Side + c.y) * Side)
  }

  /** A spawn position lies on the 16-pixel grid, and dividing it by 16 leads back, through
      the chunk-local lookup, to the marker tile it was found at. */
  lemma SpawnPositionLeadsToMarker(c: Chunk, i: int)
    requires c.tiles.Length == Area && 0 <= i < Area
    ensures SpawnPosition(c, i).0 % Side == 0 && SpawnPosition(c, i).1 % Side == 0
    ensures c.TileAt(SpawnPosition(c, i).0 / Side - c.x, SpawnPosition(c, i).1 / Side - c.y) == Some(c.tiles[i])
  {
    var (px, py) := SpawnPosition(c, i);
    assert px / Side == i % Side + c.x;
    assert py / Side == i / Side + c.y;
    TileAtCoversChunk(c, i);
  }

  class World {
    var collision: seq<Chunk>
    var details: seq<Chunk>
    var background: seq<Chunk>
    var interactable: seq<Chunk>

    var xMin: int
    var xMax: int
    var yMin: int
    var yMax: int

    /** Every chunk of the four layers, in the order the bounds loop visits them. */
    function AllChunks(): seq<Chunk>
      reads this
    {
      collision + details + background + interactable
    }

    ghost predicate Valid()
      reads this
    {
      WellFormed(AllChunks()) && Bounds(xMin, xMax, yMin, yMax) == BoundsOf(AllChunks())
    }

    /** `World::default` once the four layers are parsed: the bounds start from the
        sentinels and are then widened over every chunk of every layer. */
    constructor (collision: seq<Chunk>, details: seq<Chunk>, background: seq<Chunk>, interactable: seq<Chunk>)
      requires WellFormed(collision + details + background + interactable)
      ensures Valid()
      ensures this.collision == collision && this.details == details
      ensures this.background == background && this.interactable == interactable
    {
      this.collision := collision;
      this.details := details;
      this.background := background;
      this.interactable := interactable;
      xMin, yMin, yMax, xMax := 999, 999, -999, -999;
      new;
      DeriveBounds();
    }

    /** The bounds loop of `World::default`: visit the collision, details, background and
        interactable layers in turn, and widen the bounds over each chunk's origin. */
    method DeriveBounds()
      requires Bounds(xMin, xMax, yMin, yMax) == Sentinels
      modifies this`xMin, this`xMax, this`yMin, this`yMax
      ensures Bounds(xMin, xMax, yMin, yMax) == BoundsOf(AllChunks())
    {
      var layers := [collision, details, background, interactable];
      ghost var visited: seq<Chunk> := [];
      for l := 0 to |layers|
        invariant visited == Concat(layers[..l])
        invariant Bounds(xMin, xMax, yMin, yMax) == BoundsOf(visited)
      {
        WidenOver(layers[l], visited);
        visited := visited + layers[l];
        assert layers[..l + 1][..l] == layers[..l];
      }
      ConcatOfLayers(collision, details, background, interactable);
      assert layers[..|layers|] == layers;
    }

    /** The inner loop of the bounds loop: widen the bounds over each chunk of one layer, in
        order, continuing from the bounds of the chunks `visited` before it. */
    method WidenOver(layer: seq<Chunk>, ghost visited: seq<Chunk>)
      requires Bounds(xMin, xMax, yMin, yMax) == BoundsOf(visited)
      modifies this`xMin, this`xMax, this`yMin, this`yMax
      ensures Bounds(xMin, xMax, yMin, yMax) == BoundsOf(visited + layer)
    {
      assert visited + layer[..0] == visited;
      for i := 0 to |layer|
        invariant Bounds(xMin, xMax, yMin, yMax) == BoundsOf(visited + layer[..i])
      {
        var chunk := layer[i];
        ghost var seen := visited + layer[..i];
        ghost var widened := Include(Bounds(xMin, xMax, yMin, yMax), chunk);
        if chunk.x < xMin {
          xMin := chunk.x;
        }
        if chunk.y < yMin {
          yMin := chunk.y;
        }
        if chunk.x > xMax {
          xMax := chunk.x;
        }
        if chunk.y > yMax {
          yMax := chunk.y;
        }
        assert Bounds(xMin, xMax, yMin, yMax) == widened;
        BoundsOfSnoc(seen, chunk);
        assert visited + layer[..i + 1] == seen + [chunk];
      }
      assert layer[..|layer|] == layer;
    }

    /** `set_collision_tile`: overwrite the tile at world tile (x, y) in the first collision
        chunk whose origin is (floor(x/16)*16, floor(y/16)*16). With no such chunk the source
        panics on `unwrap`; here `found` is false and nothing changes. No chunk is ever created. */
    method SetCollisionTile(x: int, y: int, tile: int) returns (found: bool)
      requires Valid()
      modifies Buffers(collision)
      ensures Valid()
      ensures collision == old(collision) && details == old(details)
      ensures background == old(background) && interactable == old(interactable)
      ensures found <==> FindChunk(collision, ChunkOrigin(x), ChunkOrigin(y)).Some?
      ensures forall j :: 0 <= j < |AllChunks()| ==>
        (AllChunks()[j].tiles[..] ==
          if found && j == FindChunk(collision, ChunkOrigin(x), ChunkOrigin(y)).value
          then old(AllChunks()[j].tiles[..])[LocalIndex(x, y) := tile]
          else old(AllChunks()[j].tiles[..]))
    {
      var cx := ChunkOrigin(x);
      var cy := ChunkOrigin(y);
      var at := FindChunk(collision, cx, cy);
      if at.None? {
        return false;
      }
      var chunk := collision[at.value];
      assert chunk == AllChunks()[at.value];
      chunk.tiles[(x - chunk.x) + Side * (y - chunk.y)] := tile;
      return true;
    }

    /** `get_interactable_spawn`: the pixel position of the first interactable tile holding
        `tileIndex + 1`, scanning chunks in order and each chunk's tiles in order; `None`
        exactly when no interactable tile holds that value. */
    method GetInteractableSpawn(tileIndex: int) returns (r: Option<(int, int)>)
      ensures r.None? <==> !HasMarker(interactable, tileIndex + 1)
      ensures r.Some? ==> exists c, i :: IsFirstMarker(interactable, tileIndex + 1, c, i) &&
                                          r.value == SpawnPosition(interactable[c], i)
    {
      var marker := tileIndex + 1;
      var ci := 0;
      while ci < |interactable|
        invariant 0 <= ci <= |interactable|
        invariant forall c' :: 0 <= c' < ci ==> MarkerFree(interactable[c'], marker, interactable[c'].tiles.Length)
      {
        var chunk := interactable[ci];
        var i := 0;
        while i < chunk.tiles.Length
          invariant 0 <= i <= chunk.tiles.Length
          invariant MarkerFree(chunk, marker, i)
        {
          if chunk.tiles[i] == marker {
            assert IsFirstMarker(interactable, marker, ci, i);
            assert !MarkerFree(interactable[ci], marker, interactable[ci].tiles.Length);
            return Some(SpawnPosition(chunk, i));
          }
          i := i + 1;
        }
        ci := ci + 1;
      }
      return None;
    }
  }

  /** Every chunk of a constructed world lies inside the world's bounds. */
  lemma WorldBoundsContainChunks(w: World)
    requires w.Valid()
    ensures forall c :: c in w.AllChunks() ==> w.xMin <= c.x <= w.xMax && w.yMin <= c.y <= w.yMax
  {
    BoundsContainChunks(w.AllChunks());
  }
}
