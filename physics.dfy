/** The grid collision resolver of src/player.rs (`ceil_g`, `get_tile`, `update_physicsbody`).
    A body moves by `velocity * dt`; the resolver probes four tile corners, first along Y and
    then along X, and on a solid tile snaps that coordinate to a 16-pixel grid line and stops
    the motion along that axis. Positions and velocities are exact reals, tile coordinates
    unbounded integers. */
module Physics {
  import opened Wrappers
  import opened Chunks
  import opened Worlds

  /** Pixels per tile. */
  const TilePixels: real := 16.0

  datatype Vec2 = Vec2(x: real, y: real)

  /** A body's position and velocity. */
  datatype Motion = Motion(pos: Vec2, vel: Vec2)

  function Abs(a: real): real
  {
    if a < 0.0 then -a else a
  }

  /** `f32::ceil`: the least integer not below `a`. */
  function Ceil(a: real): (r: int)
    ensures a <= r as real < a + 1.0
  {
    -((-a).Floor)
  }

  /** `f32::trunc`: `a` rounded toward zero. */
  function Trunc(a: real): int
  {
    if a < 0.0 then Ceil(a) else a.Floor
  }

  /** `ceil_g`: `a` rounded away from zero (`floor` below zero, `ceil` otherwise). */
  function CeilG(a: real): (r: int)
    ensures a < 0.0 ==> r as real <= a
    ensures a >= 0.0 ==> a <= r as real
  {
    if a < 0.0 then a.Floor else Ceil(a)
  }

  /** Truncation moves toward zero by less than one and keeps the sign; `ceil_g` moves away
      from zero by less than one and keeps the sign. */
  lemma RoundingBounds(a: real)
    ensures Abs(Trunc(a) as real) <= Abs(a) < Abs(Trunc(a) as real) + 1.0
    ensures a < 0.0 ==> Trunc(a) <= 0
    ensures a >= 0.0 ==> Trunc(a) >= 0
    ensures Abs(a) <= Abs(CeilG(a) as real) < Abs(a) + 1.0
    ensures a < 0.0 ==> CeilG(a) < 0
    ensures a >= 0.0 ==> CeilG(a) >= 0
  {
  }

  /** Rounding an integral value either way gives that value back. */
  lemma RoundIntegral(n: int)
    ensures Trunc(n as real) == n && CeilG(n as real) == n && Ceil(n as real) == n
  {
  }

  /** `get_tile`: the tile at world tile (x, y) in the first listed chunk whose origin is
      `(floor(x/16)*16, floor(y/16)*16)`, with 0 (passable) when no such chunk is listed or
      the chunk has no such cell. */
  function GetTile(chunks: seq<Chunk>, x: int, y: int): (r: int)
    reads Buffers(chunks)
    ensures r != 0 ==> FindChunk(chunks, ChunkOrigin(x), ChunkOrigin(y)).Some?
  {
    match FindChunk(chunks, ChunkOrigin(x), ChunkOrigin(y))
    case None => 0
    case Some(k) =>
      var c := chunks[k];
      assert c.tiles in Buffers(chunks);
      c.TileAt(x - c.x, y - c.y).GetOr(0)
  }

  /** The tile `get_tile` answers is cell `LocalIndex(x, y)` of the first chunk with the
      tile's origin, and 0 when no chunk has that origin or the chunk has no such cell. */
  lemma GetTileReadsOwner(chunks: seq<Chunk>, x: int, y: int)
    ensures FindChunk(chunks, ChunkOrigin(x), ChunkOrigin(y)).None? ==> GetTile(chunks, x, y) == 0
    ensures FindChunk(chunks, ChunkOrigin(x), ChunkOrigin(y)).Some? ==>
      var c := chunks[FindChunk(chunks, ChunkOrigin(x), ChunkOrigin(y)).value];
      GetTile(chunks, x, y) == if LocalIndex(x, y) < c.tiles.Length then c.tiles[LocalIndex(x, y)] else 0
  {
  }

  /** The pre-filter of `update_physicsbody`: the chunks whose origin is one of `origins`,
      in their original order. */
  function Window(cs: seq<Chunk>, origins: seq<(int, int)>): seq<Chunk>
    decreases |cs|
  {
    if |cs| == 0 then []
    else if (cs[0].x, cs[0].y) in origins then [cs[0]] + Window(cs[1..], origins)
    else Window(cs[1..], origins)
  }

  /** The window holds exactly the listed chunks whose origin is one of `origins`. */
  lemma {:induction false} WindowSelects(cs: seq<Chunk>, origins: seq<(int, int)>, c: Chunk)
    ensures c in Window(cs, origins) <==> c in cs && (c.x, c.y) in origins
    decreases |cs|
  {
    if |cs| > 0 {
      WindowSelects(cs[1..], origins, c);
      assert cs == [cs[0]] + cs[1..];
    }
  }

  /** Looking an origin up in the window finds the very chunk the whole list gives, when the
      origin is one the window keeps. */
  lemma {:induction false} WindowFindsSameChunk(cs: seq<Chunk>, origins: seq<(int, int)>, ox: int, oy: int)
    requires (ox, oy) in origins
    ensures FindChunk(Window(cs, origins), ox, oy).Some? <==> FindChunk(cs, ox, oy).Some?
    ensures FindChunk(cs, ox, oy).Some? ==>
      Window(cs, origins)[FindChunk(Window(cs, origins), ox, oy).value] == cs[FindChunk(cs, ox, oy).value]
    decreases |cs|
  {
    if |cs| > 0 {
      WindowFindsSameChunk(cs[1..], origins, ox, oy);
      var rest := Window(cs[1..], origins);
      if HasOrigin(cs[0], ox, oy) {
        assert Window(cs, origins) == [cs[0]] + rest;
      } else if (cs[0].x, cs[0].y) in origins {
        assert Window(cs, origins) == [cs[0]] + rest;
        assert ([cs[0]] + rest)[1..] == rest;
      }
    }
  }

  /** The window answers every lookup in it as the whole list does. */
  lemma WindowKeepsTiles(cs: seq<Chunk>, origins: seq<(int, int)>, x: int, y: int)
    requires (ChunkOrigin(x), ChunkOrigin(y)) in origins
    ensures GetTile(Window(cs, origins), x, y) == GetTile(cs, x, y)
  {
    WindowFindsSameChunk(cs, origins, ChunkOrigin(x), ChunkOrigin(y));
    GetTileReadsOwner(cs, x, y);
    GetTileReadsOwner(Window(cs, origins), x, y);
  }

  /** The origins of the chunks holding the given tiles: every probe's chunk is kept, and only
      grid-aligned origins are. */
  function Origins(probes: seq<(int, int)>): (r: seq<(int, int)>)
    ensures forall i :: 0 <= i < |probes| ==> (ChunkOrigin(probes[i].0), ChunkOrigin(probes[i].1)) in r
    ensures forall o :: o in r ==> o.0 % Side == 0 && o.1 % Side == 0
  {
    var r := seq(|probes|, i requires 0 <= i < |probes| => (ChunkOrigin(probes[i].0), ChunkOrigin(probes[i].1)));
    assert forall i :: 0 <= i < |probes| ==> r[i] == (ChunkOrigin(probes[i].0), ChunkOrigin(probes[i].1));
    r
  }

  /** Some probe from position `i` on is solid, looking at the probes in order. */
  predicate BlockedFrom(chunks: seq<Chunk>, probes: seq<(int, int)>, i: nat)
    reads Buffers(chunks)
    decreases |probes| - i
  {
    i < |probes| && (GetTile(chunks, probes[i].0, probes[i].1) != 0 || BlockedFrom(chunks, probes, i + 1))
  }

  /** Some probed tile is solid. */
  predicate Blocked(chunks: seq<Chunk>, probes: seq<(int, int)>)
    reads Buffers(chunks)
  {
    BlockedFrom(chunks, probes, 0)
  }

  /** From position `i` on, a pass is blocked exactly when one of those probes is solid. */
  lemma {:induction false} BlockedFromIsSomeSolidProbe(chunks: seq<Chunk>, probes: seq<(int, int)>, i: nat)
    ensures BlockedFrom(chunks, probes, i) <==>
      exists j :: i <= j < |probes| && GetTile(chunks, probes[j].0, probes[j].1) != 0
    decreases |probes| - i
  {
    if i < |probes| {
      BlockedFromIsSomeSolidProbe(chunks, probes, i + 1);
    }
  }

  /** A pass is blocked exactly when one of its probes is solid. */
  lemma BlockedIsSomeSolidProbe(chunks: seq<Chunk>, probes: seq<(int, int)>)
    ensures Blocked(chunks, probes) <==> exists i :: 0 <= i < |probes| && GetTile(chunks, probes[i].0, probes[i].1) != 0
  {
    BlockedFromIsSomeSolidProbe(chunks, probes, 0);
  }

  /** Probing through the window of the probes' own chunks gives the same verdict as probing
      the whole collision layer. */
  lemma WindowKeepsBlocked(cs: seq<Chunk>, probes: seq<(int, int)>)
    ensures Blocked(Window(cs, Origins(probes)), probes) <==> Blocked(cs, probes)
  {
    forall i | 0 <= i < |probes|
      ensures GetTile(Window(cs, Origins(probes)), probes[i].0, probes[i].1) == GetTile(cs, probes[i].0, probes[i].1)
    {
      WindowKeepsTiles(cs, Origins(probes), probes[i].0, probes[i].1);
    }
    BlockedIsSomeSolidProbe(Window(cs, Origins(probes)), probes);
    BlockedIsSomeSolidProbe(cs, probes);
  }

  /** The tiles probed along Y: the columns around the old position (truncated and rounded
      away from zero), on the rows around the tentative position. */
  function YProbes(pos: Vec2, tentative: Vec2): (r: seq<(int, int)>)
    ensures |r| == 4
  {
    var tx := pos.x / TilePixels;
    var ny := tentative.y / TilePixels;
    [(Trunc(tx), CeilG(ny)), (CeilG(tx), CeilG(ny)), (Trunc(tx), Trunc(ny)), (CeilG(tx), Trunc(ny))]
  }

  /** The tiles probed along X, around the position after the Y pass. */
  function XProbes(next: Vec2): (r: seq<(int, int)>)
    ensures |r| == 4
  {
    var nx := next.x / TilePixels;
    var ny := next.y / TilePixels;
    [(Trunc(nx), CeilG(ny)), (CeilG(nx), CeilG(ny)), (CeilG(nx), Trunc(ny)), (Trunc(nx), Trunc(ny))]
  }

  /** Tile coordinate `t` is within one tile of pixel coordinate `p`. */
  predicate Near(t: int, p: real)
  {
    p / TilePixels - 1.0 < t as real < p / TilePixels + 1.0
  }

  /** The Y pass probes tiles within one tile of the old X and the tentative Y, on both sides
      of each: truncation toward zero and rounding away from zero. */
  lemma YProbesSurround(pos: Vec2, tentative: Vec2)
    ensures forall p :: p in YProbes(pos, tentative) ==> Near(p.0, pos.x) && Near(p.1, tentative.y)
    ensures YProbes(pos, tentative)[0].0 == Trunc(pos.x / TilePixels) && YProbes(pos, tentative)[1].0 == CeilG(pos.x / TilePixels)
    ensures YProbes(pos, tentative)[0].1 == CeilG(tentative.y / TilePixels) && YProbes(pos, tentative)[2].1 == Trunc(tentative.y / TilePixels)
  {
    RoundingBounds(pos.x / TilePixels);
    RoundingBounds(tentative.y / TilePixels);
  }

  /** The X pass probes tiles within one tile of the position left by the Y pass. */
  lemma XProbesSurround(next: Vec2)
    ensures forall p :: p in XProbes(next) ==> Near(p.0, next.x) && Near(p.1, next.y)
    ensures XProbes(next)[0].0 == Trunc(next.x / TilePixels) && XProbes(next)[1].0 == CeilG(next.x / TilePixels)
    ensures XProbes(next)[0].1 == CeilG(next.y / TilePixels) && XProbes(next)[2].1 == Trunc(next.y / TilePixels)
  {
    RoundingBounds(next.x / TilePixels);
    RoundingBounds(next.y / TilePixels);
  }

  /** `p` lies on a line of the 16-pixel grid. */
  predicate OnGrid(p: real)
  {
    p == p.Floor as real && p.Floor % 16 == 0
  }

  /** Where a blocked coordinate comes to rest: the grid line at or behind `p` when moving
      toward negative values, otherwise the grid line at or ahead of it. */
  function Snap(p: real, v: real): (r: real)
    ensures v < 0.0 ==> r <= p
    ensures v >= 0.0 ==> p <= r
  {
    if v < 0.0 then ((p / TilePixels).Floor * 16) as real
    else (Ceil(p / TilePixels) * 16) as real
  }

  /** A snapped coordinate is on the grid, at most one tile behind (moving toward negative
      values) or ahead of (otherwise) where it was, and exactly there when already on the grid
      on that side. */
  lemma SnapBounds(p: real, v: real)
    ensures OnGrid(Snap(p, v))
    ensures v < 0.0 ==> Snap(p, v) <= p < Snap(p, v) + TilePixels
    ensures v >= 0.0 ==> Snap(p, v) - TilePixels < p <= Snap(p, v)
  {
  }

  /** Where the body would be without collisions. */
  function Tentative(pos: Vec2, vel: Vec2, dt: real): Vec2
  {
    Vec2(pos.x + vel.x * dt, pos.y + vel.y * dt)
  }

  /** The Y pass: when some Y probe is solid, Y snaps (from the old position, in the direction
      of the vertical velocity) and the vertical velocity stops. X is not touched. */
  function ResolveY(pos: Vec2, vel: Vec2, dt: real, chunks: seq<Chunk>): (r: Motion)
    reads Buffers(chunks)
    ensures r.pos.x == Tentative(pos, vel, dt).x && r.vel.x == vel.x
    ensures r.vel.y == vel.y || r.vel.y == 0.0
  {
    var t := Tentative(pos, vel, dt);
    if Blocked(chunks, YProbes(pos, t)) then Motion(Vec2(t.x, Snap(pos.y, vel.y)), Vec2(vel.x, 0.0))
    else Motion(t, vel)
  }

  /** The X pass, on the motion `m` the Y pass left: probes around `m.pos`; when one is solid,
      X snaps (from the old position, in the direction of the horizontal velocity) and the
      horizontal velocity stops. Y is not touched. */
  function ResolveX(pos: Vec2, m: Motion, chunks: seq<Chunk>): (r: Motion)
    reads Buffers(chunks)
    ensures r.pos.y == m.pos.y && r.vel.y == m.vel.y
    ensures r.vel.x == m.vel.x || r.vel.x == 0.0
  {
    if Blocked(chunks, XProbes(m.pos)) then Motion(Vec2(Snap(pos.x, m.vel.x), m.pos.y), Vec2(0.0, m.vel.y))
    else m
  }

  /** One physics step on the collision layer `chunks`. */
  function Resolve(pos: Vec2, vel: Vec2, dt: real, chunks: seq<Chunk>): (r: Motion)
    reads Buffers(chunks)
    ensures r.vel.x == vel.x || r.vel.x == 0.0
    ensures r.vel.y == vel.y || r.vel.y == 0.0
  {
    ResolveX(pos, ResolveY(pos, vel, dt, chunks), chunks)
  }

  /** A stopped axis ends on the grid, next to where the body was, on the side it was heading. */
  lemma StoppedAxisSnaps(pos: Vec2, vel: Vec2, dt: real, chunks: seq<Chunk>)
    ensures var r := Resolve(pos, vel, dt, chunks);
      (vel.y != 0.0 && r.vel.y == 0.0 ==> r.pos.y == Snap(pos.y, vel.y) && OnGrid(r.pos.y))
    ensures var r := Resolve(pos, vel, dt, chunks);
      (vel.x != 0.0 && r.vel.x == 0.0 ==> r.pos.x == Snap(pos.x, vel.x) && OnGrid(r.pos.x))
  {
    var m := ResolveY(pos, vel, dt, chunks);
    assert Resolve(pos, vel, dt, chunks) == ResolveX(pos, m, chunks);
    SnapBounds(pos.y, vel.y);
    SnapBounds(pos.x, vel.x);
  }

  /** With no solid tile on either probe set the body moves freely and keeps its velocity;
      with none on the Y probes the vertical motion alone is free. */
  lemma FreeMotion(pos: Vec2, vel: Vec2, dt: real, chunks: seq<Chunk>)
    ensures !Blocked(chunks, YProbes(pos, Tentative(pos, vel, dt))) ==>
      Resolve(pos, vel, dt, chunks).pos.y == Tentative(pos, vel, dt).y && Resolve(pos, vel, dt, chunks).vel.y == vel.y
    ensures !Blocked(chunks, YProbes(pos, Tentative(pos, vel, dt))) &&
            !Blocked(chunks, XProbes(Tentative(pos, vel, dt))) ==>
      Resolve(pos, vel, dt, chunks) == Motion(Tentative(pos, vel, dt), vel)
  {
    var t := Tentative(pos, vel, dt);
    var m := ResolveY(pos, vel, dt, chunks);
    assert Resolve(pos, vel, dt, chunks) == ResolveX(pos, m, chunks);
    if !Blocked(chunks, YProbes(pos, t)) {
      assert m == Motion(t, vel);
    }
  }

  /** A body at rest on a grid corner stays where it is, solid tiles or not. */
  lemma RestOnGridStays(m: int, n: int, dt: real, chunks: seq<Chunk>)
    ensures var pos := Vec2((16 * m) as real, (16 * n) as real);
      Resolve(pos, Vec2(0.0, 0.0), dt, chunks) == Motion(pos, Vec2(0.0, 0.0))
  {
    var pos := Vec2((16 * m) as real, (16 * n) as real);
    var zero := Vec2(0.0, 0.0);
    assert pos.x / TilePixels == m as real && pos.y / TilePixels == n as real;
    RoundIntegral(m);
    RoundIntegral(n);
    assert Snap(pos.y, 0.0) == pos.y;
    assert Snap(pos.x, 0.0) == pos.x;
    assert ResolveY(pos, zero, dt, chunks) == Motion(pos, zero);
  }

  /** A body at rest off the grid is pushed when it overlaps a solid tile: at (0, 8) over a
      chunk at the origin whose cell (0, 1) is solid, it ends at (0, 16). */
  lemma RestOffGridCanMove(c: Chunk, dt: real)
    requires c.x == 0 && c.y == 0 && c.tiles.Length == Area && c.tiles[16] != 0
    ensures Resolve(Vec2(0.0, 8.0), Vec2(0.0, 0.0), dt, [c]).pos.y == 16.0
  {
    var pos := Vec2(0.0, 8.0);
    var zero := Vec2(0.0, 0.0);
    assert pos.y / TilePixels == 0.5;
    assert CeilG(0.5) == 1 && Trunc(0.0) == 0;
    assert YProbes(pos, pos)[0] == (0, 1);
    assert LocalIndex(0, 1) == 16;
    assert GetTile([c], 0, 1) != 0;
    assert Blocked([c], YProbes(pos, Tentative(pos, zero, dt)));
    assert Ceil(0.5) == 1;
  }

  /** `update_physicsbody`: move by `velocity * dt`, then probe along Y and along X through
      the chunks around the probes; the first solid tile of a pass snaps that coordinate and
      stops that velocity component. Returns the new position and the new velocity (the
      source updates the velocity through a reference). */
  method UpdatePhysicsBody(pos: Vec2, velocity: Vec2, dt: real, collisionTiles: seq<Chunk>)
    returns (next: Vec2, vel: Vec2)
    ensures Motion(next, vel) == Resolve(pos, velocity, dt, collisionTiles)
  {
    vel := velocity;
    next := Tentative(pos, vel, dt);
    var tileX := pos.x / TilePixels;
    var tileY := pos.y / TilePixels;

    var tilesY := YProbes(pos, next);
    var chunks := Window(collisionTiles, Origins(tilesY));
    WindowKeepsBlocked(collisionTiles, tilesY);
    ghost var tentative := next;
    for i := 0 to |tilesY|
      invariant next == tentative && vel == velocity
      invariant Blocked(chunks, tilesY) == BlockedFrom(chunks, tilesY, i)
    {
      var tile := GetTile(chunks, tilesY[i].0, tilesY[i].1);
      if tile != 0 {
        var c := if vel.y < 0.0 then (tileY.Floor * 16) as real else (Ceil(tileY) * 16) as real;
        next := next.(y := c);
        vel := vel.(y := 0.0);
        break;
      }
    }
    ghost var afterY := Motion(next, vel);
    assert afterY == ResolveY(pos, velocity, dt, collisionTiles);

    var tilesX := XProbes(next);
    chunks := Window(collisionTiles, Origins(tilesX));
    WindowKeepsBlocked(collisionTiles, tilesX);
    for i := 0 to |tilesX|
      invariant Motion(next, vel) == afterY
      invariant Blocked(chunks, tilesX) == BlockedFrom(chunks, tilesX, i)
    {
      var tile := GetTile(chunks, tilesX[i].0, tilesX[i].1);
      if tile != 0 {
        var c := if vel.x < 0.0 then (tileX.Floor * 16) as real else (Ceil(tileX) * 16) as real;
        next := next.(x := c);
        vel := vel.(x := 0.0);
        break;
      }
    }
  }
}
