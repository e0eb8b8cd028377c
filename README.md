# Chunked tile world and grid collision resolver

This project models, in Dafny, the two parts of a small 2D game that hold its grid logic.

- **The chunked tile world**, from `src/assets.rs`:
  - A `World` has four layers: collision, details, background and interactable.
  - Each layer is a list of `Chunk`s. A chunk is a 16 x 16 block of `i16` tile ids, stored row-major at an origin given in tile units.
  - The model covers:
    - the chunk-local lookup `tile_at`;
    - the in-place overwrite `set_collision_tile`;
    - the marker search `get_interactable_spawn`;
    - the bounds loop of `World::default`;
    - the hand-written reader of the map document: `get_layer`, `get_all_chunks` and `parse_chunk`.
- **The axis-separated collision resolver**, from `src/player.rs`: `ceil_g`, `get_tile` and `update_physicsbody`.
  - A body moves by `velocity * dt`. Four tile corners are then probed, along Y first and then along X.
  - On the first solid tile of a pass, that coordinate snaps to the 16-pixel grid and that velocity component becomes 0.

## Files and modules

- `wrappers.dfy` (module `Wrappers`): the `Option` type. `None` stands for a panic (`unwrap` on a missing piece) or an absent value.
- `text.dfy` (module `Text`): the parts of Rust's `str` that the map reader relies on: `split_once`, `split(char)`, `trim` and `i16::from_str`. Each is stated on `string` together with its round-trip lemmas.
- `chunks.dfy` (module `Chunks`):
  - `class Chunk`, whose constant origin and constant `tiles: array<int>` buffer is updated in place;
  - `tile_at`, as written and corrected;
  - the floor-division origin and the local index;
  - the first-match chunk search.
- `world.dfy` (module `Worlds`): `class World`. Its four layer fields are set once, by the constructor. What changes in place is the four bound fields (in the bounds loop) and the chunks' tile buffers (in `set_collision_tile`).
  - The bounds loop is proved against the function `BoundsOf`.
  - `set_collision_tile` changes exactly one cell.
  - `get_interactable_spawn` is a nested loop with an early return.
- `map_parser.dfy` (module `MapParser`):
  - layer and chunk extraction as functions on text;
  - `parse_chunk` and `get_all_chunks` as methods that allocate the tile buffers, proved against the functions `ChunkSpec` and `LayerChunks`;
  - the document-to-world load.
- `physics.dfy` (module `Physics`):
  - rounding;
  - `get_tile`;
  - the chunk pre-filter;
  - the resolver's specification `Resolve`;
  - `update_physicsbody` as a method with the source's two probing loops.

## Model

| member | source | states |
|---|---|---|
| Chunks.Chunk.TileAt | src/assets.rs:107-112 | On a 256-tile chunk the lookup answers exactly for columns 0..15 and rows 0..15. Any answer is the cell `lx + 16*ly` of the buffer. A cell past the buffer is absent, as `Vec::get` makes it. This is the corrected guard, which the rest of the model uses. |
| Chunks.Chunk.TileAtAsWritten | src/assets.rs:107-111 | `tile_at` exactly as written. On a 256-tile chunk it answers exactly for columns 0..16 (one too many) whose row-major index is inside the buffer. `Chunks.TileAtAsWrittenAliases` shows what column 16 reads. |
| Chunks.TileAtAsWrittenAliases | src/assets.rs:107-111 | With the guard as written (`x > 16`), column 16 of row `ly` answers with the first cell of row `ly + 1`. The corrected lookup answers `None` there. |
| Chunks.TileAtAgreesInsideChunk | src/assets.rs:107-111 | For columns below 16 the guard as written and the corrected guard give the same answer. |
| Chunks.TileAtCoversChunk | src/assets.rs:111 | Every cell `i` of a full chunk is reached by the lookup at column `i % 16` and row `i / 16`. |
| Chunks.TileAtInjective | src/assets.rs:111 | Two in-chunk coordinates with the same row-major index are the same coordinate. |
| Chunks.ChunkOrigin | src/assets.rs:46-47 | `floor(v/16)*16` is a multiple of 16 and lies within 16 below `v`, so the local offset `v - origin` is in [0, 16). |
| Chunks.LocalIndex | src/assets.rs:54 | The local index `(x - cx) + 16*(y - cy)` always lies in [0, 256), with column `x - cx` and row `y - cy`. |
| Chunks.FindChunk | src/assets.rs:49-53 | `find` returns the first chunk with the requested origin. It returns `None` exactly when no chunk has that origin. |
| Worlds.World.SetCollisionTile | src/assets.rs:45-55 | Returns found exactly when some collision chunk has the tile's origin. It then overwrites exactly the cell at `LocalIndex(x, y)` of the first such chunk. Every other tile of every chunk in every layer is unchanged, as are the layer lists and the bounds. No chunk is created. |
| Worlds.World.GetInteractableSpawn | src/assets.rs:32-44 | Returns `None` exactly when no interactable tile holds `tileIndex + 1`. Otherwise it returns the pixel position of the first such tile, in chunk order and then tile order. |
| Worlds.FirstMarkerUnique | src/assets.rs:32-44 | The first match in chunk-then-tile order is unique. |
| Worlds.SpawnPositionLeadsToMarker | src/assets.rs:36-39 | A spawn position is a multiple of 16 on both axes. Divided by 16, it leads back through the chunk lookup to the matching tile. |
| Worlds.World.constructor | src/assets.rs:57-100 | A world built from four layers of owned 256-tile chunks keeps the layers as given. Its bounds are the result of the bounds loop. |
| Worlds.World.DeriveBounds | src/assets.rs:76-96 | Starting from the sentinels, visiting collision, details, background and interactable in turn leaves `BoundsOf` of all chunks in that order. |
| Worlds.World.WidenOver | src/assets.rs:82-95 | The inner loop over one layer widens the bounds by each chunk's origin, in order. |
| Worlds.BoundsContainChunks | src/assets.rs:76-96 | Every visited chunk's origin lies within `xMin..xMax` and `yMin..yMax`. |
| Worlds.BoundsAttained | src/assets.rs:64-96 | With no chunks the sentinels 999 / -999 remain. Otherwise each bound is either its sentinel or some chunk's coordinate. The minima never exceed 999 and the maxima are never below -999. |
| Worlds.WorldBoundsContainChunks | src/assets.rs:57-100 | In a constructed world every chunk of every layer lies within the world's bounds. |
| MapParser.GetLayer | src/assets.rs:179-190 | The layer text read never contains `</layer>`. |
| MapParser.GetLayerFindsContent | src/assets.rs:179-190 | Take a document laid out as: prefix, name key, rest of the tag, `>`, content, `</layer>`, suffix. If the key and `</layer>` first occur at those places, the layer read is exactly the content. |
| MapParser.ChunkSectionsRoundTrip | src/assets.rs:131-141 | The sections, each followed by `</chunk>`, then the ignored remainder, give back the layer text. |
| MapParser.ChunkSectionsSeparated | src/assets.rs:131-141 | No section and not the remainder contains `</chunk>`, so there is one section per `</chunk>`. |
| MapParser.AttributeOfShown | src/assets.rs:150-167 | An `x="…"`/`y="…"` attribute written as the decimal text of an `i16` reads back as that value. |
| MapParser.ChunkHeader | src/assets.rs:143-167 | The origin read from a `<chunk …>` tag lies in the `i16` range on both axes. `MapParser.ChunkHeaderOfShown` shows what it reads. |
| MapParser.ChunkHeaderOfShown | src/assets.rs:143-167 | A section written as `<chunk x="…" y="…" …>data`, after text with no earlier `<chunk `, reads back as exactly that origin and that data. |
| MapParser.TileValues | src/assets.rs:169-176 | Chunk data yields exactly 256 tile ids, or `None`. |
| MapParser.TileValuesOfCsv | src/assets.rs:169-176 | 256 `i16` ids written comma-separated read back as exactly those ids, whatever fields follow. |
| MapParser.TileValuesMissing | src/assets.rs:172-174 | Fewer than 256 fields, or a field among the first 256 that is not an `i16` after trimming, makes the chunk fail. |
| MapParser.TileValuesOfFields | src/assets.rs:172-175 | Values read one field at a time from the first 256 fields are the chunk's tile ids. |
| MapParser.ReadTiles | src/assets.rs:169-176 | The tile loop fails exactly when `TileValues` does. Otherwise it returns a fresh 256-cell buffer holding `TileValues`. |
| MapParser.ChunkSpec | src/assets.rs:142-177 | A parsed chunk description has exactly 256 tiles. |
| MapParser.ParseChunk | src/assets.rs:142-177 | Returns a chunk exactly when `ChunkSpec` describes one. The chunk has that origin and those 256 tiles in a fresh buffer. |
| MapParser.LayerChunks | src/assets.rs:131-141 | A readable layer has exactly one chunk per section. |
| MapParser.LayerChunksNone | src/assets.rs:134-136 | One section that does not parse makes the whole layer fail. |
| MapParser.LayerChunksSome | src/assets.rs:134-140 | When every section parses, the layer's chunks are the sections' chunks, in document order. |
| MapParser.GetAllChunks | src/assets.rs:131-141 | Returns chunks exactly when `LayerChunks` does. They hold what `LayerChunks` describes, in order, each with its own 256-cell buffer. None of those buffers is among the buffers `taken` before. |
| MapParser.LoadLayer | src/assets.rs:60-68 | Reading one named layer succeeds exactly when `DocumentLayer` does. It gives owned, well-formed chunks holding that layer's descriptions. |
| MapParser.WellFormedLayers | src/assets.rs:19-24 | Four layers read one after the other into disjoint buffers form one list of owned 256-tile chunks. |
| MapParser.LoadWorld | src/assets.rs:57-100 | `World::default` on a document succeeds exactly when all four layers are readable. The world then holds, layer by layer, what the document describes. Its bounds are derived from all its chunks. |
| Text.SplitOnce | src/assets.rs:134 | `split_once` is `None` exactly when the pattern does not occur. Otherwise the text is before + pattern + after, with no earlier occurrence. |
| Text.SplitOnceAtFirst | src/assets.rs:134 | Cutting at the first occurrence is the only cut `split_once` makes. |
| Text.PrefixHasNoOccurrence | src/assets.rs:187 | The text before the first occurrence does not contain the pattern. |
| Text.Split | src/assets.rs:169 | `split(',')` gives at least one field, and no field contains the separator. |
| Text.JoinSplit | src/assets.rs:169 | Joining the fields of a split with the separator gives the text back. |
| Text.SplitJoin | src/assets.rs:169 | Splitting separator-free fields joined with the separator gives the fields back. |
| Text.LeadingWhitespaceIsWhitespace | src/assets.rs:173 | The leading run that `trim` drops is whitespace and stops at the first character that is not. |
| Text.TrailingWhitespaceIsWhitespace | src/assets.rs:173 | The trailing run that `trim` drops is whitespace and stops at the last character that is not. |
| Text.TrimKeepsMiddle | src/assets.rs:173 | `trim` keeps the run right after the leading whitespace, and that run neither starts nor ends with whitespace. |
| Text.TrimDropsWhitespace | src/assets.rs:173 | Everything `trim` drops after the kept run is whitespace. |
| Text.TrimUntrimmed | src/assets.rs:173 | Text that neither starts nor ends with whitespace trims to itself. |
| Text.ParseI16 | src/assets.rs:174 | A parsed value lies in the `i16` range. |
| Text.ParseShowInt | src/assets.rs:174 | Parsing the decimal text of an `i16` value gives the value back. |
| Physics.CeilG | src/player.rs:53-55 | `ceil_g` rounds away from zero: the result is at most the argument below zero, and at least the argument otherwise. `Physics.RoundingBounds` adds that it moves by less than one and keeps the sign. |
| Physics.Ceil | src/player.rs:54 | `ceil` is the least integer not below its argument. |
| Physics.RoundingBounds | src/player.rs:53-55 | `ceil_g` moves away from zero by less than one and keeps the sign. `trunc` moves toward zero by less than one and keeps the sign. |
| Physics.RoundIntegral | src/player.rs:53-55 | On an integral value, `ceil_g`, `trunc` and `ceil` are the identity. |
| Physics.GetTile | src/player.rs:56-65 | A nonzero (solid) tile comes only from a listed chunk with the tile's origin. `Physics.GetTileReadsOwner` states which cell is read. |
| Physics.GetTileReadsOwner | src/player.rs:56-65 | `get_tile` is 0 when no listed chunk has the tile's origin. Otherwise it is the cell `LocalIndex(x, y)` of the first chunk with that origin, or 0 when that chunk has no such cell. |
| Physics.Origins | src/player.rs:85-89 | Every probe's chunk origin is among the kept origins, and every kept origin is grid-aligned (a multiple of 16 on both axes). `Physics.WindowKeepsBlocked` relies on the first fact. |
| Physics.WindowSelects | src/player.rs:91-94 | The filtered list holds exactly the chunks whose origin is one of the probe origins. |
| Physics.WindowFindsSameChunk | src/player.rs:85-94 | For a kept origin, the filtered list finds the very chunk the whole layer finds. |
| Physics.WindowKeepsTiles | src/player.rs:85-97 | Looking a probed tile up in the filtered list gives the same tile as the whole collision layer. |
| Physics.WindowKeepsBlocked | src/player.rs:116-128 | The filter does not change whether some probe is solid. |
| Physics.BlockedFromIsSomeSolidProbe | src/player.rs:96-107 | The probing loop from probe `i` on finds a solid tile exactly when one of those probes is solid. |
| Physics.BlockedIsSomeSolidProbe | src/player.rs:127-138 | A pass is blocked exactly when one of its four probes is solid. |
| Physics.YProbes | src/player.rs:78-83 | The Y pass probes four tiles, in the source's order. `Physics.YProbesSurround` places them. |
| Physics.YProbesSurround | src/player.rs:75-83 | Every Y probe lies within one tile of the old X and of the tentative Y. Its columns are X truncated and X rounded away from zero. Its rows are the tentative Y rounded away from zero and truncated. |
| Physics.XProbes | src/player.rs:109-114 | The X pass probes four tiles, in the source's order. `Physics.XProbesSurround` places them. |
| Physics.XProbesSurround | src/player.rs:109-114 | Every X probe lies within one tile of the position left by the Y pass, with the same truncated and rounded columns and rows. |
| Physics.Snap | src/player.rs:99-103 | A blocked coordinate moves back (at or below the old value) when moving toward negative values, and forward (at or above it) otherwise. `Physics.SnapBounds` adds that it lands on the grid within one tile. |
| Physics.SnapBounds | src/player.rs:99-103 | A snapped coordinate is a multiple of 16. Moving toward negative values, it is at most one tile behind the old position. Otherwise it is at most one tile ahead. |
| Physics.ResolveY | src/player.rs:73-108 | The Y pass never changes X or the horizontal velocity. The vertical velocity keeps its value or becomes 0. |
| Physics.ResolveX | src/player.rs:109-139 | The X pass never changes Y or the vertical velocity. The horizontal velocity keeps its value or becomes 0. |
| Physics.Resolve | src/player.rs:67-140 | Each velocity component keeps its value or becomes 0. |
| Physics.StoppedAxisSnaps | src/player.rs:96-139 | An axis whose nonzero velocity was stopped ends on the grid, at the snap of the old coordinate in the direction of motion. |
| Physics.FreeMotion | src/player.rs:73-108 | With no solid Y probe, Y ends at `pos.y + v.y*dt` and the vertical velocity is kept. With no solid probe on either pass, the body ends at `pos + v*dt` with its velocity. |
| Physics.RestOnGridStays | src/player.rs:67-140 | A body at rest on a grid corner stays there, whatever the tiles. |
| Physics.RestOffGridCanMove | src/player.rs:78-108 | A body at rest at (0, 8), over a chunk at the origin whose cell (0, 1) is solid, ends at y = 16. |
| Physics.UpdatePhysicsBody | src/player.rs:67-140 | The two probing loops with `break`, over the chunk pre-filter, produce exactly `Resolve`'s new position and velocity. |

Behaviour worth knowing, which the lemmas above make precise:

- **A resting body can be pushed.** A resolver call with zero velocity can still move the body. With velocity 0 the snap direction is "not negative", so a body off the grid whose probes touch a solid tile moves to the next grid line (`Physics.RestOffGridCanMove`). A body at rest on a grid corner stays put, whatever the tiles (`Physics.RestOnGridStays`).
- **Bounds and sentinels.** When no chunk lies beyond a sentinel, the bound keeps the sentinel value, not a chunk coordinate. For example, with every chunk at x >= 1000, `xMin` stays 999 (`Worlds.BoundsAttained`).
- **`get_layer` matches any `name` attribute by prefix.** The key ` name="<layer>` names no element and has no closing quote. It therefore matches the `name` attribute of any element whose name merely starts with the requested name: a layer, an object group, an image layer or a `<property>`. The text after the first such match in document order is what gets read.
- **Probe order.** A pass snaps to the same value whichever probe is solid. So the resolver's specification asks only whether some probe is solid. The method keeps the source's first-hit `break`, and `Physics.BlockedFromIsSomeSolidProbe` connects the two.

## Left out

- Rendering and assets are not part of this model: `Chunk::draw`, `Spritesheet`, `load_ase_texture`, `src/graphics.rs`, `src/ui.rs` and the camera and draw loop. They are calls into graphics libraries.
- `include_str!` and `include_bytes!` are not modelled: the map document is a parameter of `MapParser.LoadWorld`.
- `Player::update` and `Player::draw` are not modelled: input polling, friction, `clamp_length_max` and `lerp` are float and input glue.
- The pathfinder and dynamic tile entities are not modelled: no implementation of them appears in the repository's code.
- Positions and velocities are exact reals and tile coordinates are unbounded integers. IEEE `f32` rounding, `as i16` saturating casts and `i16` overflow in coordinate arithmetic are not modelled.
- Tile ids and chunk origins are read through the `i16` range check of `Text.ParseI16`, which accepts an optional `+` or `-` and decimal digits only.
- `Worlds.World.GetInteractableSpawn`: returns the pixel position as integers. The source's `f32` values are those integers exactly.
- A panic (`unwrap` on a missing piece or a malformed number) is modelled as `None`, or as `found == false` in `Worlds.World.SetCollisionTile`, which then changes nothing.
- Panics in `World::default` are not ordered: the source reads the layers in a different order from the one in which it cuts them into chunks. Only whether some panic happens is modelled.
- `MapParser.ReadTiles`, `MapParser.LoadLayer` and `Worlds.World.WidenOver` are named pieces of the source's own loops (`parse_chunk`'s tile loop, one layer of `World::default`, the inner bounds loop). They have their own contracts.
- `Physics.UpdatePhysicsBody`: returns the new velocity instead of writing it through `&mut Vec2`.
- Whitespace for `trim` is the Unicode White_Space set, written out character by character. No other Unicode handling is involved.

## Findings

| source | as written | input that shows it | evidently intended | confidence | as-written member | corrected member |
|---|---|---|---|---|---|---|
| src/assets.rs:107-111 | `tile_at` rejects only `x > 16`, so column 16 passes and indexes `16 + 16*y`, the first cell of the next row | `tile_at(16, 0)` on a full chunk returns `Some(tiles[16])`, the tile at (0, 1) | reject `x >= 16`, since a row has 16 columns | not executed | Chunks.TileAtAsWrittenAliases | Chunks.Chunk.TileAt |

`get_tile` only asks for columns 0..15, where the two guards agree (`Chunks.TileAtAgreesInsideChunk`). The resolver is therefore not affected, and it is modelled with the corrected lookup.
