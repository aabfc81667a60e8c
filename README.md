# Super Mario world core in Dafny

This project models two parts of a libGDX Super Mario clone and proves properties of them.

**The player's sprite selector** (`MarioAnimation.java`) is pure. Given a player state and a size level, it names one of twelve pre-built animation handles and the scaled size of that handle's first frame. `getAnimation` is a `switch` with no `break`s. The model runs it arm by arm: an arm that returns nothing falls into the next one. It then proves that this run gives a plain table. `getDimensions` ends every arm with `break`, and the model follows that too.

**The world** (`World.java`) is imperative. It is modelled as a class `World`. Its fields are:
- the enemy list, the mushroom list and the stage, each a `seq`;
- the object and hidden-item layers of the current map;
- the removal queue;
- the three end-of-level flags.

Tile layers are `array2<Cell>`, where a cell is an optional tile holding a property map. The passes that build a level rewrite the wall layers in place:
- the animation pass;
- the tileset pass, with its per-call cache of looked-up regions;
- the brick pass, with the items hidden in bricks.

The enemy pass and the brick pass then fill the stage. The per-frame sweep takes dead enemies and queued actors off the stage. The end-of-level check is a small state machine over `level_ended`, `reset_flag` and `playing_finish_song`. It is modelled twice:
- as the method `World.EndLevel`;
- as the step function `LevelEnd.EndLevelStep`.

The method is proved equal to the function. The function's consequences over any sequence of frames are proved as lemmas: the flag is captured at most once, the finish song is started at most once, and the level goes quiet after its end-of-level reset.

Every method is proved against value functions:
- `AnimateCell`, `RetextureCell`, `ClearActorCell` and `LoadCell` for cells;
- `ItemsFor` for the items of a brick;
- `CellSpawns`, `ColumnSpawns` and `GridSpawns` for what the brick pass adds to the stage, and `GridMushrooms` for the mushrooms it records;
- `GoombaSpawns` for where enemies appear;
- `TileRects` for the solid-tile query;
- `RemoveValue` and `RemoveAll` for libGDX's `Array.removeValue(value, true)`.

Lemmas about those functions state what the code promises. For example:
- every brick of the layer comes from exactly one Brick or Bonus tile;
- the items of a brick are exactly the hidden objects of its cell;
- the recorded mushrooms are exactly the item entries on the stage;
- the tile rectangles are in row-major order;
- only dead enemies leave the enemy list and the stage.

Modules: `Wrappers` (Option), `MarioAnimation`, `LevelEnd`, `ActorArrays` (removal on sequences), `Entities` (enemies, bricks, mushrooms, stage entries), `MapScan` (map data as values and the scans' specifications), and `GameWorld` (the `World` class).

Two behaviours of the code differ from what a reader might expect. The model follows the code:
- A reset might be expected to rebuild the whole world, including the "level ended" boolean. `reset()` (`World.java:123-179`) never clears `level_ended`. So after a completed level has been reset, the flag can never be captured again, and the end-of-level check stays inert (`LevelEnd.InertAfterLevelReset`).
- The finish song might be expected to start exactly once. The code starts it only when no song is playing (`World.java:357`), so the model proves "at most once".

## Model

| member | source | states |
|---|---|---|
| MarioAnimation.HandlesDistinct | src/core/src/nl/arjanfrans/mario/graphics/MarioAnimation.java:32-67 | the constructor builds twelve pairwise different handles (region names, frame durations and play modes); the small pose uses the small jump regions |
| MarioAnimation.GetAnimation | src/core/src/nl/arjanfrans/mario/graphics/MarioAnimation.java:74-116 | the selector never returns the big crouch handle, although it is built |
| MarioAnimation.RunFromOutsideLevels | src/core/src/nl/arjanfrans/mario/graphics/MarioAnimation.java:76-114 | for a level other than 1 and 2, execution from any arm up to `case Dying` ends in the dying handle, and from the pose arm on in `default`'s standing handle |
| MarioAnimation.AnimationTable | src/core/src/nl/arjanfrans/mario/graphics/MarioAnimation.java:74-116 | the switch with fall-through computes exactly the table: small forms for level 1, big forms for level 2, otherwise standing for Pose and dying for every other state |
| MarioAnimation.SizedSelection | src/core/src/nl/arjanfrans/mario/graphics/MarioAnimation.java:76-112 | levels 1 and 2 pick the small and big handle of each state, and these differ for every state but Dying |
| MarioAnimation.DyingIgnoresLevel | src/core/src/nl/arjanfrans/mario/graphics/MarioAnimation.java:104-105 | Dying yields the dying handle at every level |
| MarioAnimation.FallThrough | src/core/src/nl/arjanfrans/mario/graphics/MarioAnimation.java:76-114 | outside levels 1 and 2, Walking, Standing, Jumping and FlagSlide fall through to `case Dying`, and Pose falls through to `default` |
| MarioAnimation.ElevenHandlesReachable | src/core/src/nl/arjanfrans/mario/graphics/MarioAnimation.java:74-116 | every handle other than the big crouch is returned for some state and level |
| MarioAnimation.DimensionsMatchAnimation | src/core/src/nl/arjanfrans/mario/graphics/MarioAnimation.java:123-178 | for levels 1 and 2 the size is the scaled first-frame size of the handle the selector draws |
| MarioAnimation.DimensionsFallback | src/core/src/nl/arjanfrans/mario/graphics/MarioAnimation.java:123-191 | for any other level every arm reaches its `break` and the dying size is returned; this matches the drawn handle for every state except Pose |
| MarioAnimation.SmallPoseSizedAsJump | src/core/src/nl/arjanfrans/mario/graphics/MarioAnimation.java:156-160 | at level 1 the pose is sized like the jump, since both use the small jump art |
| MarioAnimation.DimensionsPositive | src/core/src/nl/arjanfrans/mario/graphics/MarioAnimation.java:123-191 | with a positive scale and non-empty atlas regions every size is positive |
| MarioAnimation.GetFrameWidth | src/core/src/nl/arjanfrans/mario/graphics/MarioAnimation.java:199-204 | the width is the level-1 walking width for level 1 and the level-2 walking width for every other level; the argument is ignored |
| MarioAnimation.GetFrameHeight | src/core/src/nl/arjanfrans/mario/graphics/MarioAnimation.java:211-216 | the same choice for the height |
| MarioAnimation.FrameSizeOutsideLevels | src/core/src/nl/arjanfrans/mario/graphics/MarioAnimation.java:199-216 | outside levels 1 and 2 the frame size is the big walking size, while getDimensions gives the dying size for the same walking state |
| LevelEnd.EndLevelStep | src/core/src/nl/arjanfrans/mario/model/World.java:349-364 | capture fires exactly when the level has not ended and the player overlaps the flag, and it then sets both flags; the finish song starts exactly when reset is requested, it is not already playing and no song is playing; a song is stopped exactly when reset is requested and the current song is not the finish song; a reset happens exactly when reset is requested and no song is playing afterwards, and while the request is being served it stays set exactly as long as a song is still playing; with no request and no capture nothing happens |
| LevelEnd.UpdateStep | src/core/src/nl/arjanfrans/mario/model/World.java:183-214 | an update is the end-of-level check followed by a reset when the player is dead, which clears the reset request |
| LevelEnd.UpdateConsistent | src/core/src/nl/arjanfrans/mario/model/World.java:349-364 | updates keep "reset requested or finish song playing only after the level ended" |
| LevelEnd.LevelEndedStays | src/core/src/nl/arjanfrans/mario/model/World.java:349-354 | once ended, the level stays ended through any updates and resets, and the flag is never captured again |
| LevelEnd.CaptureAtMostOnce | src/core/src/nl/arjanfrans/mario/model/World.java:349-354 | across any run of updates the flag is captured at most once, and never if the level has already ended |
| LevelEnd.FinishSongAtMostOnce | src/core/src/nl/arjanfrans/mario/model/World.java:355-360 | across any run of updates the finish song is started at most once, and once started it stays marked as playing |
| LevelEnd.InertAfterLevelReset | src/core/src/nl/arjanfrans/mario/model/World.java:355-363 | after the level has ended and its reset request has been served, the flags never change again and the only events are resets for a dead player |
| LevelEnd.LevelResetIsFinal | src/core/src/nl/arjanfrans/mario/model/World.java:362 | the end-of-level check's own reset leads to that inert state |
| ActorArrays.RemoveValue | src/core/src/nl/arjanfrans/mario/model/World.java:118 | removing an absent value changes nothing, and removing a present one shortens the sequence by one |
| ActorArrays.RemoveValueMultiset | src/core/src/nl/arjanfrans/mario/model/World.java:118 | removal takes away exactly one copy of the value, if there is one |
| ActorArrays.RemoveValueSplit | src/core/src/nl/arjanfrans/mario/model/World.java:118 | it is the first occurrence that goes, and everything else keeps its order |
| ActorArrays.RemoveAllMultiset | src/core/src/nl/arjanfrans/mario/model/World.java:201-204 | removing a list of values one by one takes away one copy of each |
| ActorArrays.RemoveAllDistinct | src/core/src/nl/arjanfrans/mario/model/World.java:195-197 | in a sequence without repeats, removing values one by one is filtering them all out |
| ActorArrays.RemoveKept | src/core/src/nl/arjanfrans/mario/model/World.java:195-197 | removing the dead enemies one by one from a list without repeats leaves exactly the live ones, in order and without repeats |
| Entities.MushroomsOfItems | src/core/src/nl/arjanfrans/mario/model/World.java:296-303 | the mushroom entries a brick puts on the stage are the brick's mushrooms, in the same order |
| Entities.GoombaActorsCount | src/core/src/nl/arjanfrans/mario/model/World.java:106-107 | a list of enemies puts one stage entry on the stage per occurrence of each enemy |
| MapScan.Trunc | src/core/src/nl/arjanfrans/mario/model/World.java:293-294 | the float-to-int cast truncates toward zero |
| MapScan.AnimateCell | src/core/src/nl/arjanfrans/mario/model/World.java:328-341 | only a tile with `animation` changes; it keeps every old property and becomes an animated tile over that frame set, at interval 0.15 unless it has `speed` |
| MapScan.AnimateCellIdempotent | src/core/src/nl/arjanfrans/mario/model/World.java:325-345 | animating an animated cell again builds the same tile |
| MapScan.RetextureCellFacts | src/core/src/nl/arjanfrans/mario/model/World.java:423-438 | retexturing keeps properties and animation, leaves a tile without `texture` alone, and binds a `texture` tile to the region looked up for its name |
| MapScan.RetextureCellIdempotent | src/core/src/nl/arjanfrans/mario/model/World.java:419-442 | binding the regions twice binds the same regions |
| MapScan.LoadCellShape | src/core/src/nl/arjanfrans/mario/model/World.java:127-130 | loading a cell keeps whether it holds a tile and the tile's properties |
| MapScan.LoadedSameShape | src/core/src/nl/arjanfrans/mario/model/World.java:127-130 | a loaded layer has the shape of the layer it was loaded from |
| MapScan.ClearActorCell | src/core/src/nl/arjanfrans/mario/model/World.java:247-276 | a tile with `actor` is removed and every other cell is kept, so no tile with `actor` remains |
| MapScan.CellObjectsExact | src/core/src/nl/arjanfrans/mario/model/World.java:291-295 | a cell's objects are exactly the hidden objects whose truncated 1/16-scaled position is that cell |
| MapScan.ItemsMatchCellObjects | src/core/src/nl/arjanfrans/mario/model/World.java:291-304 | a brick gets one item per hidden object of its cell, in object order: the i-th item comes from the i-th object |
| MapScan.MushroomsOfCell | src/core/src/nl/arjanfrans/mario/model/World.java:296-301 | a brick's mushrooms are super mushrooms at its cell, and there is one exactly when a hidden object of that cell has type `super_mushroom` |
| MapScan.CellSpawnsBrick | src/core/src/nl/arjanfrans/mario/model/World.java:249-262 | a cell spawns a brick exactly when its `actor` is Brick or Bonus; the brick is at that cell, is a bonus block exactly for Bonus, is destructable exactly when `destructable` is "true", has the tile's color and carries its cell's items |
| MapScan.CellSpawnsMushrooms | src/core/src/nl/arjanfrans/mario/model/World.java:296-302 | the mushroom entries one cell puts on the stage are the mushrooms of its brick's items |
| MapScan.ColumnMushroomsSpawned | src/core/src/nl/arjanfrans/mario/model/World.java:245-277 | the mushrooms recorded for a column are exactly the mushroom entries the column adds to the stage |
| MapScan.GridMushroomsSpawned | src/core/src/nl/arjanfrans/mario/model/World.java:243-280 | the mushrooms the brick pass records are exactly the mushroom entries it adds to the stage, in order |
| MapScan.GridSpawnsHas | src/core/src/nl/arjanfrans/mario/model/World.java:244-245 | whatever a scanned cell (x, y >= 1) adds is on the stage after the pass |
| MapScan.GridSpawnsSource | src/core/src/nl/arjanfrans/mario/model/World.java:244-245 | everything the pass adds comes from some scanned cell |
| MapScan.GridSpawnsMember | src/core/src/nl/arjanfrans/mario/model/World.java:243-280 | an actor is added by the brick pass exactly when some scanned cell adds it |
| MapScan.LayerBricks | src/core/src/nl/arjanfrans/mario/model/World.java:243-280 | the bricks of the pass over a layer are exactly those built from its Brick and Bonus tiles at x, y >= 1, each with the items of its cell |
| MapScan.GridSpawnsSameShape | src/core/src/nl/arjanfrans/mario/model/World.java:127-144 | the brick pass only reads tile properties, so animating and retexturing the wall layer first changes nothing it adds |
| MapScan.GoombaSpawnsExact | src/core/src/nl/arjanfrans/mario/model/World.java:98-108 | a point is an enemy spawn exactly when an object of type goomba sits there; a map without such objects spawns none |
| MapScan.GoombaIndicesCount | src/core/src/nl/arjanfrans/mario/model/World.java:98-108 | among the first n objects there are as many spawn points as goomba objects |
| MapScan.GoombaSpawnsAmongOrder | src/core/src/nl/arjanfrans/mario/model/World.java:98-108 | the goomba indices of the first n objects are increasing and cover every goomba object, and the k-th spawn point is where the k-th goomba object sits |
| MapScan.GoombaSpawnsOrder | src/core/src/nl/arjanfrans/mario/model/World.java:98-108 | one enemy per goomba object, in object order: the number of spawns equals the number of goomba objects, and spawn k is the scaled position of the k-th goomba object |
| MapScan.RowRectsFacts | src/core/src/nl/arjanfrans/mario/model/World.java:456-465 | a row yields exactly the unit squares of its occupied cells in range, left to right |
| MapScan.TileRectsExact | src/core/src/nl/arjanfrans/mario/model/World.java:454-466 | the query yields exactly the unit squares of the occupied cells of the inclusive range |
| MapScan.TileRectsOrdered | src/core/src/nl/arjanfrans/mario/model/World.java:454-466 | they come in row-major order, so none repeats |
| MapScan.EmptyRangeNoTiles | src/core/src/nl/arjanfrans/mario/model/World.java:454-456 | a range with start after end yields nothing |
| GameWorld.SweepStageCounts | src/core/src/nl/arjanfrans/mario/model/World.java:191-199 | the sweep takes one stage entry off the stage for each dead enemy of a list without repeats, and every other enemy keeps all of its entries |
| GameWorld.World.constructor | src/core/src/nl/arjanfrans/mario/model/World.java:63-87 | a world starts with empty collections and all three flags clear |
| GameWorld.World.AnimateTiles | src/core/src/nl/arjanfrans/mario/model/World.java:325-345 | cells at x, y >= 1 become AnimateCell of what they were; row 0 and column 0 are untouched |
| GameWorld.World.InitTileset | src/core/src/nl/arjanfrans/mario/model/World.java:419-442 | every cell, from index 0, is bound to its region; the names looked up are exactly the layer's texture names, each once |
| GameWorld.World.InitTilesetColumn | src/core/src/nl/arjanfrans/mario/model/World.java:422-440 | one column of that pass: its cells are bound to their regions; the cache keeps mapping each looked-up name to its region; the names looked up grow by exactly the column's texture names, with no name looked up twice |
| GameWorld.World.ItemsInBrick | src/core/src/nl/arjanfrans/mario/model/World.java:288-306 | returns the items of the cell and appends their entries to the stage and their mushrooms to the mushroom list |
| GameWorld.World.GenerateBricks | src/core/src/nl/arjanfrans/mario/model/World.java:243-280 | every cell at x, y >= 1 becomes ClearActorCell of what it was; the stage gains GridSpawns and the mushroom list gains GridMushrooms |
| GameWorld.World.GenerateBricksColumn | src/core/src/nl/arjanfrans/mario/model/World.java:245-277 | the same for one column |
| GameWorld.World.GenerateBrickAt | src/core/src/nl/arjanfrans/mario/model/World.java:246-276 | one cell adds its items and then its brick, or a null, or nothing |
| GameWorld.World.GenerateEnemies | src/core/src/nl/arjanfrans/mario/model/World.java:93-112 | one new enemy per goomba spawn, in object order, at the scaled position, neither moving nor dead, all different, and each put on the stage |
| GameWorld.World.GetTiles | src/core/src/nl/arjanfrans/mario/model/World.java:448-468 | the result is TileRects of the layer over the inclusive range |
| GameWorld.World.RemoveActor | src/core/src/nl/arjanfrans/mario/model/World.java:117-119 | the stage loses the first occurrence of the actor |
| GameWorld.World.SweepEnemies | src/core/src/nl/arjanfrans/mario/model/World.java:191-199 | enemies on screen start moving and nothing else about them changes; the dead ones leave the enemy list and the stage, in list order |
| GameWorld.World.StartOnScreen | src/core/src/nl/arjanfrans/mario/model/World.java:191-194 | the enemies on screen become moving, and every other enemy, and every position and death, stays as it was |
| GameWorld.World.RemoveDead | src/core/src/nl/arjanfrans/mario/model/World.java:195-198 | each dead enemy leaves the enemy list and the stage |
| GameWorld.World.DrainRemovalQueue | src/core/src/nl/arjanfrans/mario/model/World.java:201-204 | each queued actor leaves the stage, and the queue ends empty |
| GameWorld.World.EndLevel | src/core/src/nl/arjanfrans/mario/model/World.java:349-364 | new flags and events are those of EndLevelStep on the old flags |
| GameWorld.World.Reset | src/core/src/nl/arjanfrans/mario/model/World.java:123-179 | clears the reset request; loads both wall layers, then clears the actor tiles of the walls; the enemies are fresh, one per goomba spawn; the stage is the enemies, then the brick pass's additions, then flag, player and HUD; the mushrooms are those of the bricks |
| GameWorld.World.Populate | src/core/src/nl/arjanfrans/mario/model/World.java:141-175 | fills a new stage in that order from the loaded layer |
| GameWorld.World.LoadLayers | src/core/src/nl/arjanfrans/mario/model/World.java:127-130 | the background layer and then the wall layer are animated and retextured |
| GameWorld.World.LoadLayer | src/core/src/nl/arjanfrans/mario/model/World.java:127-128 | every cell becomes LoadCell of what it was, and the layer keeps its shape |

## Left out

- Map loading (TMX), texture atlases, `Tiles.getTile` and `Tiles.getAnimatedTile` are engine calls. Tiles are property maps. Regions, animations and frame sets are opaque values. The region lookup is a function parameter `getTile`, and `Float.parseFloat` is a parameter `parseFloat`; the NumberFormatException it can throw is not modelled.
- Audio is not modelled as sound. What `endLevel` asks the audio system arrives as booleans in a `Frame`. What it tells it leaves as events. `isPlaying` is asked twice (lines 357 and 362), and the model takes both answers, since starting the finish song changes the second one.
- The `reset()` call inside `endLevel` is the event `ResetLevel` plus the clearing of `reset_flag`. How `update` composes `endLevel`, the sweep, the removal queue and a reset for a dead player is written out only as `LevelEnd.UpdateStep` over the flags. The stage effects of those calls are stated method by method.
- The constructor `World()` calls `reset()`. `GameWorld.World.constructor` is the state before that first reset, and a full construction is the constructor followed by `Reset`.
- The player, the flag and its `generateFlag` marker lookup, the coin counter, the HUD tables and their labels, `WorldRenderer`, the camera, `stage.act`, `render`, `rectPool`, `dispose` and the getters (`getEnemies`, `getMushrooms`, `getStaticActors`, `getMap`, `getPlayer`, `getRenderer`, `getStage`) are rendering, UI or resource management. The flag, player and HUD appear on the stage only as four opaque entries.
- The player spawn position (lines 134-137) is left out, and so is the fact that a missing map object (the player, the flag, the background song) aborts loading.
- The camera overlap test of the sweep is a given set of on-screen enemies.
- Floats are reals. Positions are scaled by exactly 1/16, and the cast in `itemsInBrick` truncates toward zero. IEEE rounding and 32-bit integer overflow of cell indices are not modelled.
- libGDX `Array` iteration while removing is modelled as iterating a snapshot of the list. The effects of the engine's iterator when the list shrinks under it are not modelled.
- `GameWorld.World.SweepEnemies`: the source starts an enemy moving and removes it if dead in one loop. The model does this as two passes over the same list, which end in the same state, because starting an enemy does not change whether it is dead.
- `GameWorld.World.GenerateBricksColumn` empties a cell right after calling the per-cell step, as the source does at line 274. `GenerateBrickAt` only computes the stage entries.
- `GameWorld.World.ItemsInBrick` collects its entries and mushrooms in locals and appends them to the stage and the mushroom list after the loop. In the source they are appended one by one. Nothing else runs in between, so the final state is the same.
- `GameWorld.World.ItemsInBrick` requires every hidden object in the brick's cell to have a `type`. The source dereferences a missing `type` as null and throws. An object without `x` or `y` cannot be expressed in the model.
- `GameWorld.World.InitTileset`: the tileset pass mutates the texture region object shared by every cell that holds the same tile. The model instead gives each cell's tile its region. Aliasing between cells that share a tile object is not modelled.
- The brick pass (`GenerateBricks`) and `Populate` take the grid they scan as a ghost parameter. Their results are stated over the layer's contents before the pass.
- For a non-brick `actor` tile and for an item whose type is not `super_mushroom`, the source passes null to `addActor` (`World.java:251`, `275`, `297`, `302`). The model assumes the engine accepts null and records it as a `NoActor` stage entry. If the engine throws on a null actor, level loading aborts at that tile or item, and the model does not capture that.
- Bricks and mushrooms are values, so removing one from the stage removes the first structurally equal entry. Enemies are objects and are compared by identity, as `removeValue(e, true)` does.
- `GameWorld.World.Reset`: the fields it does not assign (the end-of-level flags other than `reset_flag`, and the removal queue) are kept unchanged by its `modifies` clause, not by an `ensures`.
- `GameWorld.World.Reset` and `GameWorld.World.Populate` state the mushroom list as `GridMushrooms`. `MapScan.GridMushroomsSpawned` proves that this is exactly the mushroom entries the brick pass puts on the stage.
- `reset_flag` and `objectsToRemove` are static in the source and fields of `World` here. Only one world exists at a time.
- `LevelEnd.InertAfterLevelReset`: `reset_flag` is public (`World.java:62-63`), but only writes by `World` itself are modelled. The lemma, and `LevelEnd.LevelResetIsFinal`, hold only if no code outside `World` sets the flag.
- `LevelEnd.UpdateConsistent`: "reset requested only after the level ended" likewise holds only if no code outside `World` sets `reset_flag`.
- `getDimensions`' `default` arm cannot be reached with the six player states and is not modelled.
- `MovingActor.State` is not part of this model. The six states are the ones the two switches name.
