# ROTCS core in Dafny

ROTCS is a real-time, many-player roguelike. The Go server simulates an unbounded tile world. The world is cut into 79 x 25 cells. Each live cell is owned by a shard (`SubGrid`) that holds the entities standing in it. The browser client keeps a scrolling 79 x 25 view of the map around the player.

This project models the parts of that system that are pure data and logic:

- **Coordinates** (`coord.dfy`, `util.dfy`, `visible.dfy`; module `Coords`, `Util`, `Visible`).
  - Global `Coord` values are Go `int64` pairs. Their `+`/`-` wrap-around is written out (`Util.Wrap`).
  - `loc2grid` floor division, local offsets, unit moves and their inverse, the four neighbours, the 3 x 3 `Expansion`.
  - `VisibleGrids` de-duplication, `InRange`, the base-91 runes of `WriteDisplay`, `manhattanDist` and the two `Less` orders.
- **Shards and the world** (`shard.dfy`, `world.dfy`, `deaths.dfy`, `population.dfy`; modules `Shard`, `Worlds`, `Deaths`, `Population`).
  - The shard's two-way index `Grid: Coord -> id` / `Entities: id -> Entity` with its exact `PlayerCount`.
  - The world's index `entityGrid: id -> GridCoord`.
  - Every index operation of shard and world.
  - The six-way move resolution of `ExecuteMove`, on a shard and on the world.
  - `discardEmpty` and `prepopCullGrids`.
  - Entities are abstract: id, coordinate, player flag, walkable flag. `CanSwapWith`, the dungeon's walkability and an entity's death spawn are function parameters.
- **A\* search** (`astar.dfy`, module `AStar`).
  - `astarSearch` with its priority queue as a sequence of (coord, priority) nodes.
  - `lowestOpenFScore`, `setFScore`/`NodeFPQ.update` and `reconstructPath`.
- **Dungeon generator** (`dungeon.dfy`, `carve.dfy`, `generate.dfy`; modules `Dungeon`, `Carve`, `Generate`).
  - The flat tile slice with `setCell`/`getCell`/`isWalkable`/`getRand`.
  - `makeCorridor`, `makeRoom` and `createDungeon`, with the code's own quirks kept:
    - bounds tests against `> xsize`/`> ysize`, so column `xsize` aliases column 0 of the next row;
    - the west corridor tests `ytemp` before it is set;
    - the north room paints inside its checking loop. The generator builds its rooms with `Carve.MakeRoom` as written. The corrected room, `Carve.MakeRoomIntended`, stands apart (see Findings);
    - the probe of `newx +- 1`/`newy +- 1`.
- **Client view** (`display.dfy`, module `Display`).
  - The toroidal draw buffer `bufferCell_`/`setBufferCell_` with `scrollMapX_`/`scrollMapY_`, `scrollTo_` and `setLocationCell_`.
  - The Base64 bit table and `drawBase64Map_`.
  - `base91Table_` and `setEntities_`, which decode what `WriteDisplay` writes.

Conventions used throughout:

- A Go panic, an index out of range and a JavaScript `TypeError` are all `Result.Crash`. `wrappers.dfy` holds `Result` and `Option`.
- Go's `math/rand.Rand` is an explicit stream of integers plus a read position (`random.dfy`). The same stream therefore gives the same dungeon and the same placements.

The source files come from different revisions of the repository. The model follows `coord.go`, `util.go`, `grid.go`, `astar.go`, `dungen.go` and `static/display.js` as written, including these behaviours of the code:

- `dungen.go` keeps no per-edge stitching state.
- `abs` of the most negative `int64` is that number itself.
- `WorldGrid.SwapEntities` of an entity with itself panics.

## Model

| member | source | states |
|---|---|---|
| Util.Abs | util.go:3-9 | above the most negative int64, `abs(n)` is non-negative and is `n` or `-n`; at the most negative value it wraps to itself |
| Random.Intn | dungen.go:47 | a draw lies in [0, n) and consumes exactly one value of the stream |
| Random.IntnReachesAll | dungen.go:47 | every value of [0, n) is a possible draw |
| Coords.GoDiv | coord.go:185-187 | Go's `/` by a positive divisor truncates toward zero: the quotient has the dividend's sign and is no larger in magnitude |
| Coords.Loc2GridIsFloor | coord.go:183-189 | `loc2grid` is floor division for every `d` whose `d - (dimSize - 1)` does not wrap: `g * dim <= d < g * dim + dim`, so -1 falls in cell -1 |
| Coords.GridOfNotNull | coord.go:19-26 | no coordinate belongs to the sentinel cell `NullGCoord` |
| Coords.ViewCorner | coord.go:67-69 | the view corner lies 39 columns and 12 rows before the coordinate |
| Coords.InShyBounds | coord.go:152-155 | `inShyBounds` holds exactly for local offsets inside the cell and off its one-tile border |
| Coords.LCoordInBounds | coord.go:28-34 | every coordinate whose cell computation does not wrap has an `LCoord` that satisfies `inBounds` |
| Coords.CornerPlusLocal | coord.go:118-120 | for a coordinate whose cell computation does not wrap, the cell's `Corner` plus the `LCoord` gives back the coordinate |
| Coords.GridOfCornerOffset | coord.go:21-26 | for a cell whose tiles all have int64 coordinates, a local offset inside the cell added to the corner lands in that cell |
| Coords.MovedBy | coord.go:36-51 | 'n', 's', 'w' and 'e' move to one of the four neighbours; every other rune leaves the coordinate alone |
| Coords.AsMoveTo | coord.go:53-65 | the answer is '0' exactly when the target is not one of the four neighbours, and otherwise is the rune whose move reaches the target |
| Coords.NeighborsDistinct | coord.go:71-78 | the four neighbours are pairwise distinct and differ from the centre, even where int64 wraps |
| Coords.MoveRoundTrip | coord.go:36-65 | `AsMoveTo(MovedBy(c, m)) == m` for the four direction runes |
| Coords.ExpansionCellsDistinct | coord.go:125-129 | the nine cells of the expansion are pairwise distinct |
| Coords.ExpansionCellsCover | coord.go:125-129 | every cell within one step on both axes is one of the nine, at the position its offsets give |
| Coords.Expansion | coord.go:122-131 | nine cells, row by row from the north-west, the centre in the middle, pairwise distinct, exactly the cells within one step |
| Coords.ExpansionListed | coord.go:122-131 | any list of the nine expansion cells in loop order holds the centre at index 4, no repeats, and exactly the 3 x 3 neighbourhood |
| Coords.AbsWrapAntisymmetric | util.go:3-9 | `abs(a - b) == abs(b - a)` in int64, wrap-around included |
| Coords.InRangeSymmetric | coord.go:108-111 | `InRange` is symmetric |
| Coords.InRangeWritesViewport | coord.go:101-106 | for an entity in range of the player (no difference being the most negative int64), both `WriteDisplay` offsets index `Base91Table` inside the 79 x 25 view, and the two runes are the table entries at those offsets |
| Coords.Base91InBounds | coord.go:104-105 | offsets inside the view are written as the table runes at those offsets |
| Coords.ManhattanSymmetric | util.go:11-13 | `manhattanDist(a, b) == manhattanDist(b, a)` |
| Coords.ManhattanZero | util.go:11-13 | the distance is zero exactly for equal coordinates, apart from the wrap-around case where both differences are the most negative int64 |
| Coords.ManhattanNeighbors | coord.go:71-78 | each of the four neighbours is at distance 1 |
| Coords.LessIsStrictTotalOrder | coord.go:157-181 | both `Less` functions are irreflexive, transitive and total on distinct values |
| Coords.Loc2Grid | coord.go:183-189 | `loc2grid`, with Go's truncating division and the int64 wrap of `d - (dimSize - 1)`; `Coords.Loc2GridIsFloor` states that it is floor division for every value but the `dimSize - 1` most negative int64 values |
| Coords.GridOf | coord.go:21-26 | `Coord.Grid`, the cell of a coordinate; `Coords.GridOfNotNull` and `Coords.GridOfCornerOffset` state its properties |
| Coords.GridCorner | coord.go:118-120 | `GridCoord.Corner`, the cell's north-west coordinate; `Coords.CornerPlusLocal` states that corner plus local offset gives back the coordinate |
| Coords.LCoordOf | coord.go:28-34 | `Coord.LCoord`, the offset of a coordinate inside its cell; `Coords.LCoordInBounds` states that it lies inside the cell |
| Coords.InBounds | coord.go:147-150 | `LCoord.inBounds`; `Coords.LCoordInBounds` states that every local offset satisfies it |
| Coords.Neighbors4 | coord.go:71-78 | `neighbors4`; `Coords.NeighborsDistinct` and `Coords.ManhattanNeighbors` state that the four are distinct and at distance one |
| Coords.InRange | coord.go:108-111 | `Coord.InRange`; `Coords.InRangeSymmetric` and `Coords.InRangeWritesViewport` state its properties |
| Coords.WriteDisplay | coord.go:101-106 | `Coord.WriteDisplay`, which panics when an offset falls outside the Base91 table; `Coords.InRangeWritesViewport` and `Coords.Base91InBounds` state when it succeeds |
| Coords.ManhattanDist | util.go:11-13 | `manhattanDist`; `Coords.ManhattanSymmetric`, `Coords.ManhattanZero` and `Coords.ManhattanNeighbors` state its properties |
| Coords.LCoordLess | coord.go:162-165 | `SortableLCoords.Less`; `Coords.LessIsStrictTotalOrder` states that it is a strict total order |
| Coords.GCoordLess | coord.go:175-178 | `SortableGCoords.Less`; `Coords.LessIsStrictTotalOrder` states that it is a strict total order |
| Visible.NullIsTop | coord.go:19 | the sentinel `NullGCoord` sorts after every cell |
| Visible.SortGrids | coord.go:84 | `sort.Sort` yields a sorted permutation of its input |
| Visible.Real | coord.go:95-96 | the entries kept are those other than the sentinel, each with its original multiplicity |
| Visible.SortedRealPrefix | coord.go:95-96 | after the second sort the real cells are exactly the first `count` entries |
| Visible.MarkDuplicates | coord.go:85-94 | each entry equal to the last one kept becomes the sentinel, and `count` is the number of real entries left |
| Visible.DedupDistinct | coord.go:86-94 | after the pass over a sorted list no real cell occurs twice |
| Visible.DedupKeeps | coord.go:86-94 | every real cell of the input survives the pass |
| Visible.DedupResult | coord.go:84-96 | the cells returned are strictly sorted and are exactly the cells of the four corners |
| Visible.CornersNotNull | coord.go:81-83 | no corner's cell is the sentinel |
| Visible.VisibleGrids | coord.go:80-97 | one to four cells, strictly sorted by (x, y), exactly the cells of the four corner points |
| Visible.CornerGrids | coord.go:81-83 | the cells of the four corners of the view; `Visible.CornersNotNull` states that none is the null cell |
| Shard.NewSubGrid | grid.go:83-94 | a new shard belongs to the given cell, takes no tile and holds no entity, no player, no queued move and no dead; it satisfies the index invariant |
| Shard.PassableAt | grid.go:179-181 | under the invariant, a tile is passable exactly when it is walkable and no entity stands on it |
| Shard.DeferMove | grid.go:107-113 | the deferred move joins the end of the queue, earlier requests keep their order, nothing else in the shard changes and the invariant is kept |
| Shard.MarkDead | grid.go:134-136 | the id joins the end of the shard's death list and nothing else changes; marking one of the shard's own entities keeps every listed id one of them |
| Shard.MoveStays | grid.go:140-150 | moving an entity onto its own tile leaves the shard as it is, and under the invariant no other move does |
| Shard.EmptyAt | grid.go:114-117 | under the invariant, a tile is empty exactly when no entity stands on it |
| Shard.EntityAt | grid.go:118-125 | the occupant is found exactly when the tile is taken, and it is the registered entity standing there |
| Shard.EntityByID | grid.go:126-133 | an id is found exactly when it is registered, and the entity found stands where `EntityAt` finds it |
| Shard.RandomCoord | grid.go:151-157 | a random coordinate takes two draws from the stream |
| Shard.RandomCoordInCell | grid.go:151-157 | the random coordinate lies in the shard's own cell |
| Shard.NewEntity | grid.go:159-175 | success happens exactly when the chosen tile was empty, and then the entity is filed on it with the player count raised for a player; failure changes nothing. Between 1 and 101 coordinates are drawn, and the tile is walkable unless all of them were used. When fewer than 101 were drawn, the last tile is passable. For a cell without int64 wrap the tile is in the cell and the invariant holds afterwards. |
| Shard.PutPreservesValid | grid.go:182-193 | placing a new entity on a free tile of the cell keeps the invariant, counts a player, and leaves every other entity alone |
| Shard.RemovePreservesValid | grid.go:194-205 | removing an id keeps the invariant, frees its tile and leaves every other entity alone; an absent id changes nothing |
| Shard.MovePreservesValid | grid.go:140-150 | moving onto a free tile of the cell frees the old tile, maps the new tile to the entity and keeps the invariant and the player count |
| Shard.SwapPreservesValid | grid.go:214-224 | a swap exchanges the two coordinates, keeps each tile pointing at the entity on it, and keeps the invariant |
| Shard.SwapShape | grid.go:214-224 | for two distinct entities the swapped shard is the old one with the two tiles and the two coordinates exchanged |
| Shard.Resolve | grid.go:40-63 | exactly one of the six outcomes happens (defer, swap, replace, collide, move, hit the wall), each under the stated condition |
| Shard.ExecuteMoveValid | grid.go:40-63 | a move never panics and keeps the invariant. Only the deferred branch skips `MoveCommit`, and it only queues the move. A collision or a wall leaves the shard alone. A plain move, or a swap or replace with another entity, puts the mover on the target tile. |
| Shard.OutOfBounds | grid.go:176-178 | `SubGrid.OutOfBounds`, a target outside the shard's cell; `Shard.ExecuteMoveValid` states that a move commits exactly when its target is inside the cell |
| Shard.MoveEntity | grid.go:140-150 | `SubGrid.MoveEntity`; `Shard.MovePreservesValid` and `Shard.MoveStays` state its properties |
| Shard.PutEntityAt | grid.go:182-193 | `SubGrid.PutEntityAt`; `Shard.PutPreservesValid` states its properties |
| Shard.RemoveEntityID | grid.go:194-205 | `SubGrid.RemoveEntityID`; `Shard.RemovePreservesValid` states its properties |
| Shard.ReplaceEntity | grid.go:206-210 | `SubGrid.ReplaceEntity`, a removal then a move to the removed entity's tile; `Shard.ExecuteMoveValid` states its effect in the replacing branch |
| Shard.SwapEntities | grid.go:214-224 | `SubGrid.SwapEntities`; `Shard.SwapPreservesValid` and `Shard.SwapShape` state its properties |
| Shard.Commit | grid.go:62 | the entity's `MoveCommit` after a branch that ran; `Shard.ExecuteMoveValid` states when it runs |
| Shard.ExecuteMove | grid.go:40-63 | `ExecuteMove` on one shard; `Shard.Resolve` and `Shard.ExecuteMoveValid` state its branches and effects |
| Worlds.NewWorld | grid.go:319-330 | the new world satisfies the world invariant |
| Worlds.SubgridAt | grid.go:332-340 | the cell now has a shard, a new one being empty, and nothing else changes |
| Worlds.SubgridAtValid | grid.go:332-340 | creating a shard keeps the world invariant |
| Worlds.EntityAtWFound | grid.go:474-483 | the world finds an occupant exactly where `EmptyAt` says the tile is taken, and it is registered there |
| Worlds.RegisteredOccupies | grid.go:467-473 | a registered entity occupies its own tile, in the cell the index names |
| Worlds.EntityByIDW | grid.go:484-492 | an id is found exactly when it is indexed, and the entity found is registered; the lookup changes nothing |
| Worlds.RemoveWValid | grid.go:559-567 | removing an id keeps the world invariant and drops exactly that id from the index |
| Worlds.RemoveWFrees | grid.go:559-567 | the removed entity's tile is free afterwards |
| Worlds.RemoveWKeeps | grid.go:559-567 | every other entity stays registered where it was |
| Worlds.RemoveWKeepsEmpty | grid.go:559-567 | removing never occupies a tile |
| Worlds.PutWValid | grid.go:546-555 | placing an unindexed entity on a free tile keeps the invariant, indexes it under the tile's cell and puts it on the tile |
| Worlds.PutWCrash | grid.go:546-550 | `PutEntityAt` panics exactly for an id already in the index |
| Worlds.PutWKeepsEmpty | grid.go:546-555 | placing touches no other tile |
| Worlds.PutWKeepsEntity | grid.go:546-555 | placing leaves the occupant of every other tile alone |
| Worlds.PutKeepsEntityAt | grid.go:182-193 | in a shard, placing leaves the occupant of every other tile alone |
| Worlds.MoveAcrossIsRemovePut | grid.go:506-511 | a move across cells is a removal from the old shard followed by a placement |
| Worlds.MoveWValid | grid.go:497-512 | moving a registered entity onto a free tile keeps the invariant, sets `entityGrid[id]` to the target's cell and puts the entity in exactly that shard |
| Worlds.MoveStay | grid.go:497-512 | a move onto the entity's own tile changes nothing |
| Worlds.MoveAcross | grid.go:506-511 | `MoveWValid` for a target in another cell |
| Worlds.MoveWithin | grid.go:504-505 | a move inside one cell is the shard's own move and nothing else |
| Worlds.OneShard | grid.go:310-317 | under the invariant each indexed entity is held by exactly one shard, the one the index names |
| Worlds.MoveWCrash | grid.go:497-501 | `MoveEntity` panics exactly for an entity missing from the index |
| Worlds.DistinctTiles | grid.go:70-81 | two distinct registered entities stand on distinct tiles |
| Worlds.ReplaceWValid | grid.go:568-572 | the replaced entity leaves the index, and the replacement takes its tile and keeps the invariant |
| Worlds.ReplaceSelfCrashes | grid.go:568-572 | replacing an entity by itself panics, because its index entry is already gone |
| Worlds.SwapRemoveBoth | grid.go:574-576 | the first half of a swap removes both entities and frees both tiles |
| Worlds.SwapPutBoth | grid.go:577-578 | the second half puts each entity on the other's tile and keeps the invariant |
| Worlds.SwapWValid | grid.go:573-579 | a swap of two distinct registered entities exchanges their tiles and cells and keeps the invariant |
| Worlds.SwapSelfCrashes | grid.go:573-579 | swapping an entity with itself panics on the second placement |
| Worlds.ExecuteMoveWValid | grid.go:40-63 | on the world a move never defers. It panics exactly for a swap or replace with itself. Otherwise it keeps the invariant: a collision or a wall changes nothing, and a plain move, swap or replace puts the mover on the target tile. |
| Worlds.EmptyAtW | grid.go:467-473 | `WorldGrid.EmptyAt`; `Worlds.RegisteredOccupies` states that a registered entity's tile is not empty |
| Worlds.EntityAtW | grid.go:474-483 | `WorldGrid.EntityAt`; `Worlds.EntityAtWFound` states what it finds |
| Worlds.PutEntityAtW | grid.go:546-555 | `WorldGrid.PutEntityAt`; `Worlds.PutWValid`, `Worlds.PutWCrash`, `Worlds.PutWKeepsEmpty` and `Worlds.PutWKeepsEntity` state its properties |
| Worlds.RemoveEntityIDW | grid.go:559-567 | `WorldGrid.RemoveEntityID`; `Worlds.RemoveWValid`, `Worlds.RemoveWFrees`, `Worlds.RemoveWKeeps` and `Worlds.RemoveWKeepsEmpty` state its properties |
| Worlds.MoveEntityW | grid.go:497-512 | `WorldGrid.MoveEntity`; `Worlds.MoveWValid`, `Worlds.MoveStay`, `Worlds.MoveWithin`, `Worlds.MoveAcross` and `Worlds.MoveWCrash` state its properties |
| Worlds.ReplaceEntityW | grid.go:568-572 | `WorldGrid.ReplaceEntity`; `Worlds.ReplaceWValid` and `Worlds.ReplaceSelfCrashes` state its properties |
| Worlds.SwapEntitiesW | grid.go:573-579 | `WorldGrid.SwapEntities`; `Worlds.SwapWValid`, `Worlds.SwapRemoveBoth`, `Worlds.SwapPutBoth` and `Worlds.SwapSelfCrashes` state its properties |
| Worlds.ExecuteMoveW | grid.go:40-63 | `ExecuteMove` on the world; `Worlds.ExecuteMoveWValid` states its properties |
| Deaths.MarkDeadW | grid.go:494-496 | the id joins the end of the world's death list, nothing else changes and the invariant is kept |
| Deaths.BuryValid | grid.go:362-370 | burying one id panics exactly for an unknown id or a death spawn whose id is already indexed. Otherwise it keeps the invariant and the index loses the dead id. A death spawn takes the dead entity's tile and is indexed under its cell. |
| Deaths.BuryLocal | grid.go:362-370 | burying an indexed id changes only the shard it is filed under; no shard appears or disappears and that shard keeps its death list |
| Deaths.BuryAllLocal | grid.go:361-371 | burying a list whose known ids are all filed under one cell changes only that cell's shard, which keeps its death list |
| Deaths.BuryAllKeys | grid.go:361-371 | under the invariant, burying never adds or deletes a shard |
| Deaths.MarkDeadBuried | grid.go:376-385 | an entity marked dead on the world is out of the index after the next `discardEmpty`, unless a death spawn takes over its id |
| Deaths.BuryAllValid | grid.go:376-384 | burying a list keeps the invariant whenever it does not panic |
| Deaths.NoTileNoEntity | grid.go:104-106 | a shard whose `Count()` is zero holds no entity |
| Deaths.DropEmptyShard | grid.go:372-374 | deleting a shard with no occupied tile keeps the invariant |
| Deaths.ClearDeaths | grid.go:371 | emptying a shard's death list keeps the invariant |
| Deaths.DiscardShardValid | grid.go:361-375 | one cell's pass keeps the invariant and the world death list. After the cell's dead are buried, its shard is deleted exactly when none of its tiles is taken; otherwise it is kept with an empty death list. No other cell gains or loses a shard. |
| Deaths.DiscardShardsValid | grid.go:361-375 | the first loop over all cells keeps the invariant whenever it does not panic |
| Deaths.DiscardEmptyValid | grid.go:360-386 | `discardEmpty` keeps the invariant whenever it does not panic, and empties the world's death list |
| Deaths.DiscardShardLocal | grid.go:361-375 | when every shard's death list names only its own entities, one cell's pass changes no other cell and leaves its shard, if kept, with a tile taken and no dead |
| Deaths.DiscardShardsLocal | grid.go:361-375 | under the same condition, every visited cell that keeps its shard has a tile taken and no dead, and unvisited cells are untouched |
| Deaths.DiscardEmptyDrops | grid.go:360-386 | with shard-owned death lists and an empty world death list, every visited cell that keeps its shard has a tile taken and no dead; when the order lists every cell with a shard, no shard without a taken tile is left |
| Deaths.WorldDeathLeavesEmptyShard | grid.go:376-385 | the world's dead are buried after the shards are visited, so a shard they empty survives the call |
| Deaths.Bury | grid.go:362-370 | one death of `discardEmpty`: remove the entity, put its spawn on the freed tile; `Deaths.BuryValid` and `Deaths.BuryLocal` state its properties |
| Deaths.BuryAll | grid.go:376-384 | a death list buried in order; `Deaths.BuryAllValid`, `Deaths.BuryAllLocal` and `Deaths.BuryAllKeys` state its properties |
| Deaths.DiscardShard | grid.go:361-375 | one shard's turn of `discardEmpty`; `Deaths.DiscardShardValid` and `Deaths.DiscardShardLocal` state its properties |
| Deaths.DiscardShards | grid.go:361-375 | the shard loop of `discardEmpty` in a given map order; `Deaths.DiscardShardsValid` and `Deaths.DiscardShardsLocal` state its properties |
| Deaths.DiscardEmpty | grid.go:360-386 | `WorldGrid.discardEmpty`; `Deaths.DiscardEmptyValid`, `Deaths.DiscardEmptyDrops` and `Deaths.MarkDeadBuried` state its properties |
| Population.ExpandIsNear1 | grid.go:399 | one expansion reaches exactly the cells within one step of a player cell |
| Population.ExpandTwiceIsNear2 | grid.go:400 | two expansions reach exactly the cells within two steps |
| Population.CullIsFar | grid.go:402-406 | a cell is culled exactly when it has a shard, is no spawn cell, and lies more than two steps from every player cell and the origin |
| Population.PrepopIsRing | grid.go:408-410 | a cell is populated ahead exactly when it has no shard, is no spawn cell, lies within two steps of some player cell or the origin, and lies within one step of none |
| Population.PrepopCullDisjoint | grid.go:396-413 | the two answers are disjoint, and neither holds a spawn cell or a player cell |
| Population.PlayerGrids | grid.go:350-358 | `playerGrids`, the cells whose shard counts a player |
| Population.Expand | grid.go:399-400 | the expansion `prepopCullGrids` applies; `Population.ExpandIsNear1` and `Population.ExpandTwiceIsNear2` state which cells it yields |
| Population.PrepopCull | grid.go:396-413 | `prepopCullGrids`; `Population.CullIsFar`, `Population.PrepopIsRing` and `Population.PrepopCullDisjoint` state its properties |
| AStar.MinIndex | astar.go:63 | `heap.Pop` takes a node of least priority |
| AStar.RemoveAt | astar.go:44 | `heap.Remove` takes out exactly the node at the given position |
| AStar.LowestOpenFScore | astar.go:59-75 | a coord is found exactly when some queued node is open. It is an open coord of least priority among the open nodes. Only its node leaves the queue; every other node stays queued. |
| AStar.SetFScore | astar.go:77-86 | the coord becomes indexed; a panic happens only for an indexed coord that has no node |
| AStar.SetFScoreOnePerCoord | astar.go:43-48 | with one node per coord, `update` or a push keeps one node per coord, its priority the new score, and every other node as it was |
| AStar.Walk | astar.go:50-57 | `[]` when `current` has no predecessor; otherwise the path ends in `current`, each element's predecessor is the element before it, and the first element's predecessor has none |
| AStar.WalkRanked | astar.go:50-57 | when the predecessor links descend in some ranking, `reconstructPath` terminates |
| AStar.Relax | astar.go:118-131 | the inner loop's turn never changes the closed set and never opens a closed coord |
| AStar.RelaxAll | astar.go:118-132 | the same for the whole inner loop |
| AStar.RelaxInv | astar.go:119-131 | the inner loop's turn never panics and keeps the search invariant: one queue node per open coord, and every predecessor link a passable neighbour step ranked below its target |
| AStar.RelaxAllInv | astar.go:118-132 | the same for the whole inner loop |
| AStar.CloseQueue | astar.go:116-117 | moving the popped coord from open to closed keeps one queue node per open coord |
| AStar.ReachedGoal | astar.go:113-114 | the reconstructed path of an open goal exists and is a valid path |
| AStar.Expand | astar.go:116-132 | a turn closes the popped coord and never opens a closed coord |
| AStar.ExpandInv | astar.go:116-132 | a turn never panics and keeps the search invariant |
| AStar.AstarTurn | astar.go:107-133 | a turn that goes on has expanded a coord other than the goal and closed it |
| AStar.LoopInit | astar.go:103-105 | the state before the loop satisfies the loop invariant |
| AStar.LoopOk | astar.go:109-112 | while a coord is open, `lowestOpenFScore` finds one |
| AStar.LoopFound | astar.go:113-114 | a path the loop returns is valid |
| AStar.LoopNext | astar.go:107-133 | each turn keeps the loop invariant, and a closed coord is never opened again |
| AStar.LoopExit | astar.go:103-107 | with `start == goal` the loop only ends without a turn when `limit < 1` |
| AStar.AstarSearch | astar.go:88-135 | at most `limit` turns. `limit <= 0` gives `([], false)`, and failure always returns `[]`. With `start == goal` and `limit >= 1` the result is `([], true)`. A path found starts at a neighbour of `start`, ends at `goal`, passes only open coords, and each step is a neighbour of the one before. |
| AStar.Update | astar.go:43-48 | `NodeFPQ.update`: the coord's node leaves the queue and returns with the new priority; `AStar.SetFScoreOnePerCoord` states the effect on the queue |
| AStar.ReconstructPath | astar.go:50-57 | `reconstructPath`; `AStar.Walk` states the path it returns and `AStar.WalkRanked` when it returns one |
| AStar.InitialSearch | astar.go:96-104 | the state `astarSearch` builds before its loop; `AStar.LoopInit` states that it satisfies the loop invariant |
| Dungeon.SetCell | dungen.go:31-33 | `setCell` succeeds exactly for an index inside the slice and changes nothing but the cells |
| Dungeon.GetCell | dungen.go:35-37 | `getCell` succeeds exactly for an index inside the slice |
| Dungeon.SetThenGet | dungen.go:31-37 | a written cell reads back as written, and every other index reads as before |
| Dungeon.IsWalkable | dungen.go:39-43 | `isWalkable` holds exactly for floor, corridor and door |
| Dungeon.GetRand | dungen.go:45-52 | `getRand(min, max)` lies in [min, max] and takes one draw; it panics exactly when `max < min` |
| Dungeon.GetRandReachesAll | dungen.go:45-52 | every value of [min, max] is a possible draw |
| Dungeon.Scan | dungen.go:79-86 | a checking loop passes exactly when every cell passes the `> xsize` bounds test, lies in the slice and is unused; it panics only on a cell that passes the test outside the slice |
| Dungeon.Paint | dungen.go:89-91 | a painting loop succeeds exactly when every cell it writes lies in the slice |
| Dungeon.PaintEffect | dungen.go:89-91 | indices outside the plan keep their tiles, the last write to an index wins, and every written index holds one of the plan's kinds |
| Dungeon.FillEffect | dungen.go:132-134 | painting a run with one kind writes that kind on every cell of the run and nothing else |
| Carve.Dir | dungen.go:57-61 | directions 1 to 3 are kept and every other value becomes 0 (north) |
| Carve.MakeCorridor | dungen.go:54-160 | a panic happens exactly for a length below 2 or a checked cell outside the slice; otherwise one draw is taken, and a false return leaves the map unchanged |
| Carve.CorridorIff | dungen.go:54-160 | a corridor is carved exactly when every cell of its line passes the bounds test and is unused |
| Carve.CorridorCarves | dungen.go:54-160 | a carved corridor turns each cell of its line, unused before, into corridor, and changes nothing else |
| Carve.CorridorResult | dungen.go:88-91 | a carved corridor is its line painted with corridor over the map after the draw |
| Carve.CorridorDefaultsNorth | dungen.go:57-67 | a direction outside 1..3 digs north |
| Carve.RoomDraw | dungen.go:163-164 | both sizes are drawn in [4, limit], width first; a limit below 4 panics |
| Carve.MakeRoom | dungen.go:162-307 | sizes below 4 panic; otherwise the sizes take two draws. An east, south or west room that returns false leaves the map unchanged. Every branch writes only wall and floor. |
| Carve.NorthLoop | dungen.go:177-206 | the north branch of `makeRoom`, painting inside its checking loop; `Carve.NorthLoopChanges`, `Carve.NorthNeverCarves`, `Carve.NorthSecondRow` and `Carve.NorthPanicsAboveTop` state its properties |
| Carve.NorthLoopChanges | dungen.go:177-206 | the north branch writes nothing but wall and floor |
| Carve.RoomKinds | dungen.go:224-237 | every tile a room writes is wall or floor |
| Carve.RoomShape | dungen.go:224-237 | a room is `xlen` columns by `ylen` rows, and a tile is wall exactly on the first or last column or row |
| Carve.RoomIff | dungen.go:208-303 | an east, south or west room is carved exactly when all its cells pass the bounds test and are unused |
| Carve.RoomResult | dungen.go:208-303 | a carved room is its plan painted over the map after the draws |
| Carve.RoomCarves | dungen.go:208-303 | a carved room covered only unused cells; the last write to each cell wins, nothing outside the room changes, and the room holds only wall and floor |
| Carve.RoomInsideExact | dungen.go:208-303 | a carved room left of column `xsize` has a wall border and a floor interior, cell by cell |
| Carve.NorthNeverCarves | dungen.go:177-206 | the north branch never returns true: once its first row checks out, it paints the whole room and then fails on the second row |
| Carve.NorthSecondRow | dungen.go:177-188 | after painting, the first cell of the second row is wall, so the checking loop returns false |
| Carve.NorthPanicsAboveTop | dungen.go:177-206 | on an unused 4 x 4 map with every draw zero, the north room in the middle checks out on its first row, paints a row above the map and panics |
| Carve.NorthDiscrepancy | dungen.go:177-206 | on a north room whose cells are all in bounds and unused, the code as written paints the room and returns false, while the corrected room paints the same room and returns true |
| Carve.CheckThenPaint | dungen.go:208-237 | a room that does not fit leaves the map as it was; one that fits keeps the map's shape and writes only the plan's kinds |
| Carve.MakeRoomIntended | dungen.go:162-307 | the corrected room: sizes below 4 panic, the sizes take two draws, a room that returns false leaves the map unchanged in every direction, and only wall and floor are written |
| Carve.IntendedAgrees | dungen.go:208-303 | for east, south and west the corrected room is the room as written |
| Carve.IntendedIff | dungen.go:208-303 | in every direction the corrected room is carved exactly when all its cells pass the bounds test and are unused, and then it is its plan painted over the map after the draws |
| Carve.IntendedCarvesWhenClear | dungen.go:208-303 | in every direction a room whose cells are all in bounds and unused is carved |
| Generate.CorridorChanges | dungen.go:54-160 | `makeCorridor` writes nothing but corridor |
| Generate.ClearMap | dungen.go:316-320 | the clearing loop succeeds exactly when every cell of the `xsize` x `ysize` rectangle lies in the slice, and then makes all of them unused and writes nothing else |
| Generate.ClearReachesAll | dungen.go:316-320 | with a slice of exactly `xsize * ysize` cells, the clearing loop reaches every index |
| Generate.Half | dungen.go:322 | Go's `n / 2` truncates toward zero |
| Generate.Probe | dungen.go:341-359 | a probe that finds a direction found a wall or corridor cell next to floor or corridor on the side that direction comes from |
| Generate.FindSpot | dungen.go:337-365 | the probe loop changes no tile, and a spot it reports is a wall or corridor cell inside the border, reachable from the side of its direction |
| Generate.RoomDoor | dungen.go:373-375 | the door and the floor in front of it write only generator tiles |
| Generate.BuildRoom | dungen.go:369-376 | a room with its door writes only generator tiles |
| Generate.BuildCorridor | dungen.go:377-383 | a corridor with its door writes only generator tiles |
| Generate.Build | dungen.go:366-384 | building a feature writes only generator tiles |
| Generate.Begin | dungen.go:309-322 | `objects` becomes 10 when `inobj < 1` and `inobj` otherwise; the map is cleared and the first room laid, so on a well-formed map every cell is unused, wall or floor; only generator tiles are written |
| Generate.Grow | dungen.go:330-384 | one outer turn writes only generator tiles |
| Generate.CreateDungeon | dungen.go:309-387 | always returns true when it does not panic. `objects` is fixed as above. The feature count starts at 1 and grows by at most 1 per try. The loop stops at the quota or after 1000 tries. Only unused, wall, floor, corridor and door are written. With a slice of exactly `xsize * ysize` cells, every tile is one of those: never stone wall, stairs or chest. |
| Display.JsRem | static/display.js:444 | JavaScript's `%` lies strictly between `-n` and `n`, and agrees with the mathematical remainder on non-negative numbers |
| Display.NewBuffer | static/display.js:38-41 | the new draw buffer satisfies the buffer invariant |
| Display.SlotInView | static/display.js:352-356 | inside the view, the array row and column are the position shifted by the offsets, modulo the size |
| Display.SlotInjective | static/display.js:347-357 | distinct view positions use distinct array slots |
| Display.BufferCell | static/display.js:355-357 | reading throws exactly when the row index is negative; inside a valid view it always finds a cell |
| Display.SetBufferCell | static/display.js:347-353 | writing throws exactly when reading would; afterwards the cell reads back as written, with the offsets and sizes unchanged |
| Display.SetThenGet | static/display.js:347-357 | under any offsets, a written view position reads back as written and every other view position reads as before |
| Display.ScrollMapX | static/display.js:443-445 | only `xboffset_` changes, and it stays in [0, w) when it was there and `abs(v) <= w` |
| Display.ScrollMapY | static/display.js:447-449 | only `yboffset_` changes, and it stays in [0, h) when it was there and `abs(v) <= h` |
| Display.ScrollXShifts | static/display.js:443-445 | after `scrollMapX_(v)` column x shows what column `(x + v) mod w` showed |
| Display.ScrollYShifts | static/display.js:447-449 | after `scrollMapY_(v)` row y shows what row `(y + v) mod h` showed |
| Display.ScrollTo | static/display.js:367-385 | returns true exactly when there was an old location that differs from the new one; the location always becomes the new one |
| Display.ScrollToShifts | static/display.js:367-385 | after `scrollTo_` each view position shows what the position shifted by the move showed |
| Display.ScrollToKeepsMap | static/display.js:367-385 | a map location in view before and after `scrollTo_` keeps its cell |
| Display.SetLocationCell | static/display.js:337-345 | with no location it throws; otherwise it writes only when the local offset lies in the view, and leaves the state alone when it does not |
| Display.SetLocationCellWrites | static/display.js:337-345 | with a location, exactly the view position of the map location changes, to the new value |
| Display.Base64AlphabetDecodes | static/display.js:455-519 | the table decodes each character of the alphabet of section 4 of RFC 4648 to its position, and only those characters |
| Display.Base64Bits | static/display.js:455-519 | a character has bits exactly when it is in the alphabet, and then six 0/1 bits whose value, least significant first, is its position |
| Display.DrawnNext | static/display.js:421-434 | handling bit p changes only the view position of map position p, and only when p is inside the `xsize` by `ysize` block |
| Display.CountersStep | static/display.js:430-434 | the column and row counters track the row-major position of the bit in rows of `xsize` |
| Display.DrawStep | static/display.js:421-434 | handling one bit moves the loop state from n bits to n + 1 |
| Display.DrawChar | static/display.js:419-435 | one character's six bits move the loop state on by six; this throws exactly on the first write with no location |
| Display.DrawBase64Map | static/display.js:415-437 | it throws exactly for a character outside the alphabet, or when a write happens with no location. Otherwise position p = y * xsize + x shows "." when bit p mod 6 of character p / 6 is 1 and " " when it is 0. Positions past the `xsize` by `ysize` block are left alone. |
| Display.Base91Inverts | static/display.js:521-612 | `base91Table_[Base91Table[i]] == i` for every i in 0..90 |
| Display.EntitiesRoundTrip | static/display.js:241-254 | for entities inside the 79 x 25 view around the player, decoding what the server writes recovers every entity's absolute coordinate and symbol |
| Display.SetEntities | static/display.js:241-254 | `setEntities_`; `Display.EntitiesRoundTrip` states what the entity map holds after it |

## Left out

- Concurrency is not modelled: `ParallelExec`, the `ParentQueue` and `chatQueue` channels, goroutines and `SendDisplays`. The deferred queue is a plain sequence.
- `UpdateMovers`, the entities' behaviour (`CollisionFrom`, `CollideWall`, `MoveCommit`, `Detect`) and `WorldGrid.NewEntity`/`NewEntityInGrid` retry loops over spawn cells are not modelled. Entities are abstract values; `MoveCommit` shows only as the `committed` flag of a shard step.
- JSON building in `WriteDisplay`/`WriteEntities`, float formatting of the load, and `GridCoord.WriteTo` (`math/big` bytes) are not modelled.
- `dungencache.go`, the LRU cache and map stitching are not part of this model. Its calls use signatures that `dungen.go` does not have. Walkability of the world's tiles is a parameter.
- The connection, HTTP and websocket code, `main.go` (an older variant of the coordinate types), `entity.go`, `static/game.js` and `static/terminal.js` are not part of this model.
- In `static/display.js`, rendering is not modelled: the ROT display, colours, `preMove_` timing, the `tick_`/`renderDisplay_` queue, `commitDisplay_` and `findPath_`.
- Go map iteration order is an explicit parameter (`order` in `Deaths.DiscardEmpty`). Randomness is an explicit stream. Seeding from the clock is left out.
- AStar.LowestOpenFScore: a tie between nodes of equal priority is broken by the first in sequence order, not by the layout of Go's binary heap.
- AStar.AstarSearch: it returns the number of turns as an extra out-parameter. A `cameFrom` cycle (which the invariant rules out) would make the Go recursion run forever; the model reports it as `Crash`.
- Random.Intn: requires `n > 0` rather than modelling Go's panic for `n <= 0`. `Dungeon.GetRand` models that panic as `Crash`.
- Dungeon.SetCell: `dungen.go` uses Go `int`; the model treats its values as unbounded, which is exact for map sizes that fit in 64 bits.
- Generate.CreateDungeon: `features` and `tries` are extra out-parameters that expose the loop counters. `inx` and `iny` are never read by the code and are unused here too.
- Display.NewBuffer: requires positive width and height; the client always builds its buffer with 79 x 25.
- Display.DrawBase64Map: requires a valid buffer (positive sizes, offsets within them), which every buffer the client builds satisfies. JavaScript numbers are modelled as unbounded integers, ignoring floating-point rounding far from zero.
- Display.EntitiesRoundTrip: assumes three runes per entity, as `setEntities_` reads them; `entity.go` is of a different revision and its `WriteFor` is not part of this model. It requires every entity to lie inside the view, so that no int64 difference wraps.
- Display.Base91Inverts: proves that the table inverts `Base91Table`, not the converse: that every rune the client decodes came from the table.
- Deaths.DiscardEmptyDrops: promises that no empty shard is left only when each shard's death list names its own entities and the world's death list is empty. The world's dead are buried after the shards are visited (`Deaths.WorldDeathLeavesEmptyShard`), and a dead id filed on another cell's list empties a shard that was already visited.

## Findings

| source | as written | input that shows it | evidently intended | confidence | as-written member | corrected member |
|---|---|---|---|---|---|---|
| dungen.go:177-206 | the painting loop of the north room sits inside its checking loop. Once the first row checks out, the whole room is painted, over whatever the later rows held and panicking if a row lies above the map (`Carve.NorthPanicsAboveTop`); the second row then meets the fresh wall and the room is reported as not built, so the generator lays no door and counts no feature | a north room (direction 0, or any direction outside 1..3) whose cells are all in bounds and unused, such as a room on an all-unused map that it fits inside | check every row first, then paint and report success, as the east, south and west branches do | not executed | Carve.NorthDiscrepancy | Carve.MakeRoomIntended |
