/** The world (grid.go `WorldGrid`): the shards by cell, the index from
    entity id to the cell holding it, and the operations that keep the
    two in step. Only the index effects are modelled; entity behaviour and
    the dungeon are parameters. */
module Worlds {
  import opened Wrappers
  import opened Coords
  import opened Shard

  datatype World = World(
    grid: map<GridCoord, SubGrid>,
    entityGrid: map<EntityId, GridCoord>,
    spawnGrids: seq<GridCoord>,
    deaths: seq<EntityId>)

  /** `NewWorldGrid`: no shards yet, and the seven spawn cells around the
      origin. */
  function NewWorld(): (w: World)
    ensures WorldValid(w)
  {
    World(map[], map[],
          [GridCoord(0, 0), GridCoord(0, 1), GridCoord(1, 0), GridCoord(1, 1),
           GridCoord(-1, -1), GridCoord(-1, 0), GridCoord(0, -1)],
          [])
  }

  /** Every shard is consistent and filed under its own cell. */
  predicate ShardsValid(grid: map<GridCoord, SubGrid>) {
    forall gc :: gc in grid ==> Valid(grid[gc]) && grid[gc].gridCoord == gc
  }

  /** Each indexed entity is held by the shard the index names ... */
  predicate IndexSound(grid: map<GridCoord, SubGrid>, entityGrid: map<EntityId, GridCoord>) {
    forall id :: id in entityGrid ==> entityGrid[id] in grid && id in grid[entityGrid[id]].entities
  }

  /** ... and each entity held by a shard is indexed under that shard. */
  predicate IndexComplete(grid: map<GridCoord, SubGrid>, entityGrid: map<EntityId, GridCoord>) {
    forall gc, id :: gc in grid && id in grid[gc].entities ==> id in entityGrid && entityGrid[id] == gc
  }

  predicate WorldValid(w: World) {
    ShardsValid(w.grid) && IndexSound(w.grid, w.entityGrid) && IndexComplete(w.grid, w.entityGrid)
  }

  lemma ShardsValidUpdate(grid: map<GridCoord, SubGrid>, gc: GridCoord, sg: SubGrid)
    requires ShardsValid(grid) && Valid(sg) && sg.gridCoord == gc
    ensures ShardsValid(grid[gc := sg])
  {
  }

  /** The entity as the world knows it. */
  predicate WRegistered(w: World, e: Entity) {
    e.id in w.entityGrid && w.entityGrid[e.id] in w.grid && Registered(w.grid[w.entityGrid[e.id]], e)
  }

  /** `subgridAtGrid`: the shard of a cell, created empty on first use. */
  function SubgridAt(w: World, gc: GridCoord): (r: World)
    ensures gc in r.grid && r.grid[gc].gridCoord == (if gc in w.grid then w.grid[gc].gridCoord else gc)
    ensures r.entityGrid == w.entityGrid && r.deaths == w.deaths && r.spawnGrids == w.spawnGrids
    ensures forall g :: g in w.grid ==> g in r.grid && r.grid[g] == w.grid[g]
    ensures r.grid == if gc in w.grid then w.grid else w.grid[gc := NewSubGrid(gc)]
  {
    if gc in w.grid then w else w.(grid := w.grid[gc := NewSubGrid(gc)])
  }

  /** Creating an empty shard keeps the index consistent. */
  lemma SubgridAtValid(w: World, gc: GridCoord)
    requires WorldValid(w)
    ensures WorldValid(SubgridAt(w, gc))
  {
    if gc !in w.grid {
      ReplaceShard(w, gc, NewSubGrid(gc), w.entityGrid);
    }
  }

  /** `WorldGrid.EmptyAt`: a cell without a shard is empty. */
  function EmptyAtW(w: World, loc: Coord): bool {
    var gc := GridOf(loc);
    gc !in w.grid || EmptyAt(w.grid[gc], loc)
  }

  /** `WorldGrid.EntityAt`. */
  function EntityAtW(w: World, loc: Coord): Option<Entity> {
    var gc := GridOf(loc);
    if gc !in w.grid then None else EntityAt(w.grid[gc], loc)
  }

  /** The world finds an entity exactly where its tile is taken, and what
      it finds is registered there. */
  lemma EntityAtWFound(w: World, loc: Coord)
    requires WorldValid(w)
    ensures EntityAtW(w, loc).Some? <==> !EmptyAtW(w, loc)
    ensures EntityAtW(w, loc).Some? ==> WRegistered(w, EntityAtW(w, loc).value) && EntityAtW(w, loc).value.coord == loc
  {
  }

  /** A registered entity occupies its own tile. */
  lemma RegisteredOccupies(w: World, e: Entity)
    requires WorldValid(w) && WRegistered(w, e)
    ensures !EmptyAtW(w, e.coord)
    ensures EntityAtW(w, e.coord) == Some(e)
    ensures GridOf(e.coord) == w.entityGrid[e.id]
  {
    var sg := w.grid[w.entityGrid[e.id]];
    assert Valid(sg);
    assert e.coord in sg.grid && sg.grid[e.coord] == e.id;
  }

  /** `WorldGrid.EntityByID`: looking the shard up may create it. */
  function EntityByIDW(w: World, id: EntityId): (r: (Option<Entity>, World))
    ensures WorldValid(w) ==> r.1 == w
    ensures WorldValid(w) ==> (r.0.Some? <==> id in w.entityGrid)
    ensures WorldValid(w) && r.0.Some? ==> r.0.value.id == id && WRegistered(w, r.0.value)
  {
    if id in w.entityGrid then
      var w1 := SubgridAt(w, w.entityGrid[id]);
      (EntityByID(w1.grid[w.entityGrid[id]], id), w1)
    else (None, w)
  }

  /** `WorldGrid.PutEntityAt`: panics for an id already in the index. */
  function PutEntityAtW(w: World, e: Entity, loc: Coord): Result<World> {
    if e.id in w.entityGrid then Crash("Placing already existing Entity")
    else
      var gc := GridOf(loc);
      var w1 := SubgridAt(w.(entityGrid := w.entityGrid[e.id := gc]), gc);
      match PutEntityAt(w1.grid[gc], e, loc)
      case Ok(sg) => Ok(w1.(grid := w1.grid[gc := sg]))
      case Crash(msg) => Crash(msg)
  }

  /** `WorldGrid.RemoveEntityID`: an id not in the index is ignored. */
  function RemoveEntityIDW(w: World, id: EntityId): World {
    if id !in w.entityGrid then w
    else
      var gc := w.entityGrid[id];
      var w1 := SubgridAt(w.(entityGrid := w.entityGrid - {id}), gc);
      w1.(grid := w1.grid[gc := RemoveEntityID(w1.grid[gc], id)])
  }

  /** `WorldGrid.MoveEntity`: inside one cell the shard moves the entity;
      across cells it leaves one shard and enters the other. Panics for an
      entity not in the index. */
  function MoveEntityW(w: World, e: Entity, loc: Coord): Result<World> {
    if e.id !in w.entityGrid then Crash("Moving nonexistent Entity")
    else
      var gc1 := w.entityGrid[e.id];
      var w1 := SubgridAt(w, gc1);
      var gc2 := GridOf(loc);
      if gc1 == gc2 then
        match MoveEntity(w1.grid[gc1], e, loc)
        case Ok(sg) => Ok(w1.(grid := w1.grid[gc1 := sg]))
        case Crash(msg) => Crash(msg)
      else
        var w2 := SubgridAt(w1, gc2);
        var w3 := w2.(grid := w2.grid[gc1 := RemoveEntityID(w2.grid[gc1], e.id)]);
        match PutEntityAt(w3.grid[gc2], e, loc)
        case Ok(sg) => Ok(w3.(grid := w3.grid[gc2 := sg], entityGrid := w3.entityGrid[e.id := gc2]))
        case Crash(msg) => Crash(msg)
  }

  /** `WorldGrid.ReplaceEntity`. */
  function ReplaceEntityW(w: World, e: Entity, replacement: Entity): Result<World> {
    MoveEntityW(RemoveEntityIDW(w, e.id), replacement, e.coord)
  }

  /** `WorldGrid.SwapEntities`: both leave, then each is put where the other
      stood; with the same entity twice the second put panics. */
  function SwapEntitiesW(w: World, a: Entity, b: Entity): Result<World> {
    var w1 := RemoveEntityIDW(RemoveEntityIDW(w, a.id), b.id);
    match PutEntityAtW(w1, a, b.coord)
    case Ok(w2) => PutEntityAtW(w2, b, a.coord)
    case Crash(msg) => Crash(msg)
  }

  // ---------------------------------------------------------------------
  // The index invariant under each operation

  /** The ids a cell's shard holds, or none for a cell without a shard. */
  function HeldBy(grid: map<GridCoord, SubGrid>, gc: GridCoord): set<EntityId> {
    if gc in grid then grid[gc].entities.Keys else {}
  }

  /** Every operation replaces one shard and adjusts the index to match:
      the ids the new shard holds point at its cell, the ids the old shard
      held and the new one does not leave the index, and the rest stay. */
  ghost predicate IndexFollows(w: World, gc: GridCoord, sg: SubGrid, eg: map<EntityId, GridCoord>) {
    && (forall id :: id in eg <==> (id in w.entityGrid && id !in HeldBy(w.grid, gc)) || id in sg.entities)
    && (forall id :: id in sg.entities ==> eg[id] == gc)
    && (forall id :: id in eg && id !in sg.entities ==> eg[id] == w.entityGrid[id])
    && (forall id :: id in sg.entities && id in w.entityGrid ==> w.entityGrid[id] == gc)
  }

  lemma ReplaceShard(w: World, gc: GridCoord, sg: SubGrid, eg: map<EntityId, GridCoord>)
    requires WorldValid(w)
    requires Valid(sg) && sg.gridCoord == gc
    requires IndexFollows(w, gc, sg, eg)
    ensures WorldValid(w.(grid := w.grid[gc := sg], entityGrid := eg))
  {
    var r := w.(grid := w.grid[gc := sg], entityGrid := eg);
    ShardsValidUpdate(w.grid, gc, sg);
    ReplaceShardSound(w, gc, sg, eg);
    ReplaceShardComplete(w, gc, sg, eg);
  }

  lemma ReplaceShardSound(w: World, gc: GridCoord, sg: SubGrid, eg: map<EntityId, GridCoord>)
    requires IndexSound(w.grid, w.entityGrid) && IndexFollows(w, gc, sg, eg)
    ensures IndexSound(w.grid[gc := sg], eg)
  {
    var r := w.(grid := w.grid[gc := sg], entityGrid := eg);
    forall id | id in eg
      ensures eg[id] in r.grid && id in r.grid[eg[id]].entities
    {
      if id !in sg.entities {
        assert eg[id] == w.entityGrid[id] && id !in HeldBy(w.grid, gc);
        assert w.entityGrid[id] in w.grid && id in w.grid[w.entityGrid[id]].entities;
      }
    }
  }

  lemma ReplaceShardComplete(w: World, gc: GridCoord, sg: SubGrid, eg: map<EntityId, GridCoord>)
    requires IndexComplete(w.grid, w.entityGrid) && IndexFollows(w, gc, sg, eg)
    ensures IndexComplete(w.grid[gc := sg], eg)
  {
    var r := w.(grid := w.grid[gc := sg], entityGrid := eg);
    forall g, id | g in r.grid && id in r.grid[g].entities
      ensures id in eg && eg[id] == g
    {
      if g != gc {
        assert id in w.grid[g].entities;
        assert id in w.entityGrid && w.entityGrid[id] == g;
        assert id !in HeldBy(w.grid, gc);
        if id in sg.entities {
          assert false;
        }
      }
    }
  }

  /** Dropping an id from its shard and from the index. */
  lemma FollowsRemove(w: World, gc: GridCoord, id: EntityId, sg: SubGrid)
    requires IndexComplete(w.grid, w.entityGrid) && gc in w.grid && id in w.grid[gc].entities
    requires sg.entities.Keys == w.grid[gc].entities.Keys - {id}
    ensures IndexFollows(w, gc, sg, w.entityGrid - {id})
  {
  }

  /** Adding an unindexed id to a shard and to the index. */
  lemma FollowsPut(w: World, gc: GridCoord, id: EntityId, sg: SubGrid)
    requires IndexComplete(w.grid, w.entityGrid) && gc in w.grid && id !in w.entityGrid
    requires sg.entities.Keys == w.grid[gc].entities.Keys + {id}
    ensures IndexFollows(w, gc, sg, w.entityGrid[id := gc])
  {
  }

  // ---------------------------------------------------------------------
  // RemoveEntityID

  /** Removing an id keeps the index consistent and drops exactly that id. */
  lemma RemoveWValid(w: World, id: EntityId)
    requires WorldValid(w)
    ensures WorldValid(RemoveEntityIDW(w, id))
    ensures RemoveEntityIDW(w, id).entityGrid == w.entityGrid - {id}
  {
    if id in w.entityGrid {
      var gc := w.entityGrid[id];
      var sg := RemoveEntityID(w.grid[gc], id);
      RemovePreservesValid(w.grid[gc], id);
      assert RemoveEntityIDW(w, id) == w.(grid := w.grid[gc := sg], entityGrid := w.entityGrid - {id});
      FollowsRemove(w, gc, id, sg);
      ReplaceShard(w, gc, sg, w.entityGrid - {id});
    }
  }

  /** The removed entity's tile is free afterwards. */
  lemma RemoveWFrees(w: World, e: Entity)
    requires WorldValid(w) && WRegistered(w, e)
    ensures EmptyAtW(RemoveEntityIDW(w, e.id), e.coord)
  {
    var gc := w.entityGrid[e.id];
    RemovePreservesValid(w.grid[gc], e.id);
    RegisteredOccupies(w, e);
  }

  /** Every other entity stays registered where it was. */
  lemma RemoveWKeeps(w: World, id: EntityId, e: Entity)
    requires WorldValid(w) && WRegistered(w, e) && e.id != id
    ensures WRegistered(RemoveEntityIDW(w, id), e)
  {
    if id in w.entityGrid {
      RemovePreservesValid(w.grid[w.entityGrid[id]], id);
    }
  }

  /** Removing never occupies a tile. */
  lemma RemoveWKeepsEmpty(w: World, id: EntityId, loc: Coord)
    requires EmptyAtW(w, loc)
    ensures EmptyAtW(RemoveEntityIDW(w, id), loc)
  {
  }

  // ---------------------------------------------------------------------
  // PutEntityAt

  /** Placing an unindexed entity on a free tile keeps the index
      consistent, files the entity under its tile's cell and leaves it
      there. */
  lemma PutWValid(w: World, e: Entity, loc: Coord)
    requires WorldValid(w) && e.id !in w.entityGrid && EmptyAtW(w, loc)
    ensures PutEntityAtW(w, e, loc).Ok?
    ensures WorldValid(PutEntityAtW(w, e, loc).value)
    ensures PutEntityAtW(w, e, loc).value.entityGrid == w.entityGrid[e.id := GridOf(loc)]
    ensures EntityAtW(PutEntityAtW(w, e, loc).value, loc) == Some(e.(coord := loc))
  {
    var gc := GridOf(loc);
    SubgridAtValid(w, gc);
    PutIntoShard(SubgridAt(w, gc), e, loc);
  }

  /** `PutWValid` once the target cell has a shard. */
  lemma PutIntoShard(w: World, e: Entity, loc: Coord)
    requires WorldValid(w) && e.id !in w.entityGrid && GridOf(loc) in w.grid && EmptyAtW(w, loc)
    ensures PutEntityAt(w.grid[GridOf(loc)], e, loc).Ok?
    ensures var sg := PutEntityAt(w.grid[GridOf(loc)], e, loc).value;
      && WorldValid(w.(grid := w.grid[GridOf(loc) := sg], entityGrid := w.entityGrid[e.id := GridOf(loc)]))
      && EntityAt(sg, loc) == Some(e.(coord := loc))
  {
    var gc := GridOf(loc);
    PutShardStep(w.grid[gc], e, loc);
    var sg := PutEntityAt(w.grid[gc], e, loc).value;
    FollowsPut(w, gc, e.id, sg);
    ReplaceShard(w, gc, sg, w.entityGrid[e.id := gc]);
  }

  /** The shard side of `PutIntoShard`. */
  lemma PutShardStep(sg: SubGrid, e: Entity, loc: Coord)
    requires Valid(sg) && sg.gridCoord == GridOf(loc) && e.id !in sg.entities && EmptyAt(sg, loc)
    ensures PutEntityAt(sg, e, loc).Ok?
    ensures Valid(PutEntityAt(sg, e, loc).value) && PutEntityAt(sg, e, loc).value.gridCoord == sg.gridCoord
    ensures PutEntityAt(sg, e, loc).value.entities.Keys == sg.entities.Keys + {e.id}
    ensures EntityAt(PutEntityAt(sg, e, loc).value, loc) == Some(e.(coord := loc))
  {
    PutPreservesValid(sg, e, loc);
  }

  /** Under a consistent index, `PutEntityAt` panics exactly for an id that
      is already indexed. */
  lemma PutWCrash(w: World, e: Entity, loc: Coord)
    requires WorldValid(w)
    ensures PutEntityAtW(w, e, loc).Crash? <==> e.id in w.entityGrid
  {
    var gc := GridOf(loc);
    assert SubgridAt(w.(entityGrid := w.entityGrid[e.id := gc]), gc).grid[gc].gridCoord == gc;
  }

  // ---------------------------------------------------------------------
  // MoveEntity

  /** Keeping a shard's ids keeps the index. */
  lemma FollowsSame(w: World, gc: GridCoord, sg: SubGrid)
    requires IndexComplete(w.grid, w.entityGrid) && gc in w.grid
    requires sg.entities.Keys == w.grid[gc].entities.Keys
    ensures IndexFollows(w, gc, sg, w.entityGrid)
  {
  }

  /** The shard side of a move inside one cell. */
  lemma MoveShardStep(sg: SubGrid, e: Entity, loc: Coord)
    requires Valid(sg) && Registered(sg, e) && sg.gridCoord == GridOf(loc) && EmptyAt(sg, loc)
    ensures MoveEntity(sg, e, loc).Ok?
    ensures Valid(MoveEntity(sg, e, loc).value) && MoveEntity(sg, e, loc).value.gridCoord == sg.gridCoord
    ensures MoveEntity(sg, e, loc).value.entities.Keys == sg.entities.Keys
    ensures EntityAt(MoveEntity(sg, e, loc).value, loc) == Some(e.(coord := loc))
  {
    MovePreservesValid(sg, e, loc);
  }

  /** Across cells, `MoveEntity` is a removal followed by a placement. */
  lemma MoveAcrossIsRemovePut(w: World, e: Entity, loc: Coord)
    requires e.id in w.entityGrid && w.entityGrid[e.id] in w.grid && w.entityGrid[e.id] != GridOf(loc)
    ensures MoveEntityW(w, e, loc) == PutEntityAtW(RemoveEntityIDW(w, e.id), e, loc)
  {
    var gc1, gc2 := w.entityGrid[e.id], GridOf(loc);
    assert SubgridAt(w, gc1) == w;
    var w2 := SubgridAt(w, gc2);
    var w3 := w2.(grid := w2.grid[gc1 := RemoveEntityID(w2.grid[gc1], e.id)]);
    var wr := RemoveEntityIDW(w, e.id);
    assert wr.grid == w.grid[gc1 := RemoveEntityID(w.grid[gc1], e.id)];
    assert wr.entityGrid[e.id := gc2] == w.entityGrid[e.id := gc2];
    var w1' := SubgridAt(wr.(entityGrid := wr.entityGrid[e.id := gc2]), gc2);
    assert w1'.grid == w3.grid;
    assert w1' == w3.(entityGrid := w3.entityGrid[e.id := gc2]);
  }

  /** Moving a registered entity onto a free tile (or onto its own) keeps
      the index consistent, files the entity under the target's cell and
      leaves it at the target. */
  lemma MoveWValid(w: World, e: Entity, loc: Coord)
    requires WorldValid(w) && WRegistered(w, e) && (loc == e.coord || EmptyAtW(w, loc))
    ensures MoveEntityW(w, e, loc).Ok?
    ensures WorldValid(MoveEntityW(w, e, loc).value)
    ensures MoveEntityW(w, e, loc).value.entityGrid == w.entityGrid[e.id := GridOf(loc)]
    ensures EntityAtW(MoveEntityW(w, e, loc).value, loc) == Some(e.(coord := loc))
  {
    if loc == e.coord {
      MoveStay(w, e);
    } else if w.entityGrid[e.id] == GridOf(loc) {
      MoveWithin(w, e, loc);
    } else {
      MoveAcross(w, e, loc);
    }
  }

  /** `MoveWValid` onto the entity's own tile: nothing changes. */
  lemma MoveStay(w: World, e: Entity)
    requires WorldValid(w) && WRegistered(w, e)
    ensures MoveEntityW(w, e, e.coord) == Ok(w)
    ensures w.entityGrid[e.id := GridOf(e.coord)] == w.entityGrid
    ensures EntityAtW(w, e.coord) == Some(e)
  {
    RegisteredOccupies(w, e);
    var gc := w.entityGrid[e.id];
    assert MoveEntity(w.grid[gc], e, e.coord) == Ok(w.grid[gc]);
    assert w.grid[gc := w.grid[gc]] == w.grid;
  }

  /** `MoveWValid` across cells. */
  lemma MoveAcross(w: World, e: Entity, loc: Coord)
    requires WorldValid(w) && WRegistered(w, e) && EmptyAtW(w, loc)
    requires w.entityGrid[e.id] != GridOf(loc)
    ensures MoveEntityW(w, e, loc).Ok?
    ensures WorldValid(MoveEntityW(w, e, loc).value)
    ensures MoveEntityW(w, e, loc).value.entityGrid == w.entityGrid[e.id := GridOf(loc)]
    ensures EntityAtW(MoveEntityW(w, e, loc).value, loc) == Some(e.(coord := loc))
  {
    MoveAcrossIsRemovePut(w, e, loc);
    RemoveWValid(w, e.id);
    RemoveWKeepsEmpty(w, e.id, loc);
    PutWValid(RemoveEntityIDW(w, e.id), e, loc);
    assert (w.entityGrid - {e.id})[e.id := GridOf(loc)] == w.entityGrid[e.id := GridOf(loc)];
  }

  /** `MoveWValid` inside one cell. */
  lemma MoveWithin(w: World, e: Entity, loc: Coord)
    requires WorldValid(w) && WRegistered(w, e) && EmptyAtW(w, loc) && loc != e.coord
    requires w.entityGrid[e.id] == GridOf(loc)
    ensures MoveEntityW(w, e, loc).Ok?
    ensures MoveEntityW(w, e, loc).value == w.(grid := w.grid[GridOf(loc) := MoveEntity(w.grid[GridOf(loc)], e, loc).value])
    ensures WorldValid(MoveEntityW(w, e, loc).value)
    ensures EntityAtW(MoveEntityW(w, e, loc).value, loc) == Some(e.(coord := loc))
  {
    var gc := GridOf(loc);
    MoveShardStep(w.grid[gc], e, loc);
    var sg := MoveEntity(w.grid[gc], e, loc).value;
    FollowsSame(w, gc, sg);
    ReplaceShard(w, gc, sg, w.entityGrid);
  }

  /** A consistent index files each entity under exactly one shard. */
  lemma OneShard(w: World, id: EntityId, g: GridCoord)
    requires WorldValid(w) && id in w.entityGrid
    ensures g in w.grid && id in w.grid[g].entities <==> g == w.entityGrid[id]
  {
  }

  /** Under a consistent index, `MoveEntity` panics exactly for an entity
      that is not indexed. */
  lemma MoveWCrash(w: World, e: Entity, loc: Coord)
    requires WorldValid(w) && (e.id in w.entityGrid ==> WRegistered(w, e) && (loc == e.coord || EmptyAtW(w, loc)))
    ensures MoveEntityW(w, e, loc).Crash? <==> e.id !in w.entityGrid
  {
    if e.id in w.entityGrid {
      MoveWValid(w, e, loc);
    }
  }

  /** Placing touches no other tile. */
  lemma PutWKeepsEmpty(w: World, e: Entity, loc: Coord, other: Coord)
    requires PutEntityAtW(w, e, loc).Ok? && other != loc && EmptyAtW(w, other)
    ensures EmptyAtW(PutEntityAtW(w, e, loc).value, other)
  {
  }

  /** ... and leaves the occupant of every other tile alone. */
  lemma PutWKeepsEntity(w: World, e: Entity, loc: Coord, other: Coord)
    requires ShardsValid(w.grid) && IndexComplete(w.grid, w.entityGrid) && e.id !in w.entityGrid && other != loc
    ensures PutEntityAtW(w, e, loc).Ok?
    ensures EntityAtW(PutEntityAtW(w, e, loc).value, other) == EntityAtW(w, other)
  {
    var gc := GridOf(loc);
    var sg := if gc in w.grid then w.grid[gc] else NewSubGrid(gc);
    PutKeepsEntityAt(sg, e, loc, other);
  }

  /** The shard side of `PutWKeepsEntity`. */
  lemma PutKeepsEntityAt(sg: SubGrid, e: Entity, loc: Coord, other: Coord)
    requires Valid(sg) && e.id !in sg.entities && other != loc && GridOf(loc) == sg.gridCoord
    ensures PutEntityAt(sg, e, loc).Ok?
    ensures EntityAt(PutEntityAt(sg, e, loc).value, other) == EntityAt(sg, other)
  {
  }

  // ---------------------------------------------------------------------
  // ReplaceEntity and SwapEntities

  /** `ReplaceEntity`: the replaced entity leaves the index and the
      replacement stands on its tile. */
  lemma ReplaceWValid(w: World, e: Entity, replacement: Entity)
    requires WorldValid(w) && WRegistered(w, e) && WRegistered(w, replacement) && e.id != replacement.id
    ensures ReplaceEntityW(w, e, replacement).Ok?
    ensures WorldValid(ReplaceEntityW(w, e, replacement).value)
    ensures ReplaceEntityW(w, e, replacement).value.entityGrid
            == (w.entityGrid - {e.id})[replacement.id := GridOf(e.coord)]
    ensures EntityAtW(ReplaceEntityW(w, e, replacement).value, e.coord) == Some(replacement.(coord := e.coord))
  {
    RemoveWValid(w, e.id);
    RemoveWKeeps(w, e.id, replacement);
    RemoveWFrees(w, e);
    MoveWValid(RemoveEntityIDW(w, e.id), replacement, e.coord);
  }

  /** Two distinct registered entities stand on distinct tiles. */
  lemma DistinctTiles(w: World, a: Entity, b: Entity)
    requires WorldValid(w) && WRegistered(w, a) && WRegistered(w, b) && a.id != b.id
    ensures a.coord != b.coord
  {
    RegisteredOccupies(w, a);
    RegisteredOccupies(w, b);
  }

  /** `SwapEntities` of two distinct registered entities: each ends on the
      other's tile and the index follows. */
  lemma SwapWValid(w: World, a: Entity, b: Entity)
    requires WorldValid(w) && WRegistered(w, a) && WRegistered(w, b) && a.id != b.id
    ensures SwapEntitiesW(w, a, b).Ok?
    ensures WorldValid(SwapEntitiesW(w, a, b).value)
    ensures SwapEntitiesW(w, a, b).value.entityGrid
            == w.entityGrid[a.id := GridOf(b.coord)][b.id := GridOf(a.coord)]
    ensures EntityAtW(SwapEntitiesW(w, a, b).value, b.coord) == Some(a.(coord := b.coord))
    ensures EntityAtW(SwapEntitiesW(w, a, b).value, a.coord) == Some(b.(coord := a.coord))
  {
    DistinctTiles(w, a, b);
    SwapRemoveBoth(w, a, b);
    SwapPutBoth(RemoveEntityIDW(RemoveEntityIDW(w, a.id), b.id), a, b);
    UpdateAfterRemove(w.entityGrid, a.id, b.id, GridOf(b.coord), GridOf(a.coord));
  }

  lemma UpdateAfterRemove<K, V>(m: map<K, V>, a: K, b: K, x: V, y: V)
    ensures (m - {a} - {b})[a := x][b := y] == m[a := x][b := y]
  {
  }

  /** The first half of `SwapEntities`: both leave and free their tiles. */
  lemma SwapRemoveBoth(w: World, a: Entity, b: Entity)
    requires WorldValid(w) && WRegistered(w, a) && WRegistered(w, b) && a.id != b.id
    ensures var w1 := RemoveEntityIDW(RemoveEntityIDW(w, a.id), b.id);
      && WorldValid(w1)
      && w1.entityGrid == w.entityGrid - {a.id} - {b.id}
      && EmptyAtW(w1, a.coord) && EmptyAtW(w1, b.coord)
  {
    var w0 := RemoveEntityIDW(w, a.id);
    RemoveWValid(w, a.id);
    RemoveWFrees(w, a);
    RemoveWKeeps(w, a.id, b);
    RemoveWValid(w0, b.id);
    RemoveWFrees(w0, b);
    RemoveWKeepsEmpty(w0, b.id, a.coord);
  }

  /** The second half of `SwapEntities`: each is placed on the other's
      tile. */
  lemma SwapPutBoth(w1: World, a: Entity, b: Entity)
    requires WorldValid(w1) && a.id !in w1.entityGrid && b.id !in w1.entityGrid && a.id != b.id
    requires a.coord != b.coord && EmptyAtW(w1, a.coord) && EmptyAtW(w1, b.coord)
    ensures PutEntityAtW(w1, a, b.coord).Ok?
    ensures var w2 := PutEntityAtW(w1, a, b.coord).value;
      && PutEntityAtW(w2, b, a.coord).Ok?
      && WorldValid(PutEntityAtW(w2, b, a.coord).value)
      && PutEntityAtW(w2, b, a.coord).value.entityGrid == w1.entityGrid[a.id := GridOf(b.coord)][b.id := GridOf(a.coord)]
      && EntityAtW(PutEntityAtW(w2, b, a.coord).value, b.coord) == Some(a.(coord := b.coord))
      && EntityAtW(PutEntityAtW(w2, b, a.coord).value, a.coord) == Some(b.(coord := a.coord))
  {
    PutWValid(w1, a, b.coord);
    var w2 := PutEntityAtW(w1, a, b.coord).value;
    PutWKeepsEmpty(w1, a, b.coord, a.coord);
    PutWValid(w2, b, a.coord);
    PutWKeepsEntity(w2, b, a.coord, b.coord);
  }

  /** Swapping an entity with itself removes it once too often: the second
      placement finds its id already indexed and panics. */
  lemma SwapSelfCrashes(w: World, a: Entity)
    requires WorldValid(w) && WRegistered(w, a)
    ensures SwapEntitiesW(w, a, a).Crash?
  {
    RemoveWValid(w, a.id);
    RemoveWFrees(w, a);
    var w1 := RemoveEntityIDW(RemoveEntityIDW(w, a.id), a.id);
    assert w1 == RemoveEntityIDW(w, a.id);
    PutWValid(w1, a, a.coord);
  }

  // ---------------------------------------------------------------------
  // ExecuteMove on the world

  /** The world after a move and the branch taken. */
  datatype WorldStep = WorldStep(w: World, outcome: Outcome)

  function Then(r: Result<World>, outcome: Outcome): Result<WorldStep> {
    match r
    case Ok(w) => Ok(WorldStep(w, outcome))
    case Crash(msg) => Crash(msg)
  }

  /** `ExecuteMove` with the world as keeper. The world's `OutOfBounds` is
      constantly false, so no move is deferred and `MoveCommit` always
      runs. */
  function ExecuteMoveW(w: World, ntt: Entity, loc: Coord, walkableAt: Coord -> bool,
                        canSwapWith: (Entity, Entity) -> bool): Result<WorldStep>
  {
    var outcome := Resolve(ntt, false, walkableAt(loc), EntityAtW(w, loc), canSwapWith);
    match outcome
    case Swapped(other) => Then(SwapEntitiesW(w, ntt, other), outcome)
    case Replaced(other) => Then(ReplaceEntityW(w, other, ntt), outcome)
    case Moved => Then(MoveEntityW(w, ntt, loc), outcome)
    case _ => Ok(WorldStep(w, outcome))
  }

  /** Two registrations of one id are the same entity. */
  lemma RegisteredUnique(w: World, a: Entity, b: Entity)
    requires WRegistered(w, a) && WRegistered(w, b) && a.id == b.id
    ensures a == b
  {
  }

  /** A move by a registered entity panics exactly when it targets its own
      tile and then either swaps with or replaces itself; otherwise it
      keeps the index consistent and is never deferred. */
  lemma ExecuteMoveWValid(w: World, ntt: Entity, loc: Coord, walkableAt: Coord -> bool,
                          canSwapWith: (Entity, Entity) -> bool)
    requires WorldValid(w) && WRegistered(w, ntt)
    ensures ExecuteMoveW(w, ntt, loc, walkableAt, canSwapWith).Crash? <==>
              loc == ntt.coord && walkableAt(loc) && (canSwapWith(ntt, ntt) || ntt.walkable)
    ensures var r := ExecuteMoveW(w, ntt, loc, walkableAt, canSwapWith);
      r.Ok? ==> WorldValid(r.value.w) && r.value.outcome != Deferred
    ensures var r := ExecuteMoveW(w, ntt, loc, walkableAt, canSwapWith);
      r.Ok? && (r.value.outcome.Collided? || r.value.outcome == HitWall) ==> r.value.w == w
    ensures var r := ExecuteMoveW(w, ntt, loc, walkableAt, canSwapWith);
      r.Ok? && r.value.outcome == Moved ==>
        && EntityAtW(r.value.w, loc) == Some(ntt.(coord := loc))
        && r.value.w.entityGrid == w.entityGrid[ntt.id := GridOf(loc)]
    ensures var r := ExecuteMoveW(w, ntt, loc, walkableAt, canSwapWith);
      r.Ok? && r.value.outcome.Swapped? ==>
        && EntityAtW(r.value.w, loc) == Some(ntt.(coord := loc))
        && EntityAtW(r.value.w, ntt.coord) == Some(r.value.outcome.other.(coord := ntt.coord))
    ensures var r := ExecuteMoveW(w, ntt, loc, walkableAt, canSwapWith);
      r.Ok? && r.value.outcome.Replaced? ==>
        && EntityAtW(r.value.w, loc) == Some(ntt.(coord := loc))
        && r.value.outcome.other.id !in r.value.w.entityGrid
  {
    RegisteredOccupies(w, ntt);
    EntityAtWFound(w, loc);
    var outcome := Resolve(ntt, false, walkableAt(loc), EntityAtW(w, loc), canSwapWith);
    match outcome
    case Swapped(other) =>
      if other.id == ntt.id {
        RegisteredUnique(w, other, ntt);
        SwapSelfCrashes(w, ntt);
      } else {
        SwapWValid(w, ntt, other);
      }
    case Replaced(other) =>
      if other.id == ntt.id {
        RegisteredUnique(w, other, ntt);
        ReplaceSelfCrashes(w, ntt);
      } else {
        ReplaceWValid(w, other, ntt);
      }
    case Moved =>
      MoveWValid(w, ntt, loc);
    case Collided(other) =>
      if loc == ntt.coord {
        RegisteredUnique(w, other, ntt);
      }
    case HitWall =>
    case Deferred =>
  }

  /** Replacing an entity by itself removes it and then moves it as if it
      were still indexed, which panics. */
  lemma ReplaceSelfCrashes(w: World, e: Entity)
    requires WorldValid(w) && WRegistered(w, e)
    ensures ReplaceEntityW(w, e, e).Crash?
  {
    RemoveWValid(w, e.id);
  }
}
