/** `WorldGrid.discardEmpty` (grid.go): bury the dead each shard and the
    world have collected, drop shards left with no occupied tile, and clear
    the death lists. An entity's `DeathSpawn` is a parameter; Go's map
    iteration order is the parameter `order`. */
module Deaths {
  import opened Wrappers
  import opened Coords
  import opened Shard
  import opened Worlds

  /** `MarkDead` on the world: the id joins the end of the world's death
      list and nothing else changes. */
  function MarkDeadW(w: World, e: Entity): (r: World)
    ensures |r.deaths| == |w.deaths| + 1 && r.deaths[..|w.deaths|] == w.deaths
    ensures r.deaths[|w.deaths|] == e.id
    ensures r.grid == w.grid && r.entityGrid == w.entityGrid && r.spawnGrids == w.spawnGrids
    ensures WorldValid(w) ==> WorldValid(r)
  {
    w.(deaths := w.deaths + [e.id])
  }

  /** One dead id: look the entity up, take it out and put its death spawn,
      if any, on its tile. For an id the index does not know, Go calls a
      method on the nil entity `EntityByID` returns and panics. */
  function Bury(w: World, id: EntityId, deathSpawn: Entity -> Option<Entity>): Result<World> {
    var (dead, w1) := EntityByIDW(w, id);
    match dead
    case None => Crash("method call on a nil entity")
    case Some(d) =>
      var w2 := RemoveEntityIDW(w1, id);
      match deathSpawn(d)
      case None => Ok(w2)
      case Some(spawn) => PutEntityAtW(w2, spawn, d.coord)
  }

  function BuryAll(w: World, ids: seq<EntityId>, deathSpawn: Entity -> Option<Entity>): Result<World>
    decreases |ids|
  {
    if ids == [] then Ok(w)
    else
      match Bury(w, ids[0], deathSpawn)
      case Ok(w1) => BuryAll(w1, ids[1..], deathSpawn)
      case Crash(msg) => Crash(msg)
  }

  /** The body of the first loop of `discardEmpty` for one cell: bury the
      shard's dead, clear its list, and delete the shard once `Count()`
      (the number of occupied tiles) is zero. */
  function DiscardShard(w: World, gc: GridCoord, deathSpawn: Entity -> Option<Entity>): Result<World> {
    if gc !in w.grid then Ok(w)
    else
      match BuryAll(w, w.grid[gc].deaths, deathSpawn)
      case Crash(msg) => Crash(msg)
      case Ok(w1) =>
        // Go holds on to the shard itself; burying never deletes a shard, so
        // the cell still has one here
        if gc !in w1.grid then Ok(w1)
        else
          var sg := w1.grid[gc].(deaths := []);
          if |sg.grid| == 0 then Ok(w1.(grid := w1.grid - {gc}))
          else Ok(w1.(grid := w1.grid[gc := sg]))
  }

  /** The first loop, visiting the cells in `order`; a cell deleted before
      its turn is not visited. */
  function DiscardShards(w: World, order: seq<GridCoord>, deathSpawn: Entity -> Option<Entity>): Result<World>
    decreases |order|
  {
    if order == [] then Ok(w)
    else
      match DiscardShard(w, order[0], deathSpawn)
      case Ok(w1) => DiscardShards(w1, order[1..], deathSpawn)
      case Crash(msg) => Crash(msg)
  }

  /** `discardEmpty`. */
  function DiscardEmpty(w: World, order: seq<GridCoord>, deathSpawn: Entity -> Option<Entity>): Result<World> {
    match DiscardShards(w, order, deathSpawn)
    case Crash(msg) => Crash(msg)
    case Ok(w1) =>
      match BuryAll(w1, w1.deaths, deathSpawn)
      case Ok(w2) => Ok(w2.(deaths := []))
      case Crash(msg) => Crash(msg)
  }

  // ---------------------------------------------------------------------
  // The index invariant

  /** The entity registered under an indexed id. */
  function Registration(w: World, id: EntityId): Entity
    requires id in w.entityGrid && w.entityGrid[id] in w.grid && id in w.grid[w.entityGrid[id]].entities
  {
    w.grid[w.entityGrid[id]].entities[id]
  }

  /** Burying panics exactly for an unknown id or a death spawn whose id is
      still indexed; otherwise the index stays consistent, the dead id
      leaves it (unless its spawn reuses it) and the spawn stands on the
      dead entity's tile. */
  lemma BuryValid(w: World, id: EntityId, deathSpawn: Entity -> Option<Entity>)
    requires WorldValid(w)
    ensures Bury(w, id, deathSpawn).Crash? <==>
              || id !in w.entityGrid
              || (var ds := deathSpawn(Registration(w, id)); ds.Some? && ds.value.id in w.entityGrid - {id})
    ensures Bury(w, id, deathSpawn).Ok? ==> WorldValid(Bury(w, id, deathSpawn).value)
    ensures Bury(w, id, deathSpawn).Ok? ==> Bury(w, id, deathSpawn).value.deaths == w.deaths
    ensures Bury(w, id, deathSpawn).Ok? && deathSpawn(Registration(w, id)).None? ==>
              Bury(w, id, deathSpawn).value.entityGrid == w.entityGrid - {id}
    ensures Bury(w, id, deathSpawn).Ok? && deathSpawn(Registration(w, id)).Some? ==>
              var d := Registration(w, id);
              && EntityAtW(Bury(w, id, deathSpawn).value, d.coord) == Some(deathSpawn(d).value.(coord := d.coord))
              && Bury(w, id, deathSpawn).value.entityGrid == (w.entityGrid - {id})[deathSpawn(d).value.id := w.entityGrid[id]]
  {
    if id in w.entityGrid {
      var d := Registration(w, id);
      assert EntityByIDW(w, id) == (Some(d), w);
      RemoveWValid(w, id);
      RemoveWFrees(w, d);
      if deathSpawn(d).Some? {
        var spawn := deathSpawn(d).value;
        var w2 := RemoveEntityIDW(w, id);
        PutWCrash(w2, spawn, d.coord);
        if spawn.id !in w2.entityGrid {
          PutWValid(w2, spawn, d.coord);
          RegisteredOccupies(w, d);
        }
      }
    }
  }

  /** Burying a list keeps the index consistent whenever it does not panic. */
  lemma {:induction false} BuryAllValid(w: World, ids: seq<EntityId>, deathSpawn: Entity -> Option<Entity>)
    requires WorldValid(w)
    ensures BuryAll(w, ids, deathSpawn).Ok? ==> WorldValid(BuryAll(w, ids, deathSpawn).value)
    ensures BuryAll(w, ids, deathSpawn).Ok? ==> BuryAll(w, ids, deathSpawn).value.deaths == w.deaths
    decreases |ids|
  {
    if ids != [] {
      BuryValid(w, ids[0], deathSpawn);
      if Bury(w, ids[0], deathSpawn).Ok? {
        BuryAllValid(Bury(w, ids[0], deathSpawn).value, ids[1..], deathSpawn);
      }
    }
  }

  /** Burying an indexed id touches only the shard the index files it
      under: no shard appears or disappears, every other shard stays as it
      was, and that shard keeps its death list. */
  lemma BuryLocal(w: World, id: EntityId, deathSpawn: Entity -> Option<Entity>)
    requires WorldValid(w) && id in w.entityGrid
    ensures Bury(w, id, deathSpawn).Ok? ==>
              var (g, r) := (w.entityGrid[id], Bury(w, id, deathSpawn).value);
              && r.grid.Keys == w.grid.Keys
              && (forall g' :: g' in w.grid && g' != g ==> r.grid[g'] == w.grid[g'])
              && r.grid[g].deaths == w.grid[g].deaths
  {
    var d := Registration(w, id);
    var g := w.entityGrid[id];
    assert EntityByIDW(w, id) == (Some(d), w);
    RemoveWGrid(w, id);
    if deathSpawn(d).Some? && Bury(w, id, deathSpawn).Ok? {
      RegisteredOccupies(w, d);
      PutWGrid(RemoveEntityIDW(w, id), deathSpawn(d).value, d.coord);
    }
  }

  /** Removing an indexed id replaces its own shard and no other. */
  lemma RemoveWGrid(w: World, id: EntityId)
    requires WorldValid(w) && id in w.entityGrid
    ensures w.entityGrid[id] in w.grid
    ensures RemoveEntityIDW(w, id).grid == w.grid[w.entityGrid[id] := RemoveEntityID(w.grid[w.entityGrid[id]], id)]
  {
  }

  /** Placing on a tile of a cell with a shard replaces that shard and no
      other. */
  lemma PutWGrid(w: World, e: Entity, loc: Coord)
    requires GridOf(loc) in w.grid && PutEntityAtW(w, e, loc).Ok?
    ensures PutEntityAt(w.grid[GridOf(loc)], e, loc).Ok?
    ensures PutEntityAtW(w, e, loc).value.grid == w.grid[GridOf(loc) := PutEntityAt(w.grid[GridOf(loc)], e, loc).value]
  {
  }

  /** Every id of `ids` that the index knows is filed under `g`. */
  predicate FiledUnder(w: World, ids: seq<EntityId>, g: GridCoord) {
    forall k :: 0 <= k < |ids| && ids[k] in w.entityGrid ==> w.entityGrid[ids[k]] == g
  }

  /** `BuryLocal` for a list whose ids all belong to one shard: a spawn is
      filed under the dead entity's shard, so the rest of the list still
      belongs to it. */
  lemma {:induction false} BuryAllLocal(w: World, ids: seq<EntityId>, g: GridCoord, deathSpawn: Entity -> Option<Entity>)
    requires WorldValid(w) && g in w.grid && FiledUnder(w, ids, g)
    ensures BuryAll(w, ids, deathSpawn).Ok? ==>
              var r := BuryAll(w, ids, deathSpawn).value;
              && r.grid.Keys == w.grid.Keys
              && (forall g' :: g' in w.grid && g' != g ==> r.grid[g'] == w.grid[g'])
              && r.grid[g].deaths == w.grid[g].deaths
    decreases |ids|
  {
    if ids != [] {
      BuryValid(w, ids[0], deathSpawn);
      if Bury(w, ids[0], deathSpawn).Ok? {
        BuryLocal(w, ids[0], deathSpawn);
        var w1 := Bury(w, ids[0], deathSpawn).value;
        assert w.entityGrid[ids[0]] == g;
        forall k | 0 <= k < |ids[1..]| && ids[1..][k] in w1.entityGrid
          ensures w1.entityGrid[ids[1..][k]] == g
        {
          assert ids[1..][k] == ids[k + 1];
        }
        BuryAllLocal(w1, ids[1..], g, deathSpawn);
      }
    }
  }

  /** Under a consistent index, burying never adds or deletes a shard. */
  lemma {:induction false} BuryAllKeys(w: World, ids: seq<EntityId>, deathSpawn: Entity -> Option<Entity>)
    requires WorldValid(w)
    ensures BuryAll(w, ids, deathSpawn).Ok? ==> BuryAll(w, ids, deathSpawn).value.grid.Keys == w.grid.Keys
    decreases |ids|
  {
    if ids != [] {
      BuryValid(w, ids[0], deathSpawn);
      if Bury(w, ids[0], deathSpawn).Ok? {
        BuryLocal(w, ids[0], deathSpawn);
        BuryAllKeys(Bury(w, ids[0], deathSpawn).value, ids[1..], deathSpawn);
      }
    }
  }

  /** Burying a list is burying all but its last id, then the last. */
  lemma {:induction false} BuryAllSnoc(w: World, ids: seq<EntityId>, id: EntityId, deathSpawn: Entity -> Option<Entity>)
    ensures BuryAll(w, ids + [id], deathSpawn) ==
              match BuryAll(w, ids, deathSpawn)
              case Ok(v) => Bury(v, id, deathSpawn)
              case Crash(msg) => Crash(msg)
    decreases |ids|
  {
    if ids == [] {
      assert ids + [id] == [id];
    } else {
      assert (ids + [id])[1..] == ids[1..] + [id];
      if Bury(w, ids[0], deathSpawn).Ok? {
        BuryAllSnoc(Bury(w, ids[0], deathSpawn).value, ids[1..], id, deathSpawn);
      }
    }
  }

  /** An entity marked dead on the world is out of the index after the next
      `discardEmpty`, unless some death spawn takes over its id. */
  lemma MarkDeadBuried(w: World, e: Entity, order: seq<GridCoord>, deathSpawn: Entity -> Option<Entity>)
    requires WorldValid(w)
    requires forall x :: deathSpawn(x).Some? ==> deathSpawn(x).value.id != e.id
    ensures DiscardEmpty(MarkDeadW(w, e), order, deathSpawn).Ok? ==>
              e.id !in DiscardEmpty(MarkDeadW(w, e), order, deathSpawn).value.entityGrid
  {
    var m := MarkDeadW(w, e);
    assert m.deaths == w.deaths + [e.id];
    DiscardShardsValid(m, order, deathSpawn);
    if DiscardShards(m, order, deathSpawn).Ok? {
      var w1 := DiscardShards(m, order, deathSpawn).value;
      BuryAllSnoc(w1, w.deaths, e.id, deathSpawn);
      BuryAllValid(w1, w.deaths, deathSpawn);
      if BuryAll(w1, w.deaths, deathSpawn).Ok? {
        BuryValid(BuryAll(w1, w.deaths, deathSpawn).value, e.id, deathSpawn);
      }
    }
  }

  /** A shard with no occupied tile holds no entity, so nothing is indexed
      under it and it can go. */
  lemma DropEmptyShard(w: World, gc: GridCoord)
    requires WorldValid(w) && gc in w.grid && |w.grid[gc].grid| == 0
    ensures WorldValid(w.(grid := w.grid - {gc}))
  {
    NoTileNoEntity(w.grid[gc]);
    DropShardSound(w, gc);
    DropShardRest(w, gc);
  }

  lemma DropShardRest(w: World, gc: GridCoord)
    requires ShardsValid(w.grid) && IndexComplete(w.grid, w.entityGrid)
    ensures ShardsValid(w.grid - {gc}) && IndexComplete(w.grid - {gc}, w.entityGrid)
  {
    ShardsValidRemove(w.grid, gc);
    CompleteRemove(w, gc);
  }

  lemma CompleteRemove(w: World, gc: GridCoord)
    requires IndexComplete(w.grid, w.entityGrid)
    ensures IndexComplete(w.grid - {gc}, w.entityGrid)
  {
    var r := w.(grid := w.grid - {gc});
    forall g, id | g in r.grid && id in r.grid[g].entities
      ensures id in r.entityGrid && r.entityGrid[id] == g
    {
      assert r.grid[g] == w.grid[g];
    }
  }

  lemma ShardsValidRemove(grid: map<GridCoord, SubGrid>, gc: GridCoord)
    requires ShardsValid(grid)
    ensures ShardsValid(grid - {gc})
  {
    forall g | g in grid - {gc}
      ensures Valid((grid - {gc})[g]) && (grid - {gc})[g].gridCoord == g
    {
      assert (grid - {gc})[g] == grid[g];
    }
  }

  lemma NoTileNoEntity(sg: SubGrid)
    requires Valid(sg) && |sg.grid| == 0
    ensures sg.entities == map[]
  {
    assert sg.grid.Keys == {};
  }

  lemma DropShardSound(w: World, gc: GridCoord)
    requires IndexSound(w.grid, w.entityGrid) && gc in w.grid && w.grid[gc].entities == map[]
    ensures IndexSound(w.grid - {gc}, w.entityGrid)
  {
    forall id | id in w.entityGrid
      ensures w.entityGrid[id] != gc
    {
    }
  }

  /** Clearing a shard's death list keeps the index. */
  lemma ClearDeaths(w: World, gc: GridCoord)
    requires WorldValid(w) && gc in w.grid
    ensures WorldValid(w.(grid := w.grid[gc := w.grid[gc].(deaths := [])]))
  {
    FollowsSame(w, gc, w.grid[gc].(deaths := []));
    ReplaceShard(w, gc, w.grid[gc].(deaths := []), w.entityGrid);
  }

  /** One cell of `discardEmpty`: the index stays consistent, the cell's
      death list is cleared, and after its dead are buried the shard is
      deleted exactly when no tile of it is taken; no other shard appears
      or disappears. */
  lemma DiscardShardValid(w: World, gc: GridCoord, deathSpawn: Entity -> Option<Entity>)
    requires WorldValid(w)
    ensures DiscardShard(w, gc, deathSpawn).Ok? ==> WorldValid(DiscardShard(w, gc, deathSpawn).value)
    ensures DiscardShard(w, gc, deathSpawn).Ok? ==> DiscardShard(w, gc, deathSpawn).value.deaths == w.deaths
    ensures DiscardShard(w, gc, deathSpawn).Ok? ==> Cleared(DiscardShard(w, gc, deathSpawn).value, gc)
    ensures DiscardShard(w, gc, deathSpawn).Ok? ==>
              DiscardShard(w, gc, deathSpawn).value.grid.Keys - {gc} == w.grid.Keys - {gc}
    ensures DiscardShard(w, gc, deathSpawn).Ok? && gc in w.grid ==>
              && BuryAll(w, w.grid[gc].deaths, deathSpawn).Ok?
              && var (w1, r) := (BuryAll(w, w.grid[gc].deaths, deathSpawn).value, DiscardShard(w, gc, deathSpawn).value);
                 && gc in w1.grid
                 && (gc in r.grid <==> |w1.grid[gc].grid| > 0)
                 && (gc in r.grid ==> r.grid[gc] == w1.grid[gc].(deaths := []))
  {
    if gc in w.grid {
      BuryAllValid(w, w.grid[gc].deaths, deathSpawn);
      BuryAllKeys(w, w.grid[gc].deaths, deathSpawn);
      var r := BuryAll(w, w.grid[gc].deaths, deathSpawn);
      if r.Ok? && gc in r.value.grid {
        if |r.value.grid[gc].grid| == 0 {
          DropEmptyShard(r.value, gc);
        } else {
          ClearDeaths(r.value, gc);
        }
      }
    }
  }

  /** A cell without a shard, or whose shard's death list is empty. */
  predicate Cleared(w: World, gc: GridCoord) {
    gc in w.grid ==> w.grid[gc].deaths == []
  }

  lemma {:induction false} DiscardShardsValid(w: World, order: seq<GridCoord>, deathSpawn: Entity -> Option<Entity>)
    requires WorldValid(w)
    ensures DiscardShards(w, order, deathSpawn).Ok? ==> WorldValid(DiscardShards(w, order, deathSpawn).value)
    ensures DiscardShards(w, order, deathSpawn).Ok? ==> DiscardShards(w, order, deathSpawn).value.deaths == w.deaths
    decreases |order|
  {
    if order != [] {
      DiscardShardValid(w, order[0], deathSpawn);
      if DiscardShard(w, order[0], deathSpawn).Ok? {
        DiscardShardsValid(DiscardShard(w, order[0], deathSpawn).value, order[1..], deathSpawn);
      }
    }
  }

  /** `discardEmpty` keeps the index consistent whenever it does not panic,
      and leaves the world's death list empty. */
  lemma DiscardEmptyValid(w: World, order: seq<GridCoord>, deathSpawn: Entity -> Option<Entity>)
    requires WorldValid(w)
    ensures DiscardEmpty(w, order, deathSpawn).Ok? ==> WorldValid(DiscardEmpty(w, order, deathSpawn).value)
    ensures DiscardEmpty(w, order, deathSpawn).Ok? ==> DiscardEmpty(w, order, deathSpawn).value.deaths == []
  {
    DiscardShardsValid(w, order, deathSpawn);
    var r := DiscardShards(w, order, deathSpawn);
    if r.Ok? {
      var w1 := r.value;
      BuryAllValid(w1, w1.deaths, deathSpawn);
      var r2 := BuryAll(w1, w1.deaths, deathSpawn);
      if r2.Ok? {
        assert DiscardEmpty(w, order, deathSpawn) == Ok(r2.value.(deaths := []));
      }
    }
  }

  // ---------------------------------------------------------------------
  // Which shards survive

  /** Each shard's death list names only the shard's own entities, as it
      does when entities are marked dead on their own shard. */
  predicate DeathsOwned(w: World) {
    forall g :: g in w.grid ==> DeathsHeld(w.grid[g])
  }

  /** With death lists owned by their shards, one cell of `discardEmpty`
      changes no other cell, and leaves its own shard, if still there, with
      a tile taken and no dead. */
  lemma DiscardShardLocal(w: World, gc: GridCoord, deathSpawn: Entity -> Option<Entity>)
    requires WorldValid(w) && DeathsOwned(w)
    ensures DiscardShard(w, gc, deathSpawn).Ok? ==>
              var r := DiscardShard(w, gc, deathSpawn).value;
              && DeathsOwned(r)
              && (forall g :: g != gc ==> (g in r.grid <==> g in w.grid) && (g in w.grid ==> r.grid[g] == w.grid[g]))
              && (gc in r.grid ==> |r.grid[gc].grid| > 0 && r.grid[gc].deaths == [])
  {
    DiscardShardValid(w, gc, deathSpawn);
    if gc in w.grid && DiscardShard(w, gc, deathSpawn).Ok? {
      var ids := w.grid[gc].deaths;
      assert FiledUnder(w, ids, gc) by {
        assert DeathsHeld(w.grid[gc]);
        forall k | 0 <= k < |ids| && ids[k] in w.entityGrid
          ensures w.entityGrid[ids[k]] == gc
        {
          assert ids[k] in w.grid[gc].entities;
        }
      }
      BuryAllLocal(w, ids, gc, deathSpawn);
      var w1 := BuryAll(w, ids, deathSpawn).value;
      var r := DiscardShard(w, gc, deathSpawn).value;
      assert r.grid == if |w1.grid[gc].grid| == 0 then w1.grid - {gc} else w1.grid[gc := w1.grid[gc].(deaths := [])];
      forall g | g != gc
        ensures (g in r.grid <==> g in w.grid) && (g in w.grid ==> r.grid[g] == w.grid[g])
      {
        assert g in r.grid <==> g in w1.grid;
        if g in w.grid {
          assert r.grid[g] == w1.grid[g];
        }
      }
      forall g | g in r.grid
        ensures DeathsHeld(r.grid[g])
      {
        if g != gc {
          assert DeathsHeld(w.grid[g]);
        }
      }
    }
  }

  /** The first loop of `discardEmpty`, with death lists owned by their
      shards: every visited cell that keeps its shard has a tile taken and
      no dead, and unvisited cells are untouched. */
  lemma {:induction false} DiscardShardsLocal(w: World, order: seq<GridCoord>, deathSpawn: Entity -> Option<Entity>)
    requires WorldValid(w) && DeathsOwned(w)
    ensures DiscardShards(w, order, deathSpawn).Ok? ==>
              var r := DiscardShards(w, order, deathSpawn).value;
              && DeathsOwned(r)
              && (forall g :: g in order && g in r.grid ==> |r.grid[g].grid| > 0 && r.grid[g].deaths == [])
              && (forall g :: g !in order ==> (g in r.grid <==> g in w.grid) && (g in w.grid ==> r.grid[g] == w.grid[g]))
    decreases |order|
  {
    if order != [] {
      DiscardShardValid(w, order[0], deathSpawn);
      DiscardShardLocal(w, order[0], deathSpawn);
      if DiscardShard(w, order[0], deathSpawn).Ok? {
        var w1 := DiscardShard(w, order[0], deathSpawn).value;
        DiscardShardsLocal(w1, order[1..], deathSpawn);
        var r := DiscardShards(w, order, deathSpawn);
        assert r == DiscardShards(w1, order[1..], deathSpawn);
        forall g | g !in order
          ensures g != order[0] && g !in order[1..]
        {
          assert order == [order[0]] + order[1..];
        }
        forall g | g in order && !(g in order[1..])
          ensures g == order[0]
        {
          assert order == [order[0]] + order[1..];
        }
      }
    }
  }

  /** `discardEmpty` on a world with an empty world death list and death
      lists owned by their shards: every visited cell that keeps its shard
      has a tile taken and no dead; when `order` lists every cell with a
      shard, no empty shard is left anywhere. */
  lemma DiscardEmptyDrops(w: World, order: seq<GridCoord>, deathSpawn: Entity -> Option<Entity>)
    requires WorldValid(w) && DeathsOwned(w) && w.deaths == []
    ensures DiscardEmpty(w, order, deathSpawn).Ok? ==>
              var r := DiscardEmpty(w, order, deathSpawn).value;
              forall g :: g in order && g in r.grid ==> |r.grid[g].grid| > 0 && r.grid[g].deaths == []
    ensures DiscardEmpty(w, order, deathSpawn).Ok? && (forall g :: g in w.grid ==> g in order) ==>
              var r := DiscardEmpty(w, order, deathSpawn).value;
              forall g :: g in r.grid ==> |r.grid[g].grid| > 0 && r.grid[g].deaths == []
  {
    DiscardShardsValid(w, order, deathSpawn);
    DiscardShardsLocal(w, order, deathSpawn);
    if DiscardShards(w, order, deathSpawn).Ok? {
      var w1 := DiscardShards(w, order, deathSpawn).value;
      assert BuryAll(w1, w1.deaths, deathSpawn) == Ok(w1);
      assert DiscardEmpty(w, order, deathSpawn) == Ok(w1.(deaths := []));
    }
  }

  /** Without an empty world death list the shard loop's guarantee does
      not last: the world's dead are buried after the shards are visited,
      so a shard emptied by them stays until the next call. */
  lemma WorldDeathLeavesEmptyShard()
    ensures var g := GridCoord(0, 0);
            var e := Entity(1, Coord(0, 0), false, false);
            var sg := SubGrid(g, map[e.coord := e.id], map[e.id := e], 0, [], []);
            var w := World(map[g := sg], map[e.id := g], [], [e.id]);
            && WorldValid(w) && DeathsOwned(w)
            && DiscardEmpty(w, [g], _ => None).Ok?
            && g in DiscardEmpty(w, [g], _ => None).value.grid
            && |DiscardEmpty(w, [g], _ => None).value.grid[g].grid| == 0
  {
    var g := GridCoord(0, 0);
    var e := Entity(1, Coord(0, 0), false, false);
    assert GridOf(e.coord) == g;
  }
}
