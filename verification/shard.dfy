/** One shard of the world (grid.go `SubGrid`): the entities inside one
    79 x 25 cell, indexed both by coordinate and by id, and the resolution
    of a single move (`ExecuteMove`).

    Entities are abstract: an id, a coordinate, whether they are a player
    and whether others may walk over them. Go shares entity objects by
    reference, so `SetCoord` on an entity is seen through the `Entities` map;
    here the entity's state is its entry in `entities`. */
module Shard {
  import opened Util
  import opened Wrappers
  import opened Coords
  import opened Random

  type EntityId = nat

  datatype Entity = Entity(id: EntityId, coord: Coord, isPlayer: bool, walkable: bool)

  /** A move handed to the world because it leaves the cell. */
  datatype DeferredMove = DeferredMove(id: EntityId, loc: Coord)

  datatype SubGrid = SubGrid(
    gridCoord: GridCoord,
    grid: map<Coord, EntityId>,
    entities: map<EntityId, Entity>,
    playerCount: int,
    queue: seq<DeferredMove>,
    deaths: seq<EntityId>)

  /** `NewSubGrid`: a shard of the cell with no tile taken, no entity, no
      player, and nothing queued or dead. */
  function NewSubGrid(gc: GridCoord): (sg: SubGrid)
    ensures Valid(sg) && sg.gridCoord == gc
    ensures |sg.grid| == 0 && sg.entities == map[] && sg.playerCount == 0
    ensures sg.queue == [] && sg.deaths == []
  {
    SubGrid(gc, map[], map[], 0, [], [])
  }

  function PlayerIds(entities: map<EntityId, Entity>): set<EntityId> {
    set id | id in entities && entities[id].isPlayer
  }

  /** The index invariant: the two maps are inverse to each other, every
      entity lies in this cell and the player count is exact. */
  predicate Valid(sg: SubGrid) {
    && (forall c :: c in sg.grid ==> sg.grid[c] in sg.entities && sg.entities[sg.grid[c]].coord == c)
    && (forall id :: id in sg.entities ==>
          && sg.entities[id].id == id
          && sg.entities[id].coord in sg.grid
          && sg.grid[sg.entities[id].coord] == id)
    && (forall id {:trigger GridOf(sg.entities[id].coord)} :: id in sg.entities ==> GridOf(sg.entities[id].coord) == sg.gridCoord)
    && sg.playerCount == |PlayerIds(sg.entities)|
  }

  /** The entity as the shard knows it. */
  predicate Registered(sg: SubGrid, e: Entity) {
    e.id in sg.entities && sg.entities[e.id] == e
  }

  function EmptyAt(sg: SubGrid, loc: Coord): (r: bool)
    ensures Valid(sg) ==> (r <==> forall id :: id in sg.entities ==> sg.entities[id].coord != loc)
  {
    loc !in sg.grid
  }

  /** The occupant of `loc`. Go answers "present" with a nil entity for a
      coordinate whose id has no entry, which `Valid` rules out. */
  function EntityAt(sg: SubGrid, loc: Coord): (r: Option<Entity>)
    ensures Valid(sg) ==> (r.Some? <==> !EmptyAt(sg, loc))
    ensures Valid(sg) && r.Some? ==> Registered(sg, r.value) && r.value.coord == loc
  {
    if loc in sg.grid && sg.grid[loc] in sg.entities then Some(sg.entities[sg.grid[loc]]) else None
  }

  function EntityByID(sg: SubGrid, id: EntityId): (r: Option<Entity>)
    ensures r.Some? <==> id in sg.entities
    ensures Valid(sg) && r.Some? ==> r.value.id == id && EntityAt(sg, r.value.coord) == r
  {
    if id in sg.entities then Some(sg.entities[id]) else None
  }

  function OutOfBounds(sg: SubGrid, c: Coord): bool {
    GridOf(c) != sg.gridCoord
  }

  /** `SubGrid.PassableAt`: free and walkable; the dungeon's walkability
      is a parameter. In a consistent shard, passable means walkable with
      no entity standing there. */
  function PassableAt(sg: SubGrid, walkableAt: Coord -> bool, loc: Coord): (r: bool)
    ensures Valid(sg) ==> (r <==> walkableAt(loc) && forall id :: id in sg.entities ==> sg.entities[id].coord != loc)
  {
    EmptyAt(sg, loc) && walkableAt(loc)
  }

  /** `SubGrid.MoveEntity`: panics for a target in another cell. */
  function MoveEntity(sg: SubGrid, e: Entity, loc: Coord): Result<SubGrid> {
    if e.coord == loc then Ok(sg)
    else if GridOf(loc) != sg.gridCoord then Crash("Should not be here!")
    else
      Ok(sg.(grid := (sg.grid - {e.coord})[loc := e.id],
             entities := if e.id in sg.entities then sg.entities[e.id := e.(coord := loc)] else sg.entities))
  }

  /** `SubGrid.PutEntityAt`: panics for a target in another cell. */
  function PutEntityAt(sg: SubGrid, e: Entity, loc: Coord): Result<SubGrid> {
    if GridOf(loc) != sg.gridCoord then Crash("Should not put outside coord!")
    else
      Ok(sg.(grid := sg.grid[loc := e.id],
             entities := sg.entities[e.id := e.(coord := loc)],
             playerCount := if e.isPlayer then sg.playerCount + 1 else sg.playerCount))
  }

  /** `SubGrid.RemoveEntityID`: removing an absent id changes nothing. */
  function RemoveEntityID(sg: SubGrid, id: EntityId): SubGrid {
    if id !in sg.entities then sg
    else
      var e := sg.entities[id];
      sg.(grid := sg.grid - {e.coord},
          entities := sg.entities - {id},
          playerCount := if e.isPlayer then sg.playerCount - 1 else sg.playerCount)
  }

  /** `SubGrid.ReplaceEntity`: `replacement` takes the place of `e`. */
  function ReplaceEntity(sg: SubGrid, e: Entity, replacement: Entity): Result<SubGrid> {
    MoveEntity(RemoveEntityID(sg, e.id), replacement, e.coord)
  }

  /** `SubGrid.SwapEntities`: panics unless both lie in this cell. */
  function SwapEntities(sg: SubGrid, a: Entity, b: Entity): Result<SubGrid> {
    if GridOf(a.coord) != sg.gridCoord || GridOf(b.coord) != sg.gridCoord then
      Crash("Subgrid swapping outside bounds!")
    else
      var ents := if a.id in sg.entities then sg.entities[a.id := a.(coord := b.coord)] else sg.entities;
      var ents := if b.id in ents then ents[b.id := b.(coord := a.coord)] else ents;
      Ok(sg.(grid := sg.grid[a.coord := b.id][b.coord := a.id], entities := ents))
  }

  /** `SubGrid.DeferMove`: queue the move for the world. The request joins
      the end of the queue, earlier requests keep their order, and nothing
      else in the shard changes. */
  function DeferMove(sg: SubGrid, e: Entity, loc: Coord): (r: SubGrid)
    ensures |r.queue| == |sg.queue| + 1 && r.queue[..|sg.queue|] == sg.queue
    ensures r.queue[|sg.queue|] == DeferredMove(e.id, loc)
    ensures r.gridCoord == sg.gridCoord && r.grid == sg.grid && r.entities == sg.entities
    ensures r.playerCount == sg.playerCount && r.deaths == sg.deaths
    ensures Valid(sg) ==> Valid(r)
  {
    sg.(queue := sg.queue + [DeferredMove(e.id, loc)])
  }

  /** `SubGrid.RandomCoord`: a tile of this cell drawn from the stream. */
  function RandomCoord(sg: SubGrid, rng: Rand): (r: (Coord, Rand))
    ensures r.1 == Rand(rng.src, rng.pos + 2)
  {
    var (lx, rng) := Intn(rng, SubgridWidth);
    var (ly, rng) := Intn(rng, SubgridHeight);
    (Coord(Wrap(Wrap(sg.gridCoord.x * SubgridWidth) + lx), Wrap(Wrap(sg.gridCoord.y * SubgridHeight) + ly)), rng)
  }

  /** A random coordinate lies in the shard's own cell whenever no tile of
      the cell wraps around int64. */
  lemma RandomCoordInCell(sg: SubGrid, rng: Rand)
    requires GridInRange(sg.gridCoord)
    ensures GridOf(RandomCoord(sg, rng).0) == sg.gridCoord
    ensures !OutOfBounds(sg, RandomCoord(sg, rng).0)
  {
    var lx := Intn(rng, SubgridWidth).0;
    var ly := Intn(Intn(rng, SubgridWidth).1, SubgridHeight).0;
    GridOfCornerOffset(sg.gridCoord, lx, ly);
  }

  /** `SubGrid.MarkDead`: the id joins the end of the shard's death list
      and nothing else changes. */
  function MarkDead(sg: SubGrid, e: Entity): (r: SubGrid)
    ensures |r.deaths| == |sg.deaths| + 1 && r.deaths[..|sg.deaths|] == sg.deaths
    ensures r.deaths[|sg.deaths|] == e.id
    ensures r.gridCoord == sg.gridCoord && r.grid == sg.grid && r.entities == sg.entities
    ensures r.playerCount == sg.playerCount && r.queue == sg.queue
    ensures Valid(sg) ==> Valid(r)
    ensures DeathsHeld(sg) && e.id in sg.entities ==> DeathsHeld(r)
  {
    sg.(deaths := sg.deaths + [e.id])
  }

  /** Every id on the death list is one of the shard's own entities, as it
      is when only the shard's entities are marked dead. */
  predicate DeathsHeld(sg: SubGrid) {
    forall k :: 0 <= k < |sg.deaths| ==> sg.deaths[k] in sg.entities
  }

  /** Moving an entity onto its own tile leaves the shard as it is, and in
      a consistent shard that is the only move that does. */
  lemma MoveStays(sg: SubGrid, e: Entity, loc: Coord)
    requires Valid(sg) && Registered(sg, e)
    ensures MoveEntity(sg, e, loc) == Ok(sg) <==> loc == e.coord
  {
    if loc != e.coord && GridOf(loc) == sg.gridCoord {
      assert MoveEntity(sg, e, loc).value.entities[e.id].coord == loc;
    }
  }

  /** The bound on placement attempts in `NewEntity`. */
  const PlacementTries := 100

  /** `SubGrid.NewEntity`: draw coordinates until one is free and walkable
      or the attempts run out, then place the entity if the last draw is
      free. Only emptiness is checked at the end, so after the last attempt
      an entity may be placed on an unwalkable tile. */
  method NewEntity(sg: SubGrid, e: Entity, walkableAt: Coord -> bool, rng: Rand)
    returns (r: SubGrid, ok: bool, loc: Coord, rng': Rand)
    ensures rng'.src == rng.src && rng.pos + 2 <= rng'.pos <= rng.pos + 2 * (PlacementTries + 1)
    ensures ok <==> EmptyAt(sg, loc)
    ensures !ok ==> r == sg
    ensures ok ==> r == sg.(grid := sg.grid[loc := e.id],
                            entities := sg.entities[e.id := e.(coord := loc)],
                            playerCount := if e.isPlayer then sg.playerCount + 1 else sg.playerCount)
    ensures ok && rng'.pos < rng.pos + 2 * (PlacementTries + 1) ==> walkableAt(loc)
    ensures rng'.pos < rng.pos + 2 * (PlacementTries + 1) ==> PassableAt(sg, walkableAt, loc)
    ensures ok && GridInRange(sg.gridCoord) ==> !OutOfBounds(sg, loc)
    ensures ok && GridInRange(sg.gridCoord) && Valid(sg) && e.id !in sg.entities ==>
              Valid(r) && EntityAt(r, loc) == Some(e.(coord := loc))
  {
    var p := RandomCoord(sg, rng);
    loc, rng' := p.0, p.1;
    if GridInRange(sg.gridCoord) { RandomCoordInCell(sg, rng); }
    var n := 0;
    while !PassableAt(sg, walkableAt, loc) && n < PlacementTries
      invariant 0 <= n <= PlacementTries
      invariant rng' == Rand(rng.src, rng.pos + 2 * (n + 1))
      invariant GridInRange(sg.gridCoord) ==> !OutOfBounds(sg, loc)
    {
      if GridInRange(sg.gridCoord) { RandomCoordInCell(sg, rng'); }
      p := RandomCoord(sg, rng');
      loc, rng' := p.0, p.1;
      n := n + 1;
    }
    if !EmptyAt(sg, loc) {
      return sg, false, loc, rng';
    }
    r := sg.(grid := sg.grid[loc := e.id],
             entities := sg.entities[e.id := e.(coord := loc)],
             playerCount := if e.isPlayer then sg.playerCount + 1 else sg.playerCount);
    ok := true;
    if GridInRange(sg.gridCoord) && Valid(sg) && e.id !in sg.entities {
      PutPreservesValid(sg, e, loc);
    }
  }

  /** Placing a new entity on a free tile of the cell keeps the index
      consistent, and the count grows exactly for a player. */
  lemma PutPreservesValid(sg: SubGrid, e: Entity, loc: Coord)
    requires Valid(sg)
    requires e.id !in sg.entities && EmptyAt(sg, loc) && !OutOfBounds(sg, loc)
    ensures PutEntityAt(sg, e, loc).Ok?
    ensures Valid(PutEntityAt(sg, e, loc).value)
    ensures EntityAt(PutEntityAt(sg, e, loc).value, loc) == Some(e.(coord := loc))
    ensures PutEntityAt(sg, e, loc).value.playerCount == sg.playerCount + (if e.isPlayer then 1 else 0)
    ensures forall id :: id in sg.entities ==> PutEntityAt(sg, e, loc).value.entities[id] == sg.entities[id]
  {
    var r := PutEntityAt(sg, e, loc).value;
    assert r.entities == sg.entities[e.id := e.(coord := loc)];
    assert r.grid == sg.grid[loc := e.id];
    if e.isPlayer {
      assert PlayerIds(r.entities) == PlayerIds(sg.entities) + {e.id};
    } else {
      assert PlayerIds(r.entities) == PlayerIds(sg.entities);
    }
  }

  /** Removing an entity removes both index entries and nothing else. */
  lemma RemovePreservesValid(sg: SubGrid, id: EntityId)
    requires Valid(sg)
    ensures Valid(RemoveEntityID(sg, id))
    ensures id !in RemoveEntityID(sg, id).entities
    ensures forall other :: other in sg.entities && other != id ==>
              other in RemoveEntityID(sg, id).entities && RemoveEntityID(sg, id).entities[other] == sg.entities[other]
    ensures id in sg.entities ==> EmptyAt(RemoveEntityID(sg, id), sg.entities[id].coord)
  {
    if id in sg.entities {
      var r := RemoveEntityID(sg, id);
      var e := sg.entities[id];
      forall c | c in r.grid
        ensures r.grid[c] in r.entities && r.entities[r.grid[c]].coord == c
      {
        assert sg.grid[c] != id;
      }
      forall other | other in r.entities
        ensures r.entities[other].coord in r.grid && r.grid[r.entities[other].coord] == other
      {
        assert sg.entities[other].coord != e.coord;
      }
      if e.isPlayer {
        assert PlayerIds(sg.entities) == PlayerIds(r.entities) + {id};
      } else {
        assert PlayerIds(r.entities) == PlayerIds(sg.entities);
      }
    }
  }

  /** Moving a registered entity onto a free tile of the cell: the old tile
      is freed, the new one points at the entity, the entity's coordinate
      is the target and no other entity moves. */
  lemma MovePreservesValid(sg: SubGrid, e: Entity, loc: Coord)
    requires Valid(sg) && Registered(sg, e)
    requires EmptyAt(sg, loc) && !OutOfBounds(sg, loc)
    ensures MoveEntity(sg, e, loc).Ok?
    ensures Valid(MoveEntity(sg, e, loc).value)
    ensures EntityAt(MoveEntity(sg, e, loc).value, loc) == Some(e.(coord := loc))
    ensures EmptyAt(MoveEntity(sg, e, loc).value, e.coord)
    ensures forall id :: id in sg.entities && id != e.id ==> MoveEntity(sg, e, loc).value.entities[id] == sg.entities[id]
    ensures MoveEntity(sg, e, loc).value.playerCount == sg.playerCount
  {
    var r := MoveEntity(sg, e, loc).value;
    assert PlayerIds(r.entities) == PlayerIds(sg.entities);
  }

  /** Swapping two registered entities exchanges their coordinates, and
      each tile then names the entity standing on it. */
  lemma SwapPreservesValid(sg: SubGrid, a: Entity, b: Entity)
    requires Valid(sg) && Registered(sg, a) && Registered(sg, b)
    ensures SwapEntities(sg, a, b).Ok?
    ensures Valid(SwapEntities(sg, a, b).value)
    ensures a.id != b.id ==> EntityAt(SwapEntities(sg, a, b).value, b.coord) == Some(a.(coord := b.coord))
    ensures a.id != b.id ==> EntityAt(SwapEntities(sg, a, b).value, a.coord) == Some(b.(coord := a.coord))
    ensures a.id == b.id ==> SwapEntities(sg, a, b).value == sg
    ensures forall id :: id in sg.entities && id != a.id && id != b.id ==> SwapEntities(sg, a, b).value.entities[id] == sg.entities[id]
  {
    var r := SwapEntities(sg, a, b).value;
    if a.id == b.id {
      assert r.grid == sg.grid;
      assert r.entities == sg.entities;
    } else {
      SwapDistinct(sg, a, b);
    }
  }

  /** The swapped shard, written out for two distinct registered entities. */
  lemma SwapShape(sg: SubGrid, a: Entity, b: Entity)
    requires Valid(sg) && Registered(sg, a) && Registered(sg, b) && a.id != b.id
    ensures a.coord != b.coord
    ensures SwapEntities(sg, a, b).Ok?
    ensures SwapEntities(sg, a, b).value
         == sg.(grid := sg.grid[a.coord := b.id][b.coord := a.id],
                entities := sg.entities[a.id := a.(coord := b.coord)][b.id := b.(coord := a.coord)])
  {
  }

  lemma SwapDistinct(sg: SubGrid, a: Entity, b: Entity)
    requires Valid(sg) && Registered(sg, a) && Registered(sg, b) && a.id != b.id
    ensures SwapEntities(sg, a, b).Ok?
    ensures Valid(SwapEntities(sg, a, b).value)
  {
    SwapShape(sg, a, b);
    var grid := sg.grid[a.coord := b.id][b.coord := a.id];
    var ents := sg.entities[a.id := a.(coord := b.coord)][b.id := b.(coord := a.coord)];
    SwapGridSide(sg, a, b, grid, ents);
    SwapEntitySide(sg, a, b, grid, ents);
    SamePlayers(sg.entities, ents);
  }

  lemma SwapGridSide(sg: SubGrid, a: Entity, b: Entity, grid: map<Coord, EntityId>, ents: map<EntityId, Entity>)
    requires Valid(sg) && Registered(sg, a) && Registered(sg, b) && a.id != b.id && a.coord != b.coord
    requires grid == sg.grid[a.coord := b.id][b.coord := a.id]
    requires ents == sg.entities[a.id := a.(coord := b.coord)][b.id := b.(coord := a.coord)]
    ensures forall c :: c in grid ==> grid[c] in ents && ents[grid[c]].coord == c
  {
    forall c | c in grid
      ensures grid[c] in ents && ents[grid[c]].coord == c
    {
      if c != a.coord && c != b.coord {
        assert grid[c] == sg.grid[c] && grid[c] != a.id && grid[c] != b.id;
      }
    }
  }

  lemma SwapEntitySide(sg: SubGrid, a: Entity, b: Entity, grid: map<Coord, EntityId>, ents: map<EntityId, Entity>)
    requires Valid(sg) && Registered(sg, a) && Registered(sg, b) && a.id != b.id && a.coord != b.coord
    requires grid == sg.grid[a.coord := b.id][b.coord := a.id]
    requires ents == sg.entities[a.id := a.(coord := b.coord)][b.id := b.(coord := a.coord)]
    ensures forall id :: id in ents ==>
              && ents[id].id == id && ents[id].coord in grid && grid[ents[id].coord] == id
              && GridOf(ents[id].coord) == sg.gridCoord
  {
    forall id | id in ents
      ensures ents[id].id == id && ents[id].coord in grid && grid[ents[id].coord] == id
      ensures GridOf(ents[id].coord) == sg.gridCoord
    {
      if id != a.id && id != b.id {
        assert ents[id] == sg.entities[id];
        assert sg.entities[id].coord != a.coord && sg.entities[id].coord != b.coord;
      }
    }
  }

  /** Moving entities around leaves the set of players alone. */
  lemma SamePlayers(m: map<EntityId, Entity>, m': map<EntityId, Entity>)
    requires m.Keys == m'.Keys
    requires forall id :: id in m ==> m[id].isPlayer == m'[id].isPlayer
    ensures PlayerIds(m) == PlayerIds(m')
  {
    forall id | id in PlayerIds(m')
      ensures id in PlayerIds(m)
    {
      assert m[id].isPlayer;
    }
  }

  /** The six ways `ExecuteMove` resolves a move. */
  datatype Outcome =
    | Deferred
    | Swapped(other: Entity)
    | Replaced(other: Entity)
    | Collided(other: Entity)
    | Moved
    | HitWall

  /** The branch `ExecuteMove` takes, given the keeper's answers about the
      target: whether it lies outside the keeper, whether the dungeon lets
      one walk there and who stands there. Exactly one outcome applies. */
  function Resolve(ntt: Entity, outOfBounds: bool, walkable: bool, occupant: Option<Entity>,
                   canSwapWith: (Entity, Entity) -> bool): (r: Outcome)
    ensures r == Deferred <==> outOfBounds
    ensures r == HitWall <==> !outOfBounds && !walkable
    ensures r == Moved <==> !outOfBounds && walkable && occupant.None?
    ensures r.Swapped? <==> !outOfBounds && walkable && occupant.Some? && canSwapWith(ntt, occupant.value)
    ensures r.Replaced? <==>
              !outOfBounds && walkable && occupant.Some? && !canSwapWith(ntt, occupant.value) && occupant.value.walkable
    ensures r.Collided? <==>
              !outOfBounds && walkable && occupant.Some? && !canSwapWith(ntt, occupant.value) && !occupant.value.walkable
    ensures (r.Swapped? || r.Replaced? || r.Collided?) ==> occupant == Some(r.other)
  {
    if outOfBounds then Deferred
    else if walkable then
      match occupant
      case Some(other) =>
        if canSwapWith(ntt, other) then Swapped(other)
        else if other.walkable then Replaced(other)
        else Collided(other)
      case None => Moved
    else HitWall
  }

  /** The shard after a move, the branch taken and whether the entity's
      `MoveCommit` ran. */
  datatype Step = Step(sg: SubGrid, outcome: Outcome, committed: bool)

  function Commit(r: Result<SubGrid>, outcome: Outcome): Result<Step> {
    match r
    case Ok(sg) => Ok(Step(sg, outcome, true))
    case Crash(msg) => Crash(msg)
  }

  /** `ExecuteMove` on a shard. The entity hooks (`CollisionFrom`,
      `CollideWall`, `MoveCommit`) belong to the entity and are reduced to
      the outcome and the `committed` flag. */
  function ExecuteMove(sg: SubGrid, ntt: Entity, loc: Coord, walkableAt: Coord -> bool,
                       canSwapWith: (Entity, Entity) -> bool): Result<Step>
  {
    var outcome := Resolve(ntt, OutOfBounds(sg, loc), walkableAt(loc), EntityAt(sg, loc), canSwapWith);
    match outcome
    case Deferred => Ok(Step(DeferMove(sg, ntt, loc), outcome, false))
    case Swapped(other) => Commit(SwapEntities(sg, ntt, other), outcome)
    case Replaced(other) => Commit(ReplaceEntity(sg, other, ntt), outcome)
    case Moved => Commit(MoveEntity(sg, ntt, loc), outcome)
    case _ => Ok(Step(sg, outcome, true))
  }

  /** A move of a registered entity never panics, keeps the index
      consistent, commits exactly when the target is inside the cell, and
      has the effect its branch names. */
  lemma ExecuteMoveValid(sg: SubGrid, ntt: Entity, loc: Coord, walkableAt: Coord -> bool,
                         canSwapWith: (Entity, Entity) -> bool)
    requires Valid(sg) && Registered(sg, ntt)
    ensures ExecuteMove(sg, ntt, loc, walkableAt, canSwapWith).Ok?
    ensures var st := ExecuteMove(sg, ntt, loc, walkableAt, canSwapWith).value;
      Valid(st.sg) && (st.committed <==> !OutOfBounds(sg, loc))
    ensures var st := ExecuteMove(sg, ntt, loc, walkableAt, canSwapWith).value;
      st.outcome == Deferred ==> st.sg == sg.(queue := sg.queue + [DeferredMove(ntt.id, loc)])
    ensures var st := ExecuteMove(sg, ntt, loc, walkableAt, canSwapWith).value;
      (st.outcome.Collided? || st.outcome == HitWall) ==> st.sg == sg
    ensures var st := ExecuteMove(sg, ntt, loc, walkableAt, canSwapWith).value;
      st.outcome == Moved ==> EntityAt(st.sg, loc) == Some(ntt.(coord := loc)) && EmptyAt(st.sg, ntt.coord)
    ensures var st := ExecuteMove(sg, ntt, loc, walkableAt, canSwapWith).value;
      (st.outcome.Swapped? && st.outcome.other.id != ntt.id) ==>
        && EntityAt(st.sg, loc) == Some(ntt.(coord := loc))
        && EntityAt(st.sg, ntt.coord) == Some(st.outcome.other.(coord := ntt.coord))
    ensures var st := ExecuteMove(sg, ntt, loc, walkableAt, canSwapWith).value;
      (st.outcome.Replaced? && st.outcome.other.id != ntt.id) ==>
        && EntityAt(st.sg, loc) == Some(ntt.(coord := loc))
        && st.outcome.other.id !in st.sg.entities
        && EmptyAt(st.sg, ntt.coord)
  {
    var outcome := Resolve(ntt, OutOfBounds(sg, loc), walkableAt(loc), EntityAt(sg, loc), canSwapWith);
    match outcome
    case Deferred =>
    case Swapped(other) =>
      SwapPreservesValid(sg, ntt, other);
    case Replaced(other) =>
      RemovePreservesValid(sg, other.id);
      var removed := RemoveEntityID(sg, other.id);
      if other.id == ntt.id {
        assert MoveEntity(removed, ntt, other.coord) == Ok(removed);
      } else {
        assert Registered(removed, ntt);
        MovePreservesValid(removed, ntt, loc);
      }
    case Moved =>
      MovePreservesValid(sg, ntt, loc);
    case Collided(_) =>
    case HitWall =>
  }
}
