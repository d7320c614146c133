/** `createDungeon` (dungen.go): clear the map, put a room in the middle,
    then up to 1000 times look for a wall or corridor cell next to open
    floor and grow a room or a corridor out of it, until `objects`
    features stand. */
module Generate {
  import opened Wrappers
  import opened Random
  import opened Dungeon
  import opened Carve

  /** The tile kinds the generator writes; stone wall, stairs and chest are
      never among them. */
  const GenTiles: set<int> := {Unused, DirtWall, DirtFloor, Corridor, Door}

  // ---------------------------------------------------------------------
  // What the carving operations write

  /** `makeCorridor` writes nothing but corridor. */
  lemma CorridorChanges(g: DunGen, x: int, y: int, length: int, direction: int)
    requires MakeCorridor(g, x, y, length, direction).Ok?
    ensures Changes(g, MakeCorridor(g, x, y, length, direction).value.1, {Corridor})
  {
    if MakeCorridor(g, x, y, length, direction).value.0 {
      CorridorCarves(g, x, y, length, direction);
    }
  }

  // ---------------------------------------------------------------------
  // The clearing loop

  /** The first loop of `createDungeon`: `setCell(x, y, TILE_UNUSED)` row
      by row over the `xsize` by `ysize` rectangle. It panics at the first
      cell outside the slice. */
  method ClearMap(g: DunGen) returns (r: Result<DunGen>)
    ensures r.Ok? <==> forall x, y :: 0 <= x < g.xsize && 0 <= y < g.ysize ==> InMap(g, Pos(x, y))
    ensures r.Ok? ==> SameShape(g, r.value) && r.value.rng == g.rng
    ensures r.Ok? ==> forall x, y :: 0 <= x < g.xsize && 0 <= y < g.ysize ==> r.value.cells[Index(g, Pos(x, y))] == Unused
    ensures r.Ok? ==> Changes(g, r.value, {Unused})
  {
    var h := g;
    var y := 0;
    while y < g.ysize
      invariant 0 <= y && (y <= g.ysize || y == 0)
      invariant SameShape(g, h) && h.rng == g.rng && Changes(g, h, {Unused})
      invariant forall x', y' :: 0 <= x' < g.xsize && 0 <= y' < y ==>
                  InMap(g, Pos(x', y')) && h.cells[Index(g, Pos(x', y'))] == Unused
    {
      var x := 0;
      while x < g.xsize
        invariant 0 <= x && (x <= g.xsize || x == 0)
        invariant SameShape(g, h) && h.rng == g.rng && Changes(g, h, {Unused})
        invariant forall x', y' :: 0 <= x' < g.xsize && 0 <= y' < y ==>
                    InMap(g, Pos(x', y')) && h.cells[Index(g, Pos(x', y'))] == Unused
        invariant forall x' :: 0 <= x' < x ==> InMap(g, Pos(x', y)) && h.cells[Index(g, Pos(x', y))] == Unused
      {
        var s := SetCell(h, x, y, Unused);
        if s.Crash? {
          assert !InMap(g, Pos(x, y));
          return Crash(s.reason);
        }
        h := s.value;
        x := x + 1;
      }
      y := y + 1;
    }
    return Ok(h);
  }

  /** With a slice of exactly `xsize * ysize` cells the clearing loop
      reaches every cell. */
  lemma ClearReachesAll(g: DunGen, i: int)
    requires g.xsize > 0 && |g.cells| == g.xsize * g.ysize && 0 <= i < |g.cells|
    ensures var p := Pos(i % g.xsize, i / g.xsize);
            0 <= p.x < g.xsize && 0 <= p.y < g.ysize && Index(g, p) == i
  {
    var p := Pos(i % g.xsize, i / g.xsize);
    assert i == p.x + g.xsize * p.y;
    if p.y >= g.ysize {
      MulMonotone(g.xsize, g.ysize, p.y);
    }
  }

  /** A map whose every rectangle cell is unused, with a slice of exactly
      the rectangle's size, holds only generator tiles. */
  lemma ClearedGenerated(g: DunGen, c: DunGen)
    requires g.xsize > 0 && |g.cells| == g.xsize * g.ysize && |c.cells| == |g.cells|
    requires forall x, y :: 0 <= x < g.xsize && 0 <= y < g.ysize ==>
               InMap(g, Pos(x, y)) && c.cells[Index(g, Pos(x, y))] == Unused
    ensures AllGenerated(c)
  {
    forall i | 0 <= i < |c.cells| ensures c.cells[i] in GenTiles {
      ClearReachesAll(g, i);
    }
  }

  /** A cleared map holds nothing but unused cells. */
  lemma ClearedUnused(g: DunGen, c: DunGen)
    requires g.xsize > 0 && |g.cells| == g.xsize * g.ysize && |c.cells| == |g.cells|
    requires forall x, y :: 0 <= x < g.xsize && 0 <= y < g.ysize ==>
               InMap(g, Pos(x, y)) && c.cells[Index(g, Pos(x, y))] == Unused
    ensures forall i :: 0 <= i < |c.cells| ==> c.cells[i] == Unused
  {
    forall i | 0 <= i < |c.cells| ensures c.cells[i] == Unused {
      ClearReachesAll(g, i);
    }
  }

  lemma MulMonotone(a: int, b: int, c: int)
    requires a > 0 && b <= c
    ensures a * b <= a * c
  {
    if b < c {
      MulAtLeastPos(a, c - b);
      assert a * c == a * b + a * (c - b);
    }
  }

  // ---------------------------------------------------------------------
  // Growing the dungeon

  /** Floor or corridor: a side a new feature can be reached from. */
  predicate Reachable(t: int) {
    t == DirtFloor || t == Corridor
  }

  /** The step from the door cell to the feature's first cell: north,
      east, south or west. */
  predicate Offset(dir: int, xmod: int, ymod: int) {
    && (dir == 0 ==> xmod == 0 && ymod == -1)
    && (dir == 1 ==> xmod == 1 && ymod == 0)
    && (dir == 2 ==> xmod == 0 && ymod == 1)
    && (dir == 3 ==> xmod == -1 && ymod == 0)
  }

  /** One probe of the inner loop at (newx, newy): a wall or corridor cell
      whose neighbour below, left of, above or right of it (checked in that
      order) is reachable gives the direction to build in and the offset
      of the feature's first cell; otherwise the direction is -1. The source
      keeps the previous offsets in that case, but never reads them. */
  function Probe(g: DunGen, newx: int, newy: int): (r: Result<(int, int, int)>)
    ensures r.Ok? ==> -1 <= r.value.0 <= 3
    ensures r.Ok? && r.value.0 >= 0 ==>
              var (dir, xmod, ymod) := r.value;
              && Offset(dir, xmod, ymod)
              && InMap(g, Pos(newx, newy)) && g.cells[Index(g, Pos(newx, newy))] in {DirtWall, Corridor}
              && InMap(g, Pos(newx - xmod, newy - ymod)) && Reachable(g.cells[Index(g, Pos(newx - xmod, newy - ymod))])
  {
    match GetCell(g, newx, newy)
    case Crash(msg) => Crash(msg)
    case Ok(t) =>
      if t != DirtWall && t != Corridor then Ok((-1, 0, 0))
      else
        match GetCell(g, newx, newy + 1)
        case Crash(msg) => Crash(msg)
        case Ok(below) =>
          if Reachable(below) then Ok((0, 0, -1))
          else
            match GetCell(g, newx - 1, newy)
            case Crash(msg) => Crash(msg)
            case Ok(left) =>
              if Reachable(left) then Ok((1, 1, 0))
              else
                match GetCell(g, newx, newy - 1)
                case Crash(msg) => Crash(msg)
                case Ok(above) =>
                  if Reachable(above) then Ok((2, 0, 1))
                  else
                    match GetCell(g, newx + 1, newy)
                    case Crash(msg) => Crash(msg)
                    case Ok(right) =>
                      if Reachable(right) then Ok((3, -1, 0)) else Ok((-1, 0, 0))
  }

  /** The body of the outer loop once a spot is found: draw a feature kind
      and build a room or a corridor. The source's second test,
      `feature >= chanceRoom`, always holds when the first fails. */
  function Build(g: DunGen, newx: int, newy: int, dir: int, xmod: int, ymod: int): (r: Result<(bool, DunGen)>)
    ensures r.Ok? ==> SameShape(g, r.value.1) && Changes(g, r.value.1, GenTiles)
  {
    var (feature, rng) := GetRand(g.rng, 0, 100).value;
    if feature <= g.chanceRoom then BuildRoom(g.(rng := rng), newx, newy, dir, xmod, ymod)
    else BuildCorridor(g.(rng := rng), newx, newy, dir, xmod, ymod)
  }

  /** A room beyond the wall, a door in the wall and floor in front of it.
      A north room that is painted but reported as not built gets neither. */
  function BuildRoom(g: DunGen, newx: int, newy: int, dir: int, xmod: int, ymod: int): (r: Result<(bool, DunGen)>)
    ensures r.Ok? ==> SameShape(g, r.value.1) && Changes(g, r.value.1, GenTiles)
  {
    var made := MakeRoom(g, newx + xmod, newy + ymod, MaxRoomLength, MaxRoomHeight, dir);
    if made.Crash? then Crash(made.reason)
    else
      var (built, g2) := made.value;
      if !built then Ok((false, g2))
      else
        match RoomDoor(g2, newx, newy, xmod, ymod)
        case Crash(msg) => Crash(msg)
        case Ok(g4) =>
          ChangesTrans(g, g2, g4, GenTiles);
          Ok((true, g4))
  }

  /** The door in the wall and the floor cell in front of it. */
  function RoomDoor(g: DunGen, newx: int, newy: int, xmod: int, ymod: int): (r: Result<DunGen>)
    ensures r.Ok? ==> SameShape(g, r.value) && Changes(g, r.value, GenTiles)
  {
    match SetCell(g, newx, newy, Door)
    case Crash(msg) => Crash(msg)
    case Ok(g3) =>
      SetChanges(g, newx, newy, Door);
      match SetCell(g3, newx + xmod, newy + ymod, DirtFloor)
      case Crash(msg) => Crash(msg)
      case Ok(g4) =>
        SetChanges(g3, newx + xmod, newy + ymod, DirtFloor);
        ChangesTrans(g, g3, g4, GenTiles);
        Ok(g4)
  }

  /** A corridor beyond the wall and a door in the wall. */
  function BuildCorridor(g: DunGen, newx: int, newy: int, dir: int, xmod: int, ymod: int): (r: Result<(bool, DunGen)>)
    ensures r.Ok? ==> SameShape(g, r.value.1) && Changes(g, r.value.1, GenTiles)
  {
    var made := MakeCorridor(g, newx + xmod, newy + ymod, MaxLengthCorridor, dir);
    if made.Crash? then Crash(made.reason)
    else
      CorridorChanges(g, newx + xmod, newy + ymod, MaxLengthCorridor, dir);
      var (built, g2) := made.value;
      if !built then Ok((false, g2))
      else
        match SetCell(g2, newx, newy, Door)
        case Crash(msg) => Crash(msg)
        case Ok(g3) =>
          SetChanges(g2, newx, newy, Door);
          ChangesTrans(g, g2, g3, GenTiles);
          Ok((true, g3))
  }

  lemma SetChanges(g: DunGen, x: int, y: int, v: int)
    requires SetCell(g, x, y, v).Ok?
    ensures Changes(g, SetCell(g, x, y, v).value, {v})
  {
  }

  /** (newx, newy) is a wall or corridor cell inside the border, and the
      cell on the far side from (newx + xmod, newy + ymod) is reachable. */
  predicate Spot(g: DunGen, newx: int, newy: int, xmod: int, ymod: int) {
    && 1 <= newx <= g.xsize - 1 && 1 <= newy <= g.ysize - 1
    && InMap(g, Pos(newx, newy)) && g.cells[Index(g, Pos(newx, newy))] in {DirtWall, Corridor}
    && InMap(g, Pos(newx - xmod, newy - ymod)) && Reachable(g.cells[Index(g, Pos(newx - xmod, newy - ymod))])
  }

  /** The inner loop: up to 1000 probes at random cells of columns
      1..xsize-1 and rows 1..ysize-1, stopping at the first that finds a
      direction. `dir` is -1 when none did. */
  method FindSpot(g: DunGen) returns (r: Result<(DunGen, int, int, int, int, int)>)
    ensures r.Ok? ==> g.xsize >= 2 && g.ysize >= 2
    ensures r.Ok? ==> SameShape(g, r.value.0) && r.value.0.cells == g.cells
    ensures r.Ok? ==> -1 <= r.value.3 <= 3
    ensures r.Ok? && r.value.3 >= 0 ==>
              var (_, newx, newy, _, xmod, ymod) := r.value;
              Spot(g, newx, newy, xmod, ymod) && Offset(r.value.3, xmod, ymod)
  {
    var h := g;
    var newx, newy, dir, xmod, ymod := 0, 0, -1, 0, 0;
    var testing := 0;
    while testing < 1000
      invariant SameShape(g, h) && h.cells == g.cells
      invariant -1 <= dir <= 3
      invariant testing > 0 ==> g.xsize >= 2 && g.ysize >= 2
      invariant dir >= 0 ==> Spot(g, newx, newy, xmod, ymod) && Offset(dir, xmod, ymod)
    {
      var rx := GetRand(h.rng, 1, h.xsize - 1);
      if rx.Crash? {
        return Crash(rx.reason);
      }
      var ry := GetRand(rx.value.1, 1, h.ysize - 1);
      if ry.Crash? {
        return Crash(ry.reason);
      }
      h := h.(rng := ry.value.1);
      newx, newy := rx.value.0, ry.value.0;
      var p := Probe(h, newx, newy);
      if p.Crash? {
        return Crash(p.reason);
      }
      dir, xmod, ymod := p.value.0, p.value.1, p.value.2;
      if dir > -1 {
        break;
      }
      testing := testing + 1;
    }
    return Ok((h, newx, newy, dir, xmod, ymod));
  }

  /** Go's `n / 2`, which truncates toward zero. */
  function Half(n: int): (h: int)
    ensures n >= 0 ==> 0 <= h <= n && n - 1 <= 2 * h <= n
    ensures n < 0 ==> n <= h <= 0 && n <= 2 * h <= n + 1
  {
    if n >= 0 then n / 2 else -((-n) / 2)
  }

  /** Every cell holds a generator tile. */
  predicate AllGenerated(g: DunGen) {
    forall i :: 0 <= i < |g.cells| ==> g.cells[i] in GenTiles
  }

  lemma ChangesKeepGenerated(g: DunGen, h: DunGen)
    requires AllGenerated(g) && Changes(g, h, GenTiles)
    ensures AllGenerated(h)
  {
  }

  /** The opening of `createDungeon`: fix `objects`, clear the map and put
      a room in the middle, its direction drawn before its sizes. */
  method Begin(g: DunGen, inobj: int) returns (r: Result<DunGen>)
    ensures r.Ok? ==> r.value.objects == (if inobj < 1 then 10 else inobj)
    ensures r.Ok? ==> && r.value.xsize == g.xsize && r.value.ysize == g.ysize
                      && r.value.chanceRoom == g.chanceRoom && |r.value.cells| == |g.cells|
    ensures r.Ok? ==> Changes(g, r.value, GenTiles)
    ensures r.Ok? && g.xsize > 0 && |g.cells| == g.xsize * g.ysize ==> AllGenerated(r.value)
    ensures r.Ok? && g.xsize > 0 && |g.cells| == g.xsize * g.ysize ==>
              forall i :: 0 <= i < |r.value.cells| ==> r.value.cells[i] in {Unused, DirtWall, DirtFloor}
  {
    var objects := if inobj < 1 then 10 else inobj;
    var c := ClearMap(g.(objects := objects));
    if c.Crash? {
      return Crash(c.reason);
    }
    var cleared := c.value;
    var (dir, rng) := GetRand(cleared.rng, 0, 3).value;
    var m := MakeRoom(cleared.(rng := rng), Half(g.xsize), Half(g.ysize), MaxRoomLength, MaxRoomHeight, dir);
    if m.Crash? {
      return Crash(m.reason);
    }
    if g.xsize > 0 && |g.cells| == g.xsize * g.ysize {
      ClearedGenerated(g, cleared);
      ChangesKeepGenerated(cleared, m.value.1);
      ClearedUnused(g, cleared);
    }
    ChangesTrans(g, cleared, m.value.1, GenTiles);
    return Ok(m.value.1);
  }

  /** One turn of the outer loop after the quota test: look for a spot and,
      if one is found, build there. `added` tells whether a feature was
      added. */
  method Grow(h: DunGen) returns (r: Result<(bool, DunGen)>)
    ensures r.Ok? ==> SameShape(h, r.value.1) && Changes(h, r.value.1, GenTiles)
  {
    var f := FindSpot(h);
    if f.Crash? {
      return Crash(f.reason);
    }
    var (h1, newx, newy, dir, xmod, ymod) := f.value;
    if dir == -1 {
      return Ok((false, h1));
    }
    var b := Build(h1, newx, newy, dir, xmod, ymod);
    if b.Crash? {
      return Crash(b.reason);
    }
    return b;
  }

  /** `createDungeon`. `inx` and `iny` are never read. `features` and
      `tries` are the final values of `currentFeatures` and
      `countingTries`, which the source keeps local. */
  method CreateDungeon(g: DunGen, inx: int, iny: int, inobj: int)
    returns (r: Result<(bool, DunGen)>, features: int, tries: int)
    ensures r.Ok? ==> r.value.0
    ensures r.Ok? ==> r.value.1.objects == (if inobj < 1 then 10 else inobj)
    ensures r.Ok? ==> && r.value.1.xsize == g.xsize && r.value.1.ysize == g.ysize
                      && r.value.1.chanceRoom == g.chanceRoom && |r.value.1.cells| == |g.cells|
    ensures r.Ok? ==> 1 <= features <= r.value.1.objects && 0 <= tries <= 1000 && features <= tries + 1
    ensures r.Ok? ==> features == r.value.1.objects || tries == 1000
    ensures r.Ok? ==> Changes(g, r.value.1, GenTiles)
    ensures r.Ok? && g.xsize > 0 && |g.cells| == g.xsize * g.ysize ==> AllGenerated(r.value.1)
  {
    features, tries := 1, 0;
    var b := Begin(g, inobj);
    if b.Crash? {
      return Crash(b.reason), features, tries;
    }
    var start := b.value;
    var h := start;
    while tries < 1000
      invariant 0 <= tries <= 1000 && 1 <= features <= start.objects && features <= tries + 1
      invariant SameShape(start, h) && Changes(start, h, GenTiles)
    {
      if features == h.objects {
        break;
      }
      var t := Grow(h);
      if t.Crash? {
        return Crash(t.reason), features, tries;
      }
      ChangesTrans(start, h, t.value.1, GenTiles);
      if t.value.0 {
        features := features + 1;
      }
      h := t.value.1;
      tries := tries + 1;
    }
    ChangesTrans(g, start, h, GenTiles);
    if g.xsize > 0 && |g.cells| == g.xsize * g.ysize {
      ChangesKeepGenerated(start, h);
    }
    return Ok((true, h)), features, tries;
  }
}
