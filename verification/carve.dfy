/** `makeCorridor` and `makeRoom` (dungen.go): draw a size, check that the
    cells the feature would cover are in bounds and unused, and paint them. */
module Carve {
  import opened Wrappers
  import opened Random
  import opened Dungeon

  /** Directions 1, 2 and 3 are east, south and west; every other value,
      0 included, is north. */
  function Dir(direction: int): (d: int)
    ensures 0 <= d <= 3
    ensures 0 < direction < 4 ==> d == direction
  {
    if direction > 0 && direction < 4 then direction else 0
  }

  /** The `len` cells of a corridor from (x, y), in the order the loops
      visit them. */
  function Line(x: int, y: int, len: nat, dir: int): (line: seq<Pos>)
    ensures |line| == len
  {
    seq(len, k => if dir == 0 then Pos(x, y - k)
                  else if dir == 1 then Pos(x + k, y)
                  else if dir == 2 then Pos(x, y + k)
                  else Pos(x - k, y))
  }

  /** The corridor length `makeCorridor` draws; `Intn` panics below two. */
  function CorridorDraw(g: DunGen, length: int): Result<(int, Rand)> {
    GetRand(g.rng, 2, length)
  }

  /** The state after the draw and the cells the corridor would cover. */
  function CorridorPlan(g: DunGen, x: int, y: int, length: int, direction: int): (res: (DunGen, seq<Pos>))
    requires length >= 2
    ensures 2 <= |res.1| <= length
  {
    var (cLen, rng) := CorridorDraw(g, length).value;
    (g.(rng := rng), Line(x, y, cLen, Dir(direction)))
  }

  /** `makeCorridor`. The north, east and south branches first test the
      fixed coordinate and then the moving one at every cell; since the
      corridor is never empty, testing both at every cell gives up at the
      same cell. The west branch tests `ytemp` while it is still 0. */
  function MakeCorridor(g: DunGen, x: int, y: int, length: int, direction: int): (r: Result<(bool, DunGen)>)
    ensures r.Crash? <==>
              length < 2 || (var (g1, line) := CorridorPlan(g, x, y, length, direction); Scan(g1, line, Dir(direction) == 3).Crash?)
    ensures r.Ok? ==> SameShape(g, r.value.1) && r.value.1.rng == Rand(g.rng.src, g.rng.pos + 1)
    ensures r.Ok? && !r.value.0 ==> r.value.1.cells == g.cells
  {
    match CorridorDraw(g, length)
    case Crash(msg) => Crash(msg)
    case Ok((cLen, rng)) =>
      var g1 := g.(rng := rng);
      var dir := Dir(direction);
      var line := Line(x, y, cLen, dir);
      match Scan(g1, line, dir == 3)
      case Crash(msg) => Crash(msg)
      case Ok(clear) =>
        if !clear then Ok((false, g1))
        else
          match Paint(g1, Fill(line, Corridor))
          case Crash(msg) => Crash(msg)
          case Ok(g2) => Ok((true, g2))
  }

  /** A corridor is carved exactly when its whole line is in bounds and
      unused. */
  lemma CorridorIff(g: DunGen, x: int, y: int, length: int, direction: int)
    requires MakeCorridor(g, x, y, length, direction).Ok?
    ensures length >= 2
    ensures MakeCorridor(g, x, y, length, direction).value.0 <==>
              Clear(g, CorridorPlan(g, x, y, length, direction).1, Dir(direction) == 3)
  {
    var (cLen, rng) := CorridorDraw(g, length).value;
    var (g1, line) := CorridorPlan(g, x, y, length, direction);
    assert g1 == g.(rng := rng);
    ClearIgnoresRng(g, rng, line, Dir(direction) == 3);
    var scan := Scan(g1, line, Dir(direction) == 3);
    assert scan.Ok? && MakeCorridor(g, x, y, length, direction).value.0 == scan.value;
  }

  /** A carved corridor turns each of its cells, unused before, into
      corridor, and every other index keeps its tile. */
  lemma CorridorCarves(g: DunGen, x: int, y: int, length: int, direction: int)
    requires MakeCorridor(g, x, y, length, direction).Ok? && MakeCorridor(g, x, y, length, direction).value.0
    ensures length >= 2
    ensures var line := CorridorPlan(g, x, y, length, direction).1;
            var h := MakeCorridor(g, x, y, length, direction).value.1;
            && (forall p :: p in line ==> g.cells[Index(g, p)] == Unused && h.cells[Index(g, p)] == Corridor)
            && (forall i :: 0 <= i < |g.cells| && i !in Written(g, Fill(line, Corridor)) ==> h.cells[i] == g.cells[i])
  {
    var (cLen, rng) := CorridorDraw(g, length).value;
    var (g1, line) := CorridorPlan(g, x, y, length, direction);
    assert g1 == g.(rng := rng);
    CorridorResult(g, x, y, length, direction);
    var h := Paint(g1, Fill(line, Corridor)).value;
    FillEffect(g1, line, Corridor);
    SameIndices(g1, g, Fill(line, Corridor));
    forall p | p in line
      ensures g.cells[Index(g, p)] == Unused && h.cells[Index(g, p)] == Corridor
    {
      assert Index(g, p) == Index(g1, p);
    }
  }

  /** A carved corridor is its line painted over the map after the draw,
      the whole line having been clear. */
  lemma CorridorResult(g: DunGen, x: int, y: int, length: int, direction: int)
    requires MakeCorridor(g, x, y, length, direction).Ok? && MakeCorridor(g, x, y, length, direction).value.0
    ensures length >= 2
    ensures var (g1, line) := CorridorPlan(g, x, y, length, direction);
            && Clear(g1, line, Dir(direction) == 3)
            && Paint(g1, Fill(line, Corridor)).Ok?
            && MakeCorridor(g, x, y, length, direction).value.1 == Paint(g1, Fill(line, Corridor)).value
  {
  }

  /** A direction outside 1..3 digs north. */
  lemma CorridorDefaultsNorth(g: DunGen, x: int, y: int, length: int, direction: int)
    requires !(0 < direction < 4)
    ensures MakeCorridor(g, x, y, length, direction) == MakeCorridor(g, x, y, length, 0)
  {
  }

  /** The cells of a corridor occupy distinct indices, so it covers exactly
      `len` of them; a vertical one needs a nonzero row width. */
  lemma LineIndicesDistinct(g: DunGen, x: int, y: int, len: nat, dir: int, j: int, k: int)
    requires dir == 1 || dir == 3 || g.xsize != 0
    requires 0 <= j < k < len
    ensures Index(g, Line(x, y, len, dir)[j]) != Index(g, Line(x, y, len, dir)[k])
  {
    var line := Line(x, y, len, dir);
    if dir == 0 || dir == 2 {
      var d := if dir == 0 then j - k else k - j;
      assert Index(g, line[k]) - Index(g, line[j]) == g.xsize * d;
      MulNonZero(g.xsize, d);
    }
  }

  lemma MulNonZero(a: int, b: int)
    requires a != 0 && b != 0
    ensures a * b != 0
  {
  }

  // ---------------------------------------------------------------------
  // Rooms

  /** `for v := lo; v < hi; v++`. */
  function Up(lo: int, hi: int): (s: seq<int>)
    ensures |s| == if hi > lo then hi - lo else 0
    ensures forall k :: 0 <= k < |s| ==> s[k] == lo + k
  {
    seq(if hi > lo then hi - lo else 0, k => lo + k)
  }

  /** `for v := hi; v > lo; v--`. */
  function Down(hi: int, lo: int): (s: seq<int>)
    ensures |s| == if hi > lo then hi - lo else 0
    ensures forall k :: 0 <= k < |s| ==> s[k] == hi - k
  {
    seq(if hi > lo then hi - lo else 0, k => hi - k)
  }

  /** The columns and the rows a room's loops visit, in order. */
  datatype Room = Room(xs: seq<int>, ys: seq<int>)

  /** The loop bounds of each direction. The drawn sizes are at least 4,
      so `/` here agrees with Go's truncating division. */
  function RoomOf(x: int, y: int, xlen: int, ylen: int, dir: int): Room {
    if dir == 0 then Room(Up(x - xlen / 2, x + (xlen + 1) / 2), Down(y, y - ylen))
    else if dir == 1 then Room(Up(x, x + xlen), Up(y - ylen / 2, y + (ylen + 1) / 2))
    else if dir == 2 then Room(Up(x - xlen / 2, x + (xlen + 1) / 2), Up(y, y + ylen))
    else Room(Down(x, x - xlen), Up(y - ylen / 2, y + (ylen + 1) / 2))
  }

  /** The tile the painting loop writes at `p`: the four wall tests of each
      direction, floor otherwise. */
  function RoomTile(x: int, y: int, xlen: int, ylen: int, dir: int, p: Pos): int {
    var wall :=
      if dir == 0 then p.x == x - xlen / 2 || p.x == x + (xlen - 1) / 2 || p.y == y || p.y == y - ylen + 1
      else if dir == 1 then p.x == x || p.x == x + xlen - 1 || p.y == y - ylen / 2 || p.y == y + (ylen - 1) / 2
      else if dir == 2 then p.x == x - xlen / 2 || p.x == x + (xlen - 1) / 2 || p.y == y || p.y == y + ylen - 1
      else p.x == x || p.x == x - xlen + 1 || p.y == y - ylen / 2 || p.y == y + (ylen - 1) / 2;
    if wall then DirtWall else DirtFloor
  }

  /** One row of cells, in column order. */
  function Row(xs: seq<int>, y: int): (row: seq<Pos>)
    ensures |row| == |xs|
    ensures forall k :: 0 <= k < |xs| ==> row[k] == Pos(xs[k], y)
  {
    seq(|xs|, k requires 0 <= k < |xs| => Pos(xs[k], y))
  }

  /** All cells, row after row. */
  function Rows(xs: seq<int>, ys: seq<int>): seq<Pos>
    decreases |ys|
  {
    if ys == [] then [] else Row(xs, ys[0]) + Rows(xs, ys[1..])
  }

  /** The painting plan: every cell with its tile. */
  function RoomPlan(room: Room, x: int, y: int, xlen: int, ylen: int, dir: int): (plan: seq<(Pos, int)>)
    ensures |plan| == |Rows(room.xs, room.ys)|
    ensures forall k :: 0 <= k < |plan| ==>
              plan[k] == (Rows(room.xs, room.ys)[k], RoomTile(x, y, xlen, ylen, dir, Rows(room.xs, room.ys)[k]))
  {
    var cells := Rows(room.xs, room.ys);
    seq(|cells|, k requires 0 <= k < |cells| => (cells[k], RoomTile(x, y, xlen, ylen, dir, cells[k])))
  }

  /** The north branch as written: the painting loop sits inside the
      checking loop, so each row is checked and then the whole room is
      painted. */
  function NorthLoop(g: DunGen, room: Room, plan: seq<(Pos, int)>, i: nat): Result<(bool, DunGen)>
    requires i <= |room.ys|
    decreases |room.ys| - i
  {
    if i == |room.ys| then Ok((true, g))
    else
      match Scan(g, Row(room.xs, room.ys[i]), false)
      case Crash(msg) => Crash(msg)
      case Ok(clear) =>
        if !clear then Ok((false, g))
        else
          match Paint(g, plan)
          case Crash(msg) => Crash(msg)
          case Ok(g1) => NorthLoop(g1, room, plan, i + 1)
  }

  /** The two sizes `makeRoom` draws, width first. */
  function RoomDraw(g: DunGen, xlength: int, ylength: int): (r: Result<(int, int, Rand)>)
    ensures r.Ok? <==> xlength >= 4 && ylength >= 4
    ensures r.Ok? ==> 4 <= r.value.0 <= xlength && 4 <= r.value.1 <= ylength
    ensures r.Ok? ==> r.value.2 == Rand(g.rng.src, g.rng.pos + 2)
  {
    match GetRand(g.rng, 4, xlength)
    case Crash(msg) => Crash(msg)
    case Ok((xlen, rng1)) =>
      match GetRand(rng1, 4, ylength)
      case Crash(msg) => Crash(msg)
      case Ok((ylen, rng2)) => Ok((xlen, ylen, rng2))
  }

  /** The state after the draws, the room and its painting plan. */
  function RoomSetup(g: DunGen, x: int, y: int, xlength: int, ylength: int, direction: int): (Room, seq<(Pos, int)>, DunGen)
    requires xlength >= 4 && ylength >= 4
  {
    var (xlen, ylen, rng) := RoomDraw(g, xlength, ylength).value;
    var room := RoomOf(x, y, xlen, ylen, Dir(direction));
    (room, RoomPlan(room, x, y, xlen, ylen, Dir(direction)), g.(rng := rng))
  }

  /** The north branch writes nothing but the plan's kinds. */
  lemma {:induction false} NorthLoopChanges(g: DunGen, room: Room, plan: seq<(Pos, int)>, i: nat)
    requires i <= |room.ys|
    requires NorthLoop(g, room, plan, i).Ok?
    ensures Changes(g, NorthLoop(g, room, plan, i).value.1, Kinds(plan))
    decreases |room.ys| - i
  {
    if i < |room.ys| && Scan(g, Row(room.xs, room.ys[i]), false) == Ok(true) {
      var g1 := Paint(g, plan).value;
      PaintChanges(g, plan);
      NorthLoopChanges(g1, room, plan, i + 1);
      ChangesTrans(g, g1, NorthLoop(g, room, plan, i).value.1, Kinds(plan));
    }
  }

  /** `makeRoom`. The east, south and west branches check every row before
      painting; a row is never empty, so testing the row at each of its
      cells gives up at the same cell as testing it once ahead. */
  function MakeRoom(g: DunGen, x: int, y: int, xlength: int, ylength: int, direction: int): (r: Result<(bool, DunGen)>)
    ensures xlength < 4 || ylength < 4 ==> r.Crash?
    ensures r.Ok? ==> SameShape(g, r.value.1) && r.value.1.rng == Rand(g.rng.src, g.rng.pos + 2)
    ensures r.Ok? && !r.value.0 && Dir(direction) != 0 ==> r.value.1.cells == g.cells
    ensures r.Ok? ==> Changes(g, r.value.1, {DirtWall, DirtFloor})
  {
    match RoomDraw(g, xlength, ylength)
    case Crash(msg) => Crash(msg)
    case Ok((xlen, ylen, rng)) =>
      var g1 := g.(rng := rng);
      var dir := Dir(direction);
      var room := RoomOf(x, y, xlen, ylen, dir);
      var plan := RoomPlan(room, x, y, xlen, ylen, dir);
      RoomKinds(room, x, y, xlen, ylen, dir);
      if dir == 0 then
        NorthLoopShape(g1, room, plan, 0);
        var north := NorthLoop(g1, room, plan, 0);
        if north.Ok? then NorthLoopChanges(g1, room, plan, 0); north else north
      else CheckThenPaint(g1, room, plan)
  }

  /** The east, south and west branches: the checking loop over every row,
      then the painting loop. A room that does not fit leaves the map as
      it was. */
  function CheckThenPaint(g: DunGen, room: Room, plan: seq<(Pos, int)>): (r: Result<(bool, DunGen)>)
    ensures r.Ok? ==> SameShape(g, r.value.1) && r.value.1.rng == g.rng
    ensures r.Ok? && !r.value.0 ==> r.value.1 == g
    ensures r.Ok? ==> Changes(g, r.value.1, Kinds(plan))
  {
    match Scan(g, Rows(room.xs, room.ys), false)
    case Crash(msg) => Crash(msg)
    case Ok(clear) =>
      if !clear then Ok((false, g))
      else
        match Paint(g, plan)
        case Crash(msg) => Crash(msg)
        case Ok(g2) => PaintChanges(g, plan); Ok((true, g2))
  }

  /** `makeRoom` as its east, south and west branches show it was meant:
      every direction, north included, checks all rows before painting. */
  function MakeRoomIntended(g: DunGen, x: int, y: int, xlength: int, ylength: int, direction: int): (r: Result<(bool, DunGen)>)
    ensures xlength < 4 || ylength < 4 ==> r.Crash?
    ensures r.Ok? ==> SameShape(g, r.value.1) && r.value.1.rng == Rand(g.rng.src, g.rng.pos + 2)
    ensures r.Ok? && !r.value.0 ==> r.value.1.cells == g.cells
    ensures r.Ok? ==> Changes(g, r.value.1, {DirtWall, DirtFloor})
  {
    match RoomDraw(g, xlength, ylength)
    case Crash(msg) => Crash(msg)
    case Ok((xlen, ylen, rng)) =>
      var dir := Dir(direction);
      var room := RoomOf(x, y, xlen, ylen, dir);
      var plan := RoomPlan(room, x, y, xlen, ylen, dir);
      RoomKinds(room, x, y, xlen, ylen, dir);
      CheckThenPaint(g.(rng := rng), room, plan)
  }

  /** Off north the corrected room is the room as written. */
  lemma IntendedAgrees(g: DunGen, x: int, y: int, xlength: int, ylength: int, direction: int)
    requires Dir(direction) != 0
    ensures MakeRoomIntended(g, x, y, xlength, ylength, direction) == MakeRoom(g, x, y, xlength, ylength, direction)
  {
  }

  /** The corrected room, in every direction: it is carved exactly when all
      its cells are in bounds and unused, and a carved room is its plan
      painted over the map after the draws. */
  lemma IntendedIff(g: DunGen, x: int, y: int, xlength: int, ylength: int, direction: int)
    requires MakeRoomIntended(g, x, y, xlength, ylength, direction).Ok?
    ensures xlength >= 4 && ylength >= 4
    ensures var (room, plan, g1) := RoomSetup(g, x, y, xlength, ylength, direction);
            && (MakeRoomIntended(g, x, y, xlength, ylength, direction).value.0 <==> Clear(g, Rows(room.xs, room.ys), false))
            && (MakeRoomIntended(g, x, y, xlength, ylength, direction).value.0 ==>
                  Paint(g1, plan).Ok? && MakeRoomIntended(g, x, y, xlength, ylength, direction).value.1 == Paint(g1, plan).value)
  {
    var (xlen, ylen, rng) := RoomDraw(g, xlength, ylength).value;
    var (room, plan, g1) := RoomSetup(g, x, y, xlength, ylength, direction);
    assert g1 == g.(rng := rng);
    ClearIgnoresRng(g, rng, Rows(room.xs, room.ys), false);
  }

  /** A room whose cells are all in bounds and unused is carved by the
      corrected room in every direction. */
  lemma IntendedCarvesWhenClear(g: DunGen, x: int, y: int, xlength: int, ylength: int, direction: int)
    requires xlength >= 4 && ylength >= 4
    requires var (room, _, _) := RoomSetup(g, x, y, xlength, ylength, direction);
             Clear(g, Rows(room.xs, room.ys), false)
    ensures var (room, plan, g1) := RoomSetup(g, x, y, xlength, ylength, direction);
            && Paint(g1, plan).Ok?
            && MakeRoomIntended(g, x, y, xlength, ylength, direction) == Ok((true, Paint(g1, plan).value))
  {
    var (xlen, ylen, rng) := RoomDraw(g, xlength, ylength).value;
    var (room, plan, g1) := RoomSetup(g, x, y, xlength, ylength, direction);
    assert g1 == g.(rng := rng);
    ClearIgnoresRng(g, rng, Rows(room.xs, room.ys), false);
    assert Paint(g1, plan).Ok? by {
      forall k | 0 <= k < |plan| ensures InMap(g1, plan[k].0) {
        assert plan[k].0 == Rows(room.xs, room.ys)[k];
      }
    }
  }

  /** The discrepancy: on a north room whose cells are all in bounds and
      unused, the code as written paints the room and reports failure,
      while the corrected room paints the same room and reports success. */
  lemma NorthDiscrepancy(g: DunGen, x: int, y: int, xlength: int, ylength: int, direction: int)
    requires Dir(direction) == 0 && xlength >= 4 && ylength >= 4
    requires var (room, _, _) := RoomSetup(g, x, y, xlength, ylength, direction);
             Clear(g, Rows(room.xs, room.ys), false)
    ensures var (room, plan, g1) := RoomSetup(g, x, y, xlength, ylength, direction);
            && Paint(g1, plan).Ok?
            && MakeRoom(g, x, y, xlength, ylength, direction) == Ok((false, Paint(g1, plan).value))
            && MakeRoomIntended(g, x, y, xlength, ylength, direction) == Ok((true, Paint(g1, plan).value))
  {
    IntendedCarvesWhenClear(g, x, y, xlength, ylength, direction);
    var (xlen, ylen, rng) := RoomDraw(g, xlength, ylength).value;
    var (room, plan, g1) := RoomSetup(g, x, y, xlength, ylength, direction);
    assert g1 == g.(rng := rng);
    ClearIgnoresRng(g, rng, Rows(room.xs, room.ys), false);
    RoomShape(x, y, xlen, ylen, 0, Pos(x, y));
    assert Clear(g1, Row(room.xs, room.ys[0]), false) by {
      forall p | p in Row(room.xs, room.ys[0])
        ensures p in Rows(room.xs, room.ys)
      {
        RowsMember(room.xs, room.ys, p);
      }
    }
    var g2 := Paint(g1, plan).value;
    assert NorthLoop(g1, room, plan, 0) == NorthLoop(g2, room, plan, 1);
    RoomKinds(room, x, y, xlen, ylen, 0);
    NorthSecondRow(g1, room, plan);
  }

  lemma {:induction false} NorthLoopShape(g: DunGen, room: Room, plan: seq<(Pos, int)>, i: nat)
    requires i <= |room.ys|
    ensures NorthLoop(g, room, plan, i).Ok? ==>
              SameShape(g, NorthLoop(g, room, plan, i).value.1) && NorthLoop(g, room, plan, i).value.1.rng == g.rng
    decreases |room.ys| - i
  {
    if i < |room.ys| {
      var s := Scan(g, Row(room.xs, room.ys[i]), false);
      if s == Ok(true) && Paint(g, plan).Ok? {
        NorthLoopShape(Paint(g, plan).value, room, plan, i + 1);
      }
    }
  }

  /** The cells of a room are exactly the pairs of its columns and rows. */
  lemma {:induction false} RowsMember(xs: seq<int>, ys: seq<int>, p: Pos)
    ensures p in Rows(xs, ys) <==> p.x in xs && p.y in ys
    decreases |ys|
  {
    if ys != [] {
      RowsMember(xs, ys[1..], p);
      assert p in Row(xs, ys[0]) <==> p.x in xs && p.y == ys[0] by {
        if p.x in xs && p.y == ys[0] {
          var k :| 0 <= k < |xs| && xs[k] == p.x;
          assert Row(xs, ys[0])[k] == p;
        }
      }
      assert p.y in ys <==> p.y == ys[0] || p.y in ys[1..] by {
        assert ys == [ys[0]] + ys[1..];
      }
    }
  }

  /** Every tile a room's plan writes is wall or floor. */
  lemma RoomKinds(room: Room, x: int, y: int, xlen: int, ylen: int, dir: int)
    ensures Kinds(RoomPlan(room, x, y, xlen, ylen, dir)) <= {DirtWall, DirtFloor}
  {
  }

  /** A room is `xlen` columns by `ylen` rows, and the painting loop puts
      wall on exactly its first and last column and row. */
  lemma RoomShape(x: int, y: int, xlen: int, ylen: int, dir: int, p: Pos)
    requires xlen >= 4 && ylen >= 4 && 0 <= dir <= 3
    ensures var room := RoomOf(x, y, xlen, ylen, dir);
            && |room.xs| == xlen && |room.ys| == ylen
            && (p.x in room.xs && p.y in room.ys ==>
                  (RoomTile(x, y, xlen, ylen, dir, p) == DirtWall <==>
                     || p.x == room.xs[0] || p.x == room.xs[xlen - 1]
                     || p.y == room.ys[0] || p.y == room.ys[ylen - 1]))
  {
    assert (xlen + 1) / 2 + xlen / 2 == xlen && (ylen + 1) / 2 + ylen / 2 == ylen;
    assert (xlen + 1) / 2 - 1 == (xlen - 1) / 2 && (ylen + 1) / 2 - 1 == (ylen - 1) / 2;
  }

  /** A room is carved (east, south or west) exactly when all its cells
      are in bounds and unused. */
  lemma RoomIff(g: DunGen, x: int, y: int, xlength: int, ylength: int, direction: int)
    requires Dir(direction) != 0
    requires MakeRoom(g, x, y, xlength, ylength, direction).Ok?
    ensures xlength >= 4 && ylength >= 4
    ensures var (room, _, _) := RoomSetup(g, x, y, xlength, ylength, direction);
            MakeRoom(g, x, y, xlength, ylength, direction).value.0 <==> Clear(g, Rows(room.xs, room.ys), false)
  {
    var (xlen, ylen, rng) := RoomDraw(g, xlength, ylength).value;
    var (room, plan, g1) := RoomSetup(g, x, y, xlength, ylength, direction);
    assert g1 == g.(rng := rng);
    ClearIgnoresRng(g, rng, Rows(room.xs, room.ys), false);
    var scan := Scan(g1, Rows(room.xs, room.ys), false);
    assert scan.Ok? && MakeRoom(g, x, y, xlength, ylength, direction).value.0 == scan.value;
  }

  /** A carved room is the room's plan painted over the map after the
      draws, all of whose cells were clear. */
  lemma RoomResult(g: DunGen, x: int, y: int, xlength: int, ylength: int, direction: int)
    requires Dir(direction) != 0
    requires MakeRoom(g, x, y, xlength, ylength, direction).Ok? && MakeRoom(g, x, y, xlength, ylength, direction).value.0
    ensures xlength >= 4 && ylength >= 4
    ensures var (room, plan, g1) := RoomSetup(g, x, y, xlength, ylength, direction);
            && Clear(g1, Rows(room.xs, room.ys), false)
            && Paint(g1, plan).Ok?
            && MakeRoom(g, x, y, xlength, ylength, direction).value.1 == Paint(g1, plan).value
  {
  }

  /** A carved room covered only unused cells; each cell no later cell
      overwrites now holds its wall or floor tile, every index outside the
      room keeps its tile, and every index inside holds wall or floor. */
  lemma RoomCarves(g: DunGen, x: int, y: int, xlength: int, ylength: int, direction: int)
    requires Dir(direction) != 0
    requires MakeRoom(g, x, y, xlength, ylength, direction).Ok? && MakeRoom(g, x, y, xlength, ylength, direction).value.0
    ensures xlength >= 4 && ylength >= 4
    ensures var (room, plan, _) := RoomSetup(g, x, y, xlength, ylength, direction);
            var h := MakeRoom(g, x, y, xlength, ylength, direction).value.1;
            && (forall p :: p in Rows(room.xs, room.ys) ==> g.cells[Index(g, p)] == Unused)
            && (forall k :: 0 <= k < |plan| && LastWrite(g, plan, k) ==> h.cells[Index(g, plan[k].0)] == plan[k].1)
            && (forall i :: 0 <= i < |g.cells| && i !in Written(g, plan) ==> h.cells[i] == g.cells[i])
            && (forall i :: i in Written(g, plan) ==> h.cells[i] == DirtWall || h.cells[i] == DirtFloor)
  {
    RoomResult(g, x, y, xlength, ylength, direction);
    var (room, plan, g1) := RoomSetup(g, x, y, xlength, ylength, direction);
    var (xlen, ylen, rng) := RoomDraw(g, xlength, ylength).value;
    assert g1 == g.(rng := rng);
    assert MakeRoom(g, x, y, xlength, ylength, direction).value.1 == Paint(g1, plan).value;
    ClearIgnoresRng(g, rng, Rows(room.xs, room.ys), false);
    RoomKinds(room, x, y, xlen, ylen, Dir(direction));
    PaintedOver(g, rng, plan);
  }

  /** Painting a plan of wall and floor after some draws, read against the
      map before the draws. */
  lemma PaintedOver(g: DunGen, rng: Rand, plan: seq<(Pos, int)>)
    requires Paint(g.(rng := rng), plan).Ok?
    requires Kinds(plan) <= {DirtWall, DirtFloor}
    ensures var h := Paint(g.(rng := rng), plan).value;
            && (forall k :: 0 <= k < |plan| && LastWrite(g, plan, k) ==> h.cells[Index(g, plan[k].0)] == plan[k].1)
            && (forall i :: 0 <= i < |g.cells| && i !in Written(g, plan) ==> h.cells[i] == g.cells[i])
            && (forall i :: i in Written(g, plan) ==> h.cells[i] == DirtWall || h.cells[i] == DirtFloor)
  {
    var g1 := g.(rng := rng);
    PaintEffect(g1, plan);
    SameIndices(g1, g, plan);
  }

  /** The north branch never carves: after painting the whole room for its
      first row it checks the second row, finds the wall it just painted
      and gives up. When the first row was clear it has painted the room
      before returning false. */
  lemma NorthNeverCarves(g: DunGen, x: int, y: int, xlength: int, ylength: int, direction: int)
    requires Dir(direction) == 0
    requires MakeRoom(g, x, y, xlength, ylength, direction).Ok?
    ensures xlength >= 4 && ylength >= 4
    ensures !MakeRoom(g, x, y, xlength, ylength, direction).value.0
    ensures var (room, plan, g1) := RoomSetup(g, x, y, xlength, ylength, direction);
            Scan(g1, Row(room.xs, room.ys[0]), false) == Ok(true) ==>
              Paint(g1, plan).Ok? && MakeRoom(g, x, y, xlength, ylength, direction).value.1 == Paint(g1, plan).value
  {
    var (room, plan, g1) := RoomSetup(g, x, y, xlength, ylength, direction);
    var (xlen, ylen, _) := RoomDraw(g, xlength, ylength).value;
    RoomShape(x, y, xlen, ylen, 0, Pos(x, y));
    assert MakeRoom(g, x, y, xlength, ylength, direction) == NorthLoop(g1, room, plan, 0);
    if Scan(g1, Row(room.xs, room.ys[0]), false) == Ok(true) {
      var g2 := Paint(g1, plan).value;
      assert NorthLoop(g1, room, plan, 0) == NorthLoop(g2, room, plan, 1);
      RoomKinds(room, x, y, xlen, ylen, 0);
      NorthSecondRow(g1, room, plan);
    }
  }

  /** The north branch paints before it has checked the rows above the
      first: on an unused 4 x 4 map with every draw zero, the first room
      (north of the middle) checks out on its first row, then paints a row
      above the map and panics. */
  lemma NorthPanicsAboveTop()
    ensures var g := DunGen(4, 4, 10, 75, 25, seq(16, _ => Unused), Rand(_ => 0, 1));
            MakeRoom(g, 2, 2, 28, 14, 0).Crash?
  {
    var g := DunGen(4, 4, 10, 75, 25, seq(16, _ => Unused), Rand(_ => 0, 1));
    assert GetRand(g.rng, 4, 28) == Ok((4, Rand(g.rng.src, 2)));
    assert GetRand(Rand(g.rng.src, 2), 4, 14) == Ok((4, Rand(g.rng.src, 3)));
    var g1 := g.(rng := Rand(g.rng.src, 3));
    var room := RoomOf(2, 2, 4, 4, 0);
    assert room.xs == [0, 1, 2, 3];
    assert room.ys == [2, 1, 0, -1];
    var plan := RoomPlan(room, 2, 2, 4, 4, 0);
    assert MakeRoom(g, 2, 2, 28, 14, 0) == NorthLoop(g1, room, plan, 0);
    var top := Row(room.xs, 2);
    assert Clear(g1, top, false) by {
      forall p | p in top ensures Fits(g1, p, false) && InMap(g1, p) && g1.cells[Index(g1, p)] == Unused {
        var k :| 0 <= k < |top| && top[k] == p;
      }
    }
    assert Rows(room.xs, room.ys)[12] == Row(room.xs, -1)[0] by {
      assert Rows(room.xs, room.ys) == top + Row(room.xs, 1) + Row(room.xs, 0) + Row(room.xs, -1);
    }
    assert plan[12].0 == Pos(0, -1) && !InMap(g1, plan[12].0);
    assert Paint(g1, plan).Crash?;
  }

  /** After painting, the first cell of the second row is wall, so the
      second row's check gives up. */
  lemma NorthSecondRow(g1: DunGen, room: Room, plan: seq<(Pos, int)>)
    requires |room.xs| >= 1 && |room.ys| >= 2
    requires |plan| == |Rows(room.xs, room.ys)|
    requires forall k :: 0 <= k < |plan| ==> plan[k].0 == Rows(room.xs, room.ys)[k]
    requires Kinds(plan) <= {DirtWall, DirtFloor}
    requires Paint(g1, plan).Ok?
    ensures NorthLoop(Paint(g1, plan).value, room, plan, 1) == Ok((false, Paint(g1, plan).value))
  {
    var g2 := Paint(g1, plan).value;
    var p := Pos(room.xs[0], room.ys[1]);
    var k := |room.xs|;
    assert Rows(room.xs, room.ys)[k] == Rows(room.xs, room.ys[1..])[0] == p;
    assert plan[k].0 == p;
    assert Index(g1, p) in Written(g1, plan);
    PaintKinds(g1, plan);
    assert Row(room.xs, room.ys[1])[0] == p;
    assert g2.cells[Index(g2, p)] != Unused;
  }

  /** A plan whose positions are distinct and lie within the row width
      writes each index once. */
  lemma DistinctLastWrites(g: DunGen, plan: seq<(Pos, int)>)
    requires forall j, k :: 0 <= j < k < |plan| ==> plan[j].0 != plan[k].0
    requires forall k :: 0 <= k < |plan| ==> 0 <= plan[k].0.x < g.xsize
    ensures forall k :: 0 <= k < |plan| ==> LastWrite(g, plan, k)
  {
    forall k | 0 <= k < |plan|
      ensures LastWrite(g, plan, k)
    {
      forall j | k < j < |plan|
        ensures Index(g, plan[j].0) != Index(g, plan[k].0)
      {
        if Index(g, plan[j].0) == Index(g, plan[k].0) {
          IndexInjective(g, plan[j].0, plan[k].0);
        }
      }
    }
  }

  /** Positions of columns 0 through `xsize - 1` have distinct indices. */
  lemma IndexInjective(g: DunGen, p: Pos, q: Pos)
    requires 0 <= p.x < g.xsize && 0 <= q.x < g.xsize
    requires Index(g, p) == Index(g, q)
    ensures p == q
  {
    if p.y != q.y {
      var d := q.y - p.y;
      assert p.x - q.x == g.xsize * d;
      MulAtLeast(g.xsize, d);
    }
  }

  lemma MulAtLeast(a: int, b: int)
    requires a > 0 && b != 0
    ensures a * b >= a || a * b <= -a
  {
    if b > 0 {
      MulAtLeastPos(a, b);
    } else {
      MulAtLeastPos(a, -b);
      assert a * b == -(a * -b);
    }
  }

  lemma {:induction false} MulAtLeastPos(a: int, b: int)
    requires a > 0 && b >= 1
    ensures a * b >= a
    decreases b
  {
    if b > 1 {
      MulAtLeastPos(a, b - 1);
      assert a * b == a * (b - 1) + a;
    }
  }

  /** A sequence without repeated elements. */
  predicate Distinct<T(==)>(s: seq<T>) {
    forall i, j :: 0 <= i < j < |s| ==> s[i] != s[j]
  }

  /** Distinct columns and rows give distinct cells. */
  lemma {:induction false} RowsDistinct(xs: seq<int>, ys: seq<int>)
    requires Distinct(xs) && Distinct(ys)
    ensures Distinct(Rows(xs, ys))
    decreases |ys|
  {
    if ys != [] {
      var row, rest := Row(xs, ys[0]), Rows(xs, ys[1..]);
      RowsDistinct(xs, ys[1..]);
      forall i, j | 0 <= i < j < |row + rest|
        ensures (row + rest)[i] != (row + rest)[j]
      {
        if i < |row| && j >= |row| {
          RowsMember(xs, ys[1..], rest[j - |row|]);
          assert ys[0] !in ys[1..];
        }
      }
    }
  }

  /** A carved room that stays left of column `xsize` has every cell on its
      own index, so its border is wall and its interior floor. */
  lemma RoomInsideExact(g: DunGen, x: int, y: int, xlength: int, ylength: int, direction: int)
    requires Dir(direction) != 0
    requires MakeRoom(g, x, y, xlength, ylength, direction).Ok? && MakeRoom(g, x, y, xlength, ylength, direction).value.0
    requires xlength >= 4 && ylength >= 4
    requires var (room, _, _) := RoomSetup(g, x, y, xlength, ylength, direction);
             forall p :: p in Rows(room.xs, room.ys) ==> p.x < g.xsize
    ensures var (room, _, _) := RoomSetup(g, x, y, xlength, ylength, direction);
            var (xlen, ylen, _) := RoomDraw(g, xlength, ylength).value;
            forall p :: p in Rows(room.xs, room.ys) ==>
              MakeRoom(g, x, y, xlength, ylength, direction).value.1.cells[Index(g, p)] ==
                RoomTile(x, y, xlen, ylen, Dir(direction), p)
  {
    var (room, plan, g1) := RoomSetup(g, x, y, xlength, ylength, direction);
    var cells := Rows(room.xs, room.ys);
    RoomIff(g, x, y, xlength, ylength, direction);
    RoomCarves(g, x, y, xlength, ylength, direction);
    RowsDistinct(room.xs, room.ys);
    forall k | 0 <= k < |plan|
      ensures 0 <= plan[k].0.x < g.xsize
    {
      assert plan[k].0 == cells[k] && cells[k] in cells;
    }
    DistinctLastWrites(g, plan);
    var (xlen, ylen, _) := RoomDraw(g, xlength, ylength).value;
    forall p | p in cells
      ensures MakeRoom(g, x, y, xlength, ylength, direction).value.1.cells[Index(g, p)] ==
                RoomTile(x, y, xlen, ylen, Dir(direction), p)
    {
      var k :| 0 <= k < |cells| && cells[k] == p;
      assert plan[k] == (p, RoomTile(x, y, xlen, ylen, Dir(direction), p));
    }
  }
}
