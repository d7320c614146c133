/** The tile array of dungen.go's `DunGen`: a flat slice indexed by
    `x + xsize*y`, read and written one cell at a time, and the two loops
    every carving operation is built from: checking that a run of cells is
    unused, then painting it. Go's `int` is taken as unbounded: the index
    stays far from 2^63 for any map that fits in memory. */
module Dungeon {
  import opened Wrappers
  import opened Random

  const Unused := 0
  const DirtWall := 1
  const DirtFloor := 2
  const StoneWall := 3
  const Corridor := 4
  const Door := 5
  const UpStairs := 6
  const DownStairs := 7
  const Chest := 8

  const MaxRoomLength := 28
  const MaxRoomHeight := 14
  const MaxLengthCorridor := 16

  /** `chanceCorridor` is declared but never read. The length of `cells`
      is whatever the caller allocated; nothing in the generator fixes it. */
  datatype DunGen = DunGen(xsize: int, ysize: int, objects: int, chanceRoom: int, chanceCorridor: int,
                           cells: seq<int>, rng: Rand)

  datatype Pos = Pos(x: int, y: int)

  /** The slice index of a position. A position in column `xsize` shares
      its index with column 0 of the next row. */
  function Index(g: DunGen, p: Pos): int {
    p.x + g.xsize * p.y
  }

  predicate InMap(g: DunGen, p: Pos) {
    0 <= Index(g, p) < |g.cells|
  }

  /** Two states that differ at most in their cells and random source. */
  predicate SameShape(g: DunGen, h: DunGen) {
    && h.xsize == g.xsize && h.ysize == g.ysize && h.objects == g.objects
    && h.chanceRoom == g.chanceRoom && h.chanceCorridor == g.chanceCorridor
    && |h.cells| == |g.cells|
  }

  /** `setCell`; an index outside the slice panics. */
  function SetCell(g: DunGen, x: int, y: int, celltype: int): (r: Result<DunGen>)
    ensures r.Ok? <==> InMap(g, Pos(x, y))
    ensures r.Ok? ==> SameShape(g, r.value) && r.value.rng == g.rng
  {
    var i := x + g.xsize * y;
    if 0 <= i < |g.cells| then Ok(g.(cells := g.cells[i := celltype])) else Crash("index out of range")
  }

  /** `getCell`; an index outside the slice panics. */
  function GetCell(g: DunGen, x: int, y: int): (r: Result<int>)
    ensures r.Ok? <==> InMap(g, Pos(x, y))
  {
    var i := x + g.xsize * y;
    if 0 <= i < |g.cells| then Ok(g.cells[i]) else Crash("index out of range")
  }

  /** A written cell reads back as written, and every other index reads
      as before. */
  lemma SetThenGet(g: DunGen, x: int, y: int, v: int, x': int, y': int)
    requires SetCell(g, x, y, v).Ok?
    ensures GetCell(SetCell(g, x, y, v).value, x, y) == Ok(v)
    ensures Index(g, Pos(x', y')) != Index(g, Pos(x, y)) ==>
              GetCell(SetCell(g, x, y, v).value, x', y') == GetCell(g, x', y')
  {
  }

  predicate WalkableTile(t: int) {
    t == DirtFloor || t == Corridor || t == Door
  }

  /** `isWalkable`: reads the cell (panicking outside the slice) and
      accepts floor, corridor and door. */
  function IsWalkable(g: DunGen, x: int, y: int): (r: Result<bool>)
    ensures r.Ok? <==> InMap(g, Pos(x, y))
    ensures r.Ok? ==> (r.value <==> g.cells[Index(g, Pos(x, y))] in {DirtFloor, Corridor, Door})
  {
    match GetCell(g, x, y)
    case Crash(msg) => Crash(msg)
    case Ok(t) => Ok(WalkableTile(t))
  }

  /** `getRand`: `Intn(max - min + 1)` shifted by `min`; `Intn` panics on a
      bound below one. The `i < 0` branch of the source never fires. */
  function GetRand(r: Rand, min: int, max: int): (res: Result<(int, Rand)>)
    ensures res.Ok? <==> min <= max
    ensures res.Ok? ==> min <= res.value.0 <= max
    ensures res.Ok? ==> res.value.1 == Rand(r.src, r.pos + 1)
  {
    var n := max - min + 1;
    if n <= 0 then Crash("invalid argument to Intn")
    else
      var (i, r1) := Intn(r, n);
      Ok((min + (if i < 0 then -1 else i), r1))
  }

  /** Every value of [min, max] is a possible draw. */
  lemma GetRandReachesAll(r: Rand, min: int, max: int, v: int)
    requires min <= v <= max
    ensures GetRand(Rand(_ => v - min, r.pos), min, max) == Ok((v, Rand(_ => v - min, r.pos + 1)))
  {
    IntnReachesAll(r, max - min + 1, v - min);
  }

  // ---------------------------------------------------------------------
  // Checking and painting runs of cells

  /** The bounds test of the checking loops. It uses `> xsize` and
      `> ysize`, so column `xsize` and row `ysize` pass. The west corridor
      tests the still-zero `ytemp` in place of its row, which passes
      exactly when `ysize >= 0`. */
  predicate Fits(g: DunGen, p: Pos, west: bool) {
    && 0 <= p.x <= g.xsize
    && (if west then 0 <= g.ysize else 0 <= p.y <= g.ysize)
  }

  /** Every cell of the run passes the bounds test, lies in the slice and
      is unused. */
  predicate Clear(g: DunGen, cells: seq<Pos>, west: bool) {
    forall p :: p in cells ==> Fits(g, p, west) && InMap(g, p) && g.cells[Index(g, p)] == Unused
  }

  /** Drawing random numbers leaves a run as clear as it was. */
  lemma ClearIgnoresRng(g: DunGen, rng: Rand, cells: seq<Pos>, west: bool)
    ensures Clear(g.(rng := rng), cells, west) == Clear(g, cells, west)
  {
  }

  /** A checking loop: visit the cells in order and give up at the first
      one that fails the bounds test or is not unused. Reading a cell that
      passed the bounds test but lies outside the slice panics. */
  function Scan(g: DunGen, cells: seq<Pos>, west: bool): (r: Result<bool>)
    ensures r == Ok(true) <==> Clear(g, cells, west)
    ensures r.Crash? ==> exists p :: p in cells && Fits(g, p, west) && !InMap(g, p)
    decreases |cells|
  {
    if cells == [] then Ok(true)
    else
      var p := cells[0];
      if !Fits(g, p, west) then Ok(false)
      else
        match GetCell(g, p.x, p.y)
        case Crash(msg) => Crash(msg)
        case Ok(t) => if t != Unused then Ok(false) else Scan(g, cells[1..], west)
  }

  /** The slice indices a plan writes. */
  function Written(g: DunGen, plan: seq<(Pos, int)>): set<int> {
    set k | 0 <= k < |plan| :: Index(g, plan[k].0)
  }

  /** The tile kinds a plan writes. */
  function Kinds(plan: seq<(Pos, int)>): set<int> {
    set k | 0 <= k < |plan| :: plan[k].1
  }

  /** No later entry of the plan writes the same index as entry `k`. */
  predicate LastWrite(g: DunGen, plan: seq<(Pos, int)>, k: int)
    requires 0 <= k < |plan|
  {
    forall j :: k < j < |plan| ==> Index(g, plan[j].0) != Index(g, plan[k].0)
  }

  /** Indices depend on the row width alone. */
  lemma SameIndices(g: DunGen, h: DunGen, plan: seq<(Pos, int)>)
    requires g.xsize == h.xsize
    ensures Written(g, plan) == Written(h, plan)
    ensures forall k :: 0 <= k < |plan| ==> (LastWrite(g, plan, k) <==> LastWrite(h, plan, k))
  {
  }

  /** A painting loop: `setCell` for each entry in order. */
  function Paint(g: DunGen, plan: seq<(Pos, int)>): (r: Result<DunGen>)
    ensures r.Ok? <==> forall k :: 0 <= k < |plan| ==> InMap(g, plan[k].0)
    ensures r.Ok? ==> SameShape(g, r.value) && r.value.rng == g.rng
    decreases |plan|
  {
    if plan == [] then Ok(g)
    else
      match SetCell(g, plan[0].0.x, plan[0].0.y, plan[0].1)
      case Crash(msg) => Crash(msg)
      case Ok(g1) =>
        assert forall k :: 1 <= k < |plan| ==> plan[1..][k - 1] == plan[k];
        Paint(g1, plan[1..])
  }

  /** What painting leaves: indices outside the plan keep their tiles, an
      entry no later entry overwrites holds its tile, and every written
      index holds one of the plan's kinds. */
  lemma PaintEffect(g: DunGen, plan: seq<(Pos, int)>)
    requires Paint(g, plan).Ok?
    ensures forall i :: 0 <= i < |g.cells| && i !in Written(g, plan) ==>
              Paint(g, plan).value.cells[i] == g.cells[i]
    ensures forall k :: 0 <= k < |plan| && LastWrite(g, plan, k) ==>
              Paint(g, plan).value.cells[Index(g, plan[k].0)] == plan[k].1
    ensures forall i :: i in Written(g, plan) ==> Paint(g, plan).value.cells[i] in Kinds(plan)
  {
    PaintUntouched(g, plan);
    PaintLast(g, plan);
    PaintKinds(g, plan);
  }

  /** The first step of a painting loop and the rest of it. */
  lemma PaintStep(g: DunGen, plan: seq<(Pos, int)>)
    requires Paint(g, plan).Ok? && plan != []
    ensures var g1 := SetCell(g, plan[0].0.x, plan[0].0.y, plan[0].1);
            && g1.Ok? && g1.value.xsize == g.xsize && |g1.value.cells| == |g.cells|
            && g1.value.cells == g.cells[Index(g, plan[0].0) := plan[0].1]
            && Paint(g1.value, plan[1..]).Ok?
            && Paint(g, plan).value == Paint(g1.value, plan[1..]).value
            && Written(g, plan) == Written(g1.value, plan[1..]) + {Index(g, plan[0].0)}
  {
    var g1 := SetCell(g, plan[0].0.x, plan[0].0.y, plan[0].1).value;
    var rest := plan[1..];
    forall i | i in Written(g1, rest) ensures i in Written(g, plan) {
      var k :| 0 <= k < |rest| && i == Index(g1, rest[k].0);
      assert i == Index(g, plan[k + 1].0);
    }
    forall i | i in Written(g, plan) ensures i in Written(g1, rest) + {Index(g, plan[0].0)} {
      var k :| 0 <= k < |plan| && i == Index(g, plan[k].0);
      if k > 0 {
        assert i == Index(g1, rest[k - 1].0);
      }
    }
  }

  lemma {:induction false} PaintUntouched(g: DunGen, plan: seq<(Pos, int)>)
    requires Paint(g, plan).Ok?
    ensures forall i :: 0 <= i < |g.cells| && i !in Written(g, plan) ==>
              Paint(g, plan).value.cells[i] == g.cells[i]
    decreases |plan|
  {
    if plan != [] {
      PaintStep(g, plan);
      var g1 := SetCell(g, plan[0].0.x, plan[0].0.y, plan[0].1).value;
      PaintUntouched(g1, plan[1..]);
    }
  }

  lemma PaintLast(g: DunGen, plan: seq<(Pos, int)>)
    requires Paint(g, plan).Ok?
    ensures forall k :: 0 <= k < |plan| && LastWrite(g, plan, k) ==>
              Paint(g, plan).value.cells[Index(g, plan[k].0)] == plan[k].1
  {
    forall k | 0 <= k < |plan| && LastWrite(g, plan, k)
      ensures Paint(g, plan).value.cells[Index(g, plan[k].0)] == plan[k].1
    {
      PaintLastAt(g, plan, k);
    }
  }

  lemma {:induction false} PaintLastAt(g: DunGen, plan: seq<(Pos, int)>, k: int)
    requires Paint(g, plan).Ok? && 0 <= k < |plan| && LastWrite(g, plan, k)
    ensures Paint(g, plan).value.cells[Index(g, plan[k].0)] == plan[k].1
    decreases |plan|
  {
    PaintStep(g, plan);
    var g1 := SetCell(g, plan[0].0.x, plan[0].0.y, plan[0].1).value;
    var rest := plan[1..];
    if k == 0 {
      PaintUntouched(g1, rest);
      assert Index(g, plan[0].0) !in Written(g1, rest) by {
        forall j | 0 <= j < |rest| ensures Index(g1, rest[j].0) != Index(g, plan[0].0) {
          assert rest[j] == plan[j + 1];
        }
      }
    } else {
      assert rest[k - 1] == plan[k];
      assert LastWrite(g1, rest, k - 1) by {
        forall j | k - 1 < j < |rest| ensures Index(g1, rest[j].0) != Index(g1, rest[k - 1].0) {
          assert rest[j] == plan[j + 1];
        }
      }
      PaintLastAt(g1, rest, k - 1);
    }
  }

  lemma {:induction false} PaintKinds(g: DunGen, plan: seq<(Pos, int)>)
    requires Paint(g, plan).Ok?
    ensures forall i :: i in Written(g, plan) ==> Paint(g, plan).value.cells[i] in Kinds(plan)
    decreases |plan|
  {
    if plan != [] {
      PaintStep(g, plan);
      var g1 := SetCell(g, plan[0].0.x, plan[0].0.y, plan[0].1).value;
      var rest := plan[1..];
      PaintKinds(g1, rest);
      PaintUntouched(g1, rest);
      assert Kinds(rest) <= Kinds(plan) by {
        forall t | t in Kinds(rest) ensures t in Kinds(plan) {
          var k :| 0 <= k < |rest| && t == rest[k].1;
          assert t == plan[k + 1].1;
        }
      }
      assert plan[0].1 in Kinds(plan);
    }
  }

  /** `h` differs from `g` only at indices that now hold one of `kinds`. */
  predicate Changes(g: DunGen, h: DunGen, kinds: set<int>) {
    && |h.cells| == |g.cells|
    && forall i :: 0 <= i < |g.cells| && h.cells[i] != g.cells[i] ==> h.cells[i] in kinds
  }

  lemma ChangesTrans(g: DunGen, h: DunGen, k: DunGen, kinds: set<int>)
    requires Changes(g, h, kinds) && Changes(h, k, kinds)
    ensures Changes(g, k, kinds)
  {
  }

  /** Painting changes only what the plan writes, to the plan's kinds. */
  lemma PaintChanges(g: DunGen, plan: seq<(Pos, int)>)
    requires Paint(g, plan).Ok?
    ensures Changes(g, Paint(g, plan).value, Kinds(plan))
  {
    PaintEffect(g, plan);
  }

  /** A plan that writes each tile of `cells` with the same kind. */
  function Fill(cells: seq<Pos>, kind: int): (plan: seq<(Pos, int)>)
    ensures |plan| == |cells|
    ensures forall k :: 0 <= k < |cells| ==> plan[k] == (cells[k], kind)
  {
    seq(|cells|, k requires 0 <= k < |cells| => (cells[k], kind))
  }

  /** Filling a run writes its kind on every cell of the run and nothing
      elsewhere. */
  lemma FillEffect(g: DunGen, cells: seq<Pos>, kind: int)
    requires Paint(g, Fill(cells, kind)).Ok?
    ensures forall p :: p in cells ==> Paint(g, Fill(cells, kind)).value.cells[Index(g, p)] == kind
    ensures forall i :: 0 <= i < |g.cells| && i !in Written(g, Fill(cells, kind)) ==>
              Paint(g, Fill(cells, kind)).value.cells[i] == g.cells[i]
  {
    var plan := Fill(cells, kind);
    PaintUntouched(g, plan);
    PaintKinds(g, plan);
    assert Kinds(plan) <= {kind};
    forall p | p in cells ensures Index(g, p) in Written(g, plan) {
      var k :| 0 <= k < |cells| && cells[k] == p;
      assert plan[k].0 == p;
    }
  }
}
