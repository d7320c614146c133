/** The coordinate system of coord.go and util.go: global coordinates, the
    79 x 25 cells (grid coordinates) they fall into, cell-local coordinates,
    unit moves and the offsets a client viewport is encoded with. All
    coordinate arithmetic is Go int64 arithmetic and wraps explicitly. */
module Coords {
  import opened Util
  import opened Wrappers

  const SubgridWidth: int64 := 79
  const SubgridHeight: int64 := 25

  /** Half of the viewport: `subgrid_width / 2` and `subgrid_height / 2`. */
  const HalfWidth: int64 := 39
  const HalfHeight: int64 := 12

  datatype Coord = Coord(x: int64, y: int64)
  datatype GridCoord = GridCoord(x: int64, y: int64)
  datatype LCoord = LCoord(x: int, y: int)

  /** The sentinel `VisibleGrids` overwrites duplicates with. */
  const NullGCoord: GridCoord := GridCoord(MaxInt64, MaxInt64)

  /** Go's integer division by a positive divisor, which truncates toward zero. */
  function GoDiv(a: int64, b: int64): (q: int64)
    requires b > 0
    ensures a >= 0 ==> 0 <= q <= a
    ensures a < 0 ==> a <= q <= 0
    ensures b > 1 && a > 0 ==> q < a
  {
    var n: int := if a >= 0 then a as int else -(a as int);
    DivBound(n, b as int);
    var q: int := n / b;
    if a >= 0 then q else -q
  }

  lemma DivBound(n: nat, b: int)
    requires b > 0
    ensures 0 <= n / b <= n
    ensures b > 1 && n > 0 ==> n / b < n
  {
    if n / b > n {
      MulStep(n / b, b);
      assert false;
    } else if b > 1 && n > 0 && n / b == n {
      MulDouble(n, b);
      assert false;
    }
  }

  lemma MulDouble(q: nat, b: int)
    requires b >= 2
    ensures q * b >= 2 * q
  {
  }

  lemma MulStep(q: nat, b: int)
    requires b > 1 || (b == 1 && q >= 0)
    ensures q * b >= q
  {
  }

  lemma MulLess(q: int, q': int, b: int)
    requires q < q' && b > 0
    ensures q * b + b <= q' * b
    decreases q' - q
  {
    assert q' * b == (q' - 1) * b + b;
    if q' - 1 > q {
      MulLess(q, q' - 1, b);
    }
  }

  /** The cell index of `d` along an axis of size `dimSize` (coord.go loc2grid). */
  function Loc2Grid(d: int64, dimSize: int64): int64
    requires dimSize > 0
  {
    if d >= 0 then GoDiv(d, dimSize)
    else
      // d - (dimSize - 1) wraps around by 2^64 for the most negative d
      var t := d - (dimSize - 1);
      GoDiv(if t < MinInt64 then t + Modulus64 else t, dimSize)
  }

  /** `Loc2Grid` is floor division, so -1 falls in cell -1 and not in cell 0.
      Only the `dimSize - 1` most negative int64 values are excluded: for
      them the subtraction in the negative branch wraps. */
  lemma Loc2GridIsFloor(d: int64, dimSize: int64)
    requires dimSize > 0
    requires d >= MinInt64 + (dimSize - 1)
    ensures Loc2Grid(d, dimSize) * dimSize <= d < Loc2Grid(d, dimSize) * dimSize + dimSize
    ensures Loc2Grid(d, dimSize) == d / dimSize
  {
    var g := Loc2Grid(d, dimSize);
    if d < 0 {
      var a := d - (dimSize - 1);
      var q := (-a) / dimSize;
      var r := (-a) % dimSize;
      assert -a == q * dimSize + r;
      assert g == -q;
      assert g * dimSize == -(q * dimSize);
    }
    DivUnique(d, dimSize, g);
  }

  lemma DivUnique(d: int, b: int, q: int)
    requires b > 0
    requires q * b <= d < q * b + b
    ensures d / b == q
  {
    var q' := d / b;
    assert q' * b <= d < q' * b + b;
    if q' > q {
      MulLess(q, q', b);
      assert false;
    } else if q' < q {
      MulLess(q', q, b);
      assert false;
    }
  }

  /** The cell a global coordinate belongs to (coord.go `Coord.Grid`). */
  function GridOf(c: Coord): GridCoord {
    GridCoord(Loc2Grid(c.x, SubgridWidth), Loc2Grid(c.y, SubgridHeight))
  }

  /** No coordinate falls into the sentinel cell. */
  lemma GridOfNotNull(c: Coord)
    ensures GridOf(c) != NullGCoord
  {
  }

  /** The global coordinate of a cell's top-left tile (`GridCoord.Corner`). */
  function GridCorner(g: GridCoord): Coord {
    Coord(Wrap(g.x * SubgridWidth), Wrap(g.y * SubgridHeight))
  }

  /** The offset of a coordinate inside its cell (`Coord.LCoord`). */
  function LCoordOf(c: Coord): LCoord {
    var g := GridOf(c);
    LCoord(Wrap(c.x - Wrap(g.x * SubgridWidth)), Wrap(c.y - Wrap(g.y * SubgridHeight)))
  }

  /** The top-left tile of the 79 x 25 viewport centred on `c` (`Coord.Corner`). */
  function ViewCorner(c: Coord): (r: Coord)
    ensures c.x >= MinInt64 + HalfWidth ==> r.x + HalfWidth == c.x
    ensures c.y >= MinInt64 + HalfHeight ==> r.y + HalfHeight == c.y
  {
    Coord(Wrap(c.x - HalfWidth), Wrap(c.y - HalfHeight))
  }

  function InBounds(l: LCoord): bool {
    l.x >= 0 && l.y >= 0 && l.x < SubgridWidth && l.y < SubgridHeight
  }

  /** In bounds and off the cell's one-tile border. */
  function InShyBounds(l: LCoord): (r: bool)
    ensures r ==> InBounds(l)
    ensures r <==> InBounds(l) && 0 < l.x < SubgridWidth - 1 && 0 < l.y < SubgridHeight - 1
  {
    l.x >= 1 && l.y >= 1 && l.x < SubgridWidth - 1 && l.y < SubgridHeight - 1
  }

  /** Coordinates whose cell computation does not wrap. */
  predicate NoWrapCoord(c: Coord) {
    c.x >= MinInt64 + (SubgridWidth - 1) && c.y >= MinInt64 + (SubgridHeight - 1)
  }

  /** Every coordinate's local offset lies inside the cell. */
  lemma LCoordInBounds(c: Coord)
    requires NoWrapCoord(c)
    ensures InBounds(LCoordOf(c))
  {
    Loc2GridIsFloor(c.x, SubgridWidth);
    Loc2GridIsFloor(c.y, SubgridHeight);
  }

  /** The cell's corner plus the local offset gives back the coordinate. */
  lemma CornerPlusLocal(c: Coord)
    requires NoWrapCoord(c)
    ensures GridCorner(GridOf(c)).x + LCoordOf(c).x == c.x
    ensures GridCorner(GridOf(c)).y + LCoordOf(c).y == c.y
  {
    Loc2GridIsFloor(c.x, SubgridWidth);
    Loc2GridIsFloor(c.y, SubgridHeight);
  }

  /** Cells whose every tile has a coordinate that does not wrap. */
  predicate GridInRange(g: GridCoord) {
    && MinInt64 + (SubgridWidth - 1) <= g.x * SubgridWidth
    && g.x * SubgridWidth + (SubgridWidth - 1) <= MaxInt64
    && MinInt64 + (SubgridHeight - 1) <= g.y * SubgridHeight
    && g.y * SubgridHeight + (SubgridHeight - 1) <= MaxInt64
  }

  /** A local offset added to a cell's corner stays in that cell; this is
      what `SubGrid.RandomCoord` relies on. */
  lemma GridOfCornerOffset(g: GridCoord, lx: int, ly: int)
    requires GridInRange(g)
    requires 0 <= lx < SubgridWidth && 0 <= ly < SubgridHeight
    ensures IsInt64(g.x * SubgridWidth + lx) && IsInt64(g.y * SubgridHeight + ly)
    ensures GridOf(Coord(g.x * SubgridWidth + lx, g.y * SubgridHeight + ly)) == g
  {
    var c := Coord(g.x * SubgridWidth + lx, g.y * SubgridHeight + ly);
    Loc2GridIsFloor(c.x, SubgridWidth);
    Loc2GridIsFloor(c.y, SubgridHeight);
    DivUnique(c.x, SubgridWidth, g.x);
    DivUnique(c.y, SubgridHeight, g.y);
  }

  /** One step in a compass direction; any other rune stays put. */
  function MovedBy(c: Coord, move: char): (r: Coord)
    ensures move in "nswe" ==> r in Neighbors4(c)
    ensures move !in "nswe" ==> r == c
  {
    match move
    case 'n' => Coord(c.x, Wrap(c.y - 1))
    case 's' => Coord(c.x, Wrap(c.y + 1))
    case 'w' => Coord(Wrap(c.x - 1), c.y)
    case 'e' => Coord(Wrap(c.x + 1), c.y)
    case _ => c
  }

  /** The four orthogonal neighbours, in the order north, south, west, east. */
  function Neighbors4(c: Coord): seq<Coord> {
    [Coord(c.x, Wrap(c.y - 1)), Coord(c.x, Wrap(c.y + 1)),
     Coord(Wrap(c.x - 1), c.y), Coord(Wrap(c.x + 1), c.y)]
  }

  /** The direction rune that moves `self` onto `other`, or '0'. */
  function AsMoveTo(self: Coord, other: Coord): (r: char)
    ensures r in "nswe0"
    ensures r == '0' <==> other !in Neighbors4(self)
    ensures r != '0' ==> MovedBy(self, r) == other
  {
    if self.x == other.x && Wrap(self.y - 1) == other.y then 'n'
    else if self.x == other.x && Wrap(self.y + 1) == other.y then 's'
    else if Wrap(self.x - 1) == other.x && self.y == other.y then 'w'
    else if Wrap(self.x + 1) == other.x && self.y == other.y then 'e'
    else '0'
  }

  /** The four neighbours are pairwise distinct, even where int64 wraps. */
  lemma {:induction false} NeighborsDistinct(c: Coord)
    ensures Wrap(c.y - 1) != Wrap(c.y + 1)
    ensures Wrap(c.x - 1) != Wrap(c.x + 1)
    ensures Wrap(c.y - 1) != c.y && Wrap(c.y + 1) != c.y
    ensures Wrap(c.x - 1) != c.x && Wrap(c.x + 1) != c.x
  {
    if Wrap(c.y - 1) == Wrap(c.y + 1) { WrapInjective(c.y - 1, c.y + 1); }
    if Wrap(c.x - 1) == Wrap(c.x + 1) { WrapInjective(c.x - 1, c.x + 1); }
    if Wrap(c.y - 1) == c.y { WrapInjective(c.y - 1, c.y); }
    if Wrap(c.y + 1) == c.y { WrapInjective(c.y + 1, c.y); }
    if Wrap(c.x - 1) == c.x { WrapInjective(c.x - 1, c.x); }
    if Wrap(c.x + 1) == c.x { WrapInjective(c.x + 1, c.x); }
  }

  /** `AsMoveTo` inverts `MovedBy` for the four direction runes. */
  lemma MoveRoundTrip(c: Coord, move: char)
    requires move in "nswe"
    ensures AsMoveTo(c, MovedBy(c, move)) == move
  {
    NeighborsDistinct(c);
  }

  /** A cell shifted by (dx, dy) cells, with int64 wrap. */
  function Shifted(g: GridCoord, dx: int, dy: int): GridCoord
    requires -1 <= dx <= 1 && -1 <= dy <= 1
  {
    GridCoord(Wrap(g.x + dx), Wrap(g.y + dy))
  }

  /** The 3 x 3 block of cells centred on `g`. */
  function Neighborhood(g: GridCoord): set<GridCoord> {
    set dx: int, dy: int | -1 <= dx <= 1 && -1 <= dy <= 1 :: Shifted(g, dx, dy)
  }

  lemma ShiftedInjective(g: GridCoord, dx: int, dy: int, dx': int, dy': int)
    requires -1 <= dx <= 1 && -1 <= dy <= 1
    requires -1 <= dx' <= 1 && -1 <= dy' <= 1
    requires Shifted(g, dx, dy) == Shifted(g, dx', dy')
    ensures dx == dx' && dy == dy'
  {
    WrapInjective(g.x + dx, g.x + dx');
    WrapInjective(g.y + dy, g.y + dy');
  }

  /** The k-th cell of the expansion: rows from north to south, each row
      from west to east. */
  function ExpansionCell(g: GridCoord, k: int): GridCoord
    requires 0 <= k < 9
  {
    Shifted(g, k % 3 - 1, k / 3 - 1)
  }

  lemma ExpansionCellsDistinct(g: GridCoord, i: int, j: int)
    requires 0 <= i < j < 9
    ensures ExpansionCell(g, i) != ExpansionCell(g, j)
  {
    if ExpansionCell(g, i) == ExpansionCell(g, j) {
      ShiftedInjective(g, i % 3 - 1, i / 3 - 1, j % 3 - 1, j / 3 - 1);
      assert false;
    }
  }

  /** The row and column offsets of a cell of the neighbourhood. */
  function Lift(g: GridCoord, h: GridCoord): (d: (int, int))
    requires h in Neighborhood(g)
    ensures -1 <= d.0 <= 1 && -1 <= d.1 <= 1 && h == Shifted(g, d.0, d.1)
  {
    var dx: int, dy: int :| -1 <= dx <= 1 && -1 <= dy <= 1 && h == Shifted(g, dx, dy); (dx, dy)
  }

  lemma ExpansionCellsCover(g: GridCoord, h: GridCoord)
    requires h in Neighborhood(g)
    ensures 0 <= 3 * (Lift(g, h).1 + 1) + (Lift(g, h).0 + 1) < 9
    ensures h == ExpansionCell(g, 3 * (Lift(g, h).1 + 1) + (Lift(g, h).0 + 1))
  {
    var d := Lift(g, h);
    var k := 3 * (d.1 + 1) + (d.0 + 1);
    assert k % 3 == d.0 + 1 && k / 3 == d.1 + 1;
  }

  /** `GridCoord.Expansion`: the nine cells around `g`, row by row from the
      north-west. */
  method Expansion(g: GridCoord) returns (r: seq<GridCoord>)
    ensures |r| == 9
    ensures forall k :: 0 <= k < 9 ==> r[k] == ExpansionCell(g, k)
    ensures r[4] == g
    ensures forall i, j :: 0 <= i < j < |r| ==> r[i] != r[j]
    ensures forall h :: h in r <==> h in Neighborhood(g)
  {
    r := [];
    var y := -1;
    while y <= 1
      invariant -1 <= y <= 2
      invariant |r| == 3 * (y + 1)
      invariant forall k :: 0 <= k < |r| ==> r[k] == ExpansionCell(g, k)
    {
      var x := -1;
      while x <= 1
        invariant -1 <= x <= 2
        invariant |r| == 3 * (y + 1) + (x + 1)
        invariant forall k :: 0 <= k < |r| ==> r[k] == ExpansionCell(g, k)
      {
        assert Shifted(g, x, y) == ExpansionCell(g, |r|);
        r := r + [Shifted(g, x, y)];
        x := x + 1;
      }
      y := y + 1;
    }
    ExpansionListed(g, r);
  }

  /** A list of the nine expansion cells in order holds `g` in the middle,
      repeats no cell and holds exactly the neighbourhood. */
  lemma ExpansionListed(g: GridCoord, r: seq<GridCoord>)
    requires |r| == 9 && forall k :: 0 <= k < 9 ==> r[k] == ExpansionCell(g, k)
    ensures r[4] == g
    ensures forall i, j :: 0 <= i < j < |r| ==> r[i] != r[j]
    ensures forall h :: h in r <==> h in Neighborhood(g)
  {
    assert r[4] == ExpansionCell(g, 4);
    forall i, j | 0 <= i < j < |r|
      ensures r[i] != r[j]
    {
      ExpansionCellsDistinct(g, i, j);
    }
    forall h | h in Neighborhood(g)
      ensures h in r
    {
      ExpansionCellsCover(g, h);
    }
    forall h | h in r
      ensures h in Neighborhood(g)
    {
      var k :| 0 <= k < 9 && r[k] == h;
      assert -1 <= k % 3 - 1 <= 1 && -1 <= k / 3 - 1 <= 1;
    }
  }

  /** Both axes within half a viewport of each other (`Coord.InRange`). */
  function InRange(self: Coord, other: Coord): bool {
    AbsDiff(self.x, other.x) <= HalfWidth && AbsDiff(self.y, other.y) <= HalfHeight
  }

  /** `abs(a - b)` in int64. */
  function AbsDiff(a: int64, b: int64): int64 {
    Abs(Wrap(a - b))
  }

  lemma AbsWrapAntisymmetric(a: int64, b: int64)
    ensures AbsDiff(a, b) == AbsDiff(b, a)
  {
    var d, e := Wrap(a - b), Wrap(b - a);
    if d == MinInt64 {
      assert e == MinInt64;
    } else if d == 0 {
      assert e == 0;
    } else {
      assert d + e == 0;
    }
  }

  /** Being in viewing range is symmetric, also where the difference wraps. */
  lemma {:induction false} InRangeSymmetric(a: Coord, b: Coord)
    ensures InRange(a, b) == InRange(b, a)
  {
    AbsWrapAntisymmetric(a.x, b.x);
    AbsWrapAntisymmetric(a.y, b.y);
  }

  /** `n` consecutive characters starting at `first`. */
  function Run(first: char, n: nat): (s: string)
    requires first as int + n <= 0xD800
    ensures |s| == n
  {
    seq(n, i requires 0 <= i < n => (first as int + i) as char)
  }

  /** The punctuation that ends `Base91Table`. */
  const Base91Marks: string := "!#$%&()*+,./:;<=>?@[]^_`{|}~-"

  /** The 91 runes an offset inside the viewport is written with: the
      upper-case letters, the lower-case letters, the digits, then the
      punctuation, in the order the Go table lists them. */
  const Base91Table: string := Run('A', 26) + Run('a', 26) + Run('0', 10) + Base91Marks

  /** The viewport offsets `WriteDisplay` encodes: the difference to the
      viewer plus half the viewport, in int64. */
  function DisplayOffset(self: int64, viewer: int64, half: int64): int64 {
    Wrap(Wrap(self - viewer) + half)
  }

  /** The two runes of a pair of offsets; an offset outside the table
      panics. */
  function Base91Pair(dx: int64, dy: int64): Result<string> {
    if 0 <= dx < |Base91Table| && 0 <= dy < |Base91Table| then
      Ok([Base91Table[dx], Base91Table[dy]])
    else
      Crash("index out of range")
  }

  /** `Coord.WriteDisplay`: the two runes naming `self` relative to the
      viewer at `player`. */
  function WriteDisplay(self: Coord, player: Coord): Result<string> {
    Base91Pair(DisplayOffset(self.x, player.x, HalfWidth), DisplayOffset(self.y, player.y, HalfHeight))
  }

  /** An entity in viewing range is written with offsets inside the 79 x 25
      viewport, so the table lookups stay in bounds. The one exception is a
      difference of exactly 2^63, whose absolute value wraps to MinInt64. */
  lemma InRangeWritesViewport(self: Coord, player: Coord)
    requires InRange(self, player)
    requires Wrap(self.x - player.x) != MinInt64 && Wrap(self.y - player.y) != MinInt64
    ensures 0 <= DisplayOffset(self.x, player.x, HalfWidth) < SubgridWidth
    ensures 0 <= DisplayOffset(self.y, player.y, HalfHeight) < SubgridHeight
    ensures DisplayOffset(self.x, player.x, HalfWidth) == Wrap(self.x - player.x) + HalfWidth
    ensures DisplayOffset(self.y, player.y, HalfHeight) == Wrap(self.y - player.y) + HalfHeight
    ensures WriteDisplay(self, player)
         == Ok([Base91Table[DisplayOffset(self.x, player.x, HalfWidth)], Base91Table[DisplayOffset(self.y, player.y, HalfHeight)]])
  {
    var dx := Wrap(self.x - player.x);
    var dy := Wrap(self.y - player.y);
    AbsBound(dx, HalfWidth);
    AbsBound(dy, HalfHeight);
    assert IsInt64(dx + HalfWidth) && IsInt64(dy + HalfHeight);
    Base91InBounds(DisplayOffset(self.x, player.x, HalfWidth), DisplayOffset(self.y, player.y, HalfHeight));
  }

  lemma Base91InBounds(dx: int64, dy: int64)
    requires 0 <= dx < SubgridWidth && 0 <= dy < SubgridHeight
    ensures Base91Pair(dx, dy) == Ok([Base91Table[dx], Base91Table[dy]])
  {
  }

  lemma AbsBound(d: int64, h: int)
    requires d != MinInt64 && Abs(d) <= h
    ensures -h <= d <= h
  {
  }

  /** City-block distance (util.go `manhattanDist`), with int64 wrap. */
  function ManhattanDist(a: Coord, b: Coord): int64 {
    Wrap(AbsDiff(a.x, b.x) + AbsDiff(a.y, b.y))
  }

  lemma {:induction false} ManhattanSymmetric(a: Coord, b: Coord)
    ensures ManhattanDist(a, b) == ManhattanDist(b, a)
  {
    AbsWrapAntisymmetric(a.x, b.x);
    AbsWrapAntisymmetric(a.y, b.y);
  }

  lemma WrapDiffZero(a: int64, b: int64)
    ensures Wrap(a - b) == 0 <==> a == b
  {
    assert IsInt64(a) && IsInt64(b);
    if Wrap(a - b) == 0 { WrapInjective(a - b, 0); }
  }

  /** The distance is zero exactly for equal coordinates, except when both
      differences are 2^63: then the two wrapped absolute values cancel. */
  lemma {:induction false} ManhattanZero(a: Coord, b: Coord)
    ensures ManhattanDist(a, b) == 0
        <==> a == b || (Wrap(a.x - b.x) == MinInt64 && Wrap(a.y - b.y) == MinInt64)
  {
    WrapDiffZero(a.x, b.x);
    WrapDiffZero(a.y, b.y);
  }

  /** Each of the four neighbours is at distance one. */
  lemma {:induction false} ManhattanNeighbors(c: Coord)
    ensures forall n :: n in Neighbors4(c) ==> ManhattanDist(c, n) == 1
  {
    forall n | n in Neighbors4(c)
      ensures ManhattanDist(c, n) == 1
    {
      NeighborsDistinct(c);
      WrapDiffZero(c.x, n.x);
      WrapDiffZero(c.y, n.y);
      var dx := Wrap(c.x - n.x);
      var dy := Wrap(c.y - n.y);
      assert dx == 0 || dx == 1 || dx == -1;
      assert dy == 0 || dy == 1 || dy == -1;
    }
  }

  /** `SortableLCoords.Less` and `SortableGCoords.Less`: lexicographic by x,
      then y. */
  function LCoordLess(a: LCoord, b: LCoord): bool {
    a.x < b.x || (a.x == b.x && a.y < b.y)
  }

  function GCoordLess(a: GridCoord, b: GridCoord): bool {
    a.x < b.x || (a.x == b.x && a.y < b.y)
  }

  /** Both `Less` functions are strict total orders, which is what makes the
      result of `sort.Sort` unique. */
  lemma LessIsStrictTotalOrder()
    ensures forall a: GridCoord :: !GCoordLess(a, a)
    ensures forall a: GridCoord, b: GridCoord, c: GridCoord :: GCoordLess(a, b) && GCoordLess(b, c) ==> GCoordLess(a, c)
    ensures forall a: GridCoord, b: GridCoord :: a != b ==> GCoordLess(a, b) || GCoordLess(b, a)
    ensures forall a: LCoord :: !LCoordLess(a, a)
    ensures forall a: LCoord, b: LCoord, c: LCoord :: LCoordLess(a, b) && LCoordLess(b, c) ==> LCoordLess(a, c)
    ensures forall a: LCoord, b: LCoord :: a != b ==> LCoordLess(a, b) || LCoordLess(b, a)
  {
  }
}
