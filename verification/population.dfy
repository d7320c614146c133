/** `WorldGrid.prepopCullGrids` (grid.go): which cells to populate ahead of
    the players and which to cull behind them. Cells live on the int64
    torus, so "near" is measured by wrapped differences. */
module Population {
  import opened Util
  import opened Coords
  import opened Shard
  import opened Worlds

  /** `playerGrids`: the cells whose shard counts a player. */
  function PlayerGrids(w: World): set<GridCoord> {
    set gc | gc in w.grid && w.grid[gc].playerCount > 0
  }

  /** `expandGrids`: each cell together with its eight neighbours. */
  function Expand(s: set<GridCoord>): set<GridCoord> {
    set g, dx: int, dy: int | g in s && -1 <= dx <= 1 && -1 <= dy <= 1 :: Shifted(g, dx, dy)
  }

  /** `g` lies within `k` cells of `p` in both axes, on the torus. */
  predicate Near(p: GridCoord, g: GridCoord, k: int) {
    -k <= Wrap(g.x - p.x) <= k && -k <= Wrap(g.y - p.y) <= k
  }

  /** The cells the players (and the origin) keep alive. */
  function Anchors(w: World): set<GridCoord> {
    PlayerGrids(w) + {GridCoord(0, 0)}
  }

  /** `prepopCullGrids`: the cells to populate and the cells to cull. */
  function PrepopCull(w: World): (r: (set<GridCoord>, set<GridCoord>)) {
    var pgrids := Anchors(w);
    var expand1 := Expand(pgrids);
    var prepop := Expand(expand1);
    var actual := w.grid.Keys;
    var spawn := set g | g in w.spawnGrids;
    var cull := actual - pgrids - prepop - spawn;
    (prepop - actual - expand1 - spawn, cull)
  }

  /** A unit step lands within one cell, and every cell within one is a
      unit step away. */
  lemma ShiftNear1(p: GridCoord, dx: int, dy: int)
    requires -1 <= dx <= 1 && -1 <= dy <= 1
    ensures Near(p, Shifted(p, dx, dy), 1)
  {
    WrapOffset(p.x, Wrap(p.x + dx), dx);
    WrapOffset(p.y, Wrap(p.y + dy), dy);
  }

  lemma Near1Shift(p: GridCoord, g: GridCoord)
    requires Near(p, g, 1)
    ensures g == Shifted(p, Wrap(g.x - p.x), Wrap(g.y - p.y))
  {
    WrapOffset(p.x, g.x, Wrap(g.x - p.x));
    WrapOffset(p.y, g.y, Wrap(g.y - p.y));
  }

  /** Two unit steps land within two cells ... */
  lemma ShiftNear2(p: GridCoord, dx1: int, dy1: int, dx2: int, dy2: int)
    requires -1 <= dx1 <= 1 && -1 <= dy1 <= 1 && -1 <= dx2 <= 1 && -1 <= dy2 <= 1
    ensures Near(p, Shifted(Shifted(p, dx1, dy1), dx2, dy2), 2)
  {
    TwoSteps(p.x, dx1, dx2);
    TwoSteps(p.y, dy1, dy2);
  }

  /** Two unit steps along one axis. */
  lemma TwoSteps(a: int64, d1: int, d2: int)
    requires -1 <= d1 <= 1 && -1 <= d2 <= 1
    ensures Wrap(Wrap(Wrap(a + d1) + d2) - a) == d1 + d2
  {
    WrapShift(a, d1, d2);
    WrapOffset(a, Wrap(a + d1 + d2), d1 + d2);
  }

  /** ... and every cell within two is two unit steps away. */
  lemma Near2Shift(p: GridCoord, g: GridCoord)
    requires Near(p, g, 2)
    ensures var dx, dy := Wrap(g.x - p.x), Wrap(g.y - p.y);
      g == Shifted(Shifted(p, Half(dx), Half(dy)), dx - Half(dx), dy - Half(dy))
  {
    var dx, dy := Wrap(g.x - p.x), Wrap(g.y - p.y);
    WrapShift(p.x, Half(dx), dx - Half(dx));
    WrapShift(p.y, Half(dy), dy - Half(dy));
    WrapOffset(p.x, g.x, dx);
    WrapOffset(p.y, g.y, dy);
  }

  /** One expansion reaches exactly the cells within one step. */
  lemma ExpandIsNear1(s: set<GridCoord>, g: GridCoord)
    ensures g in Expand(s) <==> exists p :: p in s && Near(p, g, 1)
  {
    if g in Expand(s) {
      var p, dx, dy :| p in s && -1 <= dx <= 1 && -1 <= dy <= 1 && g == Shifted(p, dx, dy);
      ShiftNear1(p, dx, dy);
    }
    if p :| p in s && Near(p, g, 1) {
      Near1Shift(p, g);
    }
  }

  /** Two expansions reach exactly the cells within two steps. */
  lemma ExpandTwiceIsNear2(s: set<GridCoord>, g: GridCoord)
    ensures g in Expand(Expand(s)) <==> exists p :: p in s && Near(p, g, 2)
  {
    if g in Expand(Expand(s)) {
      var h, dx2, dy2 :| h in Expand(s) && -1 <= dx2 <= 1 && -1 <= dy2 <= 1 && g == Shifted(h, dx2, dy2);
      var p, dx1, dy1 :| p in s && -1 <= dx1 <= 1 && -1 <= dy1 <= 1 && h == Shifted(p, dx1, dy1);
      ShiftNear2(p, dx1, dy1, dx2, dy2);
    }
    if p :| p in s && Near(p, g, 2) {
      Near2Shift(p, g);
      var dx, dy := Wrap(g.x - p.x), Wrap(g.y - p.y);
      var h := Shifted(p, Half(dx), Half(dy));
      assert h in Expand(s);
      assert g == Shifted(h, dx - Half(dx), dy - Half(dy));
    }
  }

  /** The first of two unit steps that add up to `d`. */
  function Half(d: int): (h: int)
    requires -2 <= d <= 2
    ensures -1 <= h <= 1 && -1 <= d - h <= 1
  {
    if d < 0 then -1 else if d > 0 then 1 else 0
  }

  /** A cell is culled exactly when it has a shard, is not a spawn cell,
      and lies more than two cells from every player and from the origin. */
  lemma CullIsFar(w: World, g: GridCoord)
    ensures g in PrepopCull(w).1 <==>
              && g in w.grid
              && g !in w.spawnGrids
              && forall p :: p in Anchors(w) ==> !Near(p, g, 2)
  {
    ExpandTwiceIsNear2(Anchors(w), g);
    if g in Anchors(w) {
      assert Near(g, g, 2);
    }
  }

  /** A cell is populated ahead exactly when it has no shard, is not a
      spawn cell, and lies two cells (but not one) from the nearest anchor. */
  lemma PrepopIsRing(w: World, g: GridCoord)
    ensures g in PrepopCull(w).0 <==>
              && g !in w.grid
              && g !in w.spawnGrids
              && (exists p :: p in Anchors(w) && Near(p, g, 2))
              && forall p :: p in Anchors(w) ==> !Near(p, g, 1)
  {
    ExpandTwiceIsNear2(Anchors(w), g);
    ExpandIsNear1(Anchors(w), g);
  }

  /** The two answers never overlap, and neither touches a spawn cell or a
      player's cell. */
  lemma PrepopCullDisjoint(w: World, g: GridCoord)
    ensures !(g in PrepopCull(w).0 && g in PrepopCull(w).1)
    ensures g in PrepopCull(w).0 + PrepopCull(w).1 ==> g !in w.spawnGrids && g !in PlayerGrids(w)
  {
  }
}
