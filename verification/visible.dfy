/** `Coord.VisibleGrids` (coord.go): the distinct cells touched by the four
    corners of a viewing rectangle, sorted, with duplicates removed by
    overwriting them with the sentinel `NullGCoord` and sorting again. */
module Visible {
  import opened Util
  import opened Coords

  /** The non-strict form of `SortableGCoords.Less`. */
  predicate GLeq(a: GridCoord, b: GridCoord) {
    a == b || GCoordLess(a, b)
  }

  predicate Sorted(s: seq<GridCoord>) {
    forall i, j :: 0 <= i < j < |s| ==> GLeq(s[i], s[j])
  }

  predicate StrictlySorted(s: seq<GridCoord>) {
    forall i, j :: 0 <= i < j < |s| ==> GCoordLess(s[i], s[j])
  }

  /** The sentinel is the greatest cell of all. */
  lemma NullIsTop(g: GridCoord)
    ensures GLeq(g, NullGCoord)
    ensures GLeq(NullGCoord, g) ==> g == NullGCoord
  {
  }

  function Insert(x: GridCoord, s: seq<GridCoord>): (r: seq<GridCoord>)
    requires Sorted(s)
    ensures Sorted(r)
    ensures multiset(r) == multiset(s) + multiset{x}
    ensures |r| == |s| + 1
  {
    if s == [] then [x]
    else if GLeq(x, s[0]) then [x] + s
    else
      assert s == [s[0]] + s[1..];
      var t := Insert(x, s[1..]);
      assert forall k :: 0 <= k < |t| ==> GLeq(s[0], t[k]) by {
        forall k | 0 <= k < |t|
          ensures GLeq(s[0], t[k])
        {
          assert t[k] in multiset(t);
          if t[k] != x {
            assert t[k] in multiset(s[1..]);
            var j :| 1 <= j < |s| && s[j] == t[k];
          }
        }
      }
      [s[0]] + t
  }

  /** `sort.Sort(SortableGCoords(...))`: a sorted permutation of its input.
      Because `Less` is a strict total order the sorted permutation is
      unique, so the algorithm `sort.Sort` uses does not matter. */
  function SortGrids(s: seq<GridCoord>): (r: seq<GridCoord>)
    ensures Sorted(r)
    ensures multiset(r) == multiset(s)
    ensures |r| == |s|
  {
    if s == [] then []
    else
      assert s == [s[0]] + s[1..];
      Insert(s[0], SortGrids(s[1..]))
  }

  /** The entries that are not the sentinel, in order. */
  function Real(s: seq<GridCoord>): (r: seq<GridCoord>)
    ensures NullGCoord !in r
    ensures |r| + multiset(s)[NullGCoord] == |s|
    ensures forall x :: x != NullGCoord ==> multiset(r)[x] == multiset(s)[x]
  {
    if s == [] then []
    else
      assert s == [s[0]] + s[1..];
      (if s[0] == NullGCoord then [] else [s[0]]) + Real(s[1..])
  }

  /** In a sorted sequence the sentinels form a suffix, so the real
      entries are a prefix. */
  lemma {:induction false} SortedRealPrefix(v: seq<GridCoord>)
    requires Sorted(v)
    ensures |Real(v)| <= |v|
    ensures v[..|Real(v)|] == Real(v)
  {
    if v != [] {
      SortedRealPrefix(v[1..]);
      if v[0] == NullGCoord {
        forall k | 0 <= k < |v|
          ensures v[k] == NullGCoord
        {
          NullIsTop(v[k]);
        }
      }
    }
  }

  /** A duplicate entry occurs at least twice. */
  lemma DuplicateCounts(s: seq<GridCoord>, i: int, j: int)
    requires 0 <= i < j < |s| && s[i] == s[j]
    ensures multiset(s)[s[i]] >= 2
  {
    assert s == s[..i] + [s[i]] + s[i + 1..j] + [s[j]] + s[j + 1..];
  }

  /** The pass in the middle of `VisibleGrids`: an entry equal to its
      predecessor becomes the sentinel. */
  function DedupAt(s: seq<GridCoord>, k: int): GridCoord
    requires 0 <= k < |s|
  {
    if k == 0 then (if s[0] == NullGCoord then NullGCoord else s[0])
    else if s[k] == s[k - 1] then NullGCoord
    else s[k]
  }

  /** After de-duplication of a sorted sequence, no real cell occurs twice. */
  lemma DedupDistinct(s: seq<GridCoord>, u: seq<GridCoord>, i: int, j: int)
    requires Sorted(s) && |u| == |s|
    requires forall k :: 0 <= k < |s| ==> u[k] == DedupAt(s, k)
    requires 0 <= i < j < |u| && u[i] != NullGCoord
    ensures u[i] != u[j]
  {
  }

  /** Every real cell of the input survives de-duplication. */
  lemma {:induction false} DedupKeeps(s: seq<GridCoord>, u: seq<GridCoord>, k: int)
    requires |u| == |s|
    requires forall i :: 0 <= i < |s| ==> u[i] == DedupAt(s, i)
    requires 0 <= k < |s| && s[k] != NullGCoord
    ensures s[k] in u
  {
    if k > 0 && s[k] == s[k - 1] {
      DedupKeeps(s, u, k - 1);
    } else {
      assert u[k] == s[k];
    }
  }

  /** A sequence in which no real cell occurs twice holds each at most once. */
  lemma {:induction false} AtMostOnce(s: seq<GridCoord>, x: GridCoord)
    requires x != NullGCoord
    requires forall i, j :: 0 <= i < j < |s| && s[i] != NullGCoord ==> s[i] != s[j]
    ensures multiset(s)[x] <= 1
  {
    if s != [] {
      assert s == [s[0]] + s[1..];
      AtMostOnce(s[1..], x);
    }
  }

  /** The four corners of the rectangle reaching `xdist` and `ydist` from
      `self`, in the order `VisibleGrids` lists them. */
  function CornerGrids(self: Coord, xdist: int64, ydist: int64): seq<GridCoord> {
    var x0, x1 := Wrap(self.x - xdist), Wrap(self.x + xdist);
    var y0, y1 := Wrap(self.y - ydist), Wrap(self.y + ydist);
    [GridOf(Coord(x0, y0)), GridOf(Coord(x0, y1)), GridOf(Coord(x1, y0)), GridOf(Coord(x1, y1))]
  }

  /** The real cells of a de-duplicated sorted sequence, sorted again, are
      exactly the input's cells, each once, in increasing order. */
  lemma DedupResult(corners: seq<GridCoord>, s: seq<GridCoord>, u: seq<GridCoord>, v: seq<GridCoord>)
    requires NullGCoord !in corners
    requires Sorted(s) && multiset(s) == multiset(corners)
    requires |u| == |s| && forall k :: 0 <= k < |s| ==> u[k] == DedupAt(s, k)
    requires Sorted(v) && multiset(v) == multiset(u)
    ensures |Real(v)| <= |v| && v[..|Real(v)|] == Real(v)
    ensures StrictlySorted(Real(v))
    ensures forall g :: g in Real(v) <==> g in corners
  {
    SortedRealPrefix(v);
    var r := Real(v);
    forall g
      ensures g in r <==> g in corners
    {
      if g in r {
        assert multiset(u)[g] > 0;
        var k :| 0 <= k < |u| && u[k] == g;
        assert g in multiset(s);
      }
      if g in corners {
        assert g in multiset(s);
        var k :| 0 <= k < |s| && s[k] == g;
        DedupKeeps(s, u, k);
        assert g in multiset(v);
      }
    }
    forall a, b | 0 <= a < b < |u| && u[a] != NullGCoord
      ensures u[a] != u[b]
    {
      DedupDistinct(s, u, a, b);
    }
    forall i, j | 0 <= i < j < |r|
      ensures GCoordLess(r[i], r[j])
    {
      AtMostOnce(u, r[i]);
      if r[i] == r[j] {
        DuplicateCounts(v, i, j);
        assert false;
      }
    }
  }

  /** `Coord.VisibleGrids`: the cells of the four corners, each once, in
      (x, y) order. */
  method VisibleGrids(self: Coord, xdist: int64, ydist: int64) returns (r: seq<GridCoord>)
    ensures 1 <= |r| <= 4
    ensures StrictlySorted(r)
    ensures forall g :: g in r <==> g in CornerGrids(self, xdist, ydist)
  {
    var corners := CornerGrids(self, xdist, ydist);
    var s := SortGrids(corners);
    var u, count := MarkDuplicates(s);
    var v := SortGrids(u);
    CornersNotNull(self, xdist, ydist);
    DedupResult(corners, s, u, v);
    r := v[..count];
    assert corners[0] in r;
  }

  /** The loop of `VisibleGrids`: each entry equal to the last one kept is
      overwritten with the sentinel, and `count` drops by one for it. */
  method MarkDuplicates(s: seq<GridCoord>) returns (u: seq<GridCoord>, count: int)
    ensures |u| == |s|
    ensures forall k :: 0 <= k < |s| ==> u[k] == DedupAt(s, k)
    ensures NullGCoord !in s ==> count + multiset(u)[NullGCoord] == |s|
  {
    u := s;
    count := |s|;
    var prev := NullGCoord;
    for i := 0 to |s|
      invariant |u| == |s|
      invariant prev == if i == 0 then NullGCoord else s[i - 1]
      invariant forall k :: 0 <= k < i ==> u[k] == DedupAt(s, k)
      invariant forall k :: i <= k < |s| ==> u[k] == s[k]
      invariant NullGCoord !in s ==> count + multiset(u[..i])[NullGCoord] == |s|
    {
      ghost var done := u[..i];
      if u[i] == prev {
        count := count - 1;
        u := u[i := NullGCoord];
      } else {
        prev := u[i];
      }
      assert u[..i + 1] == done + [u[i]];
    }
    assert u[..|s|] == u;
  }

  lemma CornersNotNull(self: Coord, xdist: int64, ydist: int64)
    ensures NullGCoord !in CornerGrids(self, xdist, ydist)
  {
    GridOfNotNull(Coord(Wrap(self.x - xdist), Wrap(self.y - ydist)));
    GridOfNotNull(Coord(Wrap(self.x - xdist), Wrap(self.y + ydist)));
    GridOfNotNull(Coord(Wrap(self.x + xdist), Wrap(self.y - ydist)));
    GridOfNotNull(Coord(Wrap(self.x + xdist), Wrap(self.y + ydist)));
  }
}
