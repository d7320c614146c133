/** The A* pathfinder of astar.go: a best-first search, bounded by an
    iteration limit, over a caller-supplied heuristic, passability test and
    neighbour function. Go's `container/heap` is modelled as a sequence of
    nodes from which a pop takes the first node of least priority; the
    `index` field Go keeps in each node is its position in that sequence. */
module AStar {
  import opened Util
  import opened Wrappers
  import opened Coords

  datatype NodeF = NodeF(coord: Coord, priority: int64)

  /** The coords that have a node in the queue. */
  function Queued(q: seq<NodeF>): set<Coord> {
    set n | n in q :: n.coord
  }

  /** No node twice and no coord on two nodes. */
  predicate OnePerCoord(q: seq<NodeF>) {
    && (forall n :: n in q ==> multiset(q)[n] == 1)
    && (forall n, m :: n in q && m in q && n.coord == m.coord ==> n == m)
  }

  // ---------------------------------------------------------------------
  // The priority queue

  /** The position `heap.Pop` takes: the first node of least priority. */
  function MinIndex(q: seq<NodeF>): (i: nat)
    requires |q| > 0
    ensures i < |q|
    ensures forall k :: 0 <= k < |q| ==> q[i].priority <= q[k].priority
  {
    if |q| == 1 then 0
    else
      var j := MinIndex(q[1..]);
      if q[1 + j].priority < q[0].priority then 1 + j else 0
  }

  /** `heap.Remove`: the queue without the node at position `i`. */
  function RemoveAt(q: seq<NodeF>, i: nat): (r: seq<NodeF>)
    requires i < |q|
    ensures multiset(r) + multiset{q[i]} == multiset(q)
    ensures forall n :: n in q <==> n in r || n == q[i]
  {
    assert q == q[..i] + [q[i]] + q[i + 1..];
    q[..i] + q[i + 1..]
  }

  /** The position of the node holding `coord`. */
  function IndexOf(q: seq<NodeF>, coord: Coord): (i: nat)
    requires coord in Queued(q)
    ensures i < |q| && q[i].coord == coord
  {
    if q[0].coord == coord then 0
    else
      assert coord in Queued(q[1..]) by {
        var n :| n in q && n.coord == coord;
        assert n in q[1..];
      }
      1 + IndexOf(q[1..], coord)
  }

  /** Taking one node out of a queue with one node per coord leaves one
      node per coord and frees exactly that node's coord. */
  lemma TakeOne(q: seq<NodeF>, r: seq<NodeF>, p: NodeF)
    requires OnePerCoord(q) && multiset(r) + multiset{p} == multiset(q)
    ensures OnePerCoord(r)
    ensures Queued(r) == Queued(q) - {p.coord}
  {
    assert p in multiset(q);
    forall n | n in r
      ensures multiset(r)[n] == 1 && n in q && n != p
    {
      assert multiset(r)[n] + multiset{p}[n] == multiset(q)[n];
      assert n in multiset(q);
    }
    forall c | c in Queued(q) - {p.coord}
      ensures c in Queued(r)
    {
      var n :| n in q && n.coord == c;
      assert multiset(r)[n] + multiset{p}[n] == multiset(q)[n];
    }
  }

  /** `lowestOpenFScore`: pop nodes until one whose coord is open; the
      nodes popped on the way are pushed back. Returns that node, or None
      when no queued coord is open, together with the queue left behind. */
  function LowestOpenFScore(open: set<Coord>, q: seq<NodeF>): (r: (Option<NodeF>, seq<NodeF>))
    ensures r.0.Some? <==> exists n :: n in q && n.coord in open
    ensures r.0.Some? ==> r.0.value in q && r.0.value.coord in open
    ensures r.0.Some? ==> forall n :: n in q && n.coord in open ==> r.0.value.priority <= n.priority
    ensures r.0.Some? ==> multiset(r.1) + multiset{r.0.value} == multiset(q)
    ensures r.0.None? ==> multiset(r.1) == multiset(q)
    decreases |q|
  {
    if |q| == 0 then (None, q)
    else
      var i := MinIndex(q);
      var p1 := q[i];
      var rest := RemoveAt(q, i);
      if p1.coord in open then
        MinIndexIsLeast(q, i);
        (Some(p1), rest)
      else
        var (c, q2) := LowestOpenFScore(open, rest);
        (c, q2 + [p1])
  }

  lemma MinIndexIsLeast(q: seq<NodeF>, i: nat)
    requires i < |q| && forall k :: 0 <= k < |q| ==> q[i].priority <= q[k].priority
    ensures forall n :: n in q ==> q[i].priority <= n.priority
  {
    forall n | n in q
      ensures q[i].priority <= n.priority
    {
      var k :| 0 <= k < |q| && q[k] == n;
    }
  }

  /** `NodeFPQ.update` as `setFScore` uses it: the coord's node leaves the
      queue and comes back with the new priority. */
  function Update(q: seq<NodeF>, coord: Coord, priority: int64): seq<NodeF>
    requires coord in Queued(q)
  {
    RemoveAt(q, IndexOf(q, coord)) + [NodeF(coord, priority)]
  }

  /** `setFScore`. `indexed` is the key set of Go's `fIndex`: the coords
      that ever received a node. A node `lowestOpenFScore` returned stays
      in `fIndex` with heap index -1, and `heap.Remove` at -1 panics. */
  function SetFScore(q: seq<NodeF>, indexed: set<Coord>, coord: Coord, score: int64): (r: Result<(seq<NodeF>, set<Coord>)>)
    ensures r.Crash? <==> coord in indexed && coord !in Queued(q)
    ensures r.Ok? ==> r.value.1 == indexed + {coord}
  {
    if coord in indexed then
      if coord in Queued(q) then Ok((Update(q, coord, score), indexed + {coord}))
      else Crash("index out of range")
    else Ok((q + [NodeF(coord, score)], indexed + {coord}))
  }

  /** On a queue of one node per coord, every queued coord indexed,
      `setFScore` keeps one node per coord, gives the coord's node the new
      score and leaves every other node as it was. */
  lemma SetFScoreOnePerCoord(q: seq<NodeF>, indexed: set<Coord>, coord: Coord, score: int64)
    requires Queued(q) <= indexed && OnePerCoord(q)
    requires SetFScore(q, indexed, coord, score).Ok?
    ensures var r := SetFScore(q, indexed, coord, score).value.0;
            && Queued(r) == Queued(q) + {coord}
            && OnePerCoord(r)
            && (forall n :: n in r && n.coord == coord ==> n.priority == score)
            && (forall n: NodeF :: n.coord != coord ==> (n in r <==> n in q))
  {
    if coord in indexed {
      var i := IndexOf(q, coord);
      var rest := RemoveAt(q, i);
      TakeOne(q, rest, q[i]);
      PushFacts(rest, coord, score);
    } else {
      PushFacts(q, coord, score);
    }
  }

  /** Pushing a node for a new coord. */
  lemma PushFacts(q: seq<NodeF>, coord: Coord, score: int64)
    ensures Queued(q + [NodeF(coord, score)]) == Queued(q) + {coord}
    ensures coord !in Queued(q) ==> forall n :: n in q + [NodeF(coord, score)] && n.coord == coord ==> n.priority == score
    ensures OnePerCoord(q) && coord !in Queued(q) ==> OnePerCoord(q + [NodeF(coord, score)])
  {
    var r := q + [NodeF(coord, score)];
    assert forall n :: n in r <==> n in q || n == NodeF(coord, score);
    if OnePerCoord(q) && coord !in Queued(q) {
      forall n | n in r
        ensures multiset(r)[n] == 1
      {
        assert multiset(r) == multiset(q) + multiset{NodeF(coord, score)};
      }
    }
  }

  // ---------------------------------------------------------------------
  // Path reconstruction

  /** `reconstructPath`. Go recurses through `cameFrom` until a coord
      without an entry; on a cycle the recursion never ends and the stack
      overflows, which the walk reports when it reaches a coord it has
      already passed (`seen`). */
  function Walk(cameFrom: map<Coord, Coord>, current: Coord, seen: set<Coord>): (r: Result<seq<Coord>>)
    ensures current !in cameFrom ==> r == Ok([])
    ensures r.Ok? && current in cameFrom ==> |r.value| > 0 && r.value[|r.value| - 1] == current
    ensures r.Ok? ==> forall i :: 0 <= i < |r.value| ==> r.value[i] in cameFrom
    ensures r.Ok? ==> forall i :: 0 < i < |r.value| ==> cameFrom[r.value[i]] == r.value[i - 1]
    ensures r.Ok? && |r.value| > 0 ==> cameFrom[r.value[0]] !in cameFrom
    decreases cameFrom.Keys - seen
  {
    if current !in cameFrom then Ok([])
    else if current in seen then Crash("stack overflow")
    else
      match Walk(cameFrom, cameFrom[current], seen + {current})
      case Ok(p) => Ok(p + [current])
      case Crash(msg) => Crash(msg)
  }

  function ReconstructPath(cameFrom: map<Coord, Coord>, current: Coord): Result<seq<Coord>> {
    Walk(cameFrom, current, {})
  }

  /** When the links of `cameFrom` descend in some ranking of the coords,
      the walk never comes back to a coord and so never overflows. */
  lemma {:induction false} WalkRanked(cameFrom: map<Coord, Coord>, c: Coord, seen: set<Coord>, rank: map<Coord, nat>)
    requires forall n :: n in cameFrom ==> cameFrom[n] in rank
    requires forall n :: n in cameFrom && n in rank ==> rank[cameFrom[n]] < rank[n]
    requires c !in rank ==> seen == {}
    requires forall x :: x in seen ==> x !in rank || (c in rank && rank[x] > rank[c])
    ensures Walk(cameFrom, c, seen).Ok?
    decreases cameFrom.Keys - seen
  {
    if c in cameFrom {
      assert c !in seen;
      WalkRanked(cameFrom, cameFrom[c], seen + {c}, rank);
    }
  }

  // ---------------------------------------------------------------------
  // The search

  /** The search's maps: `openSet` and `closedSet` as sets, `cameFrom`,
      `gScore`, the `fScore` queue and the key set of `fIndex`. */
  datatype Search = Search(
    open: set<Coord>,
    closed: set<Coord>,
    cameFrom: map<Coord, Coord>,
    gScore: map<Coord, int64>,
    fScore: seq<NodeF>,
    fIndex: set<Coord>)

  /** A Go map read: the zero value for a missing key. */
  function Lookup(m: map<Coord, int64>, c: Coord): int64 {
    if c in m then m[c] else 0
  }

  /** One turn of the inner loop of `astarSearch`: skip an impassable or
      closed neighbour; otherwise record `current` as its predecessor when it
      is new or the path through `current` is shorter. Scores add with
      int64 wrap-around, as Go's do. */
  function Relax(s: Search, current: Coord, neighbor: Coord, goal: Coord,
                 heuristic: (Coord, Coord) -> int64, openAt: Coord -> bool): (r: Result<Search>)
    ensures r.Ok? ==> r.value.closed == s.closed && r.value.open - s.open !! s.closed
  {
    if !openAt(neighbor) || neighbor in s.closed then Ok(s)
    else
      var tentative := Wrap(Lookup(s.gScore, current) + heuristic(current, neighbor));
      if neighbor !in s.open || tentative < Lookup(s.gScore, neighbor) then
        OpenThrough(s, current, neighbor, tentative, Wrap(tentative + heuristic(neighbor, goal)))
      else Ok(s)
  }

  /** Record `current` as the neighbour's predecessor, with its new
      scores, and open it. */
  function OpenThrough(s: Search, current: Coord, neighbor: Coord, tentative: int64, score: int64): Result<Search> {
    match SetFScore(s.fScore, s.fIndex, neighbor, score)
    case Crash(msg) => Crash(msg)
    case Ok(f) => Ok(Opened(s, current, neighbor, tentative, f))
  }

  /** The state after `neighbor` is opened through `current`. */
  function Opened(s: Search, current: Coord, neighbor: Coord, tentative: int64, f: (seq<NodeF>, set<Coord>)): Search {
    Search(s.open + {neighbor}, s.closed, s.cameFrom[neighbor := current], s.gScore[neighbor := tentative], f.0, f.1)
  }

  /** The whole inner loop over `neighbors(current)`. */
  function RelaxAll(s: Search, current: Coord, ns: seq<Coord>, goal: Coord,
                    heuristic: (Coord, Coord) -> int64, openAt: Coord -> bool): (r: Result<Search>)
    ensures r.Ok? ==> r.value.closed == s.closed && r.value.open - s.open !! s.closed
    decreases |ns|
  {
    if ns == [] then Ok(s)
    else
      match Relax(s, current, ns[0], goal, heuristic, openAt)
      case Crash(msg) => Crash(msg)
      case Ok(s1) => RelaxAll(s1, current, ns[1..], goal, heuristic, openAt)
  }

  /** Every recorded predecessor is closed, and every link is a passable
      neighbour of its predecessor. */
  ghost predicate Links(cameFrom: map<Coord, Coord>, closed: set<Coord>,
                        openAt: Coord -> bool, neighbors: Coord -> seq<Coord>)
  {
    forall n :: n in cameFrom ==> cameFrom[n] in closed && openAt(n) && n in neighbors(cameFrom[n])
  }

  /** The queue holds one node for each open coord and nothing else; every
      coord with a node is indexed, and every indexed coord is open or
      closed. */
  ghost predicate QueueInv(open: set<Coord>, closed: set<Coord>, fScore: seq<NodeF>, fIndex: set<Coord>) {
    && open !! closed
    && Queued(fScore) == open
    && OnePerCoord(fScore)
    && open <= fIndex <= open + closed
  }

  /** Every coord the search reached, apart from `start`, has a
      predecessor; `rank` numbers the closed coords by the iteration that
      closed them, and each link goes to a coord closed earlier. The ranks
      are bookkeeping for the proof that `cameFrom` has no cycle, not part
      of Go's state. */
  ghost predicate TreeInv(open: set<Coord>, closed: set<Coord>, cameFrom: map<Coord, Coord>, rank: map<Coord, nat>,
                          start: Coord, openAt: Coord -> bool, neighbors: Coord -> seq<Coord>)
  {
    && start in open + closed
    && (forall c {:trigger c in cameFrom} :: c in open + closed && c != start ==> c in cameFrom)
    && Links(cameFrom, closed, openAt, neighbors)
    && rank.Keys == closed
    && (forall n :: n in cameFrom && n in rank ==> rank[cameFrom[n]] < rank[n])
  }

  /** What holds between iterations of the search loop. */
  ghost predicate Inv(s: Search, rank: map<Coord, nat>, start: Coord,
                      openAt: Coord -> bool, neighbors: Coord -> seq<Coord>)
  {
    && QueueInv(s.open, s.closed, s.fScore, s.fIndex)
    && TreeInv(s.open, s.closed, s.cameFrom, rank, start, openAt, neighbors)
  }

  /** Opening a neighbour that is not closed never panics and keeps the
      queue invariant. */
  lemma OpenQueue(open: set<Coord>, closed: set<Coord>, fScore: seq<NodeF>, fIndex: set<Coord>,
                  neighbor: Coord, score: int64)
    requires QueueInv(open, closed, fScore, fIndex) && neighbor !in closed
    ensures SetFScore(fScore, fIndex, neighbor, score).Ok?
    ensures var f := SetFScore(fScore, fIndex, neighbor, score).value;
            QueueInv(open + {neighbor}, closed, f.0, f.1)
  {
    SetFScoreOnePerCoord(fScore, fIndex, neighbor, score);
  }

  /** Linking a passable, unclosed neighbour to a closed coord keeps the
      tree invariant. */
  lemma OpenTree(open: set<Coord>, closed: set<Coord>, cameFrom: map<Coord, Coord>, rank: map<Coord, nat>,
                 start: Coord, openAt: Coord -> bool, neighbors: Coord -> seq<Coord>, current: Coord, neighbor: Coord)
    requires TreeInv(open, closed, cameFrom, rank, start, openAt, neighbors)
    requires current in closed && neighbor !in closed && openAt(neighbor) && neighbor in neighbors(current)
    ensures TreeInv(open + {neighbor}, closed, cameFrom[neighbor := current], rank, start, openAt, neighbors)
  {
    var cf := cameFrom[neighbor := current];
    forall m | m in cf
      ensures cf[m] in closed && openAt(m) && m in neighbors(cf[m])
    {
      if m != neighbor {
        assert cf[m] == cameFrom[m];
      }
    }
    forall m | m in cf && m in rank
      ensures rank[cf[m]] < rank[m]
    {
      assert m != neighbor;
      assert cf[m] == cameFrom[m];
    }
  }

  /** Opening a passable, unclosed neighbour of a closed coord never
      panics and keeps the invariant. */
  lemma OpenInv(s: Search, rank: map<Coord, nat>, start: Coord, current: Coord, neighbor: Coord,
                tentative: int64, score: int64, openAt: Coord -> bool, neighbors: Coord -> seq<Coord>)
    requires Inv(s, rank, start, openAt, neighbors)
    requires current in s.closed && neighbor in neighbors(current) && openAt(neighbor) && neighbor !in s.closed
    ensures OpenThrough(s, current, neighbor, tentative, score).Ok?
    ensures Inv(OpenThrough(s, current, neighbor, tentative, score).value, rank, start, openAt, neighbors)
  {
    OpenQueue(s.open, s.closed, s.fScore, s.fIndex, neighbor, score);
    OpenTree(s.open, s.closed, s.cameFrom, rank, start, openAt, neighbors, current, neighbor);
  }

  /** Which of its three results `Relax` gives. */
  lemma RelaxCases(s: Search, current: Coord, neighbor: Coord, goal: Coord,
                   heuristic: (Coord, Coord) -> int64, openAt: Coord -> bool)
    ensures !openAt(neighbor) || neighbor in s.closed ==> Relax(s, current, neighbor, goal, heuristic, openAt) == Ok(s)
    ensures openAt(neighbor) && neighbor !in s.closed ==>
              var tentative := Wrap(Lookup(s.gScore, current) + heuristic(current, neighbor));
              Relax(s, current, neighbor, goal, heuristic, openAt) ==
                if neighbor !in s.open || tentative < Lookup(s.gScore, neighbor)
                then OpenThrough(s, current, neighbor, tentative, Wrap(tentative + heuristic(neighbor, goal)))
                else Ok(s)
  {
  }

  /** The inner loop never panics and keeps the invariant. */
  lemma RelaxInv(s: Search, rank: map<Coord, nat>, start: Coord, current: Coord, neighbor: Coord, goal: Coord,
                 heuristic: (Coord, Coord) -> int64, openAt: Coord -> bool, neighbors: Coord -> seq<Coord>)
    requires Inv(s, rank, start, openAt, neighbors)
    requires current in s.closed && neighbor in neighbors(current)
    ensures Relax(s, current, neighbor, goal, heuristic, openAt).Ok?
    ensures Inv(Relax(s, current, neighbor, goal, heuristic, openAt).value, rank, start, openAt, neighbors)
  {
    RelaxCases(s, current, neighbor, goal, heuristic, openAt);
    var r := Relax(s, current, neighbor, goal, heuristic, openAt);
    if openAt(neighbor) && neighbor !in s.closed {
      var tentative := Wrap(Lookup(s.gScore, current) + heuristic(current, neighbor));
      if neighbor !in s.open || tentative < Lookup(s.gScore, neighbor) {
        var score := Wrap(tentative + heuristic(neighbor, goal));
        OpenInv(s, rank, start, current, neighbor, tentative, score, openAt, neighbors);
        InvSame(OpenThrough(s, current, neighbor, tentative, score).value, r.value, rank, start, openAt, neighbors);
        return;
      }
    }
    InvSame(s, r.value, rank, start, openAt, neighbors);
  }

  /** `Inv` of equal states. */
  lemma InvSame(a: Search, b: Search, rank: map<Coord, nat>, start: Coord, openAt: Coord -> bool, neighbors: Coord -> seq<Coord>)
    requires a == b && Inv(a, rank, start, openAt, neighbors)
    ensures Inv(b, rank, start, openAt, neighbors)
  {
  }

  lemma {:induction false} RelaxAllInv(s: Search, rank: map<Coord, nat>, start: Coord, current: Coord,
                                       ns: seq<Coord>, goal: Coord, heuristic: (Coord, Coord) -> int64,
                                       openAt: Coord -> bool, neighbors: Coord -> seq<Coord>)
    requires Inv(s, rank, start, openAt, neighbors)
    requires current in s.closed && forall x :: x in ns ==> x in neighbors(current)
    ensures RelaxAll(s, current, ns, goal, heuristic, openAt).Ok?
    ensures Inv(RelaxAll(s, current, ns, goal, heuristic, openAt).value, rank, start, openAt, neighbors)
    decreases |ns|
  {
    if ns != [] {
      RelaxInv(s, rank, start, current, ns[0], goal, heuristic, openAt, neighbors);
      var s1 := Relax(s, current, ns[0], goal, heuristic, openAt).value;
      assert forall x :: x in ns[1..] ==> x in ns;
      RelaxAllInv(s1, rank, start, current, ns[1..], goal, heuristic, openAt, neighbors);
    }
  }

  /** Moving the popped coord from the open to the closed set keeps the
      queue invariant ... */
  lemma CloseQueue(open: set<Coord>, closed: set<Coord>, fScore: seq<NodeF>, fIndex: set<Coord>,
                   p: NodeF, rest: seq<NodeF>)
    requires QueueInv(open, closed, fScore, fIndex)
    requires p.coord in open && multiset(rest) + multiset{p} == multiset(fScore)
    ensures QueueInv(open - {p.coord}, closed + {p.coord}, rest, fIndex)
  {
    TakeOne(fScore, rest, p);
  }

  /** ... and the tree invariant, the coord ranked after every coord
      closed before it. */
  lemma CloseTree(open: set<Coord>, closed: set<Coord>, cameFrom: map<Coord, Coord>, rank: map<Coord, nat>,
                  start: Coord, openAt: Coord -> bool, neighbors: Coord -> seq<Coord>, c: Coord, n: nat)
    requires TreeInv(open, closed, cameFrom, rank, start, openAt, neighbors)
    requires c in open && c !in closed && forall x :: x in rank ==> rank[x] < n
    ensures TreeInv(open - {c}, closed + {c}, cameFrom, rank[c := n], start, openAt, neighbors)
  {
    assert (open - {c}) + (closed + {c}) == open + closed;
    assert Links(cameFrom, closed + {c}, openAt, neighbors);
  }

  /** A path the search may return: from a neighbour of `start` to
      `goal`, every coord passable and every step to a neighbour; empty
      exactly when `start` is the goal. */
  ghost predicate ValidPath(path: seq<Coord>, start: Coord, goal: Coord,
                            openAt: Coord -> bool, neighbors: Coord -> seq<Coord>)
  {
    && (path == [] <==> start == goal)
    && (path != [] ==> path[|path| - 1] == goal && path[0] in neighbors(start))
    && (forall i :: 0 < i < |path| ==> path[i] in neighbors(path[i - 1]))
    && (forall i :: 0 <= i < |path| ==> openAt(path[i]))
  }

  /** The reconstructed path of an open goal is a valid path. */
  lemma ReachedGoal(s: Search, rank: map<Coord, nat>, start: Coord, goal: Coord,
                    openAt: Coord -> bool, neighbors: Coord -> seq<Coord>)
    requires Inv(s, rank, start, openAt, neighbors)
    requires goal in s.open && (start in s.open ==> s.cameFrom == map[])
    ensures ReconstructPath(s.cameFrom, goal).Ok?
    ensures ValidPath(ReconstructPath(s.cameFrom, goal).value, start, goal, openAt, neighbors)
  {
    WalkRanked(s.cameFrom, goal, {}, rank);
    var path := ReconstructPath(s.cameFrom, goal).value;
    if path != [] {
      var first := s.cameFrom[path[0]];
      assert first in s.closed;
      assert first == start;
    }
  }

  /** The rest of one turn of the outer loop once the popped coord is not
      the goal: move it from the open to the closed set and relax its
      neighbours. */
  function Expand(s: Search, p: NodeF, rest: seq<NodeF>, goal: Coord, heuristic: (Coord, Coord) -> int64,
                  openAt: Coord -> bool, neighbors: Coord -> seq<Coord>): (r: Result<Search>)
    ensures r.Ok? ==> r.value.closed == s.closed + {p.coord}
    ensures r.Ok? ==> r.value.open - s.open !! s.closed + {p.coord}
  {
    var closed := s.(open := s.open - {p.coord}, closed := s.closed + {p.coord}, fScore := rest);
    RelaxAll(closed, p.coord, neighbors(p.coord), goal, heuristic, openAt)
  }

  /** A turn of the outer loop never panics and keeps the invariant. */
  lemma ExpandInv(s: Search, rank: map<Coord, nat>, start: Coord, p: NodeF, rest: seq<NodeF>, n: nat, goal: Coord,
                  heuristic: (Coord, Coord) -> int64, openAt: Coord -> bool, neighbors: Coord -> seq<Coord>)
    requires Inv(s, rank, start, openAt, neighbors)
    requires p.coord in s.open && multiset(rest) + multiset{p} == multiset(s.fScore)
    requires forall c :: c in rank ==> rank[c] < n
    ensures Expand(s, p, rest, goal, heuristic, openAt, neighbors).Ok?
    ensures Inv(Expand(s, p, rest, goal, heuristic, openAt, neighbors).value, rank[p.coord := n], start, openAt, neighbors)
  {
    CloseQueue(s.open, s.closed, s.fScore, s.fIndex, p, rest);
    CloseTree(s.open, s.closed, s.cameFrom, rank, start, openAt, neighbors, p.coord, n);
    var closed := s.(open := s.open - {p.coord}, closed := s.closed + {p.coord}, fScore := rest);
    RelaxAllInv(closed, rank[p.coord := n], start, p.coord, neighbors(p.coord), goal, heuristic, openAt, neighbors);
  }

  /** An open coord has a node in the queue. */
  lemma SomeQueued(s: Search)
    requires Queued(s.fScore) == s.open && |s.open| > 0
    ensures exists n :: n in s.fScore && n.coord in s.open
  {
    var c :| c in s.open;
    assert c in Queued(s.fScore);
  }

  /** How one turn of the outer loop ends: with the path to the goal, with
      no open coord in the queue, or with the next state after the popped
      coord was expanded. */
  datatype Turn = Found(path: seq<Coord>) | Exhausted | Next(state: Search, expanded: Coord)

  /** One turn of the outer loop of `astarSearch`. */
  function AstarTurn(s: Search, goal: Coord, heuristic: (Coord, Coord) -> int64,
                     openAt: Coord -> bool, neighbors: Coord -> seq<Coord>): (r: Result<Turn>)
    ensures r.Ok? && r.value.Next? ==> r.value.expanded != goal && r.value.state.closed == s.closed + {r.value.expanded}
    ensures r.Ok? && r.value.Next? ==> r.value.state.open - s.open !! s.closed + {r.value.expanded}
  {
    var (popped, rest) := LowestOpenFScore(s.open, s.fScore);
    if popped.None? then Ok(Exhausted)
    else if popped.value.coord == goal then
      match ReconstructPath(s.cameFrom, goal)
      case Ok(path) => Ok(Found(path))
      case Crash(msg) => Crash(msg)
    else
      match Expand(s, popped.value, rest, goal, heuristic, openAt, neighbors)
      case Ok(next) => Ok(Next(next, popped.value.coord))
      case Crash(msg) => Crash(msg)
  }

  /** What holds at the head of the outer loop after `n` turns. */
  ghost predicate LoopInv(s: Search, rank: map<Coord, nat>, n: nat, start: Coord, goal: Coord,
                          openAt: Coord -> bool, neighbors: Coord -> seq<Coord>)
  {
    && Inv(s, rank, start, openAt, neighbors)
    && (forall c :: c in rank ==> rank[c] < n)
    && (n == 0 ==> s.open == {start} && s.cameFrom == map[])
    && (n > 0 ==> start in s.closed && start != goal)
  }

  /** The state `astarSearch` builds before its loop. */
  function InitialSearch(start: Coord, goal: Coord, heuristic: (Coord, Coord) -> int64): Search {
    Search({start}, {}, map[], map[start := 0], [NodeF(start, heuristic(start, goal))], {start})
  }

  lemma LoopInit(start: Coord, goal: Coord, heuristic: (Coord, Coord) -> int64,
                 openAt: Coord -> bool, neighbors: Coord -> seq<Coord>)
    ensures SetFScore([], {}, start, heuristic(start, goal)) ==
              Ok((InitialSearch(start, goal, heuristic).fScore, InitialSearch(start, goal, heuristic).fIndex))
    ensures LoopInv(InitialSearch(start, goal, heuristic), map[], 0, start, goal, openAt, neighbors)
  {
    PushFacts([], start, heuristic(start, goal));
    assert [] + [NodeF(start, heuristic(start, goal))] == [NodeF(start, heuristic(start, goal))];
    assert {} + {start} == {start};
  }

  /** A turn on a state with an open coord never panics and never finds the
      queue exhausted: the `!ok` branch of `astarSearch` is dead. */
  lemma LoopOk(s: Search, rank: map<Coord, nat>, n: nat, start: Coord, goal: Coord,
               heuristic: (Coord, Coord) -> int64, openAt: Coord -> bool, neighbors: Coord -> seq<Coord>)
    requires LoopInv(s, rank, n, start, goal, openAt, neighbors) && |s.open| > 0
    ensures AstarTurn(s, goal, heuristic, openAt, neighbors).Ok?
    ensures !AstarTurn(s, goal, heuristic, openAt, neighbors).value.Exhausted?
  {
    SomeQueued(s);
    var (popped, rest) := LowestOpenFScore(s.open, s.fScore);
    if popped.value.coord == goal {
      WalkRanked(s.cameFrom, goal, {}, rank);
    } else {
      ExpandInv(s, rank, start, popped.value, rest, n, goal, heuristic, openAt, neighbors);
    }
  }

  /** A path a turn finds is valid. */
  lemma LoopFound(s: Search, rank: map<Coord, nat>, n: nat, start: Coord, goal: Coord,
                  heuristic: (Coord, Coord) -> int64, openAt: Coord -> bool, neighbors: Coord -> seq<Coord>)
    requires LoopInv(s, rank, n, start, goal, openAt, neighbors)
    requires AstarTurn(s, goal, heuristic, openAt, neighbors).Ok? && AstarTurn(s, goal, heuristic, openAt, neighbors).value.Found?
    ensures ValidPath(AstarTurn(s, goal, heuristic, openAt, neighbors).value.path, start, goal, openAt, neighbors)
  {
    ReachedGoal(s, rank, start, goal, openAt, neighbors);
  }

  /** The state a turn leaves keeps the loop invariant, the expanded coord
      ranked last. */
  lemma LoopNext(s: Search, rank: map<Coord, nat>, n: nat, start: Coord, goal: Coord,
                 heuristic: (Coord, Coord) -> int64, openAt: Coord -> bool, neighbors: Coord -> seq<Coord>)
    requires LoopInv(s, rank, n, start, goal, openAt, neighbors)
    requires AstarTurn(s, goal, heuristic, openAt, neighbors).Ok? && AstarTurn(s, goal, heuristic, openAt, neighbors).value.Next?
    ensures var t := AstarTurn(s, goal, heuristic, openAt, neighbors).value;
            LoopInv(t.state, rank[t.expanded := n], n + 1, start, goal, openAt, neighbors)
  {
    var (popped, rest) := LowestOpenFScore(s.open, s.fScore);
    var t := AstarTurn(s, goal, heuristic, openAt, neighbors).value;
    assert t.state == Expand(s, popped.value, rest, goal, heuristic, openAt, neighbors).value;
    assert t.expanded == popped.value.coord;
    ExpandInv(s, rank, start, popped.value, rest, n, goal, heuristic, openAt, neighbors);
    LoopInvStep(s, t.state, rank, n, t.expanded, start, goal, openAt, neighbors);
  }

  /** A turn that closes `c` (the start, on the first turn) and keeps the
      search invariant with `c` ranked `n` keeps the loop invariant. */
  lemma LoopInvStep(s: Search, t: Search, rank: map<Coord, nat>, n: nat, c: Coord, start: Coord, goal: Coord,
                    openAt: Coord -> bool, neighbors: Coord -> seq<Coord>)
    requires LoopInv(s, rank, n, start, goal, openAt, neighbors)
    requires Inv(t, rank[c := n], start, openAt, neighbors)
    requires t.closed == s.closed + {c} && c != goal && c in s.open
    ensures LoopInv(t, rank[c := n], n + 1, start, goal, openAt, neighbors)
  {
  }

  /** The loop stops before `limit` turns only when no coord is open, and
      never without a turn when `start` is the goal. */
  lemma LoopExit(s: Search, rank: map<Coord, nat>, n: nat, start: Coord, goal: Coord, limit: int,
                 openAt: Coord -> bool, neighbors: Coord -> seq<Coord>)
    requires LoopInv(s, rank, n, start, goal, openAt, neighbors)
    requires !(|s.open| > 0 && n < limit)
    ensures start == goal ==> limit < 1
  {
  }

  /** `astarSearch`. `iterations` counts the turns of the outer loop Go
      begins; Go does not return it. */
  method AstarSearch(heuristic: (Coord, Coord) -> int64, openAt: Coord -> bool, neighbors: Coord -> seq<Coord>,
                     start: Coord, goal: Coord, limit: int)
    returns (path: seq<Coord>, found: bool, iterations: nat)
    ensures limit > 0 ==> iterations <= limit
    ensures limit <= 0 ==> iterations == 0 && path == [] && !found
    ensures !found ==> path == []
    ensures start == goal && limit >= 1 ==> path == [] && found
    ensures found ==> ValidPath(path, start, goal, openAt, neighbors)
  {
    LoopInit(start, goal, heuristic, openAt, neighbors);
    var init := SetFScore([], {}, start, heuristic(start, goal)).value;
    var s := Search({start}, {}, map[], map[start := 0], init.0, init.1);
    ghost var rank: map<Coord, nat> := map[];
    var n: nat := 0;
    while |s.open| > 0 && n < limit
      invariant (limit > 0 ==> n <= limit) && (limit <= 0 ==> n == 0)
      invariant LoopInv(s, rank, n, start, goal, openAt, neighbors)
      decreases limit - n
    {
      LoopOk(s, rank, n, start, goal, heuristic, openAt, neighbors);
      var turn := AstarTurn(s, goal, heuristic, openAt, neighbors).value;
      if turn.Found? {
        LoopFound(s, rank, n, start, goal, heuristic, openAt, neighbors);
        return turn.path, true, n + 1;
      }
      LoopNext(s, rank, n, start, goal, heuristic, openAt, neighbors);
      s, rank, n := turn.state, rank[turn.expanded := n], n + 1;
    }
    LoopExit(s, rank, n, start, goal, limit, openAt, neighbors);
    return [], false, n;
  }
}
