/** A* search over the 8-connected lattice of step `gridSize` that starts at
    the start point, avoiding circular asteroids widened by a safety margin.

    The search keeps every node it creates in an arena (a sequence); a node's
    parent is an index into that arena. The open list is a sequence of arena
    indices in insertion order, the closed set a set of lattice points. */
module Pathfinding {
  import opened Mission

  // ---------------------------------------------------------------------
  // Lattice geometry
  // ---------------------------------------------------------------------

  /** The k-th lattice direction, in the order the original lists them:
      (0,+s), (+s,0), (0,-s), (-s,0), then (+s,+s), (-s,+s), (+s,-s), (-s,-s). */
  function Direction(k: nat, gridSize: real): Point
    requires k < 8
  {
    [Point(0.0, gridSize), Point(gridSize, 0.0), Point(0.0, -gridSize), Point(-gridSize, 0.0),
     Point(gridSize, gridSize), Point(-gridSize, gridSize), Point(gridSize, -gridSize), Point(-gridSize, -gridSize)][k]
  }

  /** The neighbour of `p` in direction `k`. */
  function Step(p: Point, k: nat, gridSize: real): Point
    requires k < 8
  {
    Point(p.x + Direction(k, gridSize).x, p.y + Direction(k, gridSize).y)
  }

  /** `q` differs from `p` by exactly one of the eight direction vectors. */
  ghost predicate Adjacent(p: Point, q: Point, gridSize: real)
  {
    exists k :: 0 <= k < 8 && q == Step(p, k, gridSize)
  }

  function SqDist(p: Point, q: Point): real
  {
    (p.x - q.x) * (p.x - q.x) + (p.y - q.y) * (p.y - q.y)
  }

  /** The goal test `distance(p, goal) < gridSize`, on squared distances:
      for every real bound b, sqrt(d2) < b holds exactly when b > 0 and d2 < b*b. */
  predicate Reached(p: Point, goal: Point, gridSize: real)
  {
    gridSize > 0.0 && SqDist(p, goal) < gridSize * gridSize
  }

  /** The per-asteroid collision test `distance < radius + safetyMargin`, on squared distances. */
  predicate TooClose(p: Point, a: Asteroid, safetyMargin: real)
  {
    var reach := a.radius + safetyMargin;
    reach > 0.0 && SqDist(p, a.position) < reach * reach
  }

  /** `asteroids.some(...)`: scans the asteroids in order and stops at the first hit. */
  function AnyTooClose(p: Point, asteroids: seq<Asteroid>, safetyMargin: real): (hit: bool)
    ensures hit <==> exists i :: 0 <= i < |asteroids| && TooClose(p, asteroids[i], safetyMargin)
  {
    if asteroids == [] then false
    else if TooClose(p, asteroids[0], safetyMargin) then true
    else
      var rest := AnyTooClose(p, asteroids[1..], safetyMargin);
      assert forall i :: 1 <= i < |asteroids| ==> asteroids[i] == asteroids[1..][i - 1];
      rest
  }

  /** The neighbours of `p`, as fresh nodes with zero costs and no parent. */
  method GetNeighbors(p: Point, gridSize: real) returns (neighbors: seq<PathNode>)
    ensures |neighbors| == 8
    ensures forall k :: 0 <= k < 8 ==> neighbors[k].Pos() == Step(p, k, gridSize)
    ensures forall k :: 0 <= k < 8 ==> neighbors[k].g == 0.0 && neighbors[k].h == 0.0 && neighbors[k].f == 0.0 && neighbors[k].parent.None?
    ensures gridSize != 0.0 ==> forall k :: 0 <= k < 8 ==> neighbors[k].Pos() != p
    ensures gridSize != 0.0 ==> forall k, k' :: 0 <= k < k' < 8 ==> neighbors[k].Pos() != neighbors[k'].Pos()
  {
    neighbors := [];
    for k := 0 to 8
      invariant |neighbors| == k
      invariant forall j :: 0 <= j < k ==> neighbors[j] == PathNode(Step(p, j, gridSize).x, Step(p, j, gridSize).y, 0.0, 0.0, 0.0, None)
    {
      var dir := Direction(k, gridSize);
      neighbors := neighbors + [PathNode(p.x + dir.x, p.y + dir.y, 0.0, 0.0, 0.0, None)];
    }
  }

  // ---------------------------------------------------------------------
  // Open-list helpers
  // ---------------------------------------------------------------------

  /** `openSet.reduce((min, node) => node.f < min.f ? node : min)` followed by
      `indexOf`: the position in the open list of the first node of least f. */
  method SelectMin(nodes: seq<PathNode>, open: seq<nat>) returns (k: nat)
    requires |open| > 0
    requires forall j :: 0 <= j < |open| ==> open[j] < |nodes|
    ensures k < |open|
    ensures forall j :: 0 <= j < |open| ==> nodes[open[k]].f <= nodes[open[j]].f
    ensures forall j :: 0 <= j < k ==> nodes[open[k]].f < nodes[open[j]].f
    ensures k == FirstMin(nodes, open)
  {
    k := 0;
    for i := 1 to |open|
      invariant k < i
      invariant forall j :: 0 <= j < i ==> nodes[open[k]].f <= nodes[open[j]].f
      invariant forall j :: 0 <= j < k ==> nodes[open[k]].f < nodes[open[j]].f
      invariant k == FirstMin(nodes, open[..i])
    {
      assert open[..i + 1][..i] == open[..i];
      if nodes[open[i]].f < nodes[open[k]].f {
        k := i;
      }
    }
    assert open[..|open|] == open;
  }

  /** The left fold that `reduce` performs, as a function: the position in the
      open list of the first entry of least f (a later entry replaces the
      running minimum only when its f is strictly smaller). */
  function FirstMin(nodes: seq<PathNode>, open: seq<nat>): (k: nat)
    requires |open| > 0
    requires forall j :: 0 <= j < |open| ==> open[j] < |nodes|
    ensures k < |open|
    ensures forall j :: 0 <= j < |open| ==> nodes[open[k]].f <= nodes[open[j]].f
    ensures forall j :: 0 <= j < k ==> nodes[open[k]].f < nodes[open[j]].f
  {
    if |open| == 1 then 0
    else
      var k := FirstMin(nodes, open[..|open| - 1]);
      if nodes[open[|open| - 1]].f < nodes[open[k]].f then |open| - 1 else k
  }

  /** The position in the open list of the first entry at `p`, if any. */
  function FirstOpenAt(nodes: seq<PathNode>, open: seq<nat>, p: Point): (r: Option<nat>)
    requires forall j :: 0 <= j < |open| ==> open[j] < |nodes|
    ensures r.None? ==> forall j :: 0 <= j < |open| ==> nodes[open[j]].Pos() != p
    ensures r.Some? ==> r.value < |open| && nodes[open[r.value]].Pos() == p
    ensures r.Some? ==> forall j :: 0 <= j < r.value ==> nodes[open[j]].Pos() != p
  {
    if open == [] then None
    else if nodes[open[0]].Pos() == p then Some(0)
    else
      var rest := FirstOpenAt(nodes, open[1..], p);
      assert forall j :: 1 <= j < |open| ==> open[j] == open[1..][j - 1];
      match rest
      case None => None
      case Some(k) => Some(k + 1)
  }

  /** `openSet.find(n => n.x === p.x && n.y === p.y)`: the first open entry at `p`, if any. */
  method FindOpen(nodes: seq<PathNode>, open: seq<nat>, p: Point) returns (found: Option<nat>)
    requires forall j :: 0 <= j < |open| ==> open[j] < |nodes|
    ensures found == FirstOpenAt(nodes, open, p)
    ensures found.None? ==> forall j :: 0 <= j < |open| ==> nodes[open[j]].Pos() != p
    ensures found.Some? ==> found.value < |open| && nodes[open[found.value]].Pos() == p
    ensures found.Some? ==> forall j :: 0 <= j < found.value ==> nodes[open[j]].Pos() != p
  {
    var j := 0;
    while j < |open|
      invariant j <= |open|
      invariant forall i :: 0 <= i < j ==> nodes[open[i]].Pos() != p
    {
      if nodes[open[j]].x == p.x && nodes[open[j]].y == p.y {
        return Some(j);
      }
      j := j + 1;
    }
    return None;
  }

  /** The list `xs` without its entry at position k (`splice(k, 1)`). */
  function RemovedAt(xs: seq<nat>, k: nat): seq<nat>
    requires k < |xs|
  {
    xs[..k] + xs[k + 1..]
  }

  /** Removing the entry at position k from a list without repetitions keeps
      the others, in order, and nothing else. */
  lemma RemovedAtKeepsOthers(xs: seq<nat>, k: nat)
    requires k < |xs|
    requires forall j, j' :: 0 <= j < j' < |xs| ==> xs[j] != xs[j']
    ensures |RemovedAt(xs, k)| == |xs| - 1
    ensures forall j :: 0 <= j < k ==> RemovedAt(xs, k)[j] == xs[j]
    ensures forall j :: k <= j < |xs| - 1 ==> RemovedAt(xs, k)[j] == xs[j + 1]
    ensures forall x :: x in RemovedAt(xs, k) <==> x in xs && x != xs[k]
    ensures forall j, j' :: 0 <= j < j' < |xs| - 1 ==> RemovedAt(xs, k)[j] != RemovedAt(xs, k)[j']
  {
    var ys := RemovedAt(xs, k);
    assert forall j :: 0 <= j < k ==> ys[j] == xs[j];
    assert forall j :: k <= j < |ys| ==> ys[j] == xs[j + 1];
    forall x
      ensures x in ys <==> x in xs && x != xs[k]
    {
      if x in ys {
        var j :| 0 <= j < |ys| && ys[j] == x;
        if j < k { assert xs[j] == x; } else { assert xs[j + 1] == x; }
      }
      if x in xs && x != xs[k] {
        var j :| 0 <= j < |xs| && xs[j] == x;
        if j < k { assert ys[j] == x; } else { assert ys[j - 1] == x; }
      }
    }
  }

  // ---------------------------------------------------------------------
  // Search state
  // ---------------------------------------------------------------------

  /** The state of one search: the node arena, the open list (arena indices in
      insertion order), the closed set of lattice points, and for every closed
      node the number of the expansion that closed it. */
  datatype Search = Search(
    nodes: seq<PathNode>,
    open: seq<nat>,
    closed: set<Point>,
    closedAt: map<nat, nat>,
    expansions: nat)

  datatype SearchOutcome =
    | Found(route: seq<PathNode>)
    | NoRoute    // the open list ran empty: the original returns []
    | GaveUp     // the expansion budget ran out first

  /** Bookkeeping that does not depend on costs: every arena node is either
      open (exactly once) or closed, arena positions are pairwise distinct, and
      the closed set holds the positions of closed nodes and of no open node. */
  ghost predicate WellFormed(s: Search)
  {
    |s.nodes| > 0 &&
    (forall j :: 0 <= j < |s.open| ==> s.open[j] < |s.nodes|) &&
    (forall j, j' :: 0 <= j < j' < |s.open| ==> s.open[j] != s.open[j']) &&
    (forall i :: i in s.closedAt ==> i < |s.nodes| && s.closedAt[i] < s.expansions) &&
    (forall i :: 0 <= i < |s.nodes| ==> (i in s.closedAt <==> i !in s.open)) &&
    (forall i, i' :: 0 <= i < i' < |s.nodes| ==> s.nodes[i].Pos() != s.nodes[i'].Pos()) &&
    (forall i :: i in s.closedAt ==> s.nodes[i].Pos() in s.closed) &&
    (forall j :: 0 <= j < |s.open| ==> s.nodes[s.open[j]].Pos() !in s.closed)
  }

  /** Some open entry sits at `p`. */
  ghost predicate OpenHas(s: Search, p: Point)
  {
    exists j :: 0 <= j < |s.open| && s.open[j] < |s.nodes| && s.nodes[s.open[j]].Pos() == p
  }

  /** `s2` extends `s1` within one expansion: the closed set is the same, the
      open list only grew at its end, nodes kept their positions, closed nodes
      are untouched and no node's g went up. */
  ghost predicate Grows(s1: Search, s2: Search)
  {
    s2.closed == s1.closed && s2.closedAt == s1.closedAt && s2.expansions == s1.expansions &&
    s1.open <= s2.open &&
    |s1.nodes| <= |s2.nodes| &&
    (forall i :: 0 <= i < |s1.nodes| ==> s2.nodes[i].Pos() == s1.nodes[i].Pos() && s2.nodes[i].g <= s1.nodes[i].g) &&
    (forall i :: i in s1.closedAt && i < |s1.nodes| ==> s2.nodes[i] == s1.nodes[i])
  }

  lemma GrowsTransitive(s1: Search, s2: Search, s3: Search)
    requires Grows(s1, s2) && Grows(s2, s3)
    ensures Grows(s1, s3)
  {
  }

  lemma OpenHasGrows(s1: Search, s2: Search, p: Point)
    requires Grows(s1, s2) && OpenHas(s1, p)
    ensures OpenHas(s2, p)
  {
    var j :| 0 <= j < |s1.open| && s1.open[j] < |s1.nodes| && s1.nodes[s1.open[j]].Pos() == p;
    assert s2.open[j] == s1.open[j];
  }

  /** The route `reconstructPath` builds from node `c`: its parent's route
      followed by the node itself, for as long as each parent was closed
      before its child (always so in a consistent search). */
  ghost function PathTo(s: Search, c: nat): (route: seq<PathNode>)
    requires c < |s.nodes|
    ensures |route| > 0 && route[|route| - 1] == s.nodes[c]
    decreases if c in s.closedAt then s.closedAt[c] + 1 else 0
  {
    match s.nodes[c].parent
    case None => [s.nodes[c]]
    case Some(p) =>
      if c in s.closedAt && p in s.closedAt && s.closedAt[p] < s.closedAt[c] && p < |s.nodes|
      then PathTo(s, p) + [s.nodes[c]]
      else [s.nodes[c]]
  }

  /** Appending a node at a position no arena node has yet, and opening it. */
  lemma PushFresh(s: Search, node: PathNode, s': Search)
    requires WellFormed(s)
    requires node.Pos() !in s.closed
    requires forall j :: 0 <= j < |s.open| ==> s.nodes[s.open[j]].Pos() != node.Pos()
    requires s' == s.(nodes := s.nodes + [node], open := s.open + [|s.nodes|])
    ensures WellFormed(s') && Grows(s, s')
    ensures s'.nodes[s'.open[|s.open|]].Pos() == node.Pos()
  {
    var m := |s.nodes|;
    forall i | 0 <= i < m
      ensures s.nodes[i].Pos() != node.Pos()
    {
      if i !in s.closedAt {
        assert i in s.open;
      }
    }
    PushPartition(s, node, s');
  }

  lemma PushPartition(s: Search, node: PathNode, s': Search)
    requires WellFormed(s)
    requires s' == s.(nodes := s.nodes + [node], open := s.open + [|s.nodes|])
    ensures forall i :: 0 <= i < |s'.nodes| ==> (i in s'.closedAt <==> i !in s'.open)
    ensures forall j, j' :: 0 <= j < j' < |s'.open| ==> s'.open[j] != s'.open[j']
  {
    var m := |s.nodes|;
    forall i | 0 <= i < |s'.nodes|
      ensures i in s'.closedAt <==> i !in s'.open
    {
      if i == m {
        assert s'.open[|s.open|] == i;
      } else {
        assert i in s'.open <==> i in s.open;
      }
    }
  }

  /** Replacing an open node by one at the same position with a g no larger
      keeps the bookkeeping and extends the search. */
  lemma RelaxKeepsWellFormed(s: Search, i: nat, node: PathNode, s': Search)
    requires WellFormed(s) && i < |s.nodes| && i !in s.closedAt
    requires node.Pos() == s.nodes[i].Pos() && node.g <= s.nodes[i].g
    requires s' == s.(nodes := s.nodes[i := node])
    ensures WellFormed(s') && Grows(s, s')
  {
    assert forall i' :: 0 <= i' < |s.nodes| ==> s'.nodes[i'].Pos() == s.nodes[i'].Pos();
  }

  /** The pathfinder: an obstacle field and the search parameters, fixed at construction. */
  class AStarPathfinder {
    const asteroids: seq<Asteroid>
    const gridSize: real
    const safetyMargin: real
    /** Euclidean distance between two points, the step cost and the
        heuristic of the original (both `Math.sqrt` of the squared distance).
        It is kept abstract: lemmas that need its properties say so. */
    const dist: (Point, Point) -> real

    constructor (asteroids: seq<Asteroid>, gridSize: real, safetyMargin: real, dist: (Point, Point) -> real)
      ensures this.asteroids == asteroids && this.gridSize == gridSize
      ensures this.safetyMargin == safetyMargin && this.dist == dist
    {
      this.asteroids := asteroids;
      this.gridSize := gridSize;
      this.safetyMargin := safetyMargin;
      this.dist := dist;
    }

    /** `isCollision`: some asteroid's centre is closer than its radius plus the margin. */
    predicate IsCollision(p: Point)
      ensures IsCollision(p) <==> exists a :: a in asteroids && TooClose(p, a, safetyMargin)
    {
      AnyTooClose(p, asteroids, safetyMargin)
    }

    /** The search's first node: at the start, g = 0, h the distance to the goal, no parent. */
    function StartNode(start: Point, goal: Point): (n: PathNode)
      ensures n.Pos() == start && n.parent.None?
      ensures n.g == 0.0 && n.h == dist(start, goal) && n.f == n.g + n.h
    {
      var h := dist(start, goal);
      PathNode(start.x, start.y, 0.0, h, 0.0 + h, None)
    }

    /** The cost fields of arena node i and its link to its parent. */
    ghost predicate ParentLink(s: Search, i: nat)
      requires i < |s.nodes|
    {
      var n := s.nodes[i];
      n.parent.Some? &&
      var p := n.parent.value;
      p < |s.nodes| && p in s.closedAt &&
      (i in s.closedAt ==> s.closedAt[p] < s.closedAt[i]) &&
      Adjacent(s.nodes[p].Pos(), n.Pos(), gridSize) &&
      n.g == s.nodes[p].g + dist(s.nodes[p].Pos(), n.Pos()) &&
      !IsCollision(n.Pos())
    }

    /** Cost invariants: node 0 is the start node and stays so; for every node
        f = g + h with h the distance to the goal; every other node has a
        closed parent one lattice step away, closed strictly earlier, and
        g = parent.g + dist(parent, node); no such node collides. */
    ghost predicate NodesConsistent(s: Search, start: Point, goal: Point)
    {
      |s.nodes| > 0 &&
      s.nodes[0] == StartNode(start, goal) &&
      ((|s.nodes| == 1 && s.open == [0] && s.closedAt == map[]) || 0 in s.closedAt) &&
      (forall i :: 0 <= i < |s.nodes| ==>
         s.nodes[i].f == s.nodes[i].g + s.nodes[i].h && s.nodes[i].h == dist(s.nodes[i].Pos(), goal)) &&
      (forall i :: 0 < i < |s.nodes| ==> ParentLink(s, i))
    }

    /** A lattice point is covered when it is closed, collides, or is open. */
    ghost predicate Covered(s: Search, p: Point)
    {
      p in s.closed || IsCollision(p) || OpenHas(s, p)
    }

    /** Every neighbour of a closed point is covered, except possibly those of
        `current` in directions `m` and above. */
    ghost predicate FrontierCoveredBut(s: Search, current: Point, m: nat)
    {
      forall p, d :: p in s.closed && 0 <= d < 8 && (p != current || d < m) ==> Covered(s, Step(p, d, gridSize))
    }

    ghost predicate FrontierCovered(s: Search)
    {
      forall p, d :: p in s.closed && 0 <= d < 8 ==> Covered(s, Step(p, d, gridSize))
    }

    /** The loop invariant of `FindPath`. */
    ghost predicate Inv(s: Search, start: Point, goal: Point)
    {
      WellFormed(s) && NodesConsistent(s, start, goal) && FrontierCovered(s) &&
      (forall p :: p in s.closed ==> !Reached(p, goal, gridSize))
    }

    /** A collision-free lattice walk from `start` (the start itself is exempt from the collision test, as in the original). */
    ghost predicate SafeWalk(w: seq<Point>, start: Point)
    {
      |w| > 0 && w[0] == start &&
      (forall i :: 0 <= i < |w| - 1 ==> Adjacent(w[i], w[i + 1], gridSize)) &&
      (forall i :: 0 < i < |w| ==> !IsCollision(w[i]))
    }

    /** What a returned route satisfies: it starts with the start node, f = g + h
        and h is the distance to the goal at every node, only the start node has
        no parent, no later node collides, and consecutive nodes are one lattice
        step apart with g growing by the distance between them. */
    ghost predicate RouteOk(route: seq<PathNode>, start: Point, goal: Point)
    {
      |route| > 0 &&
      route[0] == StartNode(start, goal) &&
      (forall i :: 0 <= i < |route| ==>
         route[i].f == route[i].g + route[i].h && route[i].h == dist(route[i].Pos(), goal)) &&
      (forall i :: 0 < i < |route| ==> route[i].parent.Some? && !IsCollision(route[i].Pos())) &&
      (forall i :: 0 <= i < |route| - 1 ==>
         Adjacent(route[i].Pos(), route[i + 1].Pos(), gridSize) &&
         route[i + 1].g == route[i].g + dist(route[i].Pos(), route[i + 1].Pos()))
    }

    // -------------------------------------------------------------------
    // One expansion
    // -------------------------------------------------------------------

    /** Close the open entry at position k (`splice`, then `closedSet.add`). */
    method Close(s: Search, k: nat, ghost start: Point, ghost goal: Point, ghost owner: map<Point, nat>)
      returns (s': Search, ghost owner': map<Point, nat>)
      requires Inv(s, start, goal) && ClosedOwned(s, owner)
      requires k < |s.open|
      ensures s' == Search(s.nodes, RemovedAt(s.open, k), s.closed + {s.nodes[s.open[k]].Pos()},
                           s.closedAt[s.open[k] := s.expansions], s.expansions + 1)
      ensures WellFormed(s') && NodesConsistent(s', start, goal) && 0 in s'.closedAt
      ensures FrontierCoveredBut(s', s.nodes[s.open[k]].Pos(), 0)
      ensures forall p :: p in s'.closed && p != s.nodes[s.open[k]].Pos() ==> !Reached(p, goal, gridSize)
      ensures |s'.closed| == |s.closed| + 1 && start in s'.closed && ClosedOwned(s', owner')
    {
      var c := s.open[k];
      s' := Search(s.nodes, RemovedAt(s.open, k), s.closed + {s.nodes[c].Pos()},
                   s.closedAt[c := s.expansions], s.expansions + 1);
      CloseKeepsWellFormed(s, k, s');
      CloseKeepsConsistent(s, k, s', start, goal);
      CloseKeepsFrontier(s, k, s');
      CloseBookkeeping(s, k, s', owner, start, goal);
      owner' := owner[s.nodes[c].Pos() := c];
    }

    lemma CloseKeepsConsistent(s: Search, k: nat, s': Search, start: Point, goal: Point)
      requires WellFormed(s) && NodesConsistent(s, start, goal) && k < |s.open|
      requires s' == Search(s.nodes, RemovedAt(s.open, k), s.closed + {s.nodes[s.open[k]].Pos()},
                            s.closedAt[s.open[k] := s.expansions], s.expansions + 1)
      ensures NodesConsistent(s', start, goal) && 0 in s'.closedAt
    {
      RemovedAtKeepsOthers(s.open, k);
      forall i | 0 < i < |s'.nodes|
        ensures ParentLink(s', i)
      {
        assert ParentLink(s, i);
      }
    }

    lemma CloseKeepsFrontier(s: Search, k: nat, s': Search)
      requires WellFormed(s) && FrontierCovered(s) && k < |s.open|
      requires s' == Search(s.nodes, RemovedAt(s.open, k), s.closed + {s.nodes[s.open[k]].Pos()},
                            s.closedAt[s.open[k] := s.expansions], s.expansions + 1)
      ensures FrontierCoveredBut(s', s.nodes[s.open[k]].Pos(), 0)
    {
      forall p, d | p in s'.closed && 0 <= d < 8 && p != s.nodes[s.open[k]].Pos()
        ensures Covered(s', Step(p, d, gridSize))
      {
        CoveredAfterClose(s, k, s', Step(p, d, gridSize));
      }
    }

    lemma CloseKeepsWellFormed(s: Search, k: nat, s': Search)
      requires WellFormed(s) && k < |s.open|
      requires s' == Search(s.nodes, RemovedAt(s.open, k), s.closed + {s.nodes[s.open[k]].Pos()},
                            s.closedAt[s.open[k] := s.expansions], s.expansions + 1)
      ensures WellFormed(s')
    {
      var c := s.open[k];
      RemovedAtKeepsOthers(s.open, k);
      forall j | 0 <= j < |s'.open|
        ensures s'.nodes[s'.open[j]].Pos() !in s'.closed
      {
        var i := s'.open[j];
        assert i in s.open && i != c;
        assert s.nodes[i].Pos() != s.nodes[c].Pos() by {
          if i < c { } else { }
        }
      }
    }

    lemma CoveredAfterClose(s: Search, k: nat, s': Search, q: Point)
      requires WellFormed(s) && k < |s.open|
      requires s' == Search(s.nodes, RemovedAt(s.open, k), s.closed + {s.nodes[s.open[k]].Pos()},
                            s.closedAt[s.open[k] := s.expansions], s.expansions + 1)
      requires Covered(s, q)
      ensures Covered(s', q)
    {
      if q !in s.closed && !IsCollision(q) {
        var j :| 0 <= j < |s.open| && s.open[j] < |s.nodes| && s.nodes[s.open[j]].Pos() == q;
        RemovedAtKeepsOthers(s.open, k);
        if j < k {
          assert s'.open[j] == s.open[j];
        } else if j > k {
          assert s'.open[j - 1] == s.open[j];
        }
      }
    }

    /** The search after considering neighbour `n` of node `c`: unchanged when
        `n` is closed or collides; otherwise a new open node with g the cost
        through `c`, h its distance to the goal, f = g + h and parent `c` when no
        open entry is at `n`; otherwise the first open entry at `n` lowered to
        that cost, with f recomputed and parent `c`, when that is cheaper, and
        left alone when it is not. */
    function Considered(s: Search, c: nat, n: Point, goal: Point): (r: Search)
      requires c < |s.nodes|
      requires forall j :: 0 <= j < |s.open| ==> s.open[j] < |s.nodes|
      ensures |s.nodes| <= |r.nodes| && forall j :: 0 <= j < |r.open| ==> r.open[j] < |r.nodes|
    {
      if n in s.closed || IsCollision(n) then s
      else
        match FirstOpenAt(s.nodes, s.open, n)
        case None => Pushed(s, c, n, goal)
        case Some(j) => Relaxed(s, c, s.open[j], n)
    }

    /** `n` appended to the arena and opened, with g the cost through `c`, h its
        distance to the goal, f = g + h and parent `c`. */
    function Pushed(s: Search, c: nat, n: Point, goal: Point): (r: Search)
      requires c < |s.nodes|
      ensures |r.nodes| == |s.nodes| + 1 && r.open == s.open + [|s.nodes|]
      ensures r.nodes[..|s.nodes|] == s.nodes
      ensures r.nodes[|s.nodes|].Pos() == n && r.nodes[|s.nodes|].parent == Some(c)
    {
      var g := s.nodes[c].g + dist(s.nodes[c].Pos(), n);
      var h := dist(n, goal);
      s.(nodes := s.nodes + [PathNode(n.x, n.y, g, h, g + h, Some(c))], open := s.open + [|s.nodes|])
    }

    /** Arena node `i` (at `n`) lowered to the cost through `c`, with f
        recomputed and parent `c`, when that is cheaper; unchanged otherwise. */
    function Relaxed(s: Search, c: nat, i: nat, n: Point): (r: Search)
      requires c < |s.nodes| && i < |s.nodes|
      ensures r.open == s.open && |r.nodes| == |s.nodes| && r.nodes[i].Pos() == s.nodes[i].Pos()
      ensures r.nodes[i].g <= s.nodes[c].g + dist(s.nodes[c].Pos(), n) || r == s
    {
      var g := s.nodes[c].g + dist(s.nodes[c].Pos(), n);
      if g < s.nodes[i].g then
        s.(nodes := s.nodes[i := s.nodes[i].(g := g, f := g + s.nodes[i].h, parent := Some(c))])
      else s
    }

    /** The search after considering the neighbours of node `c` (at `pc`) in
        directions 0 to k - 1, in that order. */
    function ExpandedUpTo(s: Search, c: nat, pc: Point, k: nat, goal: Point): (r: Search)
      requires k <= 8
      requires c < |s.nodes|
      requires forall j :: 0 <= j < |s.open| ==> s.open[j] < |s.nodes|
      ensures |s.nodes| <= |r.nodes| && forall j :: 0 <= j < |r.open| ==> r.open[j] < |r.nodes|
    {
      if k == 0 then s
      else Considered(ExpandedUpTo(s, c, pc, k - 1, goal), c, Step(pc, k - 1, gridSize), goal)
    }

    /** Handle one neighbour `n` of the current (closed) node `c`: skip it when
        closed or colliding; otherwise push it as a new open node, or, when it
        is already open with a larger g, lower its g, recompute f and reparent it. */
    method ConsiderNeighbor(s: Search, c: nat, n: Point, ghost start: Point, goal: Point) returns (s': Search)
      requires WellFormed(s) && NodesConsistent(s, start, goal)
      requires c < |s.nodes| && c in s.closedAt && 0 in s.closedAt
      requires Adjacent(s.nodes[c].Pos(), n, gridSize)
      ensures s' == Considered(s, c, n, goal)
      ensures WellFormed(s') && NodesConsistent(s', start, goal)
      ensures Grows(s, s')
      ensures Covered(s', n)
      ensures n in s.closed || IsCollision(n) ==> s' == s
      ensures n !in s.closed && !IsCollision(n) ==>
        exists j :: 0 <= j < |s'.open| && s'.open[j] < |s'.nodes| && s'.nodes[s'.open[j]].Pos() == n &&
                    s'.nodes[s'.open[j]].g <= s.nodes[c].g + dist(s.nodes[c].Pos(), n)
    {
      if n in s.closed || IsCollision(n) {
        ConsideredKeepsInv(s, c, n, start, goal);
        return s;
      }
      var current := s.nodes[c];
      var tentativeG := current.g + dist(current.Pos(), n);
      var existing := FindOpen(s.nodes, s.open, n);
      if existing.None? {
        var h := dist(n, goal);
        var node := PathNode(n.x, n.y, tentativeG, h, tentativeG + h, Some(c));
        s' := s.(nodes := s.nodes + [node], open := s.open + [|s.nodes|]);
      } else {
        var i := s.open[existing.value];
        if tentativeG < s.nodes[i].g {
          var updated := s.nodes[i].(g := tentativeG, f := tentativeG + s.nodes[i].h, parent := Some(c));
          s' := s.(nodes := s.nodes[i := updated]);
        } else {
          s' := s;
        }
      }
      assert s' == Considered(s, c, n, goal);
      ConsideredKeepsInv(s, c, n, start, goal);
    }

    /** Considering a neighbour keeps the search invariants, extends the search,
        and leaves the neighbour covered: skipped, or open at a cost no higher
        than the one through `c`. */
    lemma ConsideredKeepsInv(s: Search, c: nat, n: Point, start: Point, goal: Point)
      requires WellFormed(s) && NodesConsistent(s, start, goal)
      requires c < |s.nodes| && c in s.closedAt && 0 in s.closedAt
      requires Adjacent(s.nodes[c].Pos(), n, gridSize)
      ensures var s' := Considered(s, c, n, goal);
        WellFormed(s') && NodesConsistent(s', start, goal) && Grows(s, s') && Covered(s', n)
      ensures n in s.closed || IsCollision(n) ==> Considered(s, c, n, goal) == s
      ensures var s' := Considered(s, c, n, goal);
        n !in s.closed && !IsCollision(n) ==>
        exists j :: 0 <= j < |s'.open| && s'.open[j] < |s'.nodes| && s'.nodes[s'.open[j]].Pos() == n &&
                    s'.nodes[s'.open[j]].g <= s.nodes[c].g + dist(s.nodes[c].Pos(), n)
    {
      if n !in s.closed && !IsCollision(n) {
        match FirstOpenAt(s.nodes, s.open, n)
        case None =>
          PushKeepsInv(s, c, n, start, goal);
          var s' := Pushed(s, c, n, goal);
          assert s'.open[|s.open|] < |s'.nodes| && s'.nodes[s'.open[|s.open|]].Pos() == n;
        case Some(j) =>
          RelaxKeepsInv(s, c, j, n, start, goal);
      }
    }

    /** Pushing a fresh, uncovered, collision-free neighbour keeps the invariants. */
    lemma PushKeepsInv(s: Search, c: nat, n: Point, start: Point, goal: Point)
      requires WellFormed(s) && NodesConsistent(s, start, goal)
      requires c < |s.nodes| && c in s.closedAt && 0 in s.closedAt
      requires Adjacent(s.nodes[c].Pos(), n, gridSize)
      requires n !in s.closed && !IsCollision(n)
      requires forall j :: 0 <= j < |s.open| ==> s.nodes[s.open[j]].Pos() != n
      ensures var s' := Pushed(s, c, n, goal);
        WellFormed(s') && NodesConsistent(s', start, goal) && Grows(s, s')
    {
      var s' := Pushed(s, c, n, goal);
      PushFresh(s, s'.nodes[|s.nodes|], s');
      var m := |s.nodes|;
      forall i | 0 < i < |s'.nodes|
        ensures ParentLink(s', i)
      {
        if i < m { assert ParentLink(s, i); }
      }
    }

    /** Lowering the g of the open node at open-list position j to the cost
        through the closed node c, and reparenting it to c, keeps the invariants. */
    lemma RelaxKeepsInv(s: Search, c: nat, j: nat, n: Point, start: Point, goal: Point)
      requires WellFormed(s) && NodesConsistent(s, start, goal)
      requires c < |s.nodes| && c in s.closedAt && 0 in s.closedAt
      requires j < |s.open| && s.nodes[s.open[j]].Pos() == n
      requires Adjacent(s.nodes[c].Pos(), n, gridSize) && !IsCollision(n)
      ensures var s' := Relaxed(s, c, s.open[j], n);
        WellFormed(s') && NodesConsistent(s', start, goal) && Grows(s, s') &&
        s'.nodes[s'.open[j]].Pos() == n && s'.nodes[s'.open[j]].g <= s.nodes[c].g + dist(s.nodes[c].Pos(), n)
    {
      var i := s.open[j];
      var s' := Relaxed(s, c, i, n);
      if s' != s {
        RelaxKeepsWellFormed(s, i, s'.nodes[i], s');
        forall i' | 0 < i' < |s'.nodes|
          ensures ParentLink(s', i')
        {
          assert ParentLink(s, i');
        }
      }
    }

    /** Considering the `k`-th neighbour of `current` extends the covered
        frontier by that one direction. */
    lemma CoverageAdvances(s1: Search, s2: Search, current: Point, k: nat)
      requires k < 8 && FrontierCoveredBut(s1, current, k)
      requires Grows(s1, s2) && Covered(s2, Step(current, k, gridSize))
      ensures FrontierCoveredBut(s2, current, k + 1)
    {
      forall p, d | p in s2.closed && 0 <= d < 8 && (p != current || d < k + 1)
        ensures Covered(s2, Step(p, d, gridSize))
      {
        if p != current || d != k {
          var q := Step(p, d, gridSize);
          assert Covered(s1, q);
          if OpenHas(s1, q) { OpenHasGrows(s1, s2, q); }
        }
      }
    }

    /** Consider the eight neighbours of the just-closed node `c` in order. */
    method ExpandNeighbors(s: Search, c: nat, ghost start: Point, goal: Point, ghost owner: map<Point, nat>)
      returns (s': Search)
      requires WellFormed(s) && NodesConsistent(s, start, goal)
      requires c < |s.nodes| && c in s.closedAt && 0 in s.closedAt
      requires FrontierCoveredBut(s, s.nodes[c].Pos(), 0)
      requires forall p :: p in s.closed ==> !Reached(p, goal, gridSize)
      requires ClosedOwned(s, owner)
      ensures s' == ExpandedUpTo(s, c, s.nodes[c].Pos(), 8, goal)
      ensures Inv(s', start, goal)
      ensures Grows(s, s') && s'.closed == s.closed && ClosedOwned(s', owner)
    {
      var pc := s.nodes[c].Pos();
      var neighbors := GetNeighbors(pc, gridSize);
      s' := s;
      for k := 0 to 8
        invariant WellFormed(s') && NodesConsistent(s', start, goal)
        invariant Grows(s, s')
        invariant FrontierCoveredBut(s', pc, k)
        invariant s' == ExpandedUpTo(s, c, pc, k, goal)
      {
        var n := neighbors[k].Pos();
        assert Adjacent(s'.nodes[c].Pos(), n, gridSize) by {
          assert n == Step(pc, k, gridSize);
        }
        var s2 := ConsiderNeighbor(s', c, n, start, goal);
        CoverageAdvances(s', s2, pc, k);
        GrowsTransitive(s, s', s2);
        s' := s2;
      }
      OwnedAfterGrowth(s, s', owner);
    }

    // -------------------------------------------------------------------
    // Route reconstruction and the search loop
    // -------------------------------------------------------------------

    /** `reconstructPath`: follow parent indices from `c` back to the start,
        prepending each node. */
    method ReconstructPath(s: Search, c: nat, ghost start: Point, ghost goal: Point)
      returns (path: seq<PathNode>, ghost idx: seq<nat>)
      requires WellFormed(s) && NodesConsistent(s, start, goal)
      requires c < |s.nodes| && c in s.closedAt
      ensures |idx| == |path| > 0 && idx[0] == 0 && idx[|idx| - 1] == c
      ensures forall j :: 0 <= j < |idx| ==> idx[j] < |s.nodes| && path[j] == s.nodes[idx[j]]
      ensures forall j :: 0 <= j < |idx| - 1 ==> s.nodes[idx[j + 1]].parent == Some(idx[j])
      ensures RouteOk(path, start, goal)
      ensures path[|path| - 1] == s.nodes[c]
      ensures path == PathTo(s, c)
    {
      path := [];
      var cur: Option<nat> := Some(c);
      idx := [];
      while cur.Some?
        invariant cur.Some? ==> cur.value < |s.nodes| && cur.value in s.closedAt
        invariant |path| == |idx|
        invariant forall j :: 0 <= j < |idx| ==> idx[j] < |s.nodes| && path[j] == s.nodes[idx[j]]
        invariant forall j :: 0 <= j < |idx| - 1 ==> s.nodes[idx[j + 1]].parent == Some(idx[j])
        invariant |idx| == 0 ==> cur == Some(c)
        invariant |idx| > 0 ==> idx[|idx| - 1] == c && s.nodes[idx[0]].parent == cur
        invariant cur.None? ==> |idx| > 0 && idx[0] == 0
        decreases if cur.Some? then s.closedAt[cur.value] + 1 else 0
      {
        var i := cur.value;
        if i > 0 { assert ParentLink(s, i); }
        path := [s.nodes[i]] + path;
        idx := [i] + idx;
        cur := s.nodes[i].parent;
      }
      ChainIsRoute(s, idx, path, start, goal);
      ChainIsPathTo(s, idx, path, start, goal);
    }

    /** A chain of arena indices from node 0 to a closed node, in which each
        node's parent is its predecessor, is the route `PathTo` gives. */
    lemma {:induction false} ChainIsPathTo(s: Search, idx: seq<nat>, path: seq<PathNode>, start: Point, goal: Point)
      requires WellFormed(s) && NodesConsistent(s, start, goal)
      requires |idx| > 0 && idx[0] == 0 && |path| == |idx| && idx[|idx| - 1] in s.closedAt
      requires forall j :: 0 <= j < |idx| ==> idx[j] < |s.nodes| && path[j] == s.nodes[idx[j]]
      requires forall j :: 0 <= j < |idx| - 1 ==> s.nodes[idx[j + 1]].parent == Some(idx[j])
      ensures path == PathTo(s, idx[|idx| - 1])
    {
      var n := |idx|;
      if n > 1 {
        var i := idx[n - 1];
        assert s.nodes[0].parent.None? && s.nodes[i].parent == Some(idx[n - 2]);
        assert ParentLink(s, i);
        ChainIsPathTo(s, idx[..n - 1], path[..n - 1], start, goal);
        assert path == path[..n - 1] + [s.nodes[i]];
      }
    }

    /** A chain of arena indices from node 0 in which each node's parent is its
        predecessor yields a route. */
    lemma ChainIsRoute(s: Search, idx: seq<nat>, path: seq<PathNode>, start: Point, goal: Point)
      requires WellFormed(s) && NodesConsistent(s, start, goal)
      requires |idx| > 0 && idx[0] == 0 && |path| == |idx|
      requires forall j :: 0 <= j < |idx| ==> idx[j] < |s.nodes| && path[j] == s.nodes[idx[j]]
      requires forall j :: 0 <= j < |idx| - 1 ==> s.nodes[idx[j + 1]].parent == Some(idx[j])
      ensures RouteOk(path, start, goal)
    {
      assert s.nodes[0].parent.None?;
      forall j | 0 < j < |path|
        ensures idx[j] != 0 && ParentLink(s, idx[j]) && s.nodes[idx[j]].parent == Some(idx[j - 1])
      {
        assert s.nodes[idx[j]].parent == Some(idx[j - 1]);
        assert ParentLink(s, idx[j]);
      }
      forall j | 0 <= j < |path| - 1
        ensures Adjacent(path[j].Pos(), path[j + 1].Pos(), gridSize)
        ensures path[j + 1].g == path[j].g + dist(path[j].Pos(), path[j + 1].Pos())
      {
        assert ParentLink(s, idx[j + 1]);
      }
    }

    /** An exhausted search leaves a closed set that contains the start and is
        closed under collision-free steps; every collision-free walk from the
        start stays inside it. */
    lemma {:induction false} WalkStaysClosed(closed: set<Point>, w: seq<Point>, start: Point, n: nat)
      requires start in closed
      requires forall p, d :: p in closed && 0 <= d < 8 ==> Step(p, d, gridSize) in closed || IsCollision(Step(p, d, gridSize))
      requires SafeWalk(w, start)
      requires n < |w|
      ensures w[n] in closed
    {
      if n > 0 {
        WalkStaysClosed(closed, w, start, n - 1);
        var d :| 0 <= d < 8 && w[n] == Step(w[n - 1], d, gridSize);
      }
    }

    /** `owner` maps every closed point to a closed arena node at that point. */
    ghost predicate ClosedOwned(s: Search, owner: map<Point, nat>)
    {
      forall p :: p in s.closed ==>
        p in owner && owner[p] in s.closedAt && owner[p] < |s.nodes| && s.nodes[owner[p]].Pos() == p
    }

    /** Every closed arena node lies at the end of a collision-free lattice walk
        from the start: follow its parents back to node 0. */
    lemma ClosedNodeReachable(s: Search, i: nat, start: Point, goal: Point)
      requires WellFormed(s) && NodesConsistent(s, start, goal)
      requires i in s.closedAt
      ensures exists w :: SafeWalk(w, start) && w[|w| - 1] == s.nodes[i].Pos()
      decreases s.closedAt[i]
    {
      if i == 0 {
        assert SafeWalk([start], start);
      } else {
        assert ParentLink(s, i);
        var p := s.nodes[i].parent.value;
        ClosedNodeReachable(s, p, start, goal);
        var w :| SafeWalk(w, start) && w[|w| - 1] == s.nodes[p].Pos();
        var w' := w + [s.nodes[i].Pos()];
        assert SafeWalk(w', start) by {
          forall j | 0 <= j < |w'| - 1
            ensures Adjacent(w'[j], w'[j + 1], gridSize)
          {
            if j < |w| - 1 { assert w'[j] == w[j] && w'[j + 1] == w[j + 1]; }
          }
          forall j | 0 < j < |w'|
            ensures !IsCollision(w'[j])
          {
            if j < |w| { assert w'[j] == w[j]; }
          }
        }
        assert w'[|w'| - 1] == s.nodes[i].Pos();
      }
    }

    /** With every closed point owned by a closed node, every closed point is
        reachable from the start by a collision-free lattice walk. */
    lemma ClosedReachable(s: Search, owner: map<Point, nat>, start: Point, goal: Point)
      requires WellFormed(s) && NodesConsistent(s, start, goal) && ClosedOwned(s, owner)
      ensures forall p :: p in s.closed ==> exists w :: SafeWalk(w, start) && w[|w| - 1] == p
    {
      forall p | p in s.closed
        ensures exists w :: SafeWalk(w, start) && w[|w| - 1] == p
      {
        ClosedNodeReachable(s, owner[p], start, goal);
      }
    }

    /** Closing the open entry at position k makes its node the owner of its point. */
    lemma OwnedAfterClose(s: Search, k: nat, s': Search, owner: map<Point, nat>)
      requires WellFormed(s) && ClosedOwned(s, owner) && k < |s.open|
      requires s' == Search(s.nodes, RemovedAt(s.open, k), s.closed + {s.nodes[s.open[k]].Pos()},
                            s.closedAt[s.open[k] := s.expansions], s.expansions + 1)
      ensures ClosedOwned(s', owner[s.nodes[s.open[k]].Pos() := s.open[k]])
    {
    }

    /** What the search loop tracks across `Close`: one more closed point, the
        start among the closed points, and the closed node as its point's owner. */
    lemma CloseBookkeeping(s: Search, k: nat, s': Search, owner: map<Point, nat>, start: Point, goal: Point)
      requires WellFormed(s) && ClosedOwned(s, owner) && k < |s.open|
      requires s' == Search(s.nodes, RemovedAt(s.open, k), s.closed + {s.nodes[s.open[k]].Pos()},
                            s.closedAt[s.open[k] := s.expansions], s.expansions + 1)
      requires NodesConsistent(s', start, goal) && 0 in s'.closedAt && WellFormed(s')
      ensures |s'.closed| == |s.closed| + 1 && start in s'.closed
      ensures ClosedOwned(s', owner[s.nodes[s.open[k]].Pos() := s.open[k]])
    {
      assert s.nodes[s.open[k]].Pos() !in s.closed;
      assert s'.nodes[0].Pos() == start;
      OwnedAfterClose(s, k, s', owner);
    }

    /** Growing the search within an expansion keeps every owner. */
    lemma OwnedAfterGrowth(s: Search, s': Search, owner: map<Point, nat>)
      requires ClosedOwned(s, owner) && Grows(s, s')
      ensures ClosedOwned(s', owner)
    {
    }

    /** The properties of the Euclidean distance the cost lemmas rely on: with a
        positive grid step, an orthogonal step costs exactly `gridSize` and a
        diagonal step more than that. */
    ghost predicate IsLatticeMetric()
    {
      gridSize > 0.0 &&
      (forall p, k :: 0 <= k < 4 ==> dist(p, Step(p, k, gridSize)) == gridSize) &&
      (forall p, k :: 4 <= k < 8 ==> dist(p, Step(p, k, gridSize)) > gridSize)
    }

    /** Along a route, g grows by at least one grid step per move, so it is
        strictly increasing and the i-th node has g >= i * gridSize. */
    lemma RouteCostGrows(route: seq<PathNode>, start: Point, goal: Point, i: nat, j: nat)
      requires RouteOk(route, start, goal) && IsLatticeMetric()
      requires i <= j < |route|
      ensures route[j].g >= route[i].g + (j - i) as real * gridSize
      ensures route[i].g >= i as real * gridSize
      ensures i < j ==> route[i].g < route[j].g
    {
      forall k | 0 < k < |route|
        ensures route[k].g >= route[k - 1].g + gridSize
      {
        StepCostAtLeastGrid(route, start, goal, k);
      }
      CostAccumulates(route, gridSize, i, j);
      CostAccumulates(route, gridSize, 0, i);
      if i < j {
        assert (j - i) as real * gridSize >= gridSize;
      }
    }

    /** One move of a route costs at least one grid step. */
    lemma StepCostAtLeastGrid(route: seq<PathNode>, start: Point, goal: Point, k: nat)
      requires RouteOk(route, start, goal) && IsLatticeMetric()
      requires 0 < k < |route|
      ensures route[k].g >= route[k - 1].g + gridSize
    {
      var p := route[k - 1].Pos();
      var d :| 0 <= d < 8 && route[k].Pos() == Step(p, d, gridSize);
      assert dist(p, route[k].Pos()) >= gridSize;
    }

    /** Per-move growth of at least `step` adds up along a stretch of the route. */
    static lemma {:induction false} CostAccumulates(route: seq<PathNode>, step: real, i: nat, j: nat)
      requires forall k :: 0 < k < |route| ==> route[k].g >= route[k - 1].g + step
      requires i <= j < |route|
      ensures route[j].g >= route[i].g + (j - i) as real * step
    {
      if i < j {
        CostAccumulates(route, step, i, j - 1);
        assert (j - i) as real * step == (j - 1 - i) as real * step + step;
      }
    }

    /** The cells of a route, in order. */
    function Positions(route: seq<PathNode>): (w: seq<Point>)
      ensures |w| == |route| && forall i :: 0 <= i < |route| ==> w[i] == route[i].Pos()
    {
      if route == [] then [] else [route[0].Pos()] + Positions(route[1..])
    }

    /** A route is a collision-free lattice walk from the start; together with
        the `NoRoute` guarantee of `FindPath`, the search answers "no route"
        only when no such walk reaches the goal. */
    lemma RouteIsSafeWalk(route: seq<PathNode>, start: Point, goal: Point)
      requires RouteOk(route, start, goal)
      ensures SafeWalk(Positions(route), start)
    {
    }

    /** Once the open list is empty, no collision-free walk from the start ends
        within reach of the goal: every such walk stays in the closed set. */
    lemma ExhaustedMeansUnreachable(s: Search, start: Point, goal: Point)
      requires Inv(s, start, goal) && s.open == []
      ensures forall w :: SafeWalk(w, start) ==> !Reached(w[|w| - 1], goal, gridSize)
    {
      assert start in s.closed by {
        assert 0 in s.closedAt;
        assert s.nodes[0].Pos() == start;
      }
      forall w | SafeWalk(w, start)
        ensures !Reached(w[|w| - 1], goal, gridSize)
      {
        WalkStaysClosed(s.closed, w, start, |w| - 1);
      }
    }

    /** The search before the first expansion: the start node alone, open. */
    function InitialSearch(start: Point, goal: Point): (s: Search)
      ensures |s.nodes| == 1 && s.nodes[0] == StartNode(start, goal) && s.open == [0]
      ensures s.closed == {} && s.closedAt == map[] && s.expansions == 0
    {
      Search([StartNode(start, goal)], [0], {}, map[], 0)
    }

    /** The search loop as a function of the search and the remaining budget:
        the empty answer when the open list is empty, giving up when the budget
        is spent, and otherwise one more round. */
    ghost function Run(s: Search, budget: nat, goal: Point): (r: SearchOutcome)
      requires forall j :: 0 <= j < |s.open| ==> s.open[j] < |s.nodes|
      ensures r.Found? ==> |r.route| > 0 && Reached(r.route[|r.route| - 1].Pos(), goal, gridSize)
      decreases budget, 1
    {
      if s.open == [] then NoRoute
      else if budget == 0 then GaveUp
      else Round(s, budget, goal)
    }

    /** One round of the search loop: close the first open entry of least f;
        when it lies within reach of the goal, answer the route to it;
        otherwise consider its eight neighbours and run on with one expansion
        less. */
    ghost function Round(s: Search, budget: nat, goal: Point): (r: SearchOutcome)
      requires forall j :: 0 <= j < |s.open| ==> s.open[j] < |s.nodes|
      requires s.open != [] && budget > 0
      ensures r.Found? ==> |r.route| > 0 && Reached(r.route[|r.route| - 1].Pos(), goal, gridSize)
      decreases budget, 0
    {
      var k := FirstMin(s.nodes, s.open);
      var c := s.open[k];
      var pc := s.nodes[c].Pos();
      var closed := Search(s.nodes, RemovedAt(s.open, k), s.closed + {pc},
                           s.closedAt[c := s.expansions], s.expansions + 1);
      if Reached(pc, goal, gridSize) then Found(PathTo(closed, c))
      else
        assert forall j :: 0 <= j < |closed.open| ==> closed.open[j] < |closed.nodes| by {
          forall j | 0 <= j < |closed.open|
            ensures closed.open[j] < |closed.nodes|
          {
            if j < k { assert closed.open[j] == s.open[j]; } else { assert closed.open[j] == s.open[j + 1]; }
          }
        }
        Run(ExpandedUpTo(closed, c, pc, 8, goal), budget - 1, goal)
    }

    /** One round of `Run` that ends the search: with `k` the first open entry
        of least f and `closed` the search after closing it, the answer is the
        route to that entry when it lies within reach of the goal. */
    lemma RunFinds(s: Search, budget: nat, goal: Point, k: nat, closed: Search)
      requires forall j :: 0 <= j < |s.open| ==> s.open[j] < |s.nodes|
      requires s.open != [] && budget > 0 && k == FirstMin(s.nodes, s.open)
      requires closed == Search(s.nodes, RemovedAt(s.open, k), s.closed + {s.nodes[s.open[k]].Pos()},
                                s.closedAt[s.open[k] := s.expansions], s.expansions + 1)
      requires Reached(s.nodes[s.open[k]].Pos(), goal, gridSize)
      ensures Run(s, budget, goal) == Found(PathTo(closed, s.open[k]))
    {
    }

    /** One round of `Run` that goes on: when the first open entry of least f
        is not within reach of the goal, the run continues from the expansion
        of the search that closed it, with one expansion less. */
    lemma RunContinues(s: Search, budget: nat, goal: Point, k: nat, closed: Search, expanded: Search, rest: nat)
      requires forall j :: 0 <= j < |s.open| ==> s.open[j] < |s.nodes|
      requires s.open != [] && budget == rest + 1 && k == FirstMin(s.nodes, s.open)
      requires closed == Search(s.nodes, RemovedAt(s.open, k), s.closed + {s.nodes[s.open[k]].Pos()},
                                s.closedAt[s.open[k] := s.expansions], s.expansions + 1)
      requires !Reached(s.nodes[s.open[k]].Pos(), goal, gridSize)
      requires forall j :: 0 <= j < |closed.open| ==> closed.open[j] < |closed.nodes|
      requires expanded == ExpandedUpTo(closed, s.open[k], closed.nodes[s.open[k]].Pos(), 8, goal)
      ensures Run(s, budget, goal) == Run(expanded, rest, goal)
    {
      assert Run(s, budget, goal) == Round(s, budget, goal);
    }

    /** `Run` answers at once when the open list is empty or the budget spent. */
    lemma RunStops(s: Search, budget: nat, goal: Point)
      requires forall j :: 0 <= j < |s.open| ==> s.open[j] < |s.nodes|
      requires s.open == [] || budget == 0
      ensures Run(s, budget, goal) == if s.open == [] then NoRoute else GaveUp
    {
    }

    /** When the search loop stops, `Run` has the same answer, and what the
        loop kept tells what that answer means: an exhausted open list means
        no collision-free walk from the start reaches the goal; a spent budget
        means `fuel` points were closed, all reachable and none near the goal. */
    lemma Stopped(s: Search, budget: nat, owner: map<Point, nat>, start: Point, goal: Point, fuel: nat)
      requires Inv(s, start, goal) && ClosedOwned(s, owner)
      requires |s.closed| + budget == fuel && (|s.closed| > 0 ==> start in s.closed)
      requires s.open == [] || budget == 0
      ensures s.open == [] ==> Run(s, budget, goal) == NoRoute
      ensures s.open == [] ==> forall w :: SafeWalk(w, start) ==> !Reached(w[|w| - 1], goal, gridSize)
      ensures s.open != [] ==> Run(s, budget, goal) == GaveUp && |s.closed| == fuel && (fuel > 0 ==> start in s.closed)
      ensures s.open != [] ==> forall p :: p in s.closed ==> exists w :: SafeWalk(w, start) && w[|w| - 1] == p
    {
      RunStops(s, budget, goal);
      if s.open == [] {
        ExhaustedMeansUnreachable(s, start, goal);
      } else {
        ClosedReachable(s, owner, start, goal);
      }
    }

    /** The answer of a round that closes an entry within reach of the goal:
        the route its parent links trace back to the start, which is what
        `Run` answers for the search before that round. */
    method Arrive(ghost before: Search, budget: nat, goal: Point, k: nat, s: Search, c: nat, ghost start: Point)
      returns (route: seq<PathNode>)
      requires forall j :: 0 <= j < |before.open| ==> before.open[j] < |before.nodes|
      requires before.open != [] && budget > 0 && k == FirstMin(before.nodes, before.open)
      requires s == Search(before.nodes, RemovedAt(before.open, k), before.closed + {before.nodes[before.open[k]].Pos()},
                           before.closedAt[before.open[k] := before.expansions], before.expansions + 1)
      requires c == before.open[k] && Reached(before.nodes[c].Pos(), goal, gridSize)
      requires WellFormed(s) && NodesConsistent(s, start, goal)
      ensures RouteOk(route, start, goal) && Reached(route[|route| - 1].Pos(), goal, gridSize)
      ensures Run(before, budget, goal) == Found(route)
    {
      RunFinds(before, budget, goal, k, s);
      ghost var chain;
      route, chain := ReconstructPath(s, c, start, goal);
    }

    /** `findPath(start, goal)`, with at most `fuel` expansions. */
    method FindPath(start: Point, goal: Point, fuel: nat) returns (r: SearchOutcome, ghost closed: set<Point>)
      ensures r.Found? ==> RouteOk(r.route, start, goal)
      ensures r.Found? ==> Reached(r.route[|r.route| - 1].Pos(), goal, gridSize)
      ensures r.NoRoute? ==> forall w :: SafeWalk(w, start) ==> !Reached(w[|w| - 1], goal, gridSize)
      ensures r.GaveUp? ==> |closed| == fuel && (fuel > 0 ==> start in closed)
      ensures r.GaveUp? ==> forall p :: p in closed ==> !Reached(p, goal, gridSize)
      ensures r.GaveUp? ==> forall p :: p in closed ==> exists w :: SafeWalk(w, start) && w[|w| - 1] == p
      ensures r == Run(InitialSearch(start, goal), fuel, goal)
    {
      var s := InitialSearch(start, goal);
      var budget := fuel;
      ghost var owner: map<Point, nat> := map[];
      ghost var halt := Run(s, fuel, goal);
      while s.open != [] && budget > 0
        invariant Inv(s, start, goal)
        invariant |s.closed| + budget == fuel
        invariant |s.closed| > 0 ==> start in s.closed
        invariant ClosedOwned(s, owner)
        invariant Run(s, budget, goal) == halt
        decreases budget
      {
        var k := SelectMin(s.nodes, s.open);
        var c := s.open[k];
        ghost var before := s;
        ghost var budgetBefore := budget;
        s, owner := Close(s, k, start, goal, owner);
        if Reached(s.nodes[c].Pos(), goal, gridSize) {
          var route := Arrive(before, budget, goal, k, s, c, start);
          r, closed := Found(route), s.closed;
          return;
        }
        ghost var closedNow := s;
        s := ExpandNeighbors(s, c, start, goal, owner);
        budget := budget - 1;
        RunContinues(before, budgetBefore, goal, k, closedNow, s, budget);
      }
      Stopped(s, budget, owner, start, goal, fuel);
      if s.open == [] {
        return NoRoute, s.closed;
      }
      return GaveUp, s.closed;
    }
  }
}
