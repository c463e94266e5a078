/** The board graph and the occupancy-aware breadth-first search of
    `Board::findPath` (src/board.cpp). Node ids are `int`; the adjacency lists
    keep their insertion order and their duplicates. */
module Routes {
  import opened Pieces

  /** `adjacency`: the neighbour list of every node id that has one. */
  type Adjacency = map<int, seq<int>>

  /** The list `adjacency[v]` reads: empty for a node without one. */
  function Neighbours(adj: Adjacency, v: int): seq<int> {
    if v in adj then adj[v] else []
  }

  /** An edge as the search sees it: `v` is listed among the neighbours of `u`. */
  predicate IsEdge(adj: Adjacency, u: int, v: int) {
    u in adj && v in adj[u]
  }

  /** `addConnection(from, to)`: `to` joins the list of `from` and `from` the
      list of `to`; a list is created empty on first use and duplicates are
      kept. */
  function Connect(adj: Adjacency, from: int, to: int): (r: Adjacency)
    ensures r.Keys == adj.Keys + {from, to}
    ensures IsEdge(r, from, to) && IsEdge(r, to, from)
    ensures from != to ==> r[from] == Neighbours(adj, from) + [to] && r[to] == Neighbours(adj, to) + [from]
    ensures from == to ==> r[from] == Neighbours(adj, from) + [from, from]
    ensures forall v :: v in adj && v != from && v != to ==> r[v] == adj[v]
    ensures forall u, v :: IsEdge(adj, u, v) ==> IsEdge(r, u, v)
  {
    var once := adj[from := Neighbours(adj, from) + [to]];
    once[to := Neighbours(once, to) + [from]]
  }

  /** Some chip other than `mover` stands on node `v` (the `std::any_of`
      over `chips` in `findPath`). */
  predicate Occupied(chips: seq<Chip>, mover: int, v: int) {
    chips != [] && ((chips[0].position == v && chips[0].uid != mover) || Occupied(chips[1..], mover, v))
  }

  /** `Occupied` holds exactly when some chip other than `mover` is on `v`. */
  lemma {:induction false} OccupiedIff(chips: seq<Chip>, mover: int, v: int)
    ensures Occupied(chips, mover, v) <==>
            exists i :: 0 <= i < |chips| && chips[i].position == v && chips[i].uid != mover
  {
    if chips != [] {
      OccupiedIff(chips[1..], mover, v);
      if Occupied(chips[1..], mover, v) {
        var i :| 0 <= i < |chips[1..]| && chips[1..][i].position == v && chips[1..][i].uid != mover;
        assert chips[i + 1] == chips[1..][i];
      }
      if exists i :: 0 <= i < |chips| && chips[i].position == v && chips[i].uid != mover {
        var i :| 0 <= i < |chips| && chips[i].position == v && chips[i].uid != mover;
        if i > 0 {
          assert chips[1..][i - 1] == chips[i];
        }
      }
    }
  }

  /** A route the dragged chip `mover` may travel: it starts anywhere, every
      step follows an edge, and every node after the first is not occupied by
      another chip. */
  ghost predicate IsRoute(adj: Adjacency, chips: seq<Chip>, mover: int, p: seq<int>) {
    |p| >= 1 &&
    forall i :: 0 <= i < |p| - 1 ==> Step(adj, chips, mover, p[i], p[i + 1])
  }

  /** One move of a route: along an edge onto a node no other chip holds. */
  predicate Step(adj: Adjacency, chips: seq<Chip>, mover: int, u: int, v: int) {
    IsEdge(adj, u, v) && !Occupied(chips, mover, v)
  }

  /** `p` goes from `s` to `g`. */
  ghost predicate Joins(p: seq<int>, s: int, g: int) {
    |p| >= 1 && p[0] == s && p[|p| - 1] == g
  }

  ghost predicate Reachable(adj: Adjacency, chips: seq<Chip>, mover: int, s: int, g: int) {
    exists p :: IsRoute(adj, chips, mover, p) && Joins(p, s, g)
  }

  /** No node repeats. */
  ghost predicate Distinct<T>(p: seq<T>) {
    forall i, j :: 0 <= i < j < |p| ==> p[i] != p[j]
  }

  /** `p` is a route from `s` to `g` with the fewest edges. */
  ghost predicate Shortest(adj: Adjacency, chips: seq<Chip>, mover: int, s: int, g: int, p: seq<int>) {
    IsRoute(adj, chips, mover, p) && Joins(p, s, g) &&
    forall q :: IsRoute(adj, chips, mover, q) && Joins(q, s, g) ==> |p| <= |q|
  }

  /** What `findPath(s, g)` returns, given the chips and the dragged chip's uid:
      nothing when `s == g` or when no route leads from `s` to `g`, otherwise a
      shortest route without repeated nodes. */
  ghost predicate PathSpec(adj: Adjacency, chips: seq<Chip>, mover: int, s: int, g: int, p: seq<int>)
    ensures PathSpec(adj, chips, mover, s, g, p) && p != [] ==>
              |p| >= 2 && p[0] == s && p[|p| - 1] == g &&
              forall i :: 0 < i < |p| ==> IsEdge(adj, p[i - 1], p[i]) && !Occupied(chips, mover, p[i])
  {
    RouteSteps(adj, chips, mover, p);
    if s == g || !Reachable(adj, chips, mover, s, g) then p == []
    else Shortest(adj, chips, mover, s, g, p) && Distinct(p)
  }

  /** Every node of a route after the first is reached along an edge and
      held by no other chip. */
  lemma RouteSteps(adj: Adjacency, chips: seq<Chip>, mover: int, p: seq<int>)
    ensures IsRoute(adj, chips, mover, p) ==>
              forall i :: 0 < i < |p| ==> IsEdge(adj, p[i - 1], p[i]) && !Occupied(chips, mover, p[i])
  {
    if IsRoute(adj, chips, mover, p) {
      forall i | 0 < i < |p| ensures IsEdge(adj, p[i - 1], p[i]) && !Occupied(chips, mover, p[i]) {
        assert Step(adj, chips, mover, p[i - 1], p[(i - 1) + 1]);
      }
    }
  }

  /** `std::reverse` on a copy. */
  function Reversed(s: seq<int>): (r: seq<int>)
    ensures |r| == |s| && forall i :: 0 <= i < |s| ==> r[i] == s[|s| - 1 - i]
  {
    if s == [] then [] else Reversed(s[1..]) + [s[0]]
  }

  /** A finite set holding `s` and every listed neighbour: a search started
      at `s` never leaves it, which bounds the search. */
  lemma Mentioned(adj: Adjacency, s: int) returns (m: set<int>)
    ensures s in m
    ensures forall u, i :: u in adj && 0 <= i < |adj[u]| ==> adj[u][i] in m
  {
    m := {s} + set u, v | u in adj && v in adj[u] :: v;
    forall u, i | u in adj && 0 <= i < |adj[u]| ensures adj[u][i] in m {
      var v := adj[u][i];
      assert u in adj && v in adj[u];
    }
  }

  lemma SubsetSmaller(a: set<int>, b: set<int>)
    requires a < b
    ensures |a| < |b|
  {
    assert b == a + (b - a);
    assert b - a != {};
  }

  /** The search state seen from outside: the explored nodes `done` are
      closed under free neighbours, and each free neighbour is at most one
      level deeper. Under that closure, a route of `k` edges from `s` that
      only passes nodes shallower than `depth` ends at an explored node of
      level at most `k`. */
  lemma {:induction false} RouteBound(adj: Adjacency, chips: seq<Chip>, mover: int, s: int,
                                      visited: set<int>, dist: map<int, nat>, done: set<int>,
                                      depth: nat, q: seq<int>)
    requires visited <= dist.Keys && s in visited && dist[s] == 0
    requires Closed(adj, chips, mover, done, visited, dist)
    requires forall v :: v in visited && dist[v] < depth ==> v in done
    requires IsRoute(adj, chips, mover, q) && q[0] == s && |q| - 1 <= depth
    ensures q[|q| - 1] in visited && dist[q[|q| - 1]] <= |q| - 1
  {
    if |q| > 1 {
      var prefix := q[..|q| - 1];
      assert IsRoute(adj, chips, mover, prefix) by {
        forall i | 0 <= i < |prefix| - 1
          ensures Step(adj, chips, mover, prefix[i], prefix[i + 1])
        {
          assert prefix[i] == q[i] && prefix[i + 1] == q[i + 1];
        }
      }
      RouteBound(adj, chips, mover, s, visited, dist, done, depth, prefix);
      var w := q[|q| - 2];
      assert prefix[|prefix| - 1] == w;
      assert w in done;
      var i := |q| - 2;
      assert Step(adj, chips, mover, q[i], q[i + 1]);
    }
  }

  /** The predecessor tree of the search: `visited` are the nodes found so
      far, each found node but `start` records the node it was reached from
      through one step of a route, one level deeper. */
  ghost predicate Tree(adj: Adjacency, chips: seq<Chip>, mover: int, start: int,
                       visited: set<int>, cameFrom: map<int, int>, dist: map<int, nat>) {
    visited == dist.Keys && start in visited && dist[start] == 0 &&
    cameFrom.Keys == visited - {start} &&
    forall v :: v in cameFrom ==>
      cameFrom[v] in visited && Step(adj, chips, mover, cameFrom[v], v) && dist[v] == dist[cameFrom[v]] + 1
  }

  /** The expanded nodes `done` have all their free neighbours found, at most
      one level deeper. */
  ghost predicate Closed(adj: Adjacency, chips: seq<Chip>, mover: int,
                         done: set<int>, visited: set<int>, dist: map<int, nat>) {
    done <= visited && visited <= dist.Keys &&
    forall u, v :: u in done && Step(adj, chips, mover, u, v) ==> v in visited && dist[v] <= dist[u] + 1
  }

  /** The queue holds found, unexpanded nodes in level order, no shallower
      than `level`; nothing found is deeper than `level + 1`. */
  ghost predicate Layered(queue: seq<int>, visited: set<int>, done: set<int>, dist: map<int, nat>, level: nat)
    requires visited <= dist.Keys
  {
    (forall i :: 0 <= i < |queue| ==> queue[i] in visited && queue[i] !in done && level <= dist[queue[i]]) &&
    (forall i, j :: 0 <= i < j < |queue| ==>
       queue[i] != queue[j] && queue[i] in visited && queue[j] in visited && dist[queue[i]] <= dist[queue[j]]) &&
    (forall v :: v in visited ==> dist[v] <= level + 1)
  }

  /** Expanding `current` adds it to the closed set. */
  lemma CloseNode(adj: Adjacency, chips: seq<Chip>, mover: int,
                  done: set<int>, visited: set<int>, dist: map<int, nat>, current: int)
    requires Closed(adj, chips, mover, done, visited, dist) && current in visited
    requires forall v :: Step(adj, chips, mover, current, v) ==> v in visited && dist[v] <= dist[current] + 1
    ensures Closed(adj, chips, mover, done + {current}, visited, dist)
  {
  }

  /** Taking the front node off the queue keeps the order. */
  lemma LayeredPop(queue: seq<int>, visited: set<int>, done: set<int>, dist: map<int, nat>)
    requires visited <= dist.Keys && queue != [] && queue[0] in visited
    requires Layered(queue, visited, done, dist, dist[queue[0]])
    ensures Layered(queue[1..], visited, done, dist, dist[queue[0]]) && queue[0] !in queue[1..]
  {
    var rest := queue[1..];
    forall i, j | 0 <= i < j < |rest|
      ensures rest[i] != rest[j] && rest[i] in visited && rest[j] in visited && dist[rest[i]] <= dist[rest[j]]
    {
      assert rest[i] == queue[i + 1] && rest[j] == queue[j + 1];
    }
  }

  /** Once the front node is expanded, the next front fixes the new level. */
  lemma LayeredAdvance(queue: seq<int>, visited: set<int>, done: set<int>, dist: map<int, nat>,
                       level: nat, current: int)
    requires visited <= dist.Keys && queue != [] && current !in queue
    requires Layered(queue, visited, done, dist, level)
    ensures queue[0] in visited && Layered(queue, visited, done + {current}, dist, dist[queue[0]])
  {
    forall i | 0 <= i < |queue|
      ensures queue[i] in visited && queue[i] !in done + {current} && dist[queue[0]] <= dist[queue[i]]
    {
      assert i > 0 ==> dist[queue[0]] <= dist[queue[i]];
    }
  }

  /** Every found node is expanded, waiting, or the node just taken off the
      front of the queue. */
  lemma Dequeued(queue: seq<int>, seen: set<int>, done: set<int>)
    requires queue != []
    requires forall v :: v in seen ==> v in done || v in queue
    ensures forall v :: v in seen ==> v in done || v in queue[1..] || v == queue[0]
  {
    forall v | v in seen && v !in done && v != queue[0] ensures v in queue[1..] {
      var k :| 0 <= k < |queue| && queue[k] == v;
      assert queue[1..][k - 1] == v;
    }
  }

  /** A node without a neighbour list has no step out of it. */
  lemma NoStepFrom(adj: Adjacency, chips: seq<Chip>, mover: int, u: int)
    requires u !in adj
    ensures forall v :: !Step(adj, chips, mover, u, v)
  {
  }

  /** Finding a free neighbour `n` of `current` one level deeper, with
      `current` as its predecessor and a place at the back of the queue,
      keeps the tree, the closed set and the level order. */
  lemma Discover(adj: Adjacency, chips: seq<Chip>, mover: int, start: int, current: int,
                 visited: set<int>, cameFrom: map<int, int>, queue: seq<int>,
                 dist: map<int, nat>, done: set<int>, level: nat, n: int)
    requires Tree(adj, chips, mover, start, visited, cameFrom, dist)
    requires Closed(adj, chips, mover, done, visited, dist)
    requires current in visited && current !in done && dist[current] == level
    requires Layered(queue, visited, done, dist, level)
    requires n !in visited && Step(adj, chips, mover, current, n)
    ensures Tree(adj, chips, mover, start, visited + {n}, cameFrom[n := current], dist[n := level + 1])
    ensures Closed(adj, chips, mover, done, visited + {n}, dist[n := level + 1])
    ensures Layered(queue + [n], visited + {n}, done, dist[n := level + 1], level)
  {
    var queue', dist' := queue + [n], dist[n := level + 1];
    forall i, k | 0 <= i < k < |queue'|
      ensures queue'[i] != queue'[k] && dist'[queue'[i]] <= dist'[queue'[k]]
    {
      if k < |queue| {
        assert queue'[i] == queue[i] && queue'[k] == queue[k];
      } else {
        assert queue'[i] == queue[i];
      }
    }
  }

  /** The inner loop of `findPath`: every neighbour of `current` that is not
      yet visited and not occupied by another chip is marked visited, gets
      `current` as its predecessor and joins the back of the queue. */
  method Expand(adj: Adjacency, chips: seq<Chip>, mover: int, start: int, current: int,
                visited: set<int>, cameFrom: map<int, int>, queue: seq<int>,
                ghost dist: map<int, nat>, ghost done: set<int>, ghost all: set<int>)
    returns (visited': set<int>, cameFrom': map<int, int>, queue': seq<int>, ghost dist': map<int, nat>)
    requires current in adj
    requires Tree(adj, chips, mover, start, visited, cameFrom, dist)
    requires Closed(adj, chips, mover, done, visited, dist)
    requires current in visited && current !in done && current !in queue
    requires Layered(queue, visited, done, dist, dist[current])
    requires forall v :: v in visited ==> v in done || v in queue || v == current
    requires visited <= all && forall u, i :: u in adj && 0 <= i < |adj[u]| ==> adj[u][i] in all
    ensures Tree(adj, chips, mover, start, visited', cameFrom', dist')
    ensures Closed(adj, chips, mover, done, visited', dist')
    ensures visited <= visited' <= all && dist'[current] == dist[current]
    ensures Layered(queue', visited', done, dist', dist[current])
    ensures forall v :: v in visited' ==> v in done || v in queue' || v == current
    ensures forall v :: Step(adj, chips, mover, current, v) ==> v in visited' && dist'[v] <= dist[current] + 1
    ensures visited' == visited ==> queue' == queue
    ensures current !in queue'
  {
    visited', cameFrom', queue', dist' := visited, cameFrom, queue, dist;
    ghost var level := dist[current];
    var neighbours := adj[current];
    var j := 0;
    while j < |neighbours|
      invariant 0 <= j <= |neighbours|
      invariant Tree(adj, chips, mover, start, visited', cameFrom', dist')
      invariant Closed(adj, chips, mover, done, visited', dist')
      invariant visited <= visited' <= all && dist'[current] == level
      invariant forall v :: v in visited ==> dist'[v] == dist[v]
      invariant Layered(queue', visited', done, dist', level)
      invariant forall v :: v in visited' ==> v in done || v in queue' || v == current
      invariant forall k :: 0 <= k < j && !Occupied(chips, mover, neighbours[k]) ==>
                  neighbours[k] in visited' && dist'[neighbours[k]] <= level + 1
      invariant visited' == visited ==> queue' == queue
      invariant current !in queue'
    {
      var neighbour := neighbours[j];
      if neighbour !in visited' && !Occupied(chips, mover, neighbour) {
        Discover(adj, chips, mover, start, current, visited', cameFrom', queue', dist', done, level, neighbour);
        visited' := visited' + {neighbour};
        dist' := dist'[neighbour := level + 1];
        cameFrom' := cameFrom'[neighbour := current];
        queue' := queue' + [neighbour];
      }
      j := j + 1;
    }
    forall v | Step(adj, chips, mover, current, v)
      ensures v in visited' && dist'[v] <= level + 1
    {
      var k :| 0 <= k < |neighbours| && neighbours[k] == v;
    }
  }

  /** One round of the search loop of `findPath` once the front node is not
      the goal: the front node leaves the queue and is expanded. */
  method Visit(adj: Adjacency, chips: seq<Chip>, mover: int, start: int,
               seen: set<int>, cameFrom: map<int, int>, queue: seq<int>,
               ghost dist: map<int, nat>, ghost done: set<int>, ghost all: set<int>)
    returns (seen': set<int>, cameFrom': map<int, int>, queue': seq<int>,
             ghost dist': map<int, nat>, ghost done': set<int>)
    requires Tree(adj, chips, mover, start, seen, cameFrom, dist)
    requires Closed(adj, chips, mover, done, seen, dist)
    requires seen <= all && forall u, i :: u in adj && 0 <= i < |adj[u]| ==> adj[u][i] in all
    requires queue != [] && queue[0] in seen && Layered(queue, seen, done, dist, dist[queue[0]])
    requires forall v :: v in seen ==> v in done || v in queue
    ensures Tree(adj, chips, mover, start, seen', cameFrom', dist')
    ensures Closed(adj, chips, mover, done', seen', dist')
    ensures seen <= seen' <= all && done' == done + {queue[0]}
    ensures queue' != [] ==> queue'[0] in seen' && Layered(queue', seen', done', dist', dist'[queue'[0]])
    ensures forall v :: v in seen' ==> v in done' || v in queue'
    ensures seen' == seen ==> |queue'| < |queue|
  {
    var current := queue[0];
    ghost var level := dist[current];
    LayeredPop(queue, seen, done, dist);
    Dequeued(queue, seen, done);
    seen', cameFrom', queue', dist' := seen, cameFrom, queue[1..], dist;
    if current in adj {
      seen', cameFrom', queue', dist' := Expand(adj, chips, mover, start, current, seen, cameFrom, queue[1..], dist, done, all);
      assert dist'[current] == level;
    } else {
      NoStepFrom(adj, chips, mover, current);
    }
    if queue' != [] {
      LayeredAdvance(queue', seen', done, dist', level, current);
    }
    CloseNode(adj, chips, mover, done, seen', dist', current);
    done' := done + {current};
  }

  /** The search loop of `findPath`: a FIFO queue of found nodes, expanded
      front first, until the queue runs dry or `goal` reaches its front. It
      hands back the predecessor links; the ghost results describe how far
      the search got. */
  method Search(adj: Adjacency, chips: seq<Chip>, mover: int, start: int, goal: int)
    returns (cameFrom: map<int, int>, ghost visited: set<int>, ghost dist: map<int, nat>,
             ghost done: set<int>, ghost found: bool)
    ensures Tree(adj, chips, mover, start, visited, cameFrom, dist)
    ensures Closed(adj, chips, mover, done, visited, dist)
    ensures found ==> goal in visited && forall v :: v in visited && dist[v] < dist[goal] ==> v in done
    ensures !found ==> goal !in visited && forall v :: v in visited ==> v in done
  {
    cameFrom := map[];
    var seen: set<int> := {start};
    var queue: seq<int> := [start];
    dist := map[start := 0];
    done := {};
    found := false;
    ghost var all := Mentioned(adj, start);

    while queue != []
      invariant Tree(adj, chips, mover, start, seen, cameFrom, dist)
      invariant Closed(adj, chips, mover, done, seen, dist)
      invariant seen <= all
      invariant queue != [] ==> queue[0] in seen && Layered(queue, seen, done, dist, dist[queue[0]])
      invariant forall v :: v in seen ==> v in done || v in queue
      invariant !found && goal !in done
      decreases |all - seen|, |queue|
    {
      if queue[0] == goal {
        found := true;
        assert forall v :: v in seen && dist[v] < dist[goal] ==> v !in queue;
        break;
      }
      ghost var before := seen;
      seen, cameFrom, queue, dist, done := Visit(adj, chips, mover, start, seen, cameFrom, queue, dist, done, all);
      if seen != before {
        SubsetSmaller(all - seen, all - before);
      }
    }
    visited := seen;
  }

  /** The reconstruction at the end of `findPath`: from `goal` back along the
      predecessor links to `start`, then `start` itself, reversed. When the
      search stopped at `goal`, the result is a shortest route. */
  method Retrace(adj: Adjacency, chips: seq<Chip>, mover: int, start: int, goal: int,
                 cameFrom: map<int, int>, ghost visited: set<int>, ghost dist: map<int, nat>,
                 ghost done: set<int>)
    returns (path: seq<int>)
    requires Tree(adj, chips, mover, start, visited, cameFrom, dist)
    requires Closed(adj, chips, mover, done, visited, dist)
    requires goal in cameFrom
    requires forall v :: v in visited && dist[v] < dist[goal] ==> v in done
    ensures Shortest(adj, chips, mover, start, goal, path) && Distinct(path)
  {
    path := [];
    var current := goal;
    while current != start
      invariant current in visited
      invariant |path| + dist[current] == dist[goal]
      invariant forall i :: 0 <= i < |path| ==> path[i] in visited && dist[path[i]] == dist[goal] - i
      invariant path != [] ==> path[0] == goal
      invariant forall i :: 0 <= i < |path| - 1 ==> Step(adj, chips, mover, path[i + 1], path[i])
      invariant path != [] ==> Step(adj, chips, mover, current, path[|path| - 1])
      invariant path == [] ==> current == goal
      decreases dist[current]
    {
      ghost var trail := path;
      path := path + [current];
      forall i | 0 <= i < |path| - 1 ensures Step(adj, chips, mover, path[i + 1], path[i]) {
        if i < |trail| - 1 {
          assert path[i + 1] == trail[i + 1] && path[i] == trail[i];
        }
      }
      current := cameFrom[current];
    }
    ghost var chain := path + [start];
    ghost var last := |path|;
    assert chain[last] == start && forall i :: 0 <= i < last ==> chain[i] == path[i];
    ChainReversed(adj, chips, mover, start, goal, visited, dist, done, chain);
    path := Reversed(path + [start]);
  }

  /** The predecessor chain read from `goal` back to `start`, one level
      shallower at each link, is once reversed a shortest route without
      repeated nodes: a shorter route would reach `goal` from the closed
      levels below it in fewer steps than its level. */
  lemma ChainReversed(adj: Adjacency, chips: seq<Chip>, mover: int, start: int, goal: int,
                      visited: set<int>, dist: map<int, nat>, done: set<int>, chain: seq<int>)
    requires visited <= dist.Keys && start in visited && dist[start] == 0
    requires Closed(adj, chips, mover, done, visited, dist)
    requires goal in visited && forall v :: v in visited && dist[v] < dist[goal] ==> v in done
    requires |chain| == dist[goal] + 1 && chain[0] == goal && chain[|chain| - 1] == start
    requires forall i :: 0 <= i < |chain| ==> chain[i] in visited && dist[chain[i]] == dist[goal] - i
    requires forall i :: 0 <= i < |chain| - 1 ==> Step(adj, chips, mover, chain[i + 1], chain[i])
    ensures Shortest(adj, chips, mover, start, goal, Reversed(chain)) && Distinct(Reversed(chain))
  {
    var path := Reversed(chain);
    ChainRoute(adj, chips, mover, dist, chain, path);
    assert Joins(path, start, goal);
    forall q | IsRoute(adj, chips, mover, q) && Joins(q, start, goal) ensures |path| <= |q| {
      if |q| < |path| {
        RouteBound(adj, chips, mover, start, visited, dist, done, dist[goal], q);
      }
    }
  }

  /** A chain of predecessor links, each one level shallower, read backwards
      is a route whose `i`-th node is on level `i`. */
  lemma ChainRoute(adj: Adjacency, chips: seq<Chip>, mover: int, dist: map<int, nat>,
                   chain: seq<int>, path: seq<int>)
    requires chain != [] && forall i :: 0 <= i < |chain| ==> chain[i] in dist && dist[chain[i]] == |chain| - 1 - i
    requires forall i :: 0 <= i < |chain| - 1 ==> Step(adj, chips, mover, chain[i + 1], chain[i])
    requires |path| == |chain| && forall i :: 0 <= i < |chain| ==> path[i] == chain[|chain| - 1 - i]
    ensures IsRoute(adj, chips, mover, path)
    ensures forall i :: 0 <= i < |path| ==> path[i] in dist && dist[path[i]] == i
  {
    var d := |chain| - 1;
    forall i | 0 <= i < |path| ensures path[i] in dist && dist[path[i]] == i {
      var k := d - i;
      assert path[i] == chain[k] && dist[chain[k]] == d - k;
    }
    forall i | 0 <= i < |path| - 1 ensures Step(adj, chips, mover, path[i], path[i + 1]) {
      assert path[i] == chain[d - i] && path[i + 1] == chain[d - i - 1];
    }
  }

  /** `findPath(start, goal)`: breadth-first search from `start` through
      nodes no other chip occupies, a final check that no other chip holds
      `goal`, and the walk back from `goal`. It only reads the graph and the
      chips. */
  method FindPath(adj: Adjacency, chips: seq<Chip>, mover: int, start: int, goal: int)
    returns (path: seq<int>)
    ensures PathSpec(adj, chips, mover, start, goal, path)
  {
    var cameFrom;
    ghost var visited, dist, done, found;
    cameFrom, visited, dist, done, found := Search(adj, chips, mover, start, goal);

    var goalOccupied := Occupied(chips, mover, goal);
    if goalOccupied || goal !in cameFrom {
      path := [];
      if start != goal && Reachable(adj, chips, mover, start, goal) {
        var q :| IsRoute(adj, chips, mover, q) && Joins(q, start, goal);
        assert Step(adj, chips, mover, q[|q| - 2], q[|q| - 1]);
        RouteBound(adj, chips, mover, start, visited, dist, done, |q| - 1, q);
        assert false;
      }
      return;
    }
    path := Retrace(adj, chips, mover, start, goal, cameFrom, visited, dist, done);
  }

  /** Every step of a route that leaves `s` goes to a neighbour of `s` that no
      other chip holds. */
  lemma {:induction false} BlockedStartUnreachable(adj: Adjacency, chips: seq<Chip>, mover: int,
                                                   s: int, g: int, p: seq<int>)
    requires s != g
    requires forall v :: IsEdge(adj, s, v) ==> Occupied(chips, mover, v)
    requires PathSpec(adj, chips, mover, s, g, p)
    ensures p == []
  {
    forall q | IsRoute(adj, chips, mover, q) && Joins(q, s, g)
      ensures Step(adj, chips, mover, s, q[1])
    {
      assert q[0] == s && |q| >= 2;
      assert Step(adj, chips, mover, q[0], q[1]);
    }
  }

  /** No route ends on a node another chip holds, except the one-node route. */
  lemma OccupiedGoalUnreachable(adj: Adjacency, chips: seq<Chip>, mover: int, s: int, g: int, p: seq<int>)
    requires s != g && Occupied(chips, mover, g)
    requires PathSpec(adj, chips, mover, s, g, p)
    ensures p == []
  {
    forall q | IsRoute(adj, chips, mover, q) && |q| >= 2
      ensures !Occupied(chips, mover, q[|q| - 1])
    {
      assert Step(adj, chips, mover, q[|q| - 2], q[|q| - 1]);
    }
  }

  /** A free neighbour is one step away: the search returns the two-node route. */
  lemma NeighbourPath(adj: Adjacency, chips: seq<Chip>, mover: int, a: int, b: int, p: seq<int>)
    requires a != b && Step(adj, chips, mover, a, b)
    requires PathSpec(adj, chips, mover, a, b, p)
    ensures p == [a, b]
  {
    assert IsRoute(adj, chips, mover, [a, b]) && Joins([a, b], a, b);
    assert |p| <= 2;
  }

  /** After `addConnection(a, b)` each end is one hop from the other, provided
      no other chip holds the end being moved to. */
  lemma ConnectOneHop(adj: Adjacency, chips: seq<Chip>, mover: int, a: int, b: int, p: seq<int>, q: seq<int>)
    requires a != b
    requires PathSpec(Connect(adj, a, b), chips, mover, a, b, p) && !Occupied(chips, mover, b)
    requires PathSpec(Connect(adj, a, b), chips, mover, b, a, q) && !Occupied(chips, mover, a)
    ensures p == [a, b] && q == [b, a]
  {
    NeighbourPath(Connect(adj, a, b), chips, mover, a, b, p);
    NeighbourPath(Connect(adj, a, b), chips, mover, b, a, q);
  }

  /** Three nodes in a line: 1 - 2 - 3. */
  const Line: Adjacency := map[1 := [2], 2 := [1, 3], 3 := [2]]

  /** A chip on node 1 dragged towards node 3 of the line travels 1, 2, 3. */
  lemma LineScenario(p: seq<int>)
    requires PathSpec(Line, [Chip(1, 1)], 1, 1, 3, p)
    ensures p == [1, 2, 3]
  {
    var chips := [Chip(1, 1)];
    assert !Occupied(chips, 1, 2) && !Occupied(chips, 1, 3);
    assert IsRoute(Line, chips, 1, [1, 2, 3]) && Joins([1, 2, 3], 1, 3);
    assert Step(Line, chips, 1, p[0], p[1]);
    assert p[1] == 2;
    assert |p| == 3;
    assert Step(Line, chips, 1, p[1], p[2]);
  }

  /** With a second chip on node 2 the way from 1 to 3 is blocked. */
  lemma BlockedLineScenario(p: seq<int>)
    requires PathSpec(Line, [Chip(1, 1), Chip(2, 2)], 1, 1, 3, p)
    ensures p == []
  {
    var chips := [Chip(1, 1), Chip(2, 2)];
    assert Occupied(chips, 1, 2) by {
      assert chips[1..] == [Chip(2, 2)];
    }
    BlockedStartUnreachable(Line, chips, 1, 1, 3, p);
  }
}
