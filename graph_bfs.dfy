// Lab10 `graph_traversal.py`, breadth-first part: `bfs` with its
// distances and parents, and `bfs_shortest_path` reading a path back
// from the parents. Paths, reachability and visited lists come from
// the depth-first part (module GraphTraversal).

module GraphBfs {
  import opened Wrappers
  import opened GraphRepresentation
  import opened GraphTraversal

  /** What `bfs` returns: the dequeue order, the distance list and the parent list. */
  datatype Search = Search(visited: seq<int>, distances: seq<int>, parents: seq<int>)

  /** A list entry for an in-range index, and -1 (the "unset" mark) elsewhere. */
  function At(s: seq<int>, v: int): (r: int)
    ensures 0 <= v < |s| ==> r == s[v]
    ensures !(0 <= v < |s|) ==> r == -1
  {
    if 0 <= v < |s| then s[v] else -1
  }

  /** Python's reading of an index into a list of length `n`: negative ones count from the back. */
  function Slot(n: int, i: int): (r: int)
    ensures -n <= i < 0 ==> 0 <= r < n && r - n == i
    ensures 0 <= i ==> r == i
  {
    if i < 0 then n + i else i
  }

  // ---------------------------------------------------------------------
  // Distances
  // ---------------------------------------------------------------------

  /** Some walk from `s` to `v` takes exactly `d` edges. */
  ghost predicate Dist(adj: seq<seq<(int, int)>>, s: int, v: int, d: int)
  {
    exists p :: IsPath(adj, p) && p[0] == s && p[|p| - 1] == v && |p| == d + 1
  }

  /** `d` edges is the length of a shortest walk from `s` to `v`. */
  ghost predicate Shortest(adj: seq<seq<(int, int)>>, s: int, v: int, d: int)
  {
    Dist(adj, s, v, d) && forall p :: IsPath(adj, p) && p[0] == s && p[|p| - 1] == v ==> d + 1 <= |p|
  }

  /** One more edge after a walk of `d` edges. */
  lemma DistStep(adj: seq<seq<(int, int)>>, s: int, u: int, v: int, d: int)
    requires Dist(adj, s, u, d) && Step(adj, u, v)
    ensures Dist(adj, s, v, d + 1)
  {
    var p :| IsPath(adj, p) && p[0] == s && p[|p| - 1] == u && |p| == d + 1;
    PathExtend(adj, p, v);
  }

  /** A walk followed by one more edge is a walk with the same first vertex. */
  lemma PathExtend(adj: seq<seq<(int, int)>>, p: seq<int>, v: int)
    requires IsPath(adj, p) && Step(adj, p[|p| - 1], v)
    ensures IsPath(adj, p + [v]) && (p + [v])[0] == p[0]
  {
    var q := p + [v];
    assert forall i :: 0 <= i < |p| ==> q[i] == p[i];
  }

  // ---------------------------------------------------------------------
  // The state of the queue loop
  // ---------------------------------------------------------------------

  /**
   * The vertex at position `i` of the discovery order has a parent that
   * was discovered earlier, is joined to it by an edge, and is one step
   * nearer the start.
   */
  ghost predicate Parent(adj: seq<seq<(int, int)>>, order: seq<int>, i: int, dist: seq<int>, parents: seq<int>)
    requires 0 <= i < |order|
  {
    var v := order[i];
    var p := At(parents, v);
    Step(adj, p, v) && p in order[..i] && At(dist, v) == At(dist, p) + 1
  }

  /**
   * `order` is everything ever enqueued (the dequeued vertices, then the
   * queue): the start first, no vertex twice. Exactly those have a
   * distance; each has a walk of that length and, the start aside, a
   * parent; the others keep -1 as parent.
   */
  ghost predicate Labelled(adj: seq<seq<(int, int)>>, start: int, order: seq<int>, dist: seq<int>, parents: seq<int>)
  {
    |dist| == |adj| && |parents| == |adj| && |order| > 0 && order[0] == start &&
    Distinct(order) && AllIn(order, |adj|) &&
    (forall v :: 0 <= v < |adj| ==> (dist[v] == -1 <==> v !in order)) &&
    (forall v :: 0 <= v < |adj| && v !in order ==> parents[v] == -1) &&
    At(dist, start) == 0 && At(parents, start) == -1 &&
    (forall i :: 0 < i < |order| ==> Parent(adj, order, i, dist, parents)) &&
    (forall i :: 0 <= i < |order| ==> Dist(adj, start, order[i], At(dist, order[i])))
  }

  /**
   * Distances never fall along the order, and from position `from` on
   * they rise by at most one.
   */
  ghost predicate Layered(order: seq<int>, from: int, dist: seq<int>)
  {
    (forall i, j :: 0 <= i < j < |order| ==> At(dist, order[i]) <= At(dist, order[j])) &&
    (forall i, j :: 0 <= from <= i < j < |order| ==> At(dist, order[j]) <= At(dist, order[i]) + 1)
  }

  /** Every neighbour of a dequeued vertex has been enqueued, at most one step further. */
  ghost predicate Closed(adj: seq<seq<(int, int)>>, visited: seq<int>, order: seq<int>, dist: seq<int>)
  {
    forall i, y :: 0 <= i < |visited| && Step(adj, visited[i], y) ==> y in order && At(dist, y) <= At(dist, visited[i]) + 1
  }

  /** The invariant of the `while queue` loop of `bfs`. */
  ghost predicate Frontier(adj: seq<seq<(int, int)>>, start: int, visited: seq<int>, queue: seq<int>,
                           dist: seq<int>, parents: seq<int>)
  {
    Labelled(adj, start, visited + queue, dist, parents) &&
    Layered(visited + queue, |visited|, dist) &&
    Closed(adj, visited, visited + queue, dist)
  }

  /**
   * The invariant inside a round: `cur` has been moved from the queue to
   * the end of `visited`; the vertices dequeued before it are closed.
   */
  ghost predicate Scanning(adj: seq<seq<(int, int)>>, start: int, visited: seq<int>, cur: int, queue: seq<int>,
                           dist: seq<int>, parents: seq<int>)
  {
    var order := visited + [cur] + queue;
    Labelled(adj, start, order, dist, parents) && Layered(order, |visited|, dist) &&
    Closed(adj, visited, order, dist) && order[|visited|] == cur
  }

  /** `y` is enqueued at most one step beyond `cur`. */
  ghost predicate Reached(order: seq<int>, dist: seq<int>, cur: int, y: int)
  {
    y in order && At(dist, y) <= At(dist, cur) + 1
  }

  /**
   * What `bfs` promises from an in-range start: the dequeue order lists
   * each vertex reachable from the start once, start first, distances
   * never falling; a vertex has distance -1 and parent -1 exactly when it
   * was not reached; a reached vertex's distance is the length of a
   * shortest walk to it, and its parent was reached before it, one edge
   * and one step back.
   */
  ghost predicate Searched(adj: seq<seq<(int, int)>>, start: int, s: Search)
  {
    |s.distances| == |adj| && |s.parents| == |adj| &&
    |s.visited| > 0 && s.visited[0] == start && Distinct(s.visited) && AllIn(s.visited, |adj|) &&
    (forall x :: x in s.visited <==> Reachable(adj, start, x)) &&
    (forall v :: 0 <= v < |adj| ==> (s.distances[v] == -1 <==> v !in s.visited)) &&
    (forall v :: 0 <= v < |adj| && v !in s.visited ==> s.parents[v] == -1) &&
    At(s.distances, start) == 0 && At(s.parents, start) == -1 &&
    (forall i :: 0 < i < |s.visited| ==> Parent(adj, s.visited, i, s.distances, s.parents)) &&
    (forall i, j :: 0 <= i < j < |s.visited| ==> At(s.distances, s.visited[i]) <= At(s.distances, s.visited[j])) &&
    (forall v :: v in s.visited ==> Shortest(adj, start, v, At(s.distances, v)))
  }

  // ---------------------------------------------------------------------
  // Why the loop keeps its invariant
  // ---------------------------------------------------------------------

  /** A vertex already enqueued is at most one step further than the vertex at `from`. */
  lemma EnqueuedBound(order: seq<int>, from: int, dist: seq<int>, y: int)
    requires Layered(order, from, dist) && 0 <= from < |order| && y in order
    ensures At(dist, y) <= At(dist, order[from]) + 1
  {
    var j :| 0 <= j < |order| && order[j] == y;
    if j < from {
      assert At(dist, order[j]) <= At(dist, order[from]);
    } else if j > from {
      assert At(dist, order[j]) <= At(dist, order[from]) + 1;
    }
  }

  /** Enqueuing a newly found neighbour `y` of `cur` keeps the labels. */
  lemma LabelledGrow(adj: seq<seq<(int, int)>>, start: int, order: seq<int>, dist: seq<int>, parents: seq<int>,
                     cur: int, y: int)
    requires Labelled(adj, start, order, dist, parents) && cur in order
    requires 0 <= y < |adj| && y !in order && Step(adj, cur, y)
    ensures Labelled(adj, start, order + [y], dist[y := At(dist, cur) + 1], parents[y := cur])
    ensures forall x :: x in order ==> At(dist[y := At(dist, cur) + 1], x) == At(dist, x)
  {
    var order', dist', parents' := order + [y], dist[y := At(dist, cur) + 1], parents[y := cur];
    var n := |order|;
    assert order'[..n] == order;
    assert forall x :: x in order ==> At(dist', x) == At(dist, x) && At(parents', x) == At(parents, x);
    forall i | 0 < i < |order'| ensures Parent(adj, order', i, dist', parents') {
      if i < n {
        assert Parent(adj, order, i, dist, parents);
        assert order'[..i] == order[..i];
        var p := At(parents, order[i]);
        assert p in order;
      } else {
        assert order'[..i] == order;
      }
    }
    forall i | 0 <= i < |order'| ensures Dist(adj, start, order'[i], At(dist', order'[i])) {
      if i == n {
        var j :| 0 <= j < n && order[j] == cur;
        DistStep(adj, start, cur, y, At(dist, cur));
      }
    }
    Grown(order, y, |adj|);
  }

  /** Enqueuing `y` one step beyond the vertex at `from` keeps the layering. */
  lemma LayeredGrow(order: seq<int>, from: int, dist: seq<int>, y: int)
    requires Layered(order, from, dist) && 0 <= from < |order| && 0 <= y < |dist| && y !in order
    requires forall x :: x in order ==> At(dist[y := At(dist, order[from]) + 1], x) == At(dist, x)
    ensures Layered(order + [y], from, dist[y := At(dist, order[from]) + 1])
  {
    var order', dist' := order + [y], dist[y := At(dist, order[from]) + 1];
    forall i | 0 <= i < |order| ensures At(dist', order'[i]) == At(dist, order[i]) && At(dist, order[i]) <= At(dist', y) {
      assert order[i] in order;
      EnqueuedBound(order, from, dist, order[i]);
      if i < from {
        assert At(dist, order[i]) <= At(dist, order[from]);
      }
    }
    forall i, j | 0 <= from <= i < j < |order'| ensures At(dist', order'[j]) <= At(dist', order'[i]) + 1 {
      if j < |order| {
        assert At(dist, order[j]) <= At(dist, order[i]) + 1;
      } else if i > from {
        assert At(dist, order[from]) <= At(dist, order[i]);
      }
    }
  }

  /** Enqueuing a vertex not yet in the order keeps what earlier rounds closed. */
  lemma ClosedGrow(adj: seq<seq<(int, int)>>, visited: seq<int>, order: seq<int>, dist: seq<int>, dist': seq<int>, y: int)
    requires Closed(adj, visited, order, dist) && visited <= order
    requires forall x :: x in order ==> At(dist', x) == At(dist, x)
    ensures Closed(adj, visited, order + [y], dist')
  {
    PrefixIn(visited, order);
  }

  // ---------------------------------------------------------------------
  // `bfs` as written
  // ---------------------------------------------------------------------

  /**
   * One pass of the neighbour loop of `bfs`: a neighbour without a
   * distance gets `current`'s distance plus one, `current` as parent,
   * and a place at the back of the queue; one with a distance is left
   * alone. Either way it is then enqueued at most one step beyond
   * `current`, and nothing enqueued before changes distance.
   */
  method Relax(graph: AdjacencyList, start: int, visited: seq<int>, cur: int, queue: seq<int>,
               dist: seq<int>, parents: seq<int>, neighbor: int)
    returns (queue': seq<int>, dist': seq<int>, parents': seq<int>)
    requires graph.Valid() && Step(graph.adjList, cur, neighbor)
    requires Scanning(graph.adjList, start, visited, cur, queue, dist, parents)
    ensures Scanning(graph.adjList, start, visited, cur, queue', dist', parents')
    ensures Reached(visited + [cur] + queue', dist', cur, neighbor)
    ensures forall x :: x in visited + [cur] + queue ==> x in visited + [cur] + queue' && At(dist', x) == At(dist, x)
  {
    var order := visited + [cur] + queue;
    queue', dist', parents' := queue, dist, parents;
    if dist[neighbor] == -1 {
      LabelledGrow(graph.adjList, start, order, dist, parents, cur, neighbor);
      LayeredGrow(order, |visited|, dist, neighbor);
      ClosedGrow(graph.adjList, visited, order, dist, dist[neighbor := dist[cur] + 1], neighbor);
      assert order + [neighbor] == visited + [cur] + (queue + [neighbor]);
      dist' := dist[neighbor := dist[cur] + 1];
      parents' := parents[neighbor := cur];
      queue' := queue + [neighbor];
    } else {
      EnqueuedBound(order, |visited|, dist, neighbor);
    }
  }

  /**
   * The `for neighbor, _ in graph.get_neighbors(current)` loop: each
   * neighbour without a distance gets `current`'s distance plus one,
   * `current` as parent, and a place at the back of the queue. `current`
   * has just been moved from the front of the queue to the end of
   * `visited`.
   */
  method Scan(graph: AdjacencyList, start: int, visited: seq<int>, cur: int, queue: seq<int>,
              dist: seq<int>, parents: seq<int>)
    returns (queue': seq<int>, dist': seq<int>, parents': seq<int>)
    requires graph.Valid() && Scanning(graph.adjList, start, visited, cur, queue, dist, parents)
    ensures Frontier(graph.adjList, start, visited + [cur], queue', dist', parents')
  {
    var neighbors := graph.GetNeighbors(cur);
    queue', dist', parents' := queue, dist, parents;
    for k := 0 to |neighbors|
      invariant Scanning(graph.adjList, start, visited, cur, queue', dist', parents')
      invariant forall j :: 0 <= j < k ==> Reached(visited + [cur] + queue', dist', cur, neighbors[j].0)
    {
      ghost var before := visited + [cur] + queue';
      assert Step(graph.adjList, cur, neighbors[k].0) by {
        assert Lists(neighbors, neighbors[k].0);
      }
      queue', dist', parents' := Relax(graph, start, visited, cur, queue', dist', parents', neighbors[k].0);
      assert forall j :: 0 <= j < k ==> neighbors[j].0 in before;
    }
    ScanDone(graph.adjList, start, visited, cur, queue', dist', parents');
  }

  /** After the neighbour loop every neighbour of `current` is enqueued, so `current` is closed too. */
  lemma ScanDone(adj: seq<seq<(int, int)>>, start: int, visited: seq<int>, cur: int, queue: seq<int>,
                 dist: seq<int>, parents: seq<int>)
    requires Scanning(adj, start, visited, cur, queue, dist, parents) && 0 <= cur < |adj|
    requires forall j :: 0 <= j < |adj[cur]| ==> Reached(visited + [cur] + queue, dist, cur, adj[cur][j].0)
    ensures Frontier(adj, start, visited + [cur], queue, dist, parents)
  {
    var w := visited + [cur];
    assert w + queue == visited + [cur] + queue;
    forall i, y | 0 <= i < |w| && Step(adj, w[i], y) ensures y in w + queue && At(dist, y) <= At(dist, w[i]) + 1 {
      if i == |visited| {
        var j :| 0 <= j < |adj[cur]| && adj[cur][j].0 == y;
        assert Reached(visited + [cur] + queue, dist, cur, adj[cur][j].0);
      }
    }
  }

  /** One round of the `while queue` loop: `current = queue.popleft()`, `visited.append(current)`, then the scan. */
  method Round(graph: AdjacencyList, start: int, visited: seq<int>, queue: seq<int>, dist: seq<int>, parents: seq<int>)
    returns (visited': seq<int>, queue': seq<int>, dist': seq<int>, parents': seq<int>)
    requires graph.Valid() && queue != []
    requires Frontier(graph.adjList, start, visited, queue, dist, parents)
    ensures Frontier(graph.adjList, start, visited', queue', dist', parents')
    ensures |visited| < |visited'| <= |graph.adjList|
  {
    var current := queue[0];
    assert visited + [current] + queue[1..] == visited + queue;
    visited' := visited + [current];
    assert (visited + [current] + queue[1..])[|visited|] == current;
    queue', dist', parents' := Scan(graph, start, visited, current, queue[1..], dist, parents);
    DistinctBound(visited' + queue', |graph.adjList|);
  }

  /** The loop has ended: everything reached is dequeued, and the invariant says what `bfs` promises. */
  lemma Finished(adj: seq<seq<(int, int)>>, start: int, visited: seq<int>, dist: seq<int>, parents: seq<int>)
    requires InBounds(adj) && Frontier(adj, start, visited, [], dist, parents)
    ensures Searched(adj, start, Search(visited, dist, parents))
  {
    assert visited + [] == visited;
    forall x, y | x in visited && Step(adj, x, y) ensures y in visited {
      var i :| 0 <= i < |visited| && visited[i] == x;
    }
    forall x | x in visited ensures Reachable(adj, start, x) {
      var i :| 0 <= i < |visited| && visited[i] == x;
      assert Dist(adj, start, x, At(dist, x));
    }
    forall x | Reachable(adj, start, x) ensures x in visited {
      var p :| IsPath(adj, p) && p[0] == start && p[|p| - 1] == x;
      PathStaysIn(adj, p, visited);
    }
    assert Dist(adj, start, start, At(dist, start));
    forall v | v in visited ensures Shortest(adj, start, v, At(dist, v)) {
      var i :| 0 <= i < |visited| && visited[i] == v;
      assert Dist(adj, start, v, At(dist, v));
      forall p | IsPath(adj, p) && p[0] == start && p[|p| - 1] == v ensures At(dist, v) + 1 <= |p| {
        WalkBound(adj, start, p, visited, dist);
      }
    }
  }

  /** Along any walk from the start, the closed distances grow by at most one per edge. */
  lemma {:induction false} WalkBound(adj: seq<seq<(int, int)>>, start: int, p: seq<int>, visited: seq<int>, dist: seq<int>)
    requires IsPath(adj, p) && p[0] == start && start in visited && At(dist, start) <= 0
    requires Closed(adj, visited, visited, dist)
    ensures p[|p| - 1] in visited && At(dist, p[|p| - 1]) <= |p| - 1
    decreases |p|
  {
    if |p| > 1 {
      var q := p[..|p| - 1];
      assert IsPath(adj, q);
      WalkBound(adj, start, q, visited, dist);
      var u := p[|p| - 2];
      assert Step(adj, u, p[|p| - 1]);
      var i :| 0 <= i < |visited| && visited[i] == u;
    }
  }

  /**
   * `bfs`: lists of -1 of the vertex count, the start's distance set to
   * 0 with Python's indexing (so an index past either end raises
   * `IndexError`), then the queue loop. A negative start names a list
   * slot but no vertex: it is dequeued with no neighbours.
   */
  method Bfs(graph: AdjacencyList, start: int) returns (r: Result<Search>)
    requires graph.Valid()
    ensures !(-|graph.adjList| <= start < |graph.adjList|) ==> r == Err(IndexError)
    ensures -|graph.adjList| <= start < 0 ==>
              var n := |graph.adjList|;
              r == Ok(Search([start], seq(n, _ => -1)[n + start := 0], seq(n, _ => -1)))
    ensures 0 <= start < |graph.adjList| ==> r.Ok? && Searched(graph.adjList, start, r.value)
  {
    var n := |graph.adjList|;
    if !(-n <= start < n) {
      return Err(IndexError);
    }
    var distances := seq(n, _ => -1);
    var parents := seq(n, _ => -1);
    distances := distances[Slot(n, start) := 0];
    if start < 0 {
      return Ok(Search([start], distances, parents));
    }
    var visited := [];
    var queue := [start];
    assert visited + queue == [start];
    while queue != []
      invariant Frontier(graph.adjList, start, visited, queue, distances, parents)
      invariant |visited| <= n
      decreases n - |visited|
    {
      visited, queue, distances, parents := Round(graph, start, visited, queue, distances, parents);
    }
    Finished(graph.adjList, start, visited, distances, parents);
    return Ok(Search(visited, distances, parents));
  }

  // ---------------------------------------------------------------------
  // `bfs_shortest_path`
  // ---------------------------------------------------------------------

  /**
   * Parents lead back towards the root: a vertex with a distance has
   * either no parent or a parent with a smaller distance.
   */
  ghost predicate Rooted(s: Search)
  {
    |s.distances| == |s.parents| &&
    forall v :: 0 <= v < |s.parents| && s.distances[v] >= 0 ==>
      s.parents[v] == -1 || (0 <= s.parents[v] < |s.parents| && 0 <= s.distances[s.parents[v]] < s.distances[v])
  }

  /** `current` is -1, or a Python index into the lists naming a vertex with a distance. */
  ghost predicate Chainable(s: Search, current: int)
  {
    |s.distances| == |s.parents| &&
    (current == -1 || (-|s.parents| <= current < |s.parents| && s.distances[Slot(|s.parents|, current)] >= 0))
  }

  /** How far `current` is from the end of the walk back. */
  ghost function Height(s: Search, current: int): nat
    requires Chainable(s, current)
  {
    if current == -1 then 0
    else if current >= 0 then s.distances[current] + 1
    else s.distances[|s.parents| + current] + 2
  }

  /** What the `while current != -1` loop appends: `current`, its parent, its parent's parent, and so on. */
  ghost function Chain(s: Search, current: int): (r: seq<int>)
    requires Rooted(s) && Chainable(s, current)
    ensures current == -1 <==> r == []
    decreases Height(s, current)
  {
    if current == -1 then []
    else [current] + Chain(s, s.parents[Slot(|s.parents|, current)])
  }

  /** `list.reverse()`: the same elements back to front. */
  function Reverse(s: seq<int>): (r: seq<int>)
    ensures |r| == |s| && forall i :: 0 <= i < |s| ==> r[i] == s[|s| - 1 - i]
  {
    if s == [] then [] else Reverse(s[1..]) + [s[0]]
  }

  /** Reversing a list with one more element at the front puts it at the back. */
  lemma ReverseFront(x: int, t: seq<int>)
    ensures Reverse([x] + t) == Reverse(t) + [x]
  {
    var a, b := Reverse([x] + t), Reverse(t) + [x];
    assert |a| == |b|;
    forall i | 0 <= i < |a| ensures a[i] == b[i] {
      if i < |t| {
        assert ([x] + t)[|t| - i] == t[|t| - 1 - i];
      }
    }
  }

  /** `bfs` from an in-range start leaves parents that lead back to the start. */
  lemma SearchedRooted(adj: seq<seq<(int, int)>>, start: int, s: Search)
    requires Searched(adj, start, s)
    ensures Rooted(s)
  {
    forall v | 0 <= v < |s.parents| && s.distances[v] >= 0
      ensures s.parents[v] == -1 || (0 <= s.parents[v] < |s.parents| && 0 <= s.distances[s.parents[v]] < s.distances[v])
    {
      if v != start {
        ParentOf(adj, start, s, v);
      }
    }
  }

  /** A reached vertex other than the start: its parent is reached, one edge and one step back. */
  lemma ParentOf(adj: seq<seq<(int, int)>>, start: int, s: Search, v: int)
    requires Searched(adj, start, s) && 0 <= v < |adj| && v != start && s.distances[v] != -1
    ensures var p := s.parents[v];
            0 <= p < |adj| && p in s.visited && Step(adj, p, v) && s.distances[v] == s.distances[p] + 1 &&
            s.distances[p] >= 0
  {
    var i :| 0 <= i < |s.visited| && s.visited[i] == v;
    assert Parent(adj, s.visited, i, s.distances, s.parents);
    var p := s.parents[v];
    assert p in s.visited by {
      PrefixIn(s.visited[..i], s.visited);
    }
    var j :| 0 <= j < |s.visited| && s.visited[j] == p;
    ReachedDistance(adj, start, s, p);
  }

  /** A reached vertex has a distance of at least 0. */
  lemma ReachedDistance(adj: seq<seq<(int, int)>>, start: int, s: Search, v: int)
    requires Searched(adj, start, s) && v in s.visited
    ensures 0 <= v < |adj| && s.distances[v] >= 0
  {
    var i :| 0 <= i < |s.visited| && s.visited[i] == v;
    assert Shortest(adj, start, v, At(s.distances, v));
    var p :| IsPath(adj, p) && p[0] == start && p[|p| - 1] == v && |p| == At(s.distances, v) + 1;
  }

  /** Walking back from a reached vertex and reversing gives a walk from the start of its distance. */
  lemma {:induction false} ChainWalk(adj: seq<seq<(int, int)>>, start: int, s: Search, v: int)
    requires Searched(adj, start, s) && 0 <= v < |adj| && s.distances[v] != -1
    ensures Rooted(s) && Chainable(s, v)
    ensures var w := Reverse(Chain(s, v));
            IsPath(adj, w) && w[0] == start && w[|w| - 1] == v && |w| == s.distances[v] + 1
    decreases s.distances[v] + 1
  {
    SearchedRooted(adj, start, s);
    ReachedDistance(adj, start, s, v);
    var p := s.parents[v];
    ReverseFront(v, Chain(s, p));
    if v == start {
      assert Chain(s, v) == [v];
    } else {
      ParentOf(adj, start, s, v);
      ChainWalk(adj, start, s, p);
      PathExtend(adj, Reverse(Chain(s, p)), v);
    }
  }

  /**
   * What `bfs_shortest_path` returns from an in-range start for an `end`
   * inside the lists, `v` being the vertex `end` names: distance -1 and
   * no path exactly when `v` is unreachable; otherwise the shortest
   * distance and, unless `end` is -1 (which stops the walk back before
   * it starts), a shortest walk to `v` whose last entry is `end` itself.
   */
  ghost predicate Answered(adj: seq<seq<(int, int)>>, start: int, end: int, path: seq<int>, d: int)
  {
    var v := Slot(|adj|, end);
    (d == -1 <==> !Reachable(adj, start, v)) &&
    (d == -1 ==> path == []) &&
    (d != -1 ==> Shortest(adj, start, v, d) &&
                 (end == -1 ==> path == []) &&
                 (end != -1 ==> |path| == d + 1 && path[|path| - 1] == end &&
                                var w := path[..|path| - 1] + [v];
                                IsPath(adj, w) && w[0] == start && w[|w| - 1] == v))
  }

  /**
   * `bfs_shortest_path`: the trivial answer when `start == end`;
   * otherwise `bfs`, the distance of `end` (with Python's indexing),
   * and the walk back along the parents, reversed.
   */
  method ShortestPath(graph: AdjacencyList, start: int, end: int) returns (r: Result<(seq<int>, int)>)
    requires graph.Valid()
    ensures start == end ==> r == Ok(([start], 0))
    ensures start != end && !(-|graph.adjList| <= start < |graph.adjList|) ==> r == Err(IndexError)
    ensures start != end && -|graph.adjList| <= start < |graph.adjList| && !(-|graph.adjList| <= end < |graph.adjList|) ==>
              r == Err(IndexError)
    ensures start != end && -|graph.adjList| <= start < 0 && -|graph.adjList| <= end < |graph.adjList| ==>
              r == Ok(if end == |graph.adjList| + start then ([end], 0) else ([], -1))
    ensures start != end && 0 <= start < |graph.adjList| && -|graph.adjList| <= end < |graph.adjList| ==>
              r.Ok? && Answered(graph.adjList, start, end, r.value.0, r.value.1)
  {
    if start == end {
      return Ok(([start], 0));
    }
    var b := Bfs(graph, start);
    if b.Err? {
      return Err(b.error);
    }
    var s := b.value;
    var n := |graph.adjList|;
    if !(-n <= end < n) {
      return Err(IndexError);
    }
    var d := s.distances[Slot(n, end)];
    if d == -1 {
      if 0 <= start {
        assert Slot(n, end) !in s.visited;
      }
      return Ok(([], -1));
    }
    if start < 0 {
      assert Rooted(s);
    } else {
      SearchedRooted(graph.adjList, start, s);
    }
    var path := ReadBack(s, end);
    if 0 <= start {
      ShortestAnswer(graph.adjList, start, s, end);
    } else {
      assert Slot(n, end) == n + start && end == n + start && d == 0;
      assert Chain(s, end) == [end];
      assert path == [end];
    }
    return Ok((path, d));
  }

  /**
   * The `while current != -1` loop of `bfs_shortest_path`, then
   * `path.reverse()`: the chain of parents from `end`, back to front.
   */
  method ReadBack(s: Search, end: int) returns (path: seq<int>)
    requires Rooted(s) && Chainable(s, end)
    ensures path == Reverse(Chain(s, end))
  {
    var n := |s.parents|;
    path := [];
    var current := end;
    while current != -1
      invariant Chainable(s, current) && path + Chain(s, current) == Chain(s, end)
      decreases Height(s, current)
    {
      path := path + [current];
      current := s.parents[Slot(n, current)];
    }
    assert path == Chain(s, end);
    path := Reverse(path);
  }

  /** The answer read back from a search from an in-range start is the one promised. */
  lemma ShortestAnswer(adj: seq<seq<(int, int)>>, start: int, s: Search, end: int)
    requires Searched(adj, start, s) && -|adj| <= end < |adj| && s.distances[Slot(|adj|, end)] != -1
    ensures Rooted(s) && Chainable(s, end)
    ensures Answered(adj, start, end, Reverse(Chain(s, end)), s.distances[Slot(|adj|, end)])
  {
    var v := Slot(|adj|, end);
    ChainWalk(adj, start, s, v);
    assert v in s.visited;
    assert Shortest(adj, start, v, At(s.distances, v));
    if end < -1 {
      var p := s.parents[v];
      assert Chain(s, end) == [end] + Chain(s, p);
      assert Chain(s, v) == [v] + Chain(s, p);
      ReverseFront(end, Chain(s, p));
      ReverseFront(v, Chain(s, p));
      var path := Reverse(Chain(s, end));
      assert path[..|path| - 1] == Reverse(Chain(s, p));
    }
  }
}
