// Lab10 `graph_traversal.py`: breadth-first search with distances and
// parents, the shortest path read back from the parents, and depth-first
// search recursive, iterative and with discovery/finish timestamps, all
// over an `AdjacencyList`.

module GraphTraversal {
  import opened Wrappers
  import opened GraphRepresentation

  // ---------------------------------------------------------------------
  // Paths and reachability
  // ---------------------------------------------------------------------

  /** An edge u -> v: `u` is a vertex whose list names `v`. */
  ghost predicate Step(adj: seq<seq<(int, int)>>, u: int, v: int)
  {
    0 <= u < |adj| && Lists(adj[u], v)
  }

  /** A non-empty walk along edges. */
  ghost predicate IsPath(adj: seq<seq<(int, int)>>, p: seq<int>)
  {
    |p| >= 1 && forall i, j :: 0 <= i && j == i + 1 && j < |p| ==> Step(adj, p[i], p[j])
  }

  /** Some walk leads from `s` to `v`. */
  ghost predicate Reachable(adj: seq<seq<(int, int)>>, s: int, v: int)
  {
    exists p :: IsPath(adj, p) && p[0] == s && p[|p| - 1] == v
  }

  /** Every vertex reaches itself. */
  lemma ReachSelf(adj: seq<seq<(int, int)>>, s: int)
    ensures Reachable(adj, s, s)
  {
    assert IsPath(adj, [s]);
  }

  /** One more edge extends a walk. */
  lemma ReachStep(adj: seq<seq<(int, int)>>, s: int, u: int, v: int)
    requires Reachable(adj, s, u) && Step(adj, u, v)
    ensures Reachable(adj, s, v)
  {
    var p :| IsPath(adj, p) && p[0] == s && p[|p| - 1] == u;
    var q := p + [v];
    assert forall i :: 0 <= i < |p| ==> q[i] == p[i];
    assert IsPath(adj, q);
  }

  /** A walk from a vertex of a set closed under edges stays in it. */
  lemma {:induction false} PathStaysIn(adj: seq<seq<(int, int)>>, p: seq<int>, r: seq<int>)
    requires IsPath(adj, p) && p[0] in r
    requires forall x, y :: x in r && Step(adj, x, y) ==> y in r
    ensures p[|p| - 1] in r
    decreases |p|
  {
    if |p| > 1 {
      var q := p[..|p| - 1];
      assert IsPath(adj, q);
      PathStaysIn(adj, q, r);
      assert Step(adj, p[|p| - 2], p[|p| - 1]);
    }
  }

  // ---------------------------------------------------------------------
  // Visited lists
  // ---------------------------------------------------------------------

  /** No vertex twice. */
  ghost predicate Distinct(s: seq<int>)
  {
    forall i, j :: 0 <= i < j < |s| ==> s[i] != s[j]
  }

  /** Every element is a vertex. */
  ghost predicate AllIn(s: seq<int>, n: int)
  {
    forall i :: 0 <= i < |s| ==> 0 <= s[i] < n
  }

  /** The elements of a list without repeats, as a set of the same size. */
  lemma {:induction false} DistinctCard(s: seq<int>)
    requires Distinct(s)
    ensures |set x | x in s| == |s|
  {
    if s != [] {
      var init := s[..|s| - 1];
      assert Distinct(init);
      DistinctCard(init);
      assert (set x | x in s) == (set x | x in init) + {s[|s| - 1]};
      assert s[|s| - 1] !in init;
    }
  }

  /** A list of distinct vertices is no longer than the number of vertices. */
  lemma DistinctBound(s: seq<int>, n: nat)
    requires Distinct(s) && AllIn(s, n)
    ensures |s| <= n
  {
    DistinctCard(s);
    var elements := set x | x in s;
    BoundedCard(elements, n);
  }

  /** A set of vertices below `n` has at most `n` members. */
  lemma {:induction false} BoundedCard(a: set<int>, n: nat)
    requires forall x :: x in a ==> 0 <= x < n
    ensures |a| <= n
  {
    if n == 0 {
      assert a == {} by { assert forall x :: x in a <==> x in {}; }
    } else {
      BoundedCard(a - {n - 1}, n - 1);
    }
  }

  /** What a prefix holds, the longer list holds. */
  lemma PrefixIn(a: seq<int>, b: seq<int>)
    requires a <= b
    ensures forall x :: x in a ==> x in b
  {
    forall x | x in a ensures x in b {
      var i :| 0 <= i < |a| && a[i] == x;
      assert b[i] == x;
    }
  }

  /** One more vertex not yet listed keeps the list distinct and in range. */
  lemma Grown(s: seq<int>, v: int, n: nat)
    requires Distinct(s) && AllIn(s, n) && 0 <= v < n && v !in s
    ensures Distinct(s + [v]) && AllIn(s + [v], n) && |s + [v]| <= n
  {
    DistinctBound(s + [v], n);
  }

  /** The neighbours of `v` in the graph's lists: its pairs, or none for a non-vertex. */
  function Pairs(adj: seq<seq<(int, int)>>, v: int): seq<(int, int)>
  {
    if 0 <= v < |adj| then adj[v] else []
  }

  // ---------------------------------------------------------------------
  // Depth-first search as functions
  // ---------------------------------------------------------------------

  /**
   * `dfs_util(v)` as a function of the visited list it starts from:
   * `v` is appended, then each neighbour in list order that is still
   * unvisited is searched in turn.
   */
  ghost function Dfs(adj: seq<seq<(int, int)>>, v: int, visited: seq<int>): (r: seq<int>)
    requires InBounds(adj) && 0 <= v < |adj| && v !in visited
    requires Distinct(visited) && AllIn(visited, |adj|)
    ensures visited <= r && |r| > |visited| && r[|visited|] == v
    ensures Distinct(r) && AllIn(r, |adj|)
    decreases |adj| - |visited|, 0, 0
  {
    Grown(visited, v, |adj|);
    DfsAll(adj, adj[v], visited + [v])
  }

  /** The loop of `dfs_util` over a list of neighbour pairs. */
  ghost function DfsAll(adj: seq<seq<(int, int)>>, edges: seq<(int, int)>, visited: seq<int>): (r: seq<int>)
    requires InBounds(adj) && forall k :: 0 <= k < |edges| ==> 0 <= edges[k].0 < |adj|
    requires Distinct(visited) && AllIn(visited, |adj|)
    ensures visited <= r && Distinct(r) && AllIn(r, |adj|)
    decreases |adj| - |visited|, 1, |edges|
  {
    DistinctBound(visited, |adj|);
    if edges == [] then visited
    else if edges[0].0 in visited then DfsAll(adj, edges[1..], visited)
    else DfsAll(adj, edges[1..], Dfs(adj, edges[0].0, visited))
  }

  /**
   * What `dfs_iterative` pushes for a list of pairs: the neighbours not
   * in `visited`, last pair first.
   */
  function Pushes(edges: seq<(int, int)>, visited: seq<int>): (r: seq<int>)
    ensures forall i :: 0 <= i < |r| ==> r[i] !in visited && exists k :: 0 <= k < |edges| && edges[k].0 == r[i]
  {
    if edges == [] then []
    else Pushes(edges[1..], visited) + (if edges[0].0 !in visited then [edges[0].0] else [])
  }

  /**
   * The loop of `dfs_iterative` from a stack (top last) and a visited
   * list: pop; a visited vertex is dropped; otherwise it is visited and
   * its unvisited neighbours are pushed, last one first.
   */
  ghost function Iter(adj: seq<seq<(int, int)>>, stack: seq<int>, visited: seq<int>): seq<int>
    requires InBounds(adj) && AllIn(stack, |adj|)
    requires Distinct(visited) && AllIn(visited, |adj|)
    decreases |adj| - |visited|, |stack|
  {
    DistinctBound(visited, |adj|);
    if stack == [] then visited
    else
      var v, rest := stack[|stack| - 1], stack[..|stack| - 1];
      if v in visited then Iter(adj, rest, visited)
      else
        Grown(visited, v, |adj|);
        Iter(adj, rest + Pushes(adj[v], visited + [v]), visited + [v])
  }

  /** Popping from a stack whose top is unvisited: the vertex is visited and its pushes go on top. */
  lemma IterPop(adj: seq<seq<(int, int)>>, stack: seq<int>, v: int, visited: seq<int>)
    requires InBounds(adj) && AllIn(stack, |adj|) && 0 <= v < |adj|
    requires Distinct(visited) && AllIn(visited, |adj|)
    ensures AllIn(stack + [v], |adj|)
    ensures v in visited ==> Iter(adj, stack + [v], visited) == Iter(adj, stack, visited)
    ensures v !in visited ==>
              Distinct(visited + [v]) && AllIn(visited + [v], |adj|) &&
              AllIn(stack + Pushes(adj[v], visited + [v]), |adj|) &&
              Iter(adj, stack + [v], visited) == Iter(adj, stack + Pushes(adj[v], visited + [v]), visited + [v])
  {
    assert (stack + [v])[..|stack|] == stack;
    if v !in visited {
      Grown(visited, v, |adj|);
    }
  }

  /**
   * The stack simulates the recursion: pushing `v` and running the loop
   * visits what searching `v` first and then running the loop visits.
   */
  lemma {:induction false} IterVisits(adj: seq<seq<(int, int)>>, stack: seq<int>, v: int, visited: seq<int>)
    requires InBounds(adj) && AllIn(stack, |adj|) && 0 <= v < |adj| && v !in visited
    requires Distinct(visited) && AllIn(visited, |adj|)
    ensures AllIn(stack + [v], |adj|)
    ensures Iter(adj, stack + [v], visited) == Iter(adj, stack, Dfs(adj, v, visited))
    decreases |adj| - |visited|, 0, 0
  {
    IterPop(adj, stack, v, visited);
    Grown(visited, v, |adj|);
    IterVisitsAll(adj, stack, adj[v], visited + [v], visited + [v]);
  }

  /**
   * Pushing the unvisited neighbours of a pair list, last first, and
   * running the loop visits what the loop of `dfs_util` over that list
   * does before the rest of the stack is taken up.
   */
  lemma {:induction false} IterVisitsAll(adj: seq<seq<(int, int)>>, stack: seq<int>, edges: seq<(int, int)>,
                                        seen: seq<int>, visited: seq<int>)
    requires InBounds(adj) && AllIn(stack, |adj|) && forall k :: 0 <= k < |edges| ==> 0 <= edges[k].0 < |adj|
    requires Distinct(visited) && AllIn(visited, |adj|) && seen <= visited
    ensures AllIn(stack + Pushes(edges, seen), |adj|)
    ensures Iter(adj, stack + Pushes(edges, seen), visited) == Iter(adj, stack, DfsAll(adj, edges, visited))
    decreases |adj| - |visited|, 1, |edges|
  {
    DistinctBound(visited, |adj|);
    PushesIn(adj, stack, edges, seen);
    if edges != [] {
      var e, rest := edges[0], edges[1..];
      var below := stack + Pushes(rest, seen);
      PushesIn(adj, stack, rest, seen);
      PrefixIn(seen, visited);
      if e.0 in seen {
        assert Pushes(edges, seen) == Pushes(rest, seen);
        assert DfsAll(adj, edges, visited) == DfsAll(adj, rest, visited);
        IterVisitsAll(adj, stack, rest, seen, visited);
      } else if e.0 in visited {
        assert stack + Pushes(edges, seen) == below + [e.0];
        IterPop(adj, below, e.0, visited);
        assert DfsAll(adj, edges, visited) == DfsAll(adj, rest, visited);
        IterVisitsAll(adj, stack, rest, seen, visited);
      } else {
        assert stack + Pushes(edges, seen) == below + [e.0];
        IterVisits(adj, below, e.0, visited);
        var mid := Dfs(adj, e.0, visited);
        assert DfsAll(adj, edges, visited) == DfsAll(adj, rest, mid);
        IterVisitsAll(adj, stack, rest, seen, mid);
      }
    } else {
      assert stack + Pushes(edges, seen) == stack;
    }
  }

  /** What is pushed are vertices. */
  lemma PushesIn(adj: seq<seq<(int, int)>>, stack: seq<int>, edges: seq<(int, int)>, seen: seq<int>)
    requires AllIn(stack, |adj|) && forall k :: 0 <= k < |edges| ==> 0 <= edges[k].0 < |adj|
    ensures AllIn(stack + Pushes(edges, seen), |adj|)
  {
    var p := Pushes(edges, seen);
    forall i | 0 <= i < |p| ensures 0 <= p[i] < |adj| {
      var k :| 0 <= k < |edges| && edges[k].0 == p[i];
    }
  }

  /** The iterative loop from `[start]` visits what the recursion from `start` visits. */
  lemma IterIsDfs(adj: seq<seq<(int, int)>>, start: int)
    requires InBounds(adj) && 0 <= start < |adj|
    ensures Iter(adj, [start], []) == Dfs(adj, start, [])
  {
    IterVisits(adj, [], start, []);
    assert [] + [start] == [start];
  }

  // ---------------------------------------------------------------------
  // What depth-first search visits
  // ---------------------------------------------------------------------

  /**
   * From index `from` on, every vertex of `r` is reachable from `root`
   * and has all its neighbours in `r`.
   */
  ghost predicate Covered(adj: seq<seq<(int, int)>>, root: int, r: seq<int>, from: int)
  {
    forall i :: 0 <= from <= i < |r| ==> Reachable(adj, root, r[i]) && forall y :: Step(adj, r[i], y) ==> y in r
  }

  /**
   * Everything newly visited by `Dfs` from `v` is reachable from `root`
   * when `v` is; and every newly visited vertex has all its neighbours
   * visited by the end.
   */
  lemma {:induction false} DfsCovers(adj: seq<seq<(int, int)>>, root: int, v: int, visited: seq<int>)
    requires InBounds(adj) && 0 <= v < |adj| && v !in visited
    requires Distinct(visited) && AllIn(visited, |adj|) && Reachable(adj, root, v)
    ensures var r := Dfs(adj, v, visited);
            Covered(adj, root, r, |visited|)
    decreases |adj| - |visited|, 0, 0
  {
    Grown(visited, v, |adj|);
    var w := visited + [v];
    var r := Dfs(adj, v, visited);
    forall k | 0 <= k < |adj[v]| ensures Reachable(adj, root, adj[v][k].0) {
      ReachStep(adj, root, v, adj[v][k].0);
    }
    DfsAllCovers(adj, root, adj[v], w);
    forall y | Step(adj, v, y) ensures y in r {
      var k :| 0 <= k < |adj[v]| && adj[v][k].0 == y;
    }
  }

  /** The same for the loop over a pair list: its neighbours end up visited too. */
  lemma {:induction false} DfsAllCovers(adj: seq<seq<(int, int)>>, root: int, edges: seq<(int, int)>, visited: seq<int>)
    requires InBounds(adj) && forall k :: 0 <= k < |edges| ==> 0 <= edges[k].0 < |adj|
    requires Distinct(visited) && AllIn(visited, |adj|)
    requires forall k :: 0 <= k < |edges| ==> Reachable(adj, root, edges[k].0)
    ensures var r := DfsAll(adj, edges, visited);
            (forall k :: 0 <= k < |edges| ==> edges[k].0 in r) &&
            Covered(adj, root, r, |visited|)
    decreases |adj| - |visited|, 1, |edges|
  {
    DistinctBound(visited, |adj|);
    if edges != [] {
      var e, rest := edges[0], edges[1..];
      var r := DfsAll(adj, edges, visited);
      assert forall k :: 0 <= k < |rest| ==> rest[k] == edges[k + 1];
      if e.0 in visited {
        assert r == DfsAll(adj, rest, visited);
        DfsAllCovers(adj, root, rest, visited);
        PrefixIn(visited, r);
      } else {
        var mid := Dfs(adj, e.0, visited);
        assert r == DfsAll(adj, rest, mid);
        DfsCovers(adj, root, e.0, visited);
        DfsAllCovers(adj, root, rest, mid);
        CoversGrow(adj, root, mid, r, |visited|);
        assert e.0 == mid[|visited|] == r[|visited|];
      }
    }
  }

  /** What a prefix covers, the longer list covers too. */
  lemma CoversGrow(adj: seq<seq<(int, int)>>, root: int, mid: seq<int>, r: seq<int>, from: nat)
    requires mid <= r && from <= |mid| && Covered(adj, root, mid, from) && Covered(adj, root, r, |mid|)
    ensures Covered(adj, root, r, from)
  {
    PrefixIn(mid, r);
    forall i | from <= i < |mid| ensures Reachable(adj, root, r[i]) && forall y :: Step(adj, r[i], y) ==> y in r {
      assert r[i] == mid[i];
    }
  }

  /** The recursion from `start` visits exactly the vertices reachable from it, each once. */
  lemma DfsReaches(adj: seq<seq<(int, int)>>, start: int)
    requires InBounds(adj) && 0 <= start < |adj|
    ensures var r := Dfs(adj, start, []);
            Distinct(r) && r[0] == start && forall x :: x in r <==> Reachable(adj, start, x)
  {
    var r := Dfs(adj, start, []);
    ReachSelf(adj, start);
    DfsCovers(adj, start, start, []);
    forall x, y | x in r && Step(adj, x, y) ensures y in r {
      var i :| 0 <= i < |r| && r[i] == x;
    }
    forall x | Reachable(adj, start, x) ensures x in r {
      var p :| IsPath(adj, p) && p[0] == start && p[|p| - 1] == x;
      PathStaysIn(adj, p, r);
    }
  }

  // ---------------------------------------------------------------------
  // Depth-first search as written
  // ---------------------------------------------------------------------

  /** `dfs_util` of `dfs_recursive`: the shared visited list is passed in and handed back. */
  method DfsUtil(graph: AdjacencyList, vertex: int, visited: seq<int>) returns (r: seq<int>)
    requires graph.Valid() && 0 <= vertex < |graph.adjList| && vertex !in visited
    requires Distinct(visited) && AllIn(visited, |graph.adjList|)
    ensures r == Dfs(graph.adjList, vertex, visited)
    decreases |graph.adjList| - |visited|
  {
    var adj := graph.adjList;
    Grown(visited, vertex, |adj|);
    r := visited + [vertex];
    var neighbors := graph.GetNeighbors(vertex);
    for k := 0 to |neighbors|
      invariant visited + [vertex] <= r && Distinct(r) && AllIn(r, |adj|)
      invariant DfsAll(adj, neighbors[k..], r) == Dfs(adj, vertex, visited)
    {
      assert neighbors[k..][1..] == neighbors[k + 1..];
      if neighbors[k].0 !in r {
        DistinctBound(r, |adj|);
        r := DfsUtil(graph, neighbors[k].0, r);
      }
    }
  }

  /**
   * `dfs_recursive`: a vertex without a list is visited alone; otherwise
   * the recursion visits exactly the vertices reachable from `start`,
   * each once, `start` first.
   */
  method DfsRecursive(graph: AdjacencyList, start: int) returns (visited: seq<int>)
    requires graph.Valid()
    ensures !(0 <= start < |graph.adjList|) ==> visited == [start]
    ensures 0 <= start < |graph.adjList| ==>
              visited == Dfs(graph.adjList, start, []) && Distinct(visited) && visited[0] == start &&
              forall x :: x in visited <==> Reachable(graph.adjList, start, x)
  {
    if !(0 <= start < graph.vertices) {
      return [start];
    }
    visited := DfsUtil(graph, start, []);
    DfsReaches(graph.adjList, start);
  }

  /** The inner loop of `dfs_iterative`: the unvisited neighbours pushed, last pair first. */
  method PushUnvisited(stack: seq<int>, neighbors: seq<(int, int)>, visited: seq<int>) returns (r: seq<int>)
    ensures r == stack + Pushes(neighbors, visited)
  {
    r := stack;
    var k := |neighbors|;
    while k > 0
      invariant 0 <= k <= |neighbors|
      invariant r == stack + Pushes(neighbors[k..], visited)
    {
      k := k - 1;
      assert neighbors[k..][1..] == neighbors[k + 1..];
      if neighbors[k].0 !in visited {
        r := r + [neighbors[k].0];
      }
    }
    assert neighbors[0..] == neighbors;
  }

  /**
   * One round of the loop of `dfs_iterative`: pop a vertex; if it is new,
   * visit it and push its unvisited neighbours. What the loop goes on to
   * visit is unchanged, and the round makes progress.
   */
  method PopVisit(graph: AdjacencyList, stack: seq<int>, visited: seq<int>) returns (stack': seq<int>, visited': seq<int>)
    requires graph.Valid() && stack != [] && AllIn(stack, |graph.adjList|)
    requires Distinct(visited) && AllIn(visited, |graph.adjList|)
    ensures AllIn(stack', |graph.adjList|) && Distinct(visited') && AllIn(visited', |graph.adjList|)
    ensures Iter(graph.adjList, stack', visited') == Iter(graph.adjList, stack, visited)
    ensures |visited| < |visited'| <= |graph.adjList| || (visited' == visited && |stack'| < |stack|)
  {
    var adj := graph.adjList;
    var vertex := stack[|stack| - 1];
    stack' := stack[..|stack| - 1];
    IterPop(adj, stack', vertex, visited);
    assert stack' + [vertex] == stack;
    visited' := visited;
    if vertex !in visited {
      Grown(visited, vertex, |adj|);
      visited' := visited + [vertex];
      stack' := PushUnvisited(stack', graph.GetNeighbors(vertex), visited');
    }
  }

  /**
   * `dfs_iterative`: the explicit stack, neighbours pushed in reverse so
   * that the first is popped first. It visits the same vertices in the
   * same order as `dfs_recursive`.
   */
  method DfsIterative(graph: AdjacencyList, start: int) returns (visited: seq<int>)
    requires graph.Valid()
    ensures !(0 <= start < |graph.adjList|) ==> visited == [start]
    ensures 0 <= start < |graph.adjList| ==> visited == Dfs(graph.adjList, start, [])
  {
    if !(0 <= start < graph.vertices) {
      return [start];
    }
    var adj := graph.adjList;
    visited := [];
    var stack := [start];
    IterIsDfs(adj, start);
    while stack != []
      invariant AllIn(stack, |adj|) && Distinct(visited) && AllIn(visited, |adj|)
      invariant Iter(adj, stack, visited) == Dfs(adj, start, [])
      decreases |adj| - |visited|, |stack|
    {
      stack, visited := PopVisit(graph, stack, visited);
    }
  }

  // ---------------------------------------------------------------------
  // Depth-first search with discovery and finish times
  // ---------------------------------------------------------------------

  /**
   * The timestamps of a block of vertices, in visiting order, lie in
   * `[lo, hi)`; each vertex is discovered before it finishes; discovery
   * times rise along the block; and two intervals are nested (the later
   * one inside) or disjoint.
   */
  ghost predicate Stamped(block: seq<int>, disc: seq<int>, fin: seq<int>, lo: int, hi: int)
  {
    |disc| == |fin| && AllIn(block, |disc|) &&
    (forall i :: 0 <= i < |block| ==> lo <= disc[block[i]] < fin[block[i]] < hi) &&
    (forall i, j :: 0 <= i < j < |block| ==>
       disc[block[i]] < disc[block[j]] && (fin[block[j]] < fin[block[i]] || fin[block[i]] < disc[block[j]]))
  }

  /** Two blocks stamped one after the other are stamped together. */
  lemma StampsJoin(b1: seq<int>, b2: seq<int>, disc: seq<int>, fin: seq<int>, lo: int, mid: int, hi: int)
    requires Stamped(b1, disc, fin, lo, mid) && Stamped(b2, disc, fin, mid, hi) && lo <= mid <= hi
    ensures Stamped(b1 + b2, disc, fin, lo, hi)
  {
    var b := b1 + b2;
    forall i | 0 <= i < |b| ensures lo <= disc[b[i]] < fin[b[i]] < hi {
      if i >= |b1| {
        assert b[i] == b2[i - |b1|];
      } else {
        assert b[i] == b1[i];
      }
    }
    forall i, j | 0 <= i < j < |b|
      ensures disc[b[i]] < disc[b[j]] && (fin[b[j]] < fin[b[i]] || fin[b[i]] < disc[b[j]])
    {
      if j < |b1| {
        assert b[i] == b1[i] && b[j] == b1[j];
      } else if i >= |b1| {
        assert b[i] == b2[i - |b1|] && b[j] == b2[j - |b1|];
      } else {
        assert b[i] == b1[i] && b[j] == b2[j - |b1|];
      }
    }
  }

  /** A block stamped later, after changes outside an earlier block, joins it. */
  lemma StampsAppend(b1: seq<int>, b2: seq<int>, disc: seq<int>, fin: seq<int>, disc': seq<int>, fin': seq<int>,
                     lo: int, mid: int, hi: int)
    requires Stamped(b1, disc, fin, lo, mid) && Stamped(b2, disc', fin', mid, hi) && lo <= mid <= hi
    requires |disc'| == |disc| && |fin'| == |fin|
    requires forall i :: 0 <= i < |b1| ==> disc'[b1[i]] == disc[b1[i]] && fin'[b1[i]] == fin[b1[i]]
    ensures Stamped(b1 + b2, disc', fin', lo, hi)
  {
    StampsKept(b1, disc, fin, disc', fin', lo, mid);
    StampsJoin(b1, b2, disc', fin', lo, mid, hi);
  }

  /** A vertex whose interval encloses a stamped block, put in front of it. */
  lemma StampsRoot(v: int, b: seq<int>, disc: seq<int>, fin: seq<int>, lo: int, hi: int)
    requires Stamped(b, disc, fin, lo + 1, hi) && 0 <= v < |disc| && disc[v] == lo && fin[v] == hi && lo < hi
    ensures Stamped([v] + b, disc, fin, lo, hi + 1)
  {
    var c := [v] + b;
    assert forall i :: 0 < i < |c| ==> c[i] == b[i - 1];
    forall i | 0 <= i < |c| ensures lo <= disc[c[i]] < fin[c[i]] < hi + 1 {
      if i > 0 {
        assert lo + 1 <= disc[b[i - 1]] < fin[b[i - 1]] < hi;
      }
    }
    forall i, j | 0 <= i < j < |c|
      ensures disc[c[i]] < disc[c[j]] && (fin[c[j]] < fin[c[i]] || fin[c[i]] < disc[c[j]])
    {
      assert lo + 1 <= disc[b[j - 1]] < fin[b[j - 1]] < hi;
      if i > 0 {
        assert disc[b[i - 1]] < disc[b[j - 1]] && (fin[b[j - 1]] < fin[b[i - 1]] || fin[b[i - 1]] < disc[b[j - 1]]);
      }
    }
  }

  /** Finishing a vertex discovered just before a stamped block, at the block's end time. */
  lemma StampsFinish(v: int, b: seq<int>, disc: seq<int>, fin: seq<int>, lo: int, hi: int)
    requires Stamped(b, disc, fin, lo + 1, hi) && 0 <= v < |disc| && v !in b && disc[v] == lo && lo < hi
    ensures Stamped([v] + b, disc, fin[v := hi], lo, hi + 1)
  {
    StampsKept(b, disc, fin, disc, fin[v := hi], lo + 1, hi);
    StampsRoot(v, b, disc, fin[v := hi], lo, hi);
  }

  /** A block's stamps survive changes to vertices outside it. */
  lemma StampsKept(b: seq<int>, disc: seq<int>, fin: seq<int>, disc': seq<int>, fin': seq<int>, lo: int, hi: int)
    requires Stamped(b, disc, fin, lo, hi) && |disc'| == |disc| && |fin'| == |fin|
    requires forall i :: 0 <= i < |b| ==> disc'[b[i]] == disc[b[i]] && fin'[b[i]] == fin[b[i]]
    ensures Stamped(b, disc', fin', lo, hi)
  {
  }

  /** No two timestamps of a stamped block coincide. */
  lemma StampsDistinct(b: seq<int>, disc: seq<int>, fin: seq<int>, lo: int, hi: int)
    requires Stamped(b, disc, fin, lo, hi)
    ensures forall i, j :: 0 <= i < |b| && 0 <= j < |b| ==> disc[b[i]] != fin[b[j]]
    ensures forall i, j :: 0 <= i < j < |b| ==> disc[b[i]] != disc[b[j]] && fin[b[i]] != fin[b[j]]
  {
    forall i, j | 0 <= i < |b| && 0 <= j < |b| ensures disc[b[i]] != fin[b[j]] {
      if i > j {
        assert fin[b[i]] < fin[b[j]] || fin[b[j]] < disc[b[i]];
      }
    }
  }

  /**
   * A search that started with `visited` has visited `r` and stamped
   * exactly the new vertices, two ticks each from `time` on; nothing
   * else changed.
   */
  ghost predicate Stamping(visited: seq<int>, r: seq<int>, disc: seq<int>, fin: seq<int>,
                           disc': seq<int>, fin': seq<int>, time: int, time': int)
  {
    visited <= r && |disc'| == |disc| && |fin'| == |fin| &&
    time' == time + 2 * (|r| - |visited|) &&
    Stamped(r[|visited|..], disc', fin', time, time') &&
    forall v :: 0 <= v < |disc| && (v in visited || v !in r) ==> disc'[v] == disc[v] && fin'[v] == fin[v]
  }

  /**
   * Half way through `dfs_util(vertex)`: `vertex` is discovered at `time`
   * and the searches of its neighbours so far have stamped the rest of
   * the new vertices from `time + 1` on.
   */
  ghost predicate Progress(visited: seq<int>, vertex: int, r: seq<int>, disc: seq<int>, fin: seq<int>,
                           disc': seq<int>, fin': seq<int>, time: int, time': int)
  {
    visited + [vertex] <= r && Distinct(r) &&
    |disc'| == |disc| && |fin'| == |fin| && 0 <= vertex < |disc| && disc'[vertex] == time &&
    time' == time + 1 + 2 * (|r| - |visited| - 1) &&
    Stamped(r[|visited| + 1..], disc', fin', time + 1, time') &&
    forall v :: 0 <= v < |disc| && (v in visited || v !in r) ==> disc'[v] == disc[v] && fin'[v] == fin[v]
  }

  /**
   * `dfs_util` of `dfs_with_timestamps`: `vertex` gets the current time
   * as discovery time, its unvisited neighbours are searched in order,
   * and it gets the time then reached as finish time, the clock moving
   * one tick after each stamp. It visits what `Dfs` visits, stamps
   * exactly the vertices it visits, two ticks each, `vertex` around all
   * the others.
   */
  method TimedVisit(graph: AdjacencyList, vertex: int, visited: seq<int>, disc: seq<int>, fin: seq<int>, time: int)
    returns (visited': seq<int>, disc': seq<int>, fin': seq<int>, time': int)
    requires graph.Valid() && 0 <= vertex < |graph.adjList| && vertex !in visited
    requires Distinct(visited) && AllIn(visited, |graph.adjList|)
    requires |disc| == |graph.adjList| && |fin| == |graph.adjList|
    ensures visited' == Dfs(graph.adjList, vertex, visited)
    ensures Stamping(visited, visited', disc, fin, disc', fin', time, time')
    ensures disc'[vertex] == time && fin'[vertex] == time' - 1
    decreases |graph.adjList| - |visited|
  {
    var adj := graph.adjList;
    Grown(visited, vertex, |adj|);
    visited' := visited + [vertex];
    disc', fin' := disc[vertex := time], fin;
    time' := time + 1;
    Started(visited, vertex, disc, fin, time);
    var neighbors := graph.GetNeighbors(vertex);
    for k := 0 to |neighbors|
      invariant Progress(visited, vertex, visited', disc, fin, disc', fin', time, time')
      invariant Distinct(visited') && AllIn(visited', |adj|)
      invariant DfsAll(adj, neighbors[k..], visited') == Dfs(adj, vertex, visited)
    {
      assert neighbors[k..][1..] == neighbors[k + 1..];
      var neighbor := neighbors[k].0;
      if neighbor !in visited' {
        DistinctBound(visited', |adj|);
        var r, d, f, t := TimedVisit(graph, neighbor, visited', disc', fin', time');
        Advanced(visited, vertex, visited', r, disc, fin, disc', fin', d, f, time, time', t);
        visited', disc', fin', time' := r, d, f, t;
      }
    }
    Finished(visited, vertex, visited', disc, fin, disc', fin', time, time');
    fin' := fin'[vertex := time'];
    time' := time' + 1;
  }

  /** Right after `vertex` is discovered. */
  lemma Started(visited: seq<int>, vertex: int, disc: seq<int>, fin: seq<int>, time: int)
    requires 0 <= vertex < |disc| && |disc| == |fin| && Distinct(visited + [vertex])
    ensures Progress(visited, vertex, visited + [vertex], disc, fin, disc[vertex := time], fin, time, time + 1)
  {
    var r := visited + [vertex];
    assert r[|visited| + 1..] == [];
    assert r[|visited|..] == [vertex];
  }

  /** After a neighbour's search: its block joins the stamped ones and the outside is as it was. */
  lemma Advanced(visited: seq<int>, vertex: int, r: seq<int>, r': seq<int>, disc: seq<int>, fin: seq<int>,
                 d: seq<int>, f: seq<int>, d': seq<int>, f': seq<int>, time: int, t: int, t': int)
    requires Progress(visited, vertex, r, disc, fin, d, f, time, t)
    requires Stamping(r, r', d, f, d', f', t, t') && Distinct(r') && AllIn(r, |d|)
    ensures Progress(visited, vertex, r', disc, fin, d', f', time, t')
  {
    assert r <= r' && vertex == r[|visited|];
    var b1 := r[|visited| + 1..];
    KeptBlock(r, |visited| + 1, r', d, f, d', f', t, t');
    StampsAppend(b1, r'[|r|..], d, f, d', f', time + 1, t, t');
    assert b1 + r'[|r|..] == r'[|visited| + 1..];
    assert forall v :: 0 <= v < |disc| && (v in visited || v !in r') ==> d'[v] == disc[v] && f'[v] == fin[v] by {
      PrefixIn(visited, r);
      PrefixIn(r, r');
    }
  }

  /** A later search leaves the stamps of vertices visited before it as they were. */
  lemma KeptBlock(r: seq<int>, from: nat, r': seq<int>, d: seq<int>, f: seq<int>, d': seq<int>, f': seq<int>,
                  t: int, t': int)
    requires Stamping(r, r', d, f, d', f', t, t') && from <= |r| && AllIn(r, |d|)
    ensures forall i :: 0 <= i < |r[from..]| ==> d'[r[from..][i]] == d[r[from..][i]] && f'[r[from..][i]] == f[r[from..][i]]
  {
    forall i | 0 <= i < |r[from..]| ensures d'[r[from..][i]] == d[r[from..][i]] && f'[r[from..][i]] == f[r[from..][i]] {
      assert r[from..][i] == r[from + i];
    }
  }

  /** After the neighbour loop: finishing `vertex` at `time'` closes its interval around the block. */
  lemma Finished(visited: seq<int>, vertex: int, r: seq<int>, disc: seq<int>, fin: seq<int>,
                 d: seq<int>, f: seq<int>, time: int, t: int)
    requires Progress(visited, vertex, r, disc, fin, d, f, time, t)
    ensures Stamping(visited, r, disc, fin, d, f[vertex := t], time, t + 1)
    ensures d[vertex] == time && f[vertex := t][vertex] == t
  {
    var b := r[|visited| + 1..];
    assert r[|visited|] == vertex;
    assert vertex !in b && vertex !in visited by {
      forall i | 0 <= i < |b| ensures b[i] != vertex {
        assert b[i] == r[|visited| + 1 + i];
      }
      forall i | 0 <= i < |visited| ensures visited[i] != vertex {
        assert visited[i] == r[i];
      }
    }
    StampsFinish(vertex, b, d, f, time, t);
    assert [vertex] + b == r[|visited|..];
    assert visited <= r by {
      assert r[..|visited|] == (visited + [vertex])[..|visited|] == visited;
    }
    assert forall v :: 0 <= v < |disc| && (v in visited || v !in r) ==> d[v] == disc[v] && f[vertex := t][v] == fin[v];
  }

  /**
   * What `dfs_with_timestamps` promises about its lists of length `n`:
   * the visited vertices are stamped with times in `[0, 2k)`, properly
   * nested, and every other vertex keeps -1 for both times.
   */
  ghost predicate Timed(n: int, visited: seq<int>, disc: seq<int>, fin: seq<int>)
  {
    |disc| == n && |fin| == n &&
    Stamped(visited, disc, fin, 0, 2 * |visited|) &&
    forall v :: 0 <= v < n && v !in visited ==> disc[v] == -1 && fin[v] == -1
  }

  /** A search from fresh lists of -1 and the clock at 0 leaves them timed. */
  lemma FromScratch(n: nat, visited: seq<int>, disc: seq<int>, fin: seq<int>, time: int)
    requires Stamping([], visited, seq(n, _ => -1), seq(n, _ => -1), disc, fin, 0, time)
    ensures Timed(n, visited, disc, fin)
  {
    assert visited[0..] == visited;
  }

  /**
   * `dfs_with_timestamps`: lists of -1 of the vertex count and the clock
   * at 0. An index past either end of the lists raises `IndexError`; a
   * negative start names a list slot but no vertex, so that slot is
   * stamped 0 and 1. From a vertex, the search visits what `dfs_recursive`
   * visits; the visited vertices carry timestamps in `[0, 2k)` for `k`
   * visited, properly nested; every other vertex keeps -1.
   */
  method DfsWithTimestamps(graph: AdjacencyList, start: int) returns (r: Result<(seq<int>, seq<int>, seq<int>)>)
    requires graph.Valid()
    ensures !(-|graph.adjList| <= start < |graph.adjList|) ==> r == Err(IndexError)
    ensures -|graph.adjList| <= start < 0 ==>
              var n := |graph.adjList|;
              r == Ok(([start], seq(n, _ => -1)[n + start := 0], seq(n, _ => -1)[n + start := 1]))
    ensures 0 <= start < |graph.adjList| ==>
              r.Ok? && r.value.0 == Dfs(graph.adjList, start, []) &&
              Timed(|graph.adjList|, r.value.0, r.value.1, r.value.2)
  {
    var n := |graph.adjList|;
    if !(-n <= start < n) {
      return Err(IndexError);
    }
    var disc := seq(n, _ => -1);
    var fin := seq(n, _ => -1);
    if start < 0 {
      disc := disc[n + start := 0];
      fin := fin[n + start := 1];
      return Ok(([start], disc, fin));
    }
    var visited, disc', fin', time := TimedVisit(graph, start, [], disc, fin, 0);
    FromScratch(n, visited, disc', fin', time);
    return Ok((visited, disc', fin'));
  }
}
