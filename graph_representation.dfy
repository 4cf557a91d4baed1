// Lab10 `graph_representation.py`: a graph on the vertices 0 .. vertices-1,
// kept either as an adjacency matrix of weights (0 meaning "no edge") or as
// a list of (neighbour, weight) pairs per vertex; both directed or not.

module GraphRepresentation {

  /** How many rows `range(vertices)` builds: none for a negative count. */
  function Size(vertices: int): (n: nat)
    ensures vertices >= 0 ==> n == vertices
    ensures vertices < 0 ==> n == 0
  {
    if vertices < 0 then 0 else vertices
  }

  // ---------------------------------------------------------------------
  // The matrix: non-zero entries, counted row by row
  // ---------------------------------------------------------------------

  /** `n` rows of `n` entries each. */
  ghost predicate Square(m: seq<seq<int>>, n: nat)
  {
    |m| == n && forall i :: 0 <= i < n ==> |m[i]| == n
  }

  /** Entry `[i][j]` equals entry `[j][i]`. */
  ghost predicate Symmetric(m: seq<seq<int>>)
  {
    forall i, j :: 0 <= i < |m| && 0 <= j < |m| && j < |m[i]| && i < |m[j]| ==> m[i][j] == m[j][i]
  }

  /** The non-zero entries of one row. */
  function RowCount(row: seq<int>): (c: nat)
    ensures c <= |row|
  {
    if row == [] then 0 else RowCount(row[..|row| - 1]) + (if row[|row| - 1] != 0 then 1 else 0)
  }

  /** The non-zero entries of the whole matrix. */
  function NonZero(m: seq<seq<int>>): nat
  {
    if m == [] then 0 else NonZero(m[..|m| - 1]) + RowCount(m[|m| - 1])
  }

  /** The non-zero entries on the diagonal: the self-loops. */
  function Loops(m: seq<seq<int>>): nat
  {
    if m == [] then 0
    else Loops(m[..|m| - 1]) + (if |m| - 1 < |m[|m| - 1]| && m[|m| - 1][|m| - 1] != 0 then 1 else 0)
  }

  /** Writing one entry changes the row's count by whether it was and is non-zero. */
  lemma {:induction false} RowCountUpdate(row: seq<int>, j: nat, x: int)
    requires j < |row|
    ensures RowCount(row[j := x]) ==
            RowCount(row) - (if row[j] != 0 then 1 else 0) + (if x != 0 then 1 else 0)
    decreases |row|
  {
    var last := |row| - 1;
    assert row[j := x][..last] == if j < last then row[..last][j := x] else row[..last];
    if j < last {
      RowCountUpdate(row[..last], j, x);
    }
  }

  /** Replacing one row changes the total count by the difference of the rows' counts. */
  lemma {:induction false} NonZeroUpdate(m: seq<seq<int>>, i: nat, row: seq<int>)
    requires i < |m|
    ensures NonZero(m[i := row]) == NonZero(m) - RowCount(m[i]) + RowCount(row)
    decreases |m|
  {
    var last := |m| - 1;
    assert m[i := row][..last] == if i < last then m[..last][i := row] else m[..last];
    if i < last {
      NonZeroUpdate(m[..last], i, row);
    }
  }

  /** Replacing one row changes the loop count only through its own diagonal entry. */
  lemma {:induction false} LoopsUpdate(m: seq<seq<int>>, i: nat, row: seq<int>)
    requires i < |m| && i < |m[i]| && i < |row|
    ensures Loops(m[i := row]) ==
            Loops(m) - (if m[i][i] != 0 then 1 else 0) + (if row[i] != 0 then 1 else 0)
    decreases |m|
  {
    var last := |m| - 1;
    assert m[i := row][..last] == if i < last then m[..last][i := row] else m[..last];
    if i < last {
      LoopsUpdate(m[..last], i, row);
    }
  }

  /** The matrix after `add_edge(u, v, weight)` (or `remove_edge`, with weight 0). */
  function Placed(m: seq<seq<int>>, directed: bool, u: int, v: int, weight: int): (r: seq<seq<int>>)
    requires Square(m, |m|)
    ensures |r| == |m|
  {
    if 0 <= u < |m| && 0 <= v < |m| then
      var once := m[u := m[u][v := weight]];
      if directed then once else once[v := once[v][u := weight]]
    else m
  }

  /**
   * Placing an edge writes `weight` into entry `[u][v]` (and `[v][u]`
   * when undirected) when both ends are vertices, leaves every other
   * entry alone, and keeps the matrix square and, when undirected,
   * symmetric.
   */
  lemma PlacedFacts(m: seq<seq<int>>, directed: bool, u: int, v: int, weight: int)
    requires Square(m, |m|)
    ensures var r := Placed(m, directed, u, v, weight);
            Square(r, |m|) &&
            (forall i, j :: 0 <= i < |m| && 0 <= j < |m| ==>
              r[i][j] == if 0 <= u < |m| && 0 <= v < |m| && ((i == u && j == v) || (!directed && i == v && j == u))
                         then weight else m[i][j]) &&
            (!directed && Symmetric(m) ==> Symmetric(r))
  {
  }

  /** `get_edge_count` of the matrix: non-zero entries, halved (rounding down) when undirected. */
  function MatrixEdgeCount(m: seq<seq<int>>, directed: bool): nat
  {
    if directed then NonZero(m) else NonZero(m) / 2
  }

  /** The edge count as evidently intended: a self-loop, stored once on the diagonal, counts once. */
  function MatrixEdgeCountCorrected(m: seq<seq<int>>, directed: bool): nat
  {
    if directed then NonZero(m) else (NonZero(m) + Loops(m)) / 2
  }

  /** Making one zero entry non-zero adds one to the count, and one to the loops when it is on the diagonal. */
  lemma OneEntry(m: seq<seq<int>>, i: nat, j: nat, x: int)
    requires i < |m| && j < |m[i]| && i < |m[i]| && m[i][j] == 0 && x != 0
    ensures NonZero(m[i := m[i][j := x]]) == NonZero(m) + 1
    ensures Loops(m[i := m[i][j := x]]) == Loops(m) + (if i == j then 1 else 0)
  {
    NonZeroUpdate(m, i, m[i][j := x]);
    RowCountUpdate(m[i], j, x);
    LoopsUpdate(m, i, m[i][j := x]);
  }

  /**
   * Adding an edge that was absent with a non-zero weight stores one
   * more non-zero entry, or two for an undirected edge between distinct
   * vertices; the loops grow by one exactly for a self-loop.
   */
  lemma EntriesAdded(m: seq<seq<int>>, directed: bool, u: int, v: int, weight: int)
    requires Square(m, |m|) && 0 <= u < |m| && 0 <= v < |m|
    requires m[u][v] == 0 && m[v][u] == 0 && weight != 0
    ensures NonZero(Placed(m, directed, u, v, weight)) ==
            NonZero(m) + (if directed || u == v then 1 else 2)
    ensures Loops(Placed(m, directed, u, v, weight)) == Loops(m) + (if u == v then 1 else 0)
  {
    var once := m[u := m[u][v := weight]];
    OneEntry(m, u, v, weight);
    if !directed {
      if u == v {
        var row := once[v];
        assert row[u := weight] == row;
        assert once[v := row] == once;
      } else {
        OneEntry(once, v, u, weight);
      }
    }
  }

  /**
   * Adding an edge that was absent with a non-zero weight raises the
   * matrix's edge count by one, except for a self-loop in an undirected
   * graph: its single diagonal entry is lost to the halving.
   */
  lemma EdgeAdded(m: seq<seq<int>>, directed: bool, u: int, v: int, weight: int)
    requires Square(m, |m|) && 0 <= u < |m| && 0 <= v < |m|
    requires m[u][v] == 0 && m[v][u] == 0 && weight != 0
    ensures directed || u != v ==>
              MatrixEdgeCount(Placed(m, directed, u, v, weight), directed) == MatrixEdgeCount(m, directed) + 1
    ensures !directed && u == v ==>
              MatrixEdgeCount(Placed(m, directed, u, v, weight), directed) == (NonZero(m) + 1) / 2
  {
    EntriesAdded(m, directed, u, v, weight);
  }

  /** With the corrected count, every new edge counts exactly once, self-loops included. */
  lemma EdgeAddedCorrected(m: seq<seq<int>>, directed: bool, u: int, v: int, weight: int)
    requires Square(m, |m|) && 0 <= u < |m| && 0 <= v < |m|
    requires m[u][v] == 0 && m[v][u] == 0 && weight != 0
    ensures MatrixEdgeCountCorrected(Placed(m, directed, u, v, weight), directed) ==
            MatrixEdgeCountCorrected(m, directed) + 1
  {
    EntriesAdded(m, directed, u, v, weight);
  }

  /** A one-vertex matrix holding just a self-loop: one non-zero entry, on the diagonal. */
  lemma SingleLoop()
    ensures seq(1, _ => seq(1, _ => 0)) == [[0]]
    ensures Placed([[0]], false, 0, 0, 1) == [[1]]
    ensures NonZero([[1]]) == 1 && Loops([[1]]) == 1
  {
    assert seq(1, _ => 0) == [0];
    assert [0][0 := 1] == [1];
    assert [[0]][0 := [1]] == [[1]];
    assert [1][0 := 1][0] == 1;
    assert [1][0 := 1] == [1];
    assert [[1]][0 := [1]][0] == [1];
    assert [[1]][0 := [1][0 := 1]] == [[1]];
    assert [1][..0] == [];
    assert RowCount([1]) == 1;
    assert [[1]][..0] == [];
  }

  // ---------------------------------------------------------------------
  // The lists: neighbour pairs per vertex
  // ---------------------------------------------------------------------

  /** Some pair of the list has neighbour `v`. */
  ghost predicate Lists(edges: seq<(int, int)>, v: int)
  {
    exists k :: 0 <= k < |edges| && edges[k].0 == v
  }

  /** The list comprehension of `remove_edge`: the pairs whose neighbour is not `v`, in order. */
  function Without(edges: seq<(int, int)>, v: int): (r: seq<(int, int)>)
    ensures |r| <= |edges|
    ensures forall e :: e in r <==> e in edges && e.0 != v
  {
    if edges == [] then []
    else if edges[|edges| - 1].0 != v then Without(edges[..|edges| - 1], v) + [edges[|edges| - 1]]
    else Without(edges[..|edges| - 1], v)
  }

  /** Filtering out `v` leaves no pair for `v` and every other neighbour as it was. */
  lemma WithoutLists(edges: seq<(int, int)>, v: int, x: int)
    ensures Lists(Without(edges, v), x) <==> x != v && Lists(edges, x)
  {
    var r := Without(edges, v);
    if Lists(r, x) {
      var k :| 0 <= k < |r| && r[k].0 == x;
      assert r[k] in edges;
    }
    if x != v && Lists(edges, x) {
      var k :| 0 <= k < |edges| && edges[k].0 == x;
      assert edges[k] in r;
    }
  }

  /** Appending a pair adds its neighbour and keeps every other. */
  lemma AppendLists(edges: seq<(int, int)>, e: (int, int), x: int)
    ensures Lists(edges + [e], x) <==> x == e.0 || Lists(edges, x)
  {
    if Lists(edges, x) {
      var k :| 0 <= k < |edges| && edges[k].0 == x;
      assert (edges + [e])[k] == edges[k];
    }
    if x == e.0 {
      assert (edges + [e])[|edges|] == e;
    }
  }

  /** The total length of all lists. */
  function Total(lists: seq<seq<(int, int)>>): nat
  {
    if lists == [] then 0 else Total(lists[..|lists| - 1]) + |lists[|lists| - 1]|
  }

  /** Replacing one list changes the total by the difference in length. */
  lemma {:induction false} TotalUpdate(lists: seq<seq<(int, int)>>, i: nat, edges: seq<(int, int)>)
    requires i < |lists|
    ensures Total(lists[i := edges]) == Total(lists) - |lists[i]| + |edges|
    decreases |lists|
  {
    var last := |lists| - 1;
    assert lists[i := edges][..last] == if i < last then lists[..last][i := edges] else lists[..last];
    if i < last {
      TotalUpdate(lists[..last], i, edges);
    }
  }

  /** Every neighbour stored is a vertex. */
  ghost predicate InBounds(lists: seq<seq<(int, int)>>)
  {
    forall u, k :: 0 <= u < |lists| && 0 <= k < |lists[u]| ==> 0 <= lists[u][k].0 < |lists|
  }

  /** `u` lists `v` exactly when `v` lists `u`. */
  ghost predicate Mutual(lists: seq<seq<(int, int)>>)
  {
    forall u, v :: 0 <= u < |lists| && 0 <= v < |lists| ==> (Lists(lists[u], v) <==> Lists(lists[v], u))
  }

  /** One vertex with a self-loop added to its empty list: the pair is stored twice. */
  lemma SingleLoopListed()
    ensures Linked(seq(1, _ => []), false, 0, 0, 1) == [[(0, 1), (0, 1)]]
    ensures Total([[(0, 1), (0, 1)]]) == 2
  {
    var empty: seq<seq<(int, int)>> := seq(1, _ => []);
    assert empty == [[]];
    assert [] + [(0, 1)] == [(0, 1)];
    assert [[]][0 := [(0, 1)]][0] == [(0, 1)];
    assert [[]][0 := [] + [(0, 1)]] == [[(0, 1)]];
    assert [(0, 1)] + [(0, 1)] == [(0, 1), (0, 1)];
    assert [[(0, 1)]][0 := [(0, 1), (0, 1)]][0] == [(0, 1), (0, 1)];
    assert [[(0, 1)]][0 := [(0, 1)] + [(0, 1)]] == [[(0, 1), (0, 1)]];
    assert [[(0, 1), (0, 1)]][..0] == [];
  }

  /** The lists after `add_edge(u, v, weight)`: `(v, weight)` after u's pairs, and `(u, weight)` after v's when undirected. */
  function Linked(lists: seq<seq<(int, int)>>, directed: bool, u: int, v: int, weight: int): (r: seq<seq<(int, int)>>)
    ensures |r| == |lists|
  {
    if 0 <= u < |lists| && 0 <= v < |lists| then
      var once := lists[u := lists[u] + [(v, weight)]];
      if directed then once else once[v := once[v] + [(u, weight)]]
    else lists
  }

  /** The lists after `remove_edge(u, v)`: u's pairs without `v`, and v's without `u` when undirected, each under its own range check. */
  function Unlinked(lists: seq<seq<(int, int)>>, directed: bool, u: int, v: int): (r: seq<seq<(int, int)>>)
    ensures |r| == |lists|
  {
    var once := if 0 <= u < |lists| then lists[u := Without(lists[u], v)] else lists;
    if !directed && 0 <= v < |lists| then once[v := Without(once[v], u)] else once
  }

  /** Appending a pair whose neighbour is a vertex keeps every neighbour in range. */
  lemma AppendInBounds(lists: seq<seq<(int, int)>>, i: nat, e: (int, int))
    requires InBounds(lists) && i < |lists| && 0 <= e.0 < |lists|
    ensures InBounds(lists[i := lists[i] + [e]])
  {
    var r: seq<seq<(int, int)>> := lists[i := lists[i] + [e]];
    forall x, k | 0 <= x < |r| && 0 <= k < |r[x]|
      ensures 0 <= r[x][k].0 < |r|
    {
      if x == i && k == |lists[i]| {
        assert r[x][k] == e;
      } else {
        assert r[x][k] == lists[x][k];
      }
    }
  }

  /**
   * Adding an edge lists `v` at `u` (and `u` at `v` when undirected),
   * keeps every other neighbour relation, keeps the neighbours in range
   * and the undirected relation mutual, and stores one pair (two when
   * undirected).
   */
  lemma LinkedFacts(lists: seq<seq<(int, int)>>, directed: bool, u: int, v: int, weight: int)
    requires InBounds(lists) && (!directed ==> Mutual(lists))
    requires 0 <= u < |lists| && 0 <= v < |lists|
    ensures var r := Linked(lists, directed, u, v, weight);
            InBounds(r) && (!directed ==> Mutual(r)) &&
            Total(r) == Total(lists) + (if directed then 1 else 2) &&
            forall x, y :: 0 <= x < |lists| ==>
              (Lists(r[x], y) <==> Lists(lists[x], y) || (x == u && y == v) || (!directed && x == v && y == u))
  {
    var once := lists[u := lists[u] + [(v, weight)]];
    var r := Linked(lists, directed, u, v, weight);
    TotalUpdate(lists, u, lists[u] + [(v, weight)]);
    AppendInBounds(lists, u, (v, weight));
    if !directed {
      TotalUpdate(once, v, once[v] + [(u, weight)]);
      AppendInBounds(once, v, (u, weight));
    }
    forall x, y | 0 <= x < |lists|
      ensures Lists(r[x], y) <==> Lists(lists[x], y) || (x == u && y == v) || (!directed && x == v && y == u)
    {
      AppendLists(lists[u], (v, weight), y);
      if !directed {
        AppendLists(once[v], (u, weight), y);
      }
    }
  }

  /**
   * Removing an edge drops `v` from u's neighbours (and `u` from v's when
   * undirected), keeps every other neighbour relation, and keeps the
   * neighbours in range and the undirected relation mutual.
   */
  lemma UnlinkedFacts(lists: seq<seq<(int, int)>>, directed: bool, u: int, v: int)
    requires InBounds(lists) && (!directed ==> Mutual(lists))
    ensures var r := Unlinked(lists, directed, u, v);
            InBounds(r) && (!directed ==> Mutual(r)) &&
            forall x, y :: 0 <= x < |lists| ==>
              (Lists(r[x], y) <==> Lists(lists[x], y) && !(x == u && y == v) && !(!directed && x == v && y == u))
  {
    var once := if 0 <= u < |lists| then lists[u := Without(lists[u], v)] else lists;
    var r := Unlinked(lists, directed, u, v);
    forall x, y | 0 <= x < |lists|
      ensures Lists(r[x], y) <==> Lists(lists[x], y) && !(x == u && y == v) && !(!directed && x == v && y == u)
    {
      if 0 <= u < |lists| {
        WithoutLists(lists[u], v, y);
      }
      if !directed && 0 <= v < |lists| {
        WithoutLists(once[v], u, y);
      }
    }
    forall x, k | 0 <= x < |r| && 0 <= k < |r[x]|
      ensures 0 <= r[x][k].0 < |r|
    {
      assert r[x][k] in r[x];
      if 0 <= u < |lists| && x == u {
        assert r[x][k] in once[x];
      }
      assert r[x][k] in once[x];
      assert r[x][k] in lists[x];
    }
  }

  // ---------------------------------------------------------------------
  // The classes
  // ---------------------------------------------------------------------

  /** `AdjacencyMatrix`: `matrix[u][v]` is the weight of the edge u -> v, 0 when there is none. */
  class AdjacencyMatrix {
    var directed: bool
    var vertices: int
    var matrix: seq<seq<int>>

    /** The matrix is square over the vertices, and symmetric when undirected. */
    ghost predicate Valid()
      reads this
    {
      Square(matrix, Size(vertices)) && (!directed ==> Symmetric(matrix))
    }

    /** `__init__`: no edges. */
    constructor (vertices: int, directed: bool)
      ensures this.vertices == vertices && this.directed == directed && Valid()
      ensures matrix == seq(Size(vertices), _ => seq(Size(vertices), _ => 0))
      ensures forall u, v :: !HasEdge(u, v)
    {
      this.directed := directed;
      this.vertices := vertices;
      matrix := seq(Size(vertices), _ => seq(Size(vertices), _ => 0));
    }

    /** `has_edge`: both ends are vertices and the entry is non-zero. */
    predicate HasEdge(u: int, v: int)
      reads this
      requires Valid()
    {
      0 <= u < |matrix| && 0 <= v < |matrix| && matrix[u][v] != 0
    }

    /** In an undirected graph an edge is seen from both ends. */
    lemma HasEdgeBothWays(u: int, v: int)
      requires Valid() && !directed
      ensures HasEdge(u, v) <==> HasEdge(v, u)
    {
    }

    /**
     * `add_edge`: when both ends are vertices, the entry (and the mirrored
     * one when undirected) becomes `weight`; nothing else changes. The
     * edge is then seen exactly when the weight is non-zero.
     */
    method AddEdge(u: int, v: int, weight: int)
      requires Valid()
      modifies this
      ensures directed == old(directed) && vertices == old(vertices) && Valid()
      ensures matrix == Placed(old(matrix), directed, u, v, weight)
      ensures 0 <= u < vertices && 0 <= v < vertices ==> (HasEdge(u, v) <==> weight != 0)
    {
      if 0 <= u < vertices && 0 <= v < vertices {
        matrix := matrix[u := matrix[u][v := weight]];
        if !directed {
          matrix := matrix[v := matrix[v][u := weight]];
        }
      }
    }

    /** `remove_edge`: the same entries become 0, so the edge is no longer seen. */
    method RemoveEdge(u: int, v: int)
      requires Valid()
      modifies this
      ensures directed == old(directed) && vertices == old(vertices) && Valid()
      ensures matrix == Placed(old(matrix), directed, u, v, 0)
      ensures !HasEdge(u, v) && (!directed ==> !HasEdge(v, u))
    {
      if 0 <= u < vertices && 0 <= v < vertices {
        matrix := matrix[u := matrix[u][v := 0]];
        if !directed {
          matrix := matrix[v := matrix[v][u := 0]];
        }
      }
    }

    /**
     * `get_neighbors`: `[]` for a non-vertex; otherwise the pairs
     * `(v, weight)` of the non-zero entries of the row, by increasing `v`.
     */
    method GetNeighbors(vertex: int) returns (neighbors: seq<(int, int)>)
      requires Valid()
      ensures !(0 <= vertex < vertices) ==> neighbors == []
      ensures forall e :: e in neighbors <==> HasEdge(vertex, e.0) && e.1 == matrix[vertex][e.0]
      ensures forall i, j :: 0 <= i < j < |neighbors| ==> neighbors[i].0 < neighbors[j].0
    {
      neighbors := [];
      if 0 <= vertex < vertices {
        for v := 0 to vertices
          invariant forall e :: e in neighbors <==> 0 <= e.0 < v && HasEdge(vertex, e.0) && e.1 == matrix[vertex][e.0]
          invariant forall i, j :: 0 <= i < j < |neighbors| ==> neighbors[i].0 < neighbors[j].0
          invariant forall i :: 0 <= i < |neighbors| ==> neighbors[i].0 < v
        {
          if matrix[vertex][v] != 0 {
            neighbors := neighbors + [(v, matrix[vertex][v])];
          }
        }
      }
    }

    /** The nested loop of `get_edge_count`: every non-zero entry. */
    method CountNonZero() returns (count: int)
      requires Valid()
      ensures count == NonZero(matrix)
    {
      count := 0;
      for i := 0 to |matrix|
        invariant count == NonZero(matrix[..i])
      {
        for j := 0 to |matrix|
          invariant count == NonZero(matrix[..i]) + RowCount(matrix[i][..j])
        {
          assert matrix[i][..j + 1][..j] == matrix[i][..j];
          if matrix[i][j] != 0 {
            count := count + 1;
          }
        }
        assert matrix[i][..|matrix|] == matrix[i];
        assert matrix[..i + 1][..i] == matrix[..i];
      }
      assert matrix[..|matrix|] == matrix;
    }

    /** `get_edge_count`: the non-zero entries, halved with floor division when undirected. */
    method GetEdgeCount() returns (count: int)
      requires Valid()
      ensures count == MatrixEdgeCount(matrix, directed)
    {
      count := CountNonZero();
      if !directed {
        count := count / 2;
      }
    }

    /** The edge count as evidently intended: diagonal entries are counted twice before halving. */
    method GetEdgeCountCorrected() returns (count: int)
      requires Valid()
      ensures count == MatrixEdgeCountCorrected(matrix, directed)
    {
      count := CountNonZero();
      if !directed {
        var loops := 0;
        for i := 0 to |matrix|
          invariant loops == Loops(matrix[..i])
        {
          assert matrix[..i + 1][..i] == matrix[..i];
          if matrix[i][i] != 0 {
            loops := loops + 1;
          }
        }
        assert matrix[..|matrix|] == matrix;
        count := (count + loops) / 2;
      }
    }
  }

  /** `AdjacencyList`: for each vertex, the (neighbour, weight) pairs in the order they were added. */
  class AdjacencyList {
    var directed: bool
    var vertices: int
    var adjList: seq<seq<(int, int)>>

    /** One list per vertex, neighbours in range, and mutual when undirected. */
    ghost predicate Valid()
      reads this
    {
      |adjList| == Size(vertices) && InBounds(adjList) && (!directed ==> Mutual(adjList))
    }

    /** `u` is a vertex whose list names `v`. */
    ghost predicate Edge(u: int, v: int)
      reads this
    {
      0 <= u < |adjList| && Lists(adjList[u], v)
    }

    /** `__init__`: an empty list per vertex. */
    constructor (vertices: int, directed: bool)
      ensures this.vertices == vertices && this.directed == directed && Valid()
      ensures adjList == seq(Size(vertices), _ => [])
    {
      this.directed := directed;
      this.vertices := vertices;
      adjList := seq(Size(vertices), _ => []);
    }

    /**
     * `add_edge`: when both ends are vertices, `(v, weight)` goes after
     * u's pairs and, when undirected, `(u, weight)` after v's, with no
     * duplicate check. The edge is then seen, no other edge appears or
     * disappears, and the stored pairs grow by one (two when undirected).
     */
    method AddEdge(u: int, v: int, weight: int)
      requires Valid()
      modifies this
      ensures directed == old(directed) && vertices == old(vertices) && Valid()
      ensures adjList == Linked(old(adjList), directed, u, v, weight)
      ensures 0 <= u < vertices && 0 <= v < vertices ==>
                Edge(u, v) && (!directed ==> Edge(v, u)) &&
                Total(adjList) == Total(old(adjList)) + (if directed then 1 else 2)
      ensures forall x, y :: !(x == u && y == v) && !(!directed && x == v && y == u) ==>
                (Edge(x, y) <==> old(Edge(x, y)))
    {
      if 0 <= u < vertices && 0 <= v < vertices {
        LinkedFacts(adjList, directed, u, v, weight);
        adjList := adjList[u := adjList[u] + [(v, weight)]];
        if !directed {
          adjList := adjList[v := adjList[v] + [(u, weight)]];
        }
      }
    }

    /**
     * `remove_edge`: u's pairs naming `v` are dropped when `u` is a vertex
     * and, when undirected, v's pairs naming `u` when `v` is one. The edge
     * is then gone, and no other edge appears or disappears.
     */
    method RemoveEdge(u: int, v: int)
      requires Valid()
      modifies this
      ensures directed == old(directed) && vertices == old(vertices) && Valid()
      ensures adjList == Unlinked(old(adjList), directed, u, v)
      ensures !Edge(u, v) && (!directed ==> !Edge(v, u))
      ensures forall x, y :: !(x == u && y == v) && !(!directed && x == v && y == u) ==>
                (Edge(x, y) <==> old(Edge(x, y)))
    {
      UnlinkedFacts(adjList, directed, u, v);
      if 0 <= u < vertices {
        adjList := adjList[u := Without(adjList[u], v)];
      }
      if !directed && 0 <= v < vertices {
        adjList := adjList[v := Without(adjList[v], u)];
      }
    }

    /** `has_edge`: the scan of u's pairs for neighbour `v`. */
    method HasEdge(u: int, v: int) returns (b: bool)
      requires Valid()
      ensures b <==> Edge(u, v)
    {
      if 0 <= u < vertices {
        for k := 0 to |adjList[u]|
          invariant forall i :: 0 <= i < k ==> adjList[u][i].0 != v
        {
          if adjList[u][k].0 == v {
            return true;
          }
        }
      }
      return false;
    }

    /** `get_neighbors`: u's pairs themselves, or `[]` for a non-vertex. */
    function GetNeighbors(vertex: int): (r: seq<(int, int)>)
      reads this
      requires Valid()
      ensures forall x :: Lists(r, x) <==> Edge(vertex, x)
      ensures forall k :: 0 <= k < |r| ==> 0 <= r[k].0 < |adjList|
    {
      if 0 <= vertex < vertices then adjList[vertex] else []
    }

    /** `get_edge_count`: the stored pairs, halved with floor division when undirected. */
    method GetEdgeCount() returns (count: int)
      requires Valid()
      ensures count == if directed then Total(adjList) else Total(adjList) / 2
    {
      count := 0;
      for i := 0 to |adjList|
        invariant count == Total(adjList[..i])
      {
        assert adjList[..i + 1][..i] == adjList[..i];
        count := count + |adjList[i]|;
      }
      assert adjList[..|adjList|] == adjList;
      if !directed {
        count := count / 2;
      }
    }
  }

  /**
   * A self-loop in an undirected graph: the list counts it as one edge,
   * the matrix as written as none, the corrected matrix count as one.
   */
  method SelfLoopCounts() returns (fromList: int, fromMatrix: int, corrected: int)
    ensures fromList == 1 && fromMatrix == 0 && corrected == 1
  {
    SingleLoop();
    SingleLoopListed();
    var lists := new AdjacencyList(1, false);
    lists.AddEdge(0, 0, 1);
    fromList := lists.GetEdgeCount();
    var matrix := new AdjacencyMatrix(1, false);
    matrix.AddEdge(0, 0, 1);
    fromMatrix := matrix.GetEdgeCount();
    corrected := matrix.GetEdgeCountCorrected();
  }
}
