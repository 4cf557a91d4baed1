// Lab07 `priority_queue.py`: priority nodes ordered by priority alone, and
// the priority queue kept in a min-heap of nodes (the path taken when the
// heap module is available).

module PriorityQueues {
  import opened Wrappers
  import opened Ordering
  import opened Heaps

  /** `PriorityNode`: a payload with its priority; a smaller priority leaves first. */
  datatype PriorityNode<D> = PriorityNode(data: D, priority: int)

  /** The key the queue's min-heap orders nodes by. */
  function Priority<D>(node: PriorityNode<D>): int
  {
    node.priority
  }

  /** `__lt__`: priorities alone are compared. */
  function Less<D>(a: PriorityNode<D>, b: PriorityNode<D>): (r: bool)
    ensures r <==> Priority(a) < Priority(b)
  {
    a.priority < b.priority
  }

  /** `__le__`: priorities alone are compared. */
  function AtMost<D>(a: PriorityNode<D>, b: PriorityNode<D>): (r: bool)
    ensures r <==> Priority(a) <= Priority(b)
  {
    a.priority <= b.priority
  }

  /** `__eq__`: both the payload and the priority must match. */
  function Equals<D(==)>(a: PriorityNode<D>, b: PriorityNode<D>): (r: bool)
    ensures r <==> a == b
  {
    a.data == b.data && a.priority == b.priority
  }

  /**
   * The orderings ignore the payload and form a total preorder: `<=` is the
   * negation of the reversed `<`, and nodes that are equal compare as equal
   * priorities both ways.
   */
  lemma NodeOrder<D>(a: PriorityNode<D>, b: PriorityNode<D>, c: PriorityNode<D>)
    ensures AtMost(a, b) <==> !Less(b, a)
    ensures Less(a, b) ==> !Less(b, a) && AtMost(a, b)
    ensures AtMost(a, b) && AtMost(b, c) ==> AtMost(a, c)
    ensures Equals(a, b) ==> AtMost(a, b) && AtMost(b, a)
    ensures a.priority == b.priority ==> !Less(a, b) && !Less(b, a)
  {
  }

  /** The nodes that adding each `(item, priority)` pair of a list creates. */
  function NodesOf<D(==)>(pairs: seq<(D, int)>): (r: multiset<PriorityNode<D>>)
    ensures |r| == |pairs|
  {
    if pairs == [] then multiset{}
    else NodesOf(pairs[..|pairs| - 1]) + multiset{PriorityNode(pairs[|pairs| - 1].0, pairs[|pairs| - 1].1)}
  }

  /** The payloads of a list of nodes, in order. */
  function Payloads<D>(nodes: seq<PriorityNode<D>>): (r: seq<D>)
    ensures |r| == |nodes| && forall i | 0 <= i < |nodes| :: r[i] == nodes[i].data
  {
    seq(|nodes|, i requires 0 <= i < |nodes| => nodes[i].data)
  }

  /** One more node adds its payload at the end. */
  lemma PayloadsAppend<D>(nodes: seq<PriorityNode<D>>, node: PriorityNode<D>)
    ensures Payloads(nodes + [node]) == Payloads(nodes) + [node.data]
  {
  }

  /** A node whose priority is no larger than that of any node of the bag. */
  ghost predicate Foremost<D>(node: PriorityNode<D>, nodes: multiset<PriorityNode<D>>)
  {
    node in nodes && forall other | other in nodes :: node.priority <= other.priority
  }

  /**
   * `HeapPriorityQueue` over the min-heap: the heap stores one node per
   * added pair and always ranks nodes by priority.
   */
  class HeapPriorityQueue<D(==)> {
    const storage: Heap<PriorityNode<D>>

    /** The storage is a valid min-heap keyed by priority. */
    ghost predicate Valid()
      reads this, storage
    {
      storage.isMin && storage.key == Priority && storage.Valid()
    }

    /** The stored nodes. */
    ghost function Nodes(): multiset<PriorityNode<D>>
      reads this, storage
    {
      multiset(storage.data)
    }

    /**
     * `__init__`: an empty min-heap, then `add` for each pair of the
     * initial data in order (nothing for none).
     */
    constructor (initialData: seq<(D, int)>)
      ensures Valid() && fresh(storage)
      ensures Nodes() == NodesOf(initialData)
    {
      storage := new Heap(true, Priority);
      new;
      for k := 0 to |initialData|
        invariant Valid() && fresh(storage)
        invariant Nodes() == NodesOf(initialData[..k])
      {
        assert initialData[..k + 1][..k] == initialData[..k];
        var (item, priority) := initialData[k];
        Add(item, priority);
      }
      assert initialData[..|initialData|] == initialData;
    }

    /** `add` (alias `enqueue`): one more node with this payload and priority. */
    method Add(item: D, priority: int)
      requires Valid()
      modifies storage
      ensures Valid()
      ensures Nodes() == old(Nodes()) + multiset{PriorityNode(item, priority)}
    {
      storage.Push(PriorityNode(item, priority));
    }

    /** `is_empty`: true exactly when no node is stored. */
    function IsEmpty(): (b: bool)
      reads this, storage
      ensures b <==> Nodes() == multiset{}
    {
      storage.Length() == 0
    }

    /** `__len__`: the number of stored nodes. */
    function Length(): (n: nat)
      reads this, storage
      ensures n == |Nodes()|
    {
      storage.Length()
    }

    /** The node at the root of the heap: a stored node of the smallest priority. */
    ghost function Front(): (node: PriorityNode<D>)
      reads this, storage
      requires Valid() && !IsEmpty()
      ensures Foremost(node, Nodes())
    {
      FrontForemost();
      storage.data[0]
    }

    /** The root of a valid heap keyed by priority has the smallest priority. */
    lemma FrontForemost()
      requires Valid() && !IsEmpty()
      ensures Foremost(storage.data[0], Nodes())
    {
      assert storage.data[0] in Nodes();
      RootLowestAll(storage.data, storage.Rank());
    }

    /**
     * `peek` (alias `front`): `IndexError` on an empty queue, otherwise the
     * payload of a node of the smallest priority, the one `remove` returns.
     */
    function Peek(): (r: Result<D>)
      reads this, storage
      requires Valid()
      ensures IsEmpty() <==> r == Err(IndexError)
      ensures r.Ok? ==> r.value == Front().data
    {
      match storage.Top()
      case Err(e) => Err(e)
      case Ok(node) => Ok(node.data)
    }

    /**
     * `remove` (alias `dequeue`): `IndexError` on an empty queue, which stays
     * as it is; otherwise the node `peek` names leaves the queue and its
     * payload is returned.
     */
    method Remove() returns (r: Result<D>)
      requires Valid()
      modifies storage
      ensures Valid()
      ensures r == old(Peek())
      ensures old(IsEmpty()) ==> Nodes() == old(Nodes())
      ensures !old(IsEmpty()) ==> Nodes() == old(Nodes()) - multiset{old(Front())}
    {
      if IsEmpty() {
        return Err(IndexError);
      }
      var popped := storage.Pop();
      return Ok(popped.value.data);
    }

    /**
     * `__iter__` on the min-heap path: removes every node and yields the
     * payloads in non-decreasing priority, leaving the queue empty.
     */
    method Iterate() returns (items: seq<D>, ghost order: seq<PriorityNode<D>>)
      requires Valid()
      modifies storage
      ensures Valid() && Nodes() == multiset{}
      ensures multiset(order) == old(Nodes()) && SortedBy(order, Priority)
      ensures items == Payloads(order)
    {
      items, order := [], [];
      while !IsEmpty()
        invariant Valid()
        invariant multiset(order) + Nodes() == old(Nodes())
        invariant SortedBy(order, Priority)
        invariant Ahead(order, Nodes())
        invariant items == Payloads(order)
        decreases |Nodes()|
      {
        ghost var node, before := Front(), Nodes();
        var r := Remove();
        TakeFront(order, node, before, Nodes());
        PayloadsAppend(order, node);
        items := items + [r.value];
        order := order + [node];
      }
    }

    /** `clear`: nothing stored. */
    method Clear()
      requires Valid()
      modifies storage
      ensures Valid() && Nodes() == multiset{}
    {
      storage.Clear();
    }

    /**
     * `contains` on the min-heap path, as written: the branch for the heap
     * module does nothing, so the answer is always false.
     */
    function Contains(item: D, priority: Option<int>): (found: bool)
      ensures !found
    {
      false
    }

    /**
     * The as-written `contains` misses a stored payload: after `add(item,
     * priority)` the queue holds a node with that payload, yet the answer
     * is false, while the corrected search finds it.
     */
    lemma ContainsMissesStored(item: D, priority: int)
      requires PriorityNode(item, priority) in Nodes()
      ensures !Contains(item, None) && !Contains(item, Some(priority))
      ensures exists node | node in Nodes() :: node.data == item && node.priority == priority
    {
      assert PriorityNode(item, priority).data == item;
    }

    /**
     * `contains` as the list path computes it and as its documentation
     * promises: whether some stored node has the payload and, when a
     * priority is given, that priority.
     */
    method ContainsCorrected(item: D, priority: Option<int>) returns (found: bool)
      ensures found <==> exists node | node in Nodes() :: node.data == item && (priority.None? || node.priority == priority.value)
    {
      var nodes := storage.Items();
      for k := 0 to |nodes|
        invariant forall i | 0 <= i < k :: !(nodes[i].data == item && (priority.None? || nodes[i].priority == priority.value))
      {
        var node := nodes[k];
        if node.data == item {
          if priority.None? || node.priority == priority.value {
            return true;
          }
        }
      }
      return false;
    }
  }

  /** Every node of the removal order has a priority no larger than any node still stored. */
  ghost predicate Ahead<D>(order: seq<PriorityNode<D>>, rest: multiset<PriorityNode<D>>)
  {
    forall x, y | x in order && y in rest :: x.priority <= y.priority
  }

  /**
   * Taking the foremost stored node keeps the removal order sorted and
   * ahead of what stays, and loses no node.
   */
  lemma TakeFront<D>(order: seq<PriorityNode<D>>, node: PriorityNode<D>,
                     rest: multiset<PriorityNode<D>>, rest': multiset<PriorityNode<D>>)
    requires SortedBy(order, Priority) && Ahead(order, rest)
    requires Foremost(node, rest) && rest' == rest - multiset{node}
    ensures SortedBy(order + [node], Priority) && Ahead(order + [node], rest')
    ensures multiset(order + [node]) + rest' == multiset(order) + rest
  {
    OrderExtends(order, node);
    forall x, y | x in order + [node] && y in rest' ensures x.priority <= y.priority {
      assert y in rest;
    }
  }

  /** A node no smaller than every node of a sorted order can follow it. */
  lemma OrderExtends<D>(order: seq<PriorityNode<D>>, node: PriorityNode<D>)
    requires SortedBy(order, Priority)
    requires forall x | x in order :: x.priority <= node.priority
    ensures SortedBy(order + [node], Priority)
  {
    var s := order + [node];
    forall i, j | 0 <= i < j < |s| ensures Priority(s[i]) <= Priority(s[j]) {
      if j == |order| {
        assert s[i] in order;
      }
    }
  }

  /** A node of a bag is foremost only if no node of the bag has a smaller priority. */
  lemma ForemostIs<D>(node: PriorityNode<D>, nodes: multiset<PriorityNode<D>>, expected: PriorityNode<D>)
    requires Foremost(node, nodes) && expected in nodes
    requires forall other | other in nodes && other != expected :: expected.priority < other.priority
    ensures node == expected
  {
  }

  /**
   * `run_tests`: three tasks come out in priority order, an empty queue
   * reports `IndexError`, and iterating a refilled queue yields its three
   * payloads, the smallest priority first.
   */
  method RunTests() returns (size: nat, peeked: Result<string>, removed: seq<string>,
                             emptySize: nat, emptyRemoved: Result<string>, iterated: seq<string>)
    ensures size == 3 && peeked == Ok("Задача B")
    ensures removed == ["Задача B", "Задача C", "Задача A"]
    ensures emptySize == 0 && emptyRemoved == Err(IndexError)
    ensures iterated == ["Y", "X", "Z"]
  {
    var testQueue;
    testQueue, size, peeked, removed := RemovalOrder();
    emptySize, emptyRemoved := EmptyQueue();
    iterated := Iteration(testQueue);
  }

  /** Tests 1 and 2: tasks A@5, B@1, C@3 are peeked and removed by priority. */
  method RemovalOrder() returns (q: HeapPriorityQueue<string>, size: nat, peeked: Result<string>, removed: seq<string>)
    ensures fresh(q) && fresh(q.storage) && q.Valid() && q.IsEmpty()
    ensures size == 3 && peeked == Ok("Задача B")
    ensures removed == ["Задача B", "Задача C", "Задача A"]
  {
    q, size, peeked, removed := AddThenRemove(PriorityNode("Задача A", 5), PriorityNode("Задача B", 1), PriorityNode("Задача C", 3));
  }

  /**
   * Three nodes added to a fresh queue, the one of the middle priority
   * last but one: `peek` names the first, and `remove` yields the three
   * payloads by priority, leaving the queue empty.
   */
  method AddThenRemove<D(==)>(a: PriorityNode<D>, b: PriorityNode<D>, c: PriorityNode<D>)
    returns (q: HeapPriorityQueue<D>, size: nat, peeked: Result<D>, removed: seq<D>)
    requires b.priority < c.priority < a.priority
    ensures fresh(q) && fresh(q.storage) && q.Valid() && q.IsEmpty()
    ensures size == 3 && peeked == Ok(b.data)
    ensures removed == [b.data, c.data, a.data]
  {
    q := AddThree(a, b, c);
    size := q.Length();
    peeked := q.Peek();
    ForemostIs(q.Front(), q.Nodes(), b);
    removed := RemoveThree(q, a, b, c);
  }

  /** A fresh queue holding the three nodes, added in order. */
  method AddThree<D(==)>(a: PriorityNode<D>, b: PriorityNode<D>, c: PriorityNode<D>) returns (q: HeapPriorityQueue<D>)
    ensures fresh(q) && fresh(q.storage) && q.Valid()
    ensures q.Nodes() == multiset{a, b, c}
  {
    q := new HeapPriorityQueue([]);
    q.Add(a.data, a.priority);
    q.Add(b.data, b.priority);
    q.Add(c.data, c.priority);
  }

  /** Removing everything from a queue of three nodes of distinct priorities. */
  method RemoveThree<D(==)>(q: HeapPriorityQueue<D>, a: PriorityNode<D>, b: PriorityNode<D>, c: PriorityNode<D>)
    returns (removed: seq<D>)
    requires q.Valid() && q.Nodes() == multiset{a, b, c}
    requires b.priority < c.priority < a.priority
    modifies q.storage
    ensures q.Valid() && q.IsEmpty()
    ensures removed == [b.data, c.data, a.data]
  {
    var first := RemoveUnique(q, b);
    assert q.Nodes() == multiset{a, c};
    var rest := RemoveTwo(q, a, c);
    removed := [first.value] + rest;
  }

  /** Removing everything from a queue of two nodes of distinct priorities. */
  method RemoveTwo<D(==)>(q: HeapPriorityQueue<D>, a: PriorityNode<D>, c: PriorityNode<D>) returns (removed: seq<D>)
    requires q.Valid() && q.Nodes() == multiset{a, c}
    requires c.priority < a.priority
    modifies q.storage
    ensures q.Valid() && q.IsEmpty()
    ensures removed == [c.data, a.data]
  {
    var first := RemoveUnique(q, c);
    assert q.Nodes() == multiset{a};
    var second := RemoveUnique(q, a);
    removed := [first.value, second.value];
  }

  /** `remove` when one stored node has a priority below all others: that node leaves. */
  method RemoveUnique<D(==)>(q: HeapPriorityQueue<D>, expected: PriorityNode<D>) returns (r: Result<D>)
    requires q.Valid() && expected in q.Nodes()
    requires forall other | other in q.Nodes() && other != expected :: expected.priority < other.priority
    modifies q.storage
    ensures q.Valid() && r == Ok(expected.data)
    ensures q.Nodes() == old(q.Nodes()) - multiset{expected}
  {
    ForemostIs(q.Front(), q.Nodes(), expected);
    r := q.Remove();
  }

  /** Test 3: a fresh queue is empty and removing from it raises `IndexError`. */
  method EmptyQueue() returns (size: nat, removed: Result<string>)
    ensures size == 0 && removed == Err(IndexError)
  {
    var emptyQueue := new HeapPriorityQueue<string>([]);
    size := emptyQueue.Length();
    removed := emptyQueue.Remove();
  }

  /** Test 4: X@2, Y@1, Z@3 added to the emptied queue are iterated as Y, X, Z. */
  method Iteration(q: HeapPriorityQueue<string>) returns (iterated: seq<string>)
    requires q.Valid() && q.IsEmpty()
    modifies q.storage
    ensures iterated == ["Y", "X", "Z"]
  {
    iterated := AddThenIterate(q, PriorityNode("X", 2), PriorityNode("Y", 1), PriorityNode("Z", 3));
  }

  /** Three nodes added to an empty queue are iterated by priority. */
  method AddThenIterate<D(==)>(q: HeapPriorityQueue<D>, x: PriorityNode<D>, y: PriorityNode<D>, z: PriorityNode<D>)
    returns (iterated: seq<D>)
    requires q.Valid() && q.IsEmpty()
    requires y.priority < x.priority < z.priority
    modifies q.storage
    ensures iterated == [y.data, x.data, z.data]
  {
    q.Add(x.data, x.priority);
    q.Add(y.data, y.priority);
    q.Add(z.data, z.priority);
    assert q.Nodes() == multiset{y, x, z};
    ghost var order;
    iterated, order := q.Iterate();
    ThreeInOrder(order, y, x, z);
  }

  /** Three nodes of distinct priorities leave in exactly one order. */
  lemma ThreeInOrder<D>(order: seq<PriorityNode<D>>, p: PriorityNode<D>, q: PriorityNode<D>, s: PriorityNode<D>)
    requires p.priority < q.priority < s.priority
    requires multiset(order) == multiset{p, q, s} && SortedBy(order, Priority)
    ensures order == [p, q, s]
  {
    assert |order| == 3 by { assert |multiset(order)| == 3; }
    assert order[0] in multiset(order) && order[1] in multiset(order) && order[2] in multiset(order);
    assert p in multiset(order) && q in multiset(order) && s in multiset(order);
  }
}
