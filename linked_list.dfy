// The singly linked list of lab02: nodes with a `next` pointer and a list
// object holding pointers to its first and last node.

module LinkedList {
  import opened Wrappers

  /** `ListNode`: a value and the pointer to the following node. */
  class Node<T> {
    var value: T
    var next: Node?<T>

    constructor (v: T)
      ensures value == v && next == null
    {
      value := v;
      next := null;
    }
  }

  /**
   * `SinglyLinkedList`. The ghost `spine` lists the nodes reachable from
   * `first` in order; `contents` is their values.
   */
  class SinglyLinkedList<T> {
    var first: Node?<T>
    var last: Node?<T>
    ghost var spine: seq<Node<T>>
    ghost var contents: seq<T>
    ghost var Repr: set<object>

    /**
     * The list invariant: the nodes are chained by `next` and end in null,
     * no node occurs twice, `first` is the head and `last` the final node
     * (both null exactly when the list is empty).
     */
    ghost predicate Valid()
      reads this, Repr
    {
      && this in Repr
      && (forall i :: 0 <= i < |spine| ==> spine[i] in Repr)
      && |contents| == |spine|
      && (forall i :: 0 <= i < |spine| ==> spine[i].value == contents[i])
      && (forall i :: 0 <= i < |spine| - 1 ==> spine[i].next == spine[i + 1])
      && (|spine| > 0 ==> spine[|spine| - 1].next == null)
      && (forall i, j :: 0 <= i < j < |spine| ==> spine[i] != spine[j])
      && first == (if |spine| == 0 then null else spine[0])
      && last == (if |spine| == 0 then null else spine[|spine| - 1])
    }

    constructor ()
      ensures Valid() && fresh(Repr) && contents == []
      ensures first == null && last == null
    {
      first := null;
      last := null;
      spine := [];
      contents := [];
      Repr := {this};
    }

    /** `prepend`: the value becomes the first element. */
    method Prepend(v: T)
      requires Valid()
      modifies Repr
      ensures Valid()
      ensures contents == [v] + old(contents)
      ensures fresh(Repr - old(Repr))
      ensures first != null && first.value == v
      ensures old(first) == null ==> first == last
    {
      var node := new Node(v);
      if first == null {
        first, last := node, node;
      } else {
        node.next := first;
        first := node;
      }
      spine := [node] + spine;
      Repr := Repr + {node};
      contents := [v] + contents;
    }

    /** `append`: the value becomes the last element. */
    method Append(v: T)
      requires Valid()
      modifies Repr
      ensures Valid()
      ensures contents == old(contents) + [v]
      ensures fresh(Repr - old(Repr))
      ensures last != null && last.value == v
      ensures old(last) == null ==> first == last
    {
      var node := new Node(v);
      if last == null {
        first, last := node, node;
      } else {
        last.next := node;
        last := node;
      }
      spine := spine + [node];
      Repr := Repr + {node};
      contents := contents + [v];
    }

    /**
     * `pop_front`: None on an empty list; otherwise the first value, which
     * is removed. `last` is reset when the list becomes empty.
     */
    method PopFront() returns (r: Option<T>)
      requires Valid()
      modifies Repr
      ensures Valid()
      ensures old(contents) == [] ==> r == None && contents == []
      ensures old(contents) != [] ==> r == Some(old(contents)[0]) && contents == old(contents)[1..]
      ensures contents == [] ==> first == null && last == null
      ensures Repr == old(Repr)
    {
      if first == null {
        return None;
      }
      r := Some(first.value);
      first := first.next;
      if first == null {
        last := null;
      }
      spine := spine[1..];
      contents := contents[1..];
    }

    /** `to_list`: the values from first to last, walking the `next` pointers. */
    method ToList() returns (elements: seq<T>)
      requires Valid()
      ensures elements == contents
    {
      elements := [];
      var current := first;
      ghost var i := 0;
      while current != null
        invariant 0 <= i <= |spine|
        invariant current == (if i < |spine| then spine[i] else null)
        invariant elements == contents[..i]
        decreases |spine| - i
      {
        elements := elements + [current.value];
        current := current.next;
        i := i + 1;
      }
    }

    /** `empty`: the list is empty exactly when `first` is None. */
    predicate Empty()
      requires Valid()
      reads Repr
      ensures Empty() <==> contents == []
    {
      first == null
    }

    /** `length`: counts the nodes by walking the pointers. */
    method Length() returns (counter: nat)
      requires Valid()
      ensures counter == |contents|
    {
      counter := 0;
      var current := first;
      while current != null
        invariant counter <= |spine|
        invariant current == (if counter < |spine| then spine[counter] else null)
        decreases |spine| - counter
      {
        counter := counter + 1;
        current := current.next;
      }
    }
  }

  /**
   * `demonstrate_linked_list`: prepend 10, prepend 20, append 5 lists
   * [20, 10, 5]; `pop_front` then returns 20 and leaves [10, 5].
   */
  method Demonstrate() returns (listed: seq<int>, count: nat, popped: Option<int>, after: seq<int>)
    ensures listed == [20, 10, 5] && count == 3
    ensures popped == Some(20) && after == [10, 5]
  {
    var lst := new SinglyLinkedList<int>();
    lst.Prepend(10);
    lst.Prepend(20);
    lst.Append(5);
    listed := lst.ToList();
    count := lst.Length();
    popped := lst.PopFront();
    after := lst.ToList();
  }

  /**
   * `showcase_linked_list_operations`: inserting 10 and 20 at the start and
   * 30 and 40 at the end gives [20, 10, 30, 40] of size 4; deleting from the
   * start returns 20.
   */
  method Showcase() returns (listed: seq<int>, size: nat, extracted: Option<int>, after: seq<int>)
    ensures listed == [20, 10, 30, 40] && size == 4
    ensures extracted == Some(20) && after == [10, 30, 40]
  {
    var lst := new SinglyLinkedList<int>();
    lst.Prepend(10);
    lst.Prepend(20);
    lst.Append(30);
    lst.Append(40);
    listed := lst.ToList();
    size := lst.Length();
    extracted := lst.PopFront();
    after := lst.ToList();
  }
}
