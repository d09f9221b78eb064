/** A singly linked list with a value-less sentinel head node, a cached
    element count and forward iterators that point straight at nodes. */
module LinkedList {

  /** s with x placed at index k. */
  ghost function InsertAt<X>(s: seq<X>, k: nat, x: X): (r: seq<X>)
    requires k <= |s|
    ensures |r| == |s| + 1 && r[k] == x
    ensures forall i :: 0 <= i < k ==> r[i] == s[i]
    ensures forall i :: k < i < |r| ==> r[i] == s[i - 1]
  {
    s[..k] + [x] + s[k..]
  }

  lemma InsertAtEnd<X>(s: seq<X>, x: X)
    ensures InsertAt(s, |s|, x) == s + [x]
  {
  }

  lemma InsertAtFront<X>(s: seq<X>, x: X)
    ensures InsertAt(s, 0, x) == [x] + s
  {
  }

  lemma TakeNext<X>(s: seq<X>, k: nat)
    requires k < |s|
    ensures s[..k] + [s[k]] == s[..k + 1]
  {
  }

  /** s without its element at index k. */
  ghost function RemoveAt<X>(s: seq<X>, k: nat): (r: seq<X>)
    requires k < |s|
    ensures |r| == |s| - 1
    ensures forall i :: 0 <= i < k ==> r[i] == s[i]
    ensures forall i :: k <= i < |r| ==> r[i] == s[i + 1]
  {
    s[..k] + s[k + 1..]
  }

  lemma RemoveAtFront<X>(s: seq<X>)
    requires |s| > 0
    ensures RemoveAt(s, 0) == s[1..]
  {
  }

  ghost function NodeSet<T(0)>(t: seq<Node<T>>): set<Node<T>>
  {
    set n | n in t
  }

  /** The node at index k of a chain, null past its end. */
  ghost function At<T(0)>(t: seq<Node<T>>, k: nat): Node?<T>
  {
    if k < |t| then t[k] else null
  }

  /** No node occurs twice in t. */
  ghost predicate Distinct<X>(t: seq<X>) {
    forall i, j :: 0 <= i < j < |t| ==> t[i] != t[j]
  }

  /** t is a null-terminated chain whose nodes hold the values c, in order. */
  ghost predicate Linked<T(0)>(t: seq<Node<T>>, c: seq<T>)
    reads NodeSet(t)
  {
    |t| == |c| &&
    (forall i :: 0 <= i < |t| ==> t[i].value == c[i]) &&
    (forall i {:trigger t[i].next} :: 0 <= i < |t| ==> t[i].next == At(t, i + 1))
  }

  lemma NodeSetInsert<T(0)>(t: seq<Node<T>>, k: nat, n: Node<T>)
    requires k <= |t|
    ensures NodeSet(InsertAt(t, k, n)) == NodeSet(t) + {n}
  {
    assert t == t[..k] + t[k..];
  }

  lemma NodeSetRemove<T(0)>(t: seq<Node<T>>, k: nat)
    requires k < |t|
    ensures NodeSet(RemoveAt(t, k)) <= NodeSet(t)
  {
  }

  /** Splicing a node n in at index k keeps the chain linked. */
  lemma LinkedInsert<T(0)>(t: seq<Node<T>>, c: seq<T>, k: nat, n: Node<T>, v: T)
    requires k <= |t| == |c| && n !in t
    requires Distinct(t)
    requires forall i :: 0 <= i < |t| ==> t[i].value == c[i]
    requires forall i {:trigger t[i].next} :: 0 <= i < |t| && i + 1 != k ==> t[i].next == At(t, i + 1)
    requires 0 < k ==> t[k - 1].next == n
    requires n.next == At(t, k) && n.value == v
    ensures Distinct(InsertAt(t, k, n)) && Linked(InsertAt(t, k, n), InsertAt(c, k, v))
  {
    var t', c' := InsertAt(t, k, n), InsertAt(c, k, v);
    forall i | 0 <= i < |t'| ensures t'[i].value == c'[i] && t'[i].next == At(t', i + 1) {
      if i < k {
        assert t'[i] == t[i];
      } else if i > k {
        assert t'[i] == t[i - 1];
      }
    }
    forall i, j | 0 <= i < j < |t'| ensures t'[i] != t'[j] {
      if i != k && j != k {
        assert t'[i] == t[if i < k then i else i - 1];
        assert t'[j] == t[if j < k then j else j - 1];
      }
    }
  }

  /** Unlinking the node at index k keeps the chain linked. */
  lemma LinkedRemove<T(0)>(t: seq<Node<T>>, c: seq<T>, k: nat)
    requires k < |t| == |c|
    requires Distinct(t)
    requires forall i :: 0 <= i < |t| ==> t[i].value == c[i]
    requires forall i {:trigger t[i].next} :: 0 <= i < |t| && i + 1 != k ==> t[i].next == At(t, i + 1)
    requires 0 < k ==> t[k - 1].next == At(t, k + 1)
    ensures Distinct(RemoveAt(t, k)) && Linked(RemoveAt(t, k), RemoveAt(c, k))
  {
    var t', c' := RemoveAt(t, k), RemoveAt(c, k);
    forall i | 0 <= i < |t'| ensures t'[i].value == c'[i] && t'[i].next == At(t', i + 1) {
      if i < k {
        assert t'[i] == t[i];
      } else {
        assert t'[i] == t[i + 1];
      }
    }
    forall i, j | 0 <= i < j < |t'| ensures t'[i] != t'[j] {
      assert t'[i] == t[if i < k then i else i + 1];
      assert t'[j] == t[if j < k then j else j + 1];
    }
  }

  /** One cell of the chain: a value and the link to its successor. */
  class Node<T(0)> {
    var value: T
    var next: Node?<T>

    /** The sentinel: its value is T's arbitrary initial value, which no mutator changes. */
    constructor Sentinel()
      ensures next == null
    {
      next := null;
    }

    constructor (value: T, next: Node?<T>)
      ensures this.value == value && this.next == next
    {
      this.value := value;
      this.next := next;
    }
  }

  /** A forward position: the sentinel (before-begin), a real node, or null (end). The C++ iterator
      is a value holding one pointer, so it is a datatype here and ++ yields the advanced value. */
  datatype Iterator<T(0)> = Iterator(node: Node?<T>)
  {
    /** operator++: position k of `list` becomes position k + 1. */
    function Next(ghost list: SingleLinkedList<T>, ghost k: nat): (r: Iterator<T>)
      reads list, list.Repr
      requires list.Valid() && k <= |list.nodes| && node == list.NodeAt(k)
      ensures r.node == list.NodeAt(k + 1)
    {
      Iterator(node.next)
    }

    /** operator*: the value at an element's position k is element k - 1 of the list; at
        before-begin it is the sentinel's value. */
    function Deref(ghost list: SingleLinkedList<T>, ghost k: nat): (v: T)
      reads list, list.Repr
      requires list.Valid() && k <= |list.nodes| && node == list.NodeAt(k)
      ensures v == if k == 0 then list.head.value else list.Contents[k - 1]
    {
      node.value
    }

    /** operator==: two positions of one list are equal exactly when they are the same position. */
    predicate Equals(other: Iterator<T>, ghost list: SingleLinkedList<T>, ghost i: nat, ghost j: nat)
      reads list, list.Repr
      requires list.Valid() && i <= |list.nodes| + 1 && j <= |list.nodes| + 1
      requires node == list.NodeAt(i) && other.node == list.NodeAt(j)
      ensures Equals(other, list, i, j) <==> i == j
    {
      node == other.node
    }
  }

  class SingleLinkedList<T(0)> {
    /** The sentinel node: its successor is the first element. */
    const head: Node<T>
    var size: nat

    /** The real nodes reachable from the sentinel, in order. */
    ghost var nodes: seq<Node<T>>
    /** The values of the real nodes, in order. */
    ghost var Contents: seq<T>
    ghost var Repr: set<object>

    /** The chain invariant: the sentinel links to a null-terminated chain of distinct nodes. */
    ghost predicate ValidChain()
      reads this, Repr
    {
      Repr == {this, head} + NodeSet(nodes) &&
      head !in nodes && head.next == At(nodes, 0) &&
      Distinct(nodes) && Linked(nodes, Contents)
    }

    /** The list invariant: a valid chain whose cached count is its number of real nodes. */
    ghost predicate Valid()
      reads this, Repr
      ensures Valid() ==> this in Repr
    {
      ValidChain() && size == |Contents|
    }

    /** The node at position k: 0 is before-begin, 1 to |nodes| the elements, |nodes| + 1 end (null). */
    ghost function NodeAt(k: nat): Node?<T>
      reads this
      requires k <= |nodes| + 1
    {
      if k == 0 then head else At(nodes, k - 1)
    }

    constructor ()
      ensures Valid() && fresh(Repr)
      ensures Contents == [] && nodes == []
    {
      head := new Node.Sentinel();
      size := 0;
      nodes := [];
      Contents := [];
      new;
      Repr := {this, head};
    }

    /** The initializer-list constructor: an empty list for no values, otherwise a temporary
        list filled by PushFront from the last value to the first, swapped in. */
    constructor FromValues(values: seq<T>)
      ensures Valid() && fresh(Repr)
      ensures Contents == values
    {
      head := new Node.Sentinel();
      size := 0;
      nodes := [];
      Contents := [];
      new;
      Repr := {this, head};
      if |values| == 0 {
        return;
      }
      var temp := PushAllFront(values);
      Swap(temp);
    }

    /** The copy constructor: builds the copy in a temporary list and swaps it in. */
    constructor Copy(other: SingleLinkedList<T>)
      requires other.Valid()
      ensures Valid() && fresh(Repr)
      ensures Contents == other.Contents
    {
      var temp := CopyChain(other);
      head := new Node.Sentinel();
      size := 0;
      nodes := [];
      Contents := [];
      new;
      Repr := {this, head};
      Swap(temp);
    }

    /** operator=: the list receives a copy of `rhs`; self-assignment changes nothing. */
    method Assign(rhs: SingleLinkedList<T>)
      requires Valid() && rhs.Valid() && (rhs == this || Repr !! rhs.Repr)
      modifies Repr
      ensures Valid() && fresh(Repr - old(Repr))
      ensures Contents == old(rhs.Contents)
      ensures rhs.Valid() && rhs.Contents == old(rhs.Contents)
      ensures rhs == this || Repr !! rhs.Repr
      ensures rhs == this ==> nodes == old(nodes) && Repr == old(Repr)
      ensures head.value == old(head.value)
    {
      if this != rhs {
        var copy := new SingleLinkedList.Copy(rhs);
        Swap(copy);
      }
    }

    /** Exchanges the chains and counts of two lists; the sentinels stay where they are. */
    method Swap(other: SingleLinkedList<T>)
      requires Valid() && other.Valid() && (this == other || Repr !! other.Repr)
      modifies this, head, other, other.head
      ensures Valid() && other.Valid() && (this == other || Repr !! other.Repr)
      ensures Contents == old(other.Contents) && other.Contents == old(Contents)
      ensures nodes == old(other.nodes) && other.nodes == old(nodes)
      ensures Repr + other.Repr == old(Repr + other.Repr)
      ensures head.value == old(head.value) && other.head.value == old(other.head.value)
    {
      assert head !in NodeSet(other.nodes) && other.head !in NodeSet(nodes);
      head.next, other.head.next := other.head.next, head.next;
      size, other.size := other.size, size;
      nodes, other.nodes := other.nodes, nodes;
      Contents, other.Contents := other.Contents, Contents;
      Repr, other.Repr := {this, head} + NodeSet(nodes), {other, other.head} + NodeSet(other.nodes);
    }

    /** GetSize: the cached count is the number of elements. */
    function GetSize(): (n: nat)
      reads this, Repr
      requires Valid()
      ensures n == |Contents|
    {
      size
    }

    /** IsEmpty holds exactly when the list has no elements. */
    function IsEmpty(): (b: bool)
      reads this, Repr
      requires Valid()
      ensures b <==> Contents == []
    {
      size == 0
    }

    /** before_begin: the sentinel's position. */
    function BeforeBegin(): (it: Iterator<T>)
      reads this, Repr
      requires Valid()
      ensures it.node == NodeAt(0)
    {
      Iterator(head)
    }

    /** begin: the first element's position, which is end when the list is empty. */
    function Begin(): (it: Iterator<T>)
      reads this, Repr
      requires Valid()
      ensures it.node == NodeAt(1)
    {
      Iterator(head.next)
    }

    /** end: the position past the last element. */
    function End(): (it: Iterator<T>)
      reads this, Repr
      requires Valid()
      ensures it.node == NodeAt(|nodes| + 1)
    {
      Iterator(null)
    }

    /** The relinking step of PushFront, PushBack and InsertAfter: the fresh node n, whose link
        is already position k + 1, becomes the successor of position k. The count is left to the
        caller. */
    method LinkAfter(prev: Node<T>, ghost k: nat, n: Node<T>)
      requires ValidChain() && k <= |nodes| && prev == NodeAt(k)
      requires n !in Repr && n.next == NodeAt(k + 1)
      modifies this, prev
      ensures ValidChain() && Repr == old(Repr) + {n} && size == old(size)
      ensures nodes == InsertAt(old(nodes), k, n) && Contents == InsertAt(old(Contents), k, n.value)
      ensures prev.next == n && head.value == old(head.value)
    {
      ghost var t := nodes;
      prev.next := n;
      LinkedInsert(t, Contents, k, n, n.value);
      NodeSetInsert(t, k, n);
      nodes := InsertAt(t, k, n);
      Contents := InsertAt(Contents, k, n.value);
      Repr := {this, head} + NodeSet(nodes);
    }

    /** The unlinking step of PopFront, EraseAfter and Clear: the successor of position k is
        bypassed, so position k links to what followed it. The count is left to the caller. */
    method UnlinkAfter(prev: Node<T>, ghost k: nat)
      requires ValidChain() && k < |nodes| && prev == NodeAt(k)
      modifies this, prev
      ensures ValidChain() && Repr <= old(Repr) && size == old(size)
      ensures nodes == RemoveAt(old(nodes), k) && Contents == RemoveAt(old(Contents), k)
      ensures prev.next == NodeAt(k + 1) && head.value == old(head.value)
    {
      ghost var t := nodes;
      prev.next := prev.next.next;
      LinkedRemove(t, Contents, k);
      NodeSetRemove(t, k);
      nodes := RemoveAt(t, k);
      Contents := RemoveAt(Contents, k);
      Repr := {this, head} + NodeSet(nodes);
    }

    method PushFront(v: T)
      requires Valid()
      modifies Repr
      ensures Valid() && fresh(Repr - old(Repr))
      ensures Contents == [v] + old(Contents)
      ensures nodes == [nodes[0]] + old(nodes) && fresh(nodes[0])
      ensures head.value == old(head.value)
    {
      var n := new Node(v, head.next);
      InsertAtFront(nodes, n);
      InsertAtFront(Contents, v);
      LinkAfter(head, 0, n);
      size := size + 1;
    }

    /** PushBack walks to the last node and links a new node after it. */
    method PushBack(v: T)
      requires Valid()
      modifies Repr
      ensures Valid() && fresh(Repr - old(Repr))
      ensures Contents == old(Contents) + [v]
      ensures |nodes| > 0 && nodes == old(nodes) + [nodes[|nodes| - 1]] && fresh(nodes[|nodes| - 1])
      ensures head.value == old(head.value)
    {
      var n := new Node(v, null);
      InsertAtEnd(nodes, n);
      InsertAtEnd(Contents, v);
      if head.next == null {
        LinkAfter(head, |nodes|, n);
      } else {
        var current := LastNode();
        LinkAfter(current, |nodes|, n);
      }
      size := size + 1;
    }

    /** The walk of PushBack: follows the links from the first node to the one whose link is null. */
    method LastNode() returns (current: Node<T>)
      requires Valid() && nodes != []
      ensures current == nodes[|nodes| - 1] && current.next == null
    {
      current := head.next;
      ghost var k := 0;
      while current.next != null
        invariant k < |nodes| && current == nodes[k]
        decreases |nodes| - k
      {
        current := current.next;
        k := k + 1;
      }
      assert k == |nodes| - 1 by {
        assert nodes[k].next == At(nodes, k + 1);
      }
    }

    /** InsertAfter links a new node holding v right after pos and returns its position. */
    method InsertAfter(pos: Iterator<T>, ghost k: nat, v: T) returns (it: Iterator<T>)
      requires Valid() && k <= |nodes| && pos.node == NodeAt(k)
      modifies Repr
      ensures Valid() && fresh(Repr - old(Repr))
      ensures Contents == InsertAt(old(Contents), k, v)
      ensures k < |nodes| && nodes == InsertAt(old(nodes), k, nodes[k]) && fresh(nodes[k])
      ensures pos.node.next == nodes[k] && it.node == nodes[k]
      ensures head.value == old(head.value)
    {
      assert pos.node.next == NodeAt(k + 1);
      var n := new Node(v, pos.node.next);
      LinkAfter(pos.node, k, n);
      size := size + 1;
      it := Iterator(pos.node.next);
    }

    /** PopFront unlinks the first real node. */
    method PopFront()
      requires Valid() && Contents != []
      modifies Repr
      ensures Valid() && Repr <= old(Repr)
      ensures Contents == old(Contents[1..])
      ensures nodes == old(nodes[1..])
      ensures head.value == old(head.value)
    {
      RemoveAtFront(nodes);
      RemoveAtFront(Contents);
      UnlinkAfter(head, 0);
      size := size - 1;
    }

    /** EraseAfter unlinks the successor of pos and returns the position that now follows pos. */
    method EraseAfter(pos: Iterator<T>, ghost k: nat) returns (it: Iterator<T>)
      requires Valid() && k <= |nodes| && pos.node == NodeAt(k) && pos.node.next != null
      modifies Repr
      ensures Valid() && Repr <= old(Repr)
      ensures k < old(|nodes|)
      ensures nodes == RemoveAt(old(nodes), k) && Contents == RemoveAt(old(Contents), k)
      ensures it.node == pos.node.next && it.node == NodeAt(k + 1)
      ensures head.value == old(head.value)
    {
      assert k < |nodes| by {
        assert pos.node.next == NodeAt(k + 1);
      }
      UnlinkAfter(pos.node, k);
      size := size - 1;
      it := Iterator(pos.node.next);
    }

    /** Clear unlinks the first real node until the chain is empty, then resets the count. */
    method Clear()
      requires Valid()
      modifies Repr
      ensures Valid() && Repr <= old(Repr)
      ensures Contents == [] && nodes == []
      ensures head.value == old(head.value)
    {
      while head.next != null
        invariant ValidChain() && Repr <= old(Repr)
        invariant head.value == old(head.value)
        decreases |nodes|
      {
        UnlinkAfter(head, 0);
      }
      size := 0;
    }
  }

  /** The free swap(lhs, rhs); swapping a list with itself changes nothing. */
  method Swap<T(0)>(lhs: SingleLinkedList<T>, rhs: SingleLinkedList<T>)
    requires lhs.Valid() && rhs.Valid() && (lhs == rhs || lhs.Repr !! rhs.Repr)
    modifies lhs, lhs.head, rhs, rhs.head
    ensures lhs.Valid() && rhs.Valid() && (lhs == rhs || lhs.Repr !! rhs.Repr)
    ensures lhs.Contents == old(rhs.Contents) && rhs.Contents == old(lhs.Contents)
    ensures lhs.nodes == old(rhs.nodes) && rhs.nodes == old(lhs.nodes)
    ensures lhs.Repr + rhs.Repr == old(lhs.Repr + rhs.Repr)
    ensures lhs.head.value == old(lhs.head.value) && rhs.head.value == old(rhs.head.value)
  {
    lhs.Swap(rhs);
  }

  /** The loop of the initializer-list constructor: PushFront of each value, from the last to the first. */
  method PushAllFront<T(0)>(values: seq<T>) returns (temp: SingleLinkedList<T>)
    ensures temp.Valid() && fresh(temp.Repr)
    ensures temp.Contents == values
  {
    temp := new SingleLinkedList();
    var i := |values|;
    while i > 0
      invariant 0 <= i <= |values|
      invariant temp.Valid() && fresh(temp.Repr)
      invariant temp.Contents == values[i..]
    {
      temp.PushFront(values[i - 1]);
      i := i - 1;
    }
  }

  /** The loop of the copy constructor: appends each value of `other` after the last copied node. */
  method CopyChain<T(0)>(other: SingleLinkedList<T>) returns (temp: SingleLinkedList<T>)
    requires other.Valid()
    ensures temp.Valid() && fresh(temp.Repr)
    ensures temp.Contents == other.Contents
  {
    temp := new SingleLinkedList();
    var it := temp.BeforeBegin();
    var src := other.Begin();
    ghost var j: nat := 0;
    while !src.Equals(other.End(), other, j + 1, |other.nodes| + 1)
      invariant j <= |other.nodes| && |temp.nodes| == j
      invariant temp.Valid() && fresh(temp.Repr) && other.Repr !! temp.Repr
      invariant temp.Contents == other.Contents[..j]
      invariant it.node == temp.NodeAt(j) && src.node == other.NodeAt(j + 1)
      decreases |other.nodes| - j
    {
      ghost var before := temp.Contents;
      var _ := temp.InsertAfter(it, j, src.Deref(other, j + 1));
      InsertAtEnd(before, src.Deref(other, j + 1));
      TakeNext(other.Contents, j);
      it := it.Next(temp, j);
      src := src.Next(other, j + 1);
      j := j + 1;
    }
    assert other.Contents[..j] == other.Contents;
  }
}
