/** Properties of the list that relate several operations: traversal from begin to end, round
    trips of the mutators, and the independence of copies. */
module ListProperties {
  import opened LinkedList

  /** A range-for over the list: from begin, dereference and step until end. The values seen are
      exactly the elements, in order. */
  method Enumerate<T(0)>(l: SingleLinkedList<T>) returns (vs: seq<T>)
    requires l.Valid()
    ensures vs == l.Contents
  {
    vs := [];
    var it := l.Begin();
    ghost var j: nat := 0;
    while !it.Equals(l.End(), l, j + 1, |l.nodes| + 1)
      invariant j <= |l.nodes| && it.node == l.NodeAt(j + 1)
      invariant vs == l.Contents[..j]
      decreases |l.nodes| - j
    {
      vs := vs + [it.Deref(l, j + 1)];
      it := it.Next(l, j + 1);
      j := j + 1;
    }
    assert l.Contents[..j] == l.Contents;
  }

  /** begin equals end exactly when the list is empty. */
  lemma BeginIsEndIffEmpty<T(0)>(l: SingleLinkedList<T>)
    requires l.Valid()
    ensures l.Begin().Equals(l.End(), l, 1, |l.nodes| + 1) <==> l.IsEmpty()
  {
  }

  /** The initializer-list constructor keeps the order of the values. */
  method FromValuesInOrder<T(0)>(values: seq<T>) returns (vs: seq<T>)
    ensures vs == values
  {
    var l := new SingleLinkedList.FromValues(values);
    vs := Enumerate(l);
  }

  /** PushFront followed by PopFront gives back the same elements and the same nodes. */
  method PushFrontPopFront<T(0)>(l: SingleLinkedList<T>, v: T)
    requires l.Valid()
    modifies l.Repr
    ensures l.Valid() && l.Contents == old(l.Contents) && l.nodes == old(l.nodes)
  {
    l.PushFront(v);
    l.PopFront();
  }

  /** InsertAfter at before_begin does what PushFront does, and returns the position of the new
      first element. */
  method InsertAfterBeforeBegin<T(0)>(l: SingleLinkedList<T>, v: T) returns (it: Iterator<T>)
    requires l.Valid()
    modifies l.Repr
    ensures l.Valid() && l.Contents == [v] + old(l.Contents)
    ensures |l.nodes| > 0 && l.nodes[1..] == old(l.nodes) && fresh(l.nodes[0])
    ensures it == l.Begin()
  {
    it := l.InsertAfter(l.BeforeBegin(), 0, v);
    InsertAtFront(old(l.Contents), v);
  }

  /** EraseAfter undoes InsertAfter at the same position. */
  method InsertAfterEraseAfter<T(0)>(l: SingleLinkedList<T>, pos: Iterator<T>, ghost k: nat, v: T)
    requires l.Valid() && k <= |l.nodes| && pos.node == l.NodeAt(k)
    modifies l.Repr
    ensures l.Valid() && l.Contents == old(l.Contents) && l.nodes == old(l.nodes)
  {
    ghost var c, t := l.Contents, l.nodes;
    var inserted := l.InsertAfter(pos, k, v);
    var after := l.EraseAfter(pos, k);
    assert l.Contents == c by {
      assert InsertAt(c, k, v) == c[..k] + [v] + c[k..];
    }
    assert l.nodes == t by {
      assert |InsertAt(t, k, inserted.node)| == |t| + 1;
    }
  }

  /** Erasing the last element returns end. */
  method EraseLast<T(0)>(l: SingleLinkedList<T>, pos: Iterator<T>, ghost k: nat) returns (it: Iterator<T>)
    requires l.Valid() && 0 < |l.nodes| && k == |l.nodes| - 1 && pos.node == l.NodeAt(k)
    modifies l.Repr
    ensures l.Valid() && l.Contents == old(l.Contents[..|l.Contents| - 1])
    ensures it == l.End()
  {
    it := l.EraseAfter(pos, k);
    assert l.Contents == RemoveAt(old(l.Contents), k);
  }

  /** Clear on a list that is already empty changes nothing: same nodes, footprint and count. */
  method ClearEmpty<T(0)>(l: SingleLinkedList<T>)
    requires l.Valid() && l.IsEmpty()
    modifies l.Repr
    ensures l.Valid() && l.Contents == old(l.Contents) && l.nodes == old(l.nodes)
    ensures l.Repr == old(l.Repr) && l.size == old(l.size)
  {
    l.Clear();
  }

  /** Clear is idempotent: after two Clears the list is the same bare sentinel that one Clear leaves. */
  method ClearTwice<T(0)>(l: SingleLinkedList<T>)
    requires l.Valid()
    modifies l.Repr
    ensures l.Valid() && l.IsEmpty() && l.GetSize() == 0 && l.Repr == {l, l.head}
  {
    l.Clear();
    ClearEmpty(l);
  }

  /** A copy is independent of its source: changing the copy leaves the source as it was. */
  method CopyIsIndependent<T(0)>(l: SingleLinkedList<T>, v: T) returns (c: SingleLinkedList<T>)
    requires l.Valid()
    ensures l.Valid() && c.Valid() && l.Contents == old(l.Contents)
    ensures c.Contents == [v] + l.Contents
  {
    c := new SingleLinkedList.Copy(l);
    c.PushFront(v);
  }

  /** A source is independent of its copy: changing the source leaves the copy as it was made. */
  method SourceChangeKeepsCopy<T(0)>(l: SingleLinkedList<T>, v: T) returns (c: SingleLinkedList<T>)
    requires l.Valid()
    modifies l.Repr
    ensures l.Valid() && c.Valid() && l.Contents == [v] + old(l.Contents)
    ensures c.Contents == old(l.Contents)
  {
    c := new SingleLinkedList.Copy(l);
    l.PushFront(v);
  }

  /** After an assignment, changing the target leaves the source as it was. */
  method AssignIsIndependent<T(0)>(a: SingleLinkedList<T>, b: SingleLinkedList<T>, v: T)
    requires a.Valid() && b.Valid() && a.Repr !! b.Repr
    modifies a.Repr
    ensures a.Valid() && b.Valid() && b.Contents == old(b.Contents)
    ensures a.Contents == old(b.Contents) + [v]
  {
    a.Assign(b);
    a.PushBack(v);
  }

  /** After an assignment, changing the source leaves the target as it was assigned. */
  method AssignSourceChangeKeepsTarget<T(0)>(a: SingleLinkedList<T>, b: SingleLinkedList<T>, v: T)
    requires a.Valid() && b.Valid() && a.Repr !! b.Repr
    modifies a.Repr, b.Repr
    ensures a.Valid() && b.Valid() && b.Contents == [v] + old(b.Contents)
    ensures a.Contents == old(b.Contents)
  {
    a.Assign(b);
    b.PushFront(v);
  }

  /** Swapping twice gives both lists back their elements. */
  method SwapTwice<T(0)>(a: SingleLinkedList<T>, b: SingleLinkedList<T>)
    requires a.Valid() && b.Valid() && (a == b || a.Repr !! b.Repr)
    modifies a, a.head, b, b.head
    ensures a.Valid() && b.Valid() && a.Contents == old(a.Contents) && b.Contents == old(b.Contents)
  {
    Swap(a, b);
    Swap(a, b);
  }
}
