# SingleLinkedList in Dafny

A model of the header-only C++ template `SingleLinkedList<Type>`. It is a singly linked list
built from heap nodes. The list object holds a sentinel node `head_`, whose successor is the
first element, and caches its element count in `size_`. Forward iterators hold a single node
pointer. The before-begin position is the sentinel and end is the null pointer.

The model keeps that shape:

- `LinkedList.Node` is a class with a mutable `value` and `next`.
- `LinkedList.SingleLinkedList` is a class with the same two fields: a sentinel `head` and a
  count `size`.
- Three ghost fields describe the state:
  - `nodes` — the real nodes, in order;
  - `Contents` — their values;
  - `Repr` — the footprint.
- `Valid()` is the class invariant:
  - the sentinel links to a null-terminated chain of distinct nodes holding `Contents`;
  - the sentinel is not among those nodes;
  - `size` is the number of elements.
- Positions are numbered 0 for before-begin, 1 to n for the elements and n + 1 for end.
  `NodeAt(k)` is the node at position k.
- Every mutator is a method that writes the same pointers as the C++ code and re-establishes
  `Valid()`. Each one also proves the new `Contents` and `nodes`:
  - PushFront, PushBack and InsertAfter insert one element at the right index;
  - PopFront and EraseAfter remove one element at the right index;
  - Clear removes all elements;
  - Swap exchanges the elements of the two lists;
  - Assign replaces the elements with those of `rhs`.
- The shared pointer writes are the methods `LinkAfter` (a fresh node becomes the successor of a
  position) and `UnlinkAfter` (the successor of a position is bypassed). No mutator changes the
  sentinel's value.
- Iterators are values of the datatype `LinkedList.Iterator` that wrap one node pointer. Their
  operations take the position they stand at as a ghost argument.

The free comparison operators are in `ListComparison`:

- `operator==` first compares the counts, then walks both lists as `std::equal` does.
- `operator<` walks both lists as `std::lexicographical_compare` does.
- Their specifications use the recursive `LexLess` on sequences. `LexLess` is then shown to be a
  strict total order whenever the element order is one.
- `!=`, `>`, `>=` and `<=` are built from `==` and `<` exactly as in the header. Under a strict
  total order, `>=` is shown to be the negation of `<`.

`ListProperties` holds client methods about several operations together:

- traversal from begin to end yields exactly the elements;
- PushFront then PopFront, and InsertAfter then EraseAfter, are round trips;
- InsertAfter at before-begin is PushFront;
- erasing the last element returns end;
- Clear on an empty list changes nothing, so Clear is idempotent;
- a copy and its source are independent in both directions, and so are an assignment target
  and its source;
- swapping twice restores both lists.

## Model

| member | source | states |
|---|---|---|
| LinkedList.Node.Sentinel | single-linked-list/single-linked-list.h:13 | the sentinel node starts with no successor |
| LinkedList.Node.constructor | single-linked-list/single-linked-list.h:14-15 | a node holds the given value and successor |
| LinkedList.Iterator.Next | single-linked-list/single-linked-list.h:55-59 | ++ moves a non-end position k to position k + 1 (after the last element it reaches end) |
| LinkedList.Iterator.Deref | single-linked-list/single-linked-list.h:67-70 | * at a non-end position k yields the list's element k - 1, and the sentinel's value at before-begin |
| LinkedList.Iterator.Equals | single-linked-list/single-linked-list.h:39-53 | two positions of one list compare equal exactly when they are the same position |
| LinkedList.SingleLinkedList.BeforeBegin | single-linked-list/single-linked-list.h:112-114 | before_begin is position 0, the sentinel |
| LinkedList.SingleLinkedList.Begin | single-linked-list/single-linked-list.h:88-90 | begin is position 1: the first element, or end when the list is empty |
| LinkedList.SingleLinkedList.End | single-linked-list/single-linked-list.h:92-94 | end is the position after the last element |
| LinkedList.SingleLinkedList.constructor | single-linked-list/single-linked-list.h:126-128 | the default list is valid and empty |
| LinkedList.SingleLinkedList.FromValues | single-linked-list/single-linked-list.h:130-139 | the initializer-list list is valid and holds the values in their given order, including none |
| LinkedList.PushAllFront | single-linked-list/single-linked-list.h:134-137 | PushFront of the values from last to first leaves them in their given order |
| LinkedList.SingleLinkedList.Copy | single-linked-list/single-linked-list.h:142-151 | the copy is valid, holds the source's elements in order and shares no node with any existing list |
| LinkedList.CopyChain | single-linked-list/single-linked-list.h:144-149 | InsertAfter at the last copied node followed by ++, for each value of the source, copies all the values in order |
| LinkedList.SingleLinkedList.Assign | single-linked-list/single-linked-list.h:153-159 | after assignment the list holds rhs's elements and rhs is unchanged; self-assignment keeps the very same nodes and footprint |
| LinkedList.SingleLinkedList.Swap | single-linked-list/single-linked-list.h:161-164 | swapping the first-node links and the counts exchanges the two lists' elements and nodes, both stay valid, and a self-swap changes nothing |
| LinkedList.Swap | single-linked-list/single-linked-list.h:235-238 | the free swap exchanges the two lists' elements and nodes, keeps their joint footprint and both sentinel values, and also admits a list swapped with itself |
| LinkedList.SingleLinkedList.GetSize | single-linked-list/single-linked-list.h:166-168 | the cached count equals the number of elements |
| LinkedList.SingleLinkedList.IsEmpty | single-linked-list/single-linked-list.h:170-172 | true exactly when there are no elements |
| LinkedList.SingleLinkedList.PushFront | single-linked-list/single-linked-list.h:174-177 | the elements become v followed by the old elements; a fresh node comes first and the old nodes follow |
| LinkedList.SingleLinkedList.PushBack | single-linked-list/single-linked-list.h:179-192 | the elements become the old elements followed by v, held by one fresh node appended after the old nodes |
| LinkedList.SingleLinkedList.LastNode | single-linked-list/single-linked-list.h:184-188 | the walk from the first node stops at the last node, the one whose link is null |
| LinkedList.SingleLinkedList.InsertAfter | single-linked-list/single-linked-list.h:194-198 | v is inserted at index k, after position k; a fresh node is spliced in after pos and the returned iterator points at it |
| LinkedList.SingleLinkedList.PopFront | single-linked-list/single-linked-list.h:200-206 | on a non-empty list, the first element and its node are removed and nothing else changes |
| LinkedList.SingleLinkedList.EraseAfter | single-linked-list/single-linked-list.h:208-215 | when pos has a successor, the element after pos is removed, and the result is the position that now follows pos |
| LinkedList.SingleLinkedList.Clear | single-linked-list/single-linked-list.h:217-224 | unlinking the first node until none is left empties the list, and the list stays valid |
| LinkedList.SingleLinkedList.LinkAfter | single-linked-list/single-linked-list.h:195 | the same link write as at :175, :181 and :189: making a fresh node the successor of position k inserts its value and node at index k, adds only that node to the footprint and keeps the chain valid |
| LinkedList.SingleLinkedList.UnlinkAfter | single-linked-list/single-linked-list.h:211 | the same bypass write as at :203 and :220: bypassing the successor of position k removes index k from the values and nodes, links position k to what followed, and keeps the chain valid |
| LinkedList.LinkedInsert | single-linked-list/single-linked-list.h:194-196 | linking a new node between positions k and k + 1 keeps a chain of distinct nodes holding the values with v inserted at index k |
| LinkedList.LinkedRemove | single-linked-list/single-linked-list.h:208-211 | redirecting the link of position k past its successor keeps a chain of distinct nodes holding the values without index k |
| ListComparison.RangesEqual | single-linked-list/single-linked-list.h:245 | std::equal over both whole lists is true exactly when their element sequences are equal |
| ListComparison.Equal | single-linked-list/single-linked-list.h:240-246 | operator== is true exactly when the lists have the same elements in the same order |
| ListComparison.NotEqual | single-linked-list/single-linked-list.h:248-251 | operator!= is true exactly when the element sequences differ |
| ListComparison.Less | single-linked-list/single-linked-list.h:253-256 | the lexicographical walk decides exactly the lexicographic order LexLess of the element sequences |
| ListComparison.Greater | single-linked-list/single-linked-list.h:263-266 | operator> is the lexicographic order with the operands exchanged |
| ListComparison.GreaterEq | single-linked-list/single-linked-list.h:268-271 | operator>= is rhs < lhs or equal elements |
| ListComparison.LessEq | single-linked-list/single-linked-list.h:258-261 | operator<= is lhs < rhs or equal elements |
| ListComparison.LexLessMeaning | single-linked-list/single-linked-list.h:253-256 | under a strict total element order, lhs < rhs exactly when lhs is a proper prefix of rhs or, at the first index where they differ, lhs holds the smaller value |
| ListComparison.LexLessIrreflexive | single-linked-list/single-linked-list.h:253-256 | no list is less than itself |
| ListComparison.LexLessTransitive | single-linked-list/single-linked-list.h:253-256 | < on lists is transitive |
| ListComparison.LexLessAsymmetric | single-linked-list/single-linked-list.h:253-256 | lhs < rhs and rhs < lhs never both hold |
| ListComparison.LexLessTrichotomous | single-linked-list/single-linked-list.h:253-256 | any two lists are equal or one of them is less than the other |
| ListComparison.EqualIffNeitherLess | single-linked-list/single-linked-list.h:240-256 | == holds exactly when neither < direction holds |
| ListComparison.GreaterEqIsNotLess | single-linked-list/single-linked-list.h:268-271 | the body of >= (rhs < lhs or lhs == rhs) is exactly the negation of lhs < rhs |
| ListProperties.Enumerate | single-linked-list/single-linked-list.h:88-94 | stepping from begin until end and dereferencing visits exactly the elements, in order |
| ListProperties.BeginIsEndIffEmpty | single-linked-list/single-linked-list.h:88-94 | begin equals end exactly when the list is empty |
| ListProperties.FromValuesInOrder | single-linked-list/single-linked-list.h:130-139 | traversing a list built from values yields those values |
| ListProperties.PushFrontPopFront | single-linked-list/single-linked-list.h:174-206 | PushFront then PopFront restores the elements and the nodes |
| ListProperties.InsertAfterBeforeBegin | single-linked-list/single-linked-list.h:194-198 | InsertAfter at before_begin does what PushFront does: v comes first, held by a fresh node in front of the old nodes, and the result is begin |
| ListProperties.InsertAfterEraseAfter | single-linked-list/single-linked-list.h:194-215 | EraseAfter at the same position undoes InsertAfter, restoring elements and nodes |
| ListProperties.EraseLast | single-linked-list/single-linked-list.h:208-215 | erasing after the next-to-last position drops the last element and returns end |
| ListProperties.ClearEmpty | single-linked-list/single-linked-list.h:217-224 | Clear on an empty list keeps the same elements, nodes, footprint and count |
| ListProperties.ClearTwice | single-linked-list/single-linked-list.h:217-224 | Clear is idempotent: after a second Clear the list is still the bare sentinel with count 0 |
| ListProperties.CopyIsIndependent | single-linked-list/single-linked-list.h:142-151 | changing a copy leaves its source unchanged |
| ListProperties.SourceChangeKeepsCopy | single-linked-list/single-linked-list.h:142-151 | changing the source of a copy leaves the copy's elements as they were copied |
| ListProperties.AssignIsIndependent | single-linked-list/single-linked-list.h:153-159 | changing an assignment target leaves the source unchanged |
| ListProperties.AssignSourceChangeKeepsTarget | single-linked-list/single-linked-list.h:153-159 | changing the source of an assignment leaves the target's elements as they were assigned |
| ListProperties.SwapTwice | single-linked-list/single-linked-list.h:235-238 | swapping two lists twice, or a list with itself, gives each its own elements back |

## Left out

- Memory release. `delete` in PopFront, EraseAfter and Clear, and the destructor, are not
  modelled. Dafny's heap is garbage-collected, and the destructor only calls Clear.
- Allocation failure. A `new` that throws is not modelled, so neither is the exception safety of
  the copy-and-swap constructors.
- The const iterator. `ConstIterator`, `cbegin`, `cend`, `cbefore_begin` and the const overloads
  of `begin`, `end` and `before_begin` have the same bodies as the non-const ones, which are
  modelled.
- The iterator typedefs, `operator->`, the post-increment `operator++(int)` and the default,
  copy and assignment members of the iterator. An iterator here is an immutable value, so
  copying it is value copying.
- LinkedList.Iterator.Next: returns the advanced iterator instead of updating one in place.
  The C++ iterator is a value holding one pointer, so the two cannot be told apart by
  callers.
- LinkedList.Iterator.Deref: yields the value, not a reference. Writes through `*it` are not
  modelled.
- LinkedList.Iterator.Equals: compares two positions of the same list only.
- Iterators that dangle or belong to another list. The iterator operations, InsertAfter and
  EraseAfter take the iterator's position as a ghost argument. Their preconditions admit only
  live positions of the list itself.
- LinkedList.SingleLinkedList.Assign: requires that the two lists share no node unless they are
  the same object. Distinct C++ list objects always own distinct nodes.
- LinkedList.SingleLinkedList.Swap: requires that two different lists share no node, for the
  same reason. A list swapped with itself is admitted.
- LinkedList.Swap: the same requirement as the member swap, for the same reason.
- LinkedList.SingleLinkedList.GetSize: `size_t` is modelled as an unbounded natural number.
  Wrap-around is not modelled, since no list can hold 2^64 nodes.
- The sentinel's value. The model says only that T has a default value; that it equals `Type{}`
  is not modelled.
- The iterator `operator!=`. It is the negation of `operator==`, which is modelled by
  `Iterator.Equals`; the loops use `!Equals`.
- The reference that `operator=` returns. `Assign` returns nothing, because chained assignment
  adds no behaviour.
- The default argument `next = nullptr` of the Node constructor. The model's Node constructor
  always takes the successor, and PushBack passes null.
- The copy constructor's opening assertion. It checks that a new list is empty, which holds by
  construction, so it is not modelled.
- The element type's operations. `==` on elements is Dafny equality, and the element `<` is the
  parameter `lt`. The order lemmas assume a strict total element order; the C++ algorithms need
  only a strict weak order.
- Loop helpers. The module-level methods `PushAllFront` and `CopyChain` are the loops of
  FromValues and the copy constructor. The class method `SingleLinkedList.LastNode` is the walk
  of PushBack. Each is stated as its own method.
