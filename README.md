# Singly linked list

A Dafny model of `SingleLinkedList<Type>`, a header-only C++ singly linked
sequence container in the style of `std::forward_list`. The container is:

- a sentinel node `head_`, whose address is the before-begin position;
- the chain of heap nodes that follows the sentinel through `next_node`;
- a cached element count `size_`.

Iterators are non-owning node pointers, with `nullptr` as `end()`. All
insertion and erasure happens *after* a position. Copying builds a separate
list and swaps it in.

Files:

- `single_linked_list.dfy`, module `SingleLinkedLists`:
  - `Node` is a class with a mutable `value` and `next`.
  - `Iterator` is a datatype around a `Node?`. Datatype equality is the
    iterators' equality by node identity.
  - `SingleLinkedList` is a class with the sentinel `head`, the count `size`,
    and two ghost fields:
    - `chain` is the sentinel followed by the real nodes in link order;
    - `Contents` holds the elements.
  - `Valid()` is the representation invariant:
    - the chain starts at the sentinel;
    - each node links to the next one, and the last links to null;
    - no node occurs twice, so the chain is acyclic;
    - the nodes carry `Contents`;
    - `size == |Contents|`.
  - Every operation updates the nodes in place and keeps `Valid()`.
    - The in-place mutators (`PushFront`, `PopFront`, `InsertAfter`,
      `EraseAfter`, `Clear`, `Swap` and `SetValue`) state the new `Contents`
      and the new chain. All except `SetValue`, which changes no links, also
      state the new footprint `Repr()`.
    - The copying members (`FromValues`, `Copy`, `CreateFromValues`,
      `CreateFromList` and `Assign`) state the new `Contents`, and that the
      real nodes are new.
  - The relational operators are module-level functions. They walk the nodes
    (`Values()`) and apply the algorithms of `comparisons.dfy`.
- `comparisons.dfy`, module `Comparisons`:
  - `std::equal` and `std::lexicographical_compare` as recursive functions on
    sequences.
  - A reference definition of lexicographic order, `LexLess`.
  - Lemmas:
    - the algorithm computes `LexLess`;
    - irreflexivity, asymmetry and transitivity under a strict weak ordering;
    - trichotomy under a total ordering;
    - a prefix is less;
    - integer examples.
- `scenarios.dfy`, module `Scenarios`: client code that drives the list
  through its public operations. Each method states the outcome it promises.

The element type's `operator<` is a parameter `less: (T, T) -> bool`. Its
`operator==` is Dafny equality.

## Model

| member | source | states |
|---|---|---|
| SingleLinkedLists.Node.Sentinel | single-linked-list/single-linked-list.h:12 | the defaulted `Node()` that serves as the sentinel: its `next_node` is null (the default member initialiser of line 18) |
| SingleLinkedLists.Node.constructor | single-linked-list/single-linked-list.h:13-16 | `Node(val, next)` stores the value and the link it is given |
| SingleLinkedLists.Iterator.Deref | single-linked-list/single-linked-list.h:89-92 | `operator*` on an iterator that is not `end()` (the source's `assert(node_)`) is the designated node's value |
| SingleLinkedLists.Iterator.Next | single-linked-list/single-linked-list.h:77-81 | prefix `operator++` on an iterator that is not `end()` moves to the node the designated one links to |
| SingleLinkedLists.SingleLinkedList.Valid | single-linked-list/single-linked-list.h:21-22 | the representation invariant of `head_` and `size_`: the chain from the sentinel links each node to the next and the last to null, has no repeated node, carries the elements, and `size_` is their number |
| SingleLinkedLists.SingleLinkedList.SetValue | single-linked-list/single-linked-list.h:89-92 | writing through the `Type&` that `operator*` returns replaces the designated element only; the chain and the count stay the same; writing at `before_begin()` leaves the elements as they are |
| SingleLinkedLists.SingleLinkedList.constructor | single-linked-list/single-linked-list.h:107 | a default-constructed list is valid and empty, and all its objects are new |
| SingleLinkedLists.SingleLinkedList.FromValues | single-linked-list/single-linked-list.h:109-112 | the initializer-list constructor gives a valid list holding exactly the given values in order, in new nodes |
| SingleLinkedLists.SingleLinkedList.Copy | single-linked-list/single-linked-list.h:114-117 | the copy constructor gives a valid list with the same elements in the same order, in new nodes |
| SingleLinkedLists.SingleLinkedList.BuildFromValues | single-linked-list/single-linked-list.h:26-30 | inserting each value after a cursor that follows the last inserted node builds a list of exactly those values in order, in new objects; the loop invariant is that the copy holds the prefix seen so far and the cursor is on its last node |
| SingleLinkedLists.SingleLinkedList.BuildFromList | single-linked-list/single-linked-list.h:26-30 | walking another list from `begin()` to `end()` with `operator++` and `operator*`, and inserting each element after the cursor, builds a valid list of new objects with the same elements, in order; the loop's termination measure is the number of elements not yet walked |
| SingleLinkedLists.SingleLinkedList.CreateFromValues | single-linked-list/single-linked-list.h:24-32 | after building the copy and swapping it in, the list is valid, holds exactly the values, and each of its real nodes is new |
| SingleLinkedLists.SingleLinkedList.CreateFromList | single-linked-list/single-linked-list.h:24-32 | after building a copy of another list and swapping it in, the list holds that list's elements, and each of its real nodes is new |
| SingleLinkedLists.SingleLinkedList.Assign | single-linked-list/single-linked-list.h:119-125 | `operator=`: the left side ends with the right side's elements; the right side is unchanged; self-assignment touches nothing; otherwise the left side's nodes are new and none is shared with the right side |
| SingleLinkedLists.SingleLinkedList.Swap | single-linked-list/single-linked-list.h:127-130 | exchanging the counts and the sentinels' links exchanges the elements and the real nodes of the two lists; both stay valid and apart, and each side takes over the other's node footprint |
| SingleLinkedLists.Swap | single-linked-list/single-linked-list.h:219-222 | the free `swap` exchanges the elements and the real nodes of its arguments |
| SingleLinkedLists.SingleLinkedList.PushFront | single-linked-list/single-linked-list.h:136-139 | the value becomes the first element before the old ones; the count grows by one; one new node is linked in after the sentinel, and the old nodes follow it |
| SingleLinkedLists.SingleLinkedList.PopFront | single-linked-list/single-linked-list.h:141-147 | on a non-empty list, the first element and its node are removed; the rest is unchanged and the count drops by one |
| SingleLinkedLists.SingleLinkedList.InsertAfter | single-linked-list/single-linked-list.h:149-154 | for any node of the list, the sentinel included, the value is inserted right after that node's position; the result is the iterator at the new element, which dereferences to the value; the count grows by one and the footprint gains only the new node |
| SingleLinkedLists.SingleLinkedList.EraseAfter | single-linked-list/single-linked-list.h:156-163 | the element after the position is removed along with its node; the result is the iterator at the following element, and it is `end()` exactly when the erased element was the last |
| SingleLinkedLists.SingleLinkedList.Clear | single-linked-list/single-linked-list.h:165-172 | the loop terminates with no elements, only the sentinel in the chain, `begin() == end()` and a count of zero; on an empty list nothing is modified |
| SingleLinkedLists.SingleLinkedList.GetSize | single-linked-list/single-linked-list.h:174-176 | the count is the number of elements |
| SingleLinkedLists.SingleLinkedList.IsEmpty | single-linked-list/single-linked-list.h:178-180 | true iff there are no elements, and iff the sentinel links to null |
| SingleLinkedLists.SingleLinkedList.Begin | single-linked-list/single-linked-list.h:182-184 | `begin()` is null iff the list is empty; otherwise it is a node of the list that dereferences to the first element; it is the position of element 0 |
| SingleLinkedLists.SingleLinkedList.End | single-linked-list/single-linked-list.h:186-188 | `end()` designates no node of the list |
| SingleLinkedLists.SingleLinkedList.BeforeBegin | single-linked-list/single-linked-list.h:206-208 | `before_begin()` designates the sentinel, the anchor at position 0, and `operator++` on it gives `begin()` |
| SingleLinkedLists.SingleLinkedList.IterStep | single-linked-list/single-linked-list.h:77-92 | the position of element `i` is a real node, `operator*` on it gives element `i`, and `operator++` on it gives the position of element `i + 1`; after the last element that is `end()` |
| SingleLinkedLists.SingleLinkedList.IterAtInjective | single-linked-list/single-linked-list.h:61-75 | equality by node identity tells positions apart: two positions of the list are equal iff their indices are |
| SingleLinkedLists.SingleLinkedList.SizeCountsNodes | single-linked-list/single-linked-list.h:21-22 | `size_` is the number of nodes reachable from the sentinel before null: following `next_node` from the first node reaches null after `size_` steps and after no other number |
| SingleLinkedLists.SingleLinkedList.Values | single-linked-list/single-linked-list.h:182-188 | walking `size_` nodes from `begin()` visits exactly the elements, in order |
| SingleLinkedLists.Equal | single-linked-list/single-linked-list.h:224-227 | `operator==` holds iff the two lists have the same elements in the same order |
| SingleLinkedLists.NotEqual | single-linked-list/single-linked-list.h:229-232 | `operator!=` holds iff the element sequences differ |
| SingleLinkedLists.Less | single-linked-list/single-linked-list.h:234-237 | `operator<` holds iff the element sequences are in lexicographic order by the reference definition |
| SingleLinkedLists.LessOrEqual | single-linked-list/single-linked-list.h:239-242 | `operator<=` holds iff `rhs` does not precede `lhs` lexicographically |
| SingleLinkedLists.Greater | single-linked-list/single-linked-list.h:244-247 | `operator>` holds iff `rhs` precedes `lhs` lexicographically |
| SingleLinkedLists.GreaterOrEqual | single-linked-list/single-linked-list.h:249-252 | `operator>=` holds iff `lhs` does not precede `rhs` lexicographically |
| SingleLinkedLists.LessIsStrictOrder | single-linked-list/single-linked-list.h:234-237 | with a strict weak ordering of the elements, `<` on lists is irreflexive, asymmetric and transitive |
| SingleLinkedLists.OperatorsAgree | single-linked-list/single-linked-list.h:224-252 | with a total ordering of the elements, exactly one of `<`, `==` and `>` holds; `<=` is `<` or `==`; `>=` is `>` or `==` |
| Comparisons.Equal | single-linked-list/single-linked-list.h:226 | `std::equal` over a range and a second range at least as long holds iff the first is a prefix of the second |
| Comparisons.LexicographicalCompareIsLexLess | single-linked-list/single-linked-list.h:236 | `std::lexicographical_compare` is true iff, after a common run of equivalent elements, either the first range ends while the second goes on, or the first range's element is ordered before the second's |
| Comparisons.LexLessIrreflexive | single-linked-list/single-linked-list.h:236 | with an irreflexive element order, no sequence is less than itself |
| Comparisons.LexLessAsymmetric | single-linked-list/single-linked-list.h:236 | with a strict weak ordering, of two sequences at most one is less than the other |
| Comparisons.LexLessTransitive | single-linked-list/single-linked-list.h:236 | with a strict weak ordering, lexicographic order is transitive |
| Comparisons.LexLessTrichotomous | single-linked-list/single-linked-list.h:236 | with a total ordering, two sequences are equal or one is less than the other |
| Comparisons.PrefixLess | single-linked-list/single-linked-list.h:236 | a proper prefix is less than the sequence it begins |
| Comparisons.LessRespectsEquivalence | single-linked-list/single-linked-list.h:236 | under a strict weak ordering, ordering an element before another carries over to elements equivalent to either one, and no two elements are ordered both ways |
| Comparisons.IntExamples | single-linked-list/single-linked-list.h:234-237 | for integers, `{} < {1}`, `{1, 2} < {1, 2, 3}`, `{1, 2, 3} < {1, 3}` and not `{1, 3} < {1, 2, 3}` |
| Scenarios.SwapTwice | single-linked-list/single-linked-list.h:219-222 | swapping twice gives both lists back their elements and their nodes |
| Scenarios.CopyIsIndependent | single-linked-list/single-linked-list.h:114-117 | a copy keeps its elements when the original is changed afterwards |
| Scenarios.OriginalIsIndependent | single-linked-list/single-linked-list.h:114-117 | pushing onto and clearing a copy leaves the original valid and with its elements |
| Scenarios.FrontRoundTrip | single-linked-list/single-linked-list.h:136-147 | on any non-empty list, `PopFront` followed by `PushFront` of the old front gives a list equal to a copy taken before, with the original size |
| Scenarios.EditAtFront | single-linked-list/single-linked-list.h:149-163 | on `{1, 2, 3}`, `EraseAfter(before_begin())` and then inserting 5 after the returned position give `{2, 5, 3}`, and the returned iterator dereferences to 5 |
| Scenarios.WriteThroughIterator | single-linked-list/single-linked-list.h:77-92 | on `{1, 2, 3}`, assigning 7 through `++begin()` gives `{1, 7, 3}` |
| Scenarios.ClearEmpties | single-linked-list/single-linked-list.h:165-180 | after `Clear` on `{1, 2, 3}`, the list is empty, `begin() == end()` and the size is 0 |
| Scenarios.EmptyFirst | single-linked-list/single-linked-list.h:229-237 | on real lists, `{} < {1}`, not `{1} < {}`, and `{} != {1}` |
| Scenarios.PrefixFirst | single-linked-list/single-linked-list.h:234-252 | on real lists, `{1, 2} < {1, 2, 3}`, `{1, 2} <= {1, 2, 3}`, and not `{1, 2} >= {1, 2, 3}` |
| Scenarios.LaterElementDecides | single-linked-list/single-linked-list.h:229-247 | on real lists, `{1, 2, 3} < {1, 3}`, `{1, 3} > {1, 2, 3}`, and the two differ |

## Left out

- `size_t` wrap-around: the count is a `nat`. A list cannot hold 2^64 nodes, so the overflow of `++size_` cannot happen.
- No allocation failure: `new` always succeeds here. No exceptions are modelled, so there is no question of exception safety.
- The destructor and `delete` are left out: Dafny has no explicit deallocation. A node that is "deleted" simply leaves the list's footprint `Repr()`, which every removing operation states.
- The constant iterators (`ConstIterator`, `cbegin`, `cend`, `cbefore_begin`, and the `const` overloads of `begin`, `end` and `before_begin`) are omitted. They designate the same nodes as the non-constant ones, so the model has one `Iterator` type.
- Also omitted for iterators:
  - `operator->`, which yields the address of the value instead of the value;
  - postfix `operator++`: it returns a copy taken before the prefix step, so its effect on the iterator is that of `Next()`.
- The `assert` guards become preconditions.
- `InsertAfter`, `EraseAfter`, `SetValue`: the position must be a node of the list being changed. The source relies on this without checking it.
- Writing through the reference `operator*` returns is the list method `SetValue`, not an assignment through the iterator alone. The iterator does not carry its list, whose record of the elements must change with the node. A direct write to `Node.value` by a client is outside the model.
- `SingleLinkedLists.SingleLinkedList.Swap`: where `other` is a different list, the precondition requires the two lists to share no objects. This holds in C++ because each list exclusively owns its nodes.
- `SingleLinkedLists.SingleLinkedList.Assign`: the same ownership precondition holds for `rhs`.
- `SingleLinkedLists.Swap`: the same ownership precondition holds for its two arguments.
- The element type's `operator==` is Dafny equality. A user-defined `operator==` that is not an equivalence is not modelled.
- The element type's `operator<` is an arbitrary function `less`. The properties that need it to be a strict weak or a total ordering say so in their preconditions.
- `CreateSingleLinkedList` is a template over any container with `begin()` and `end()`. The model gives its two uses:
  - a sequence of values (the initializer list);
  - another list.

  Each is split into building the copy (`BuildFromValues`, `BuildFromList`) and swapping it in (`CreateFromValues`, `CreateFromList`).
- The iterator's copy constructor and copy assignment are value copies of the datatype and need no member of their own.
