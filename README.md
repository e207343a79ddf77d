# clist: an intrusive doubly-linked list, modelled in Dafny

`clist` is a small C library with three types:

- `cl_node_t` is a node. It holds an opaque payload (`void*`) and links to its previous and next nodes.
- `cl_t` is a list. It keeps a front node, a back node and a count over a chain of such nodes. Nodes can be pushed and popped at either end, searched with a predicate and sorted with a comparator.
- `csl_t` is a sorted list. It is a `cl_t` plus the comparator it was allocated with, and every insertion goes to its ordered place.

The comparator `greater_than(a, b)` and the search predicate return a C `int`, and nonzero means "yes".

The model keeps the library's own shape:

- `CList.Node` is a class with a constant payload and two mutable links. The payload is a value of a type parameter `T(!new)`. The list never dereferences the `void*`, so a payload is compared, searched and returned but never followed.
- `CList.List` is a class with the fields `front`, `back` and `count`. Its ghost state has three parts:
  - the node sequence `Nodes`, front to back;
  - the payloads `Contents`;
  - the footprint `Repr`, which is the list object plus exactly its member nodes.
- `List.Valid()` is the list invariant:
  - the count is the chain length;
  - the front has no previous node and the back has no next node;
  - between them, `next` and `prev` are mutual inverses that follow the order of `Nodes`.
- A popped node leaves `Repr`, so a caller may push it onto another list. This is how the pops and pushes hand a node from one list to another.
- The push, insert, pop and destroy methods of both lists state the whole new abstract state in terms of the old one: the node sequence, the payloads and the footprint. For example, `PushFront` gives `Nodes == [n] + old(Nodes)`, and `InsertOrdered` gives `Contents == InsertSorted(...)` together with the node inserted at `InsertionPoint(...)`. `Sort` states the payload sequence exactly and the nodes as a multiset.
- `ListSpec` holds the pure side: the comparator conventions, the insertion point, insertion sort as `SortedBy`, and first-match search. It also holds the lemmas that sorting permutes its input and leaves no adjacent pair out of order, and that a sorted insertion keeps a sorted sequence sorted.
- `CSortedList.SortedList` wraps a `List` and its comparator. Its invariant adds that no adjacent pair of payloads is out of order whenever the comparator is asymmetric (never both `a > b` and `b > a`). The front payload is the least and the back payload the greatest only when "not greater" is also transitive (`FrontIsLeast`, `BackIsGreatest`). A cyclic comparator such as rock-paper-scissors is asymmetric, and inserting into it can leave the front greater than a later payload.
- `ListClients` holds programs written against the interface:
  - `cl_empl_back` followed by `cl_popd_front` is first in, first out.
  - `cl_empl_front` followed by `cl_popd_back` is also first in, first out. The two ends are used the other way round, but the order of the payloads is the same.
  - Last in, first out comes from pushing and popping at the same end (`StackFront`).
  - Three small concrete scenarios:
    - sorted inserts of 5, 1 and 3 give 1, 3, 5;
    - sorting 3, 1, 2 gives 1, 2, 3;
    - searching 1, 2, 3 for an even payload gives the node holding 2.
  - A fourth scenario inserts 2, 0, 1 under the cyclic comparator `Beats`. The result 1, 2, 0 has no adjacent pair out of order, yet its front beats its back.

Decisions where the interface leaves room:

- `cl_sort` and `csl_insert` put a new element in front of the first element that is greater than it. Elements it ties with therefore stay in front of it. The sort is insertion sort: every node is popped from the front and inserted in order into a fresh chain, which the list then takes over.
- Sortedness is stated as "no adjacent pair `(a, b)` has `greater_than(a, b)` nonzero". This needs an asymmetric comparator. `ListSpec.AdjSortedIsSorted` extends it to every pair when "not greater" is transitive.
- `csl_alloc` takes its comparator as an `Option`. `None` stands for NULL and yields no sorted list.
- Allocation always succeeds.
- A popped node has both its links cleared.

## Model

| member | source | states |
|---|---|---|
| CList.Node.constructor | include/clist/clist.h:22-24 | `cl_alloc_node`: a new node holds the given payload and has no neighbours |
| CList.List.constructor | include/clist/clist.h:43-44 | `cl_alloc`: a new list is valid and empty, and owns only itself |
| CList.List.Size | include/clist/clist.h:46-47 | `cl_size` equals the number of nodes in the chain and of payloads |
| CList.List.IsEmpty | include/clist/clist.h:92-93 | `cl_is_empty` holds exactly when the size is zero, that is, when there are no payloads |
| CList.List.PeekFront | include/clist/clist.h:49-50 | `cl_peek_front` is absent exactly for an empty list; otherwise it is the first node, holding the first payload |
| CList.List.PeekBack | include/clist/clist.h:52-53 | `cl_peek_back` is absent exactly for an empty list; otherwise it is the last node, holding the last payload |
| CList.List.Valid | include/clist/clist.h:10-17 | the list invariant: the count is the chain length, the ends have no outer links, `next` and `prev` follow the node sequence both ways, and the footprint is the list and exactly its nodes |
| CList.List.EndsAreUnique | include/clist/clist.h:26-30 | in a valid list, a member's `next` is absent exactly for the back and its `prev` exactly for the front; otherwise they are its neighbours in sequence order |
| CList.List.Next | include/clist/clist.h:26-27 | `cl_next` is absent exactly when the node is the back; otherwise it is the node after it in the sequence |
| CList.List.Prev | include/clist/clist.h:29-30 | `cl_prev` is absent exactly when the node is the front; otherwise it is the node before it in the sequence |
| CList.List.NextPrevInverse | include/clist/clist.h:26-30 | `cl_prev` of `cl_next` of a node other than the back is that node, and `cl_next` of `cl_prev` of a node other than the front is that node |
| CList.Data | include/clist/clist.h:32-33 | `cl_data` reads the payload of any node, in a list or not; it has no `ensures`, and its meaning inside a list is `DataAtPosition` |
| CList.List.DataAtPosition | include/clist/clist.h:32-33 | for a member node, `cl_data` is the payload at the node's position in the sequence |
| CList.List.PushFront | include/clist/clist.h:64-66 | `cl_push_front` prepends the node; on an empty list it becomes both front and back; the rest of the sequence and its order are unchanged |
| CList.List.PushBack | include/clist/clist.h:68-70 | `cl_push_back` appends the node; on an empty list it becomes both front and back; the rest of the sequence and its order are unchanged |
| CList.List.EmplFront | include/clist/clist.h:72-74 | `cl_empl_front` prepends the payload in a fresh node |
| CList.List.EmplBack | include/clist/clist.h:76-78 | `cl_empl_back` appends the payload in a fresh node |
| CList.List.PopFront | include/clist/clist.h:86-87 | `cl_pop_front` returns absent, changing nothing, on an empty list; otherwise it detaches and returns the front node, leaving the rest of the sequence and no longer owning that node |
| CList.List.PopBack | include/clist/clist.h:80-81 | `cl_pop_back` returns absent, changing nothing, on an empty list; otherwise it detaches and returns the back node, leaving the rest of the sequence and no longer owning that node |
| CList.List.PopdFront | include/clist/clist.h:89-90 | `cl_popd_front` returns the front payload (absent for an empty list); the node sequence, the payloads and the footprint each lose exactly their first entry |
| CList.List.PopdBack | include/clist/clist.h:83-84 | `cl_popd_back` returns the back payload (absent for an empty list); the node sequence, the payloads and the footprint each lose exactly their last entry |
| CList.List.Foreach | include/clist/clist.h:60-62 | `cl_foreach` hands the callback exactly the payloads front to back, `cl_size` of them |
| CList.List.Find | include/clist/clist.h:98-100 | `cl_find` is absent exactly when no payload matches; otherwise it is a member node whose payload matches, namely the first one front to back |
| CList.Node.LinkBetween | include/clist/clist.h:106-108 | the relink step of the ordered insert: the node points back to p and on to e, p and e point to it, and p's `prev` and e's `next` are untouched |
| CList.List.InsertBefore | include/clist/clist.h:106-108 | attaching a node in front of the node at position k, or at the back, inserts it at position k of the sequence with everything else unchanged |
| CList.List.SpliceBefore | include/clist/clist.h:106-108 | relinking a node between two interior neighbours inserts it at that position of the sequence |
| CList.List.InsertOrdered | include/clist/clist.h:106-108 | the ordered insert walks from the front to the first element greater than the new one and attaches the node there, giving `InsertSorted` of the old payloads |
| CList.List.MoveFrontOrdered | include/clist/clist.h:95-96 | one sort step moves the front node of one list to its ordered place in another |
| CList.List.SortStep | include/clist/clist.h:95-96 | a sort step keeps the pending sorted result, the node multiset and the shared footprint unchanged, and shrinks the unsorted part |
| CList.List.Sort | include/clist/clist.h:95-96 | `cl_sort` leaves the list with the same nodes and footprint, with its payloads in insertion-sorted order, as a permutation of the old payloads, and, for an asymmetric comparator, with no adjacent pair out of order |
| CList.List.TakeChain | include/clist/clist.h:95-96 | the sorted chain is handed back to the original list object |
| CList.List.Destroy | include/clist/clist.h:55-58 | `cl_destroy` removes every node and leaves each one detached; the payloads are not inspected |
| ListSpec.FirstMatch | include/clist/clist.h:98-100 | the first matching index: no earlier payload matches, and the payload at it matches unless it is past the end |
| ListSpec.InsertionPoint | include/clist/clist.h:106-111 | the ordered insertion position: no element before it is greater than the new one, and the element at it is |
| ListSpec.InsertSortedPermutation | include/clist/clist.h:106-111 | an ordered insert adds exactly the new element and loses none |
| ListSpec.InsertSortedKeepsOrder | include/clist/clist.h:106-111 | for an asymmetric comparator, an ordered insert into a sequence with no adjacent pair out of order keeps it so |
| ListSpec.InsertAllPermutation | include/clist/clist.h:95-96 | inserting a sequence element by element yields a permutation of both sequences together |
| ListSpec.InsertAllKeepsOrder | include/clist/clist.h:95-96 | inserting element by element into a sorted sequence keeps it sorted |
| ListSpec.SortedBySortsAndPermutes | include/clist/clist.h:95-96 | sorting keeps the multiset and the length; for an asymmetric comparator, no adjacent pair of the result is out of order |
| ListSpec.AdjSortedIsSorted | include/clist/clist.h:95-96 | when "not greater" is transitive, adjacent order implies that every pair is in order |
| CSortedList.AdjSortedEnds | include/clist/clist.h:136-146 | removing the front or the back of a sorted sequence leaves it sorted |
| CSortedList.SortedList.Valid | include/clist/clist.h:106-116 | the sorted-list invariant: the underlying list is valid and owned, and under an asymmetric comparator no adjacent pair of payloads is out of order |
| CSortedList.SortedList.FrontIsLeast | include/clist/clist.h:121-122 | with an asymmetric comparator whose "not greater" is transitive, the front payload is greater than no payload |
| CSortedList.SortedList.BackIsGreatest | include/clist/clist.h:124-125 | under the same conditions, no payload is greater than the back payload |
| CSortedList.SortedList.constructor | include/clist/clist.h:113-116 | a new sorted list is valid, empty and keeps the comparator |
| CSortedList.SortedList.Alloc | include/clist/clist.h:113-116 | `csl_alloc` returns no list exactly when the comparator is NULL; otherwise a valid, empty list with that comparator |
| CSortedList.SortedList.Size | include/clist/clist.h:118-119 | `csl_size` is the number of payloads |
| CSortedList.SortedList.IsEmpty | include/clist/clist.h:148-149 | `csl_is_empty` holds exactly when the size is zero |
| CSortedList.SortedList.PeekFront | include/clist/clist.h:121-122 | `csl_peek_front` is absent exactly on an empty list; otherwise it is the front node of the underlying list, holding the first payload |
| CSortedList.SortedList.PeekBack | include/clist/clist.h:124-125 | `csl_peek_back` is absent exactly on an empty list; otherwise it is the back node of the underlying list, holding the last payload |
| CSortedList.SortedList.Insert | include/clist/clist.h:106-108 | `csl_insert` with a NULL node changes nothing; otherwise it puts the node at the ordered insertion point of the node sequence, its payload at the same place of the payloads, adds exactly that node to the footprint, and under an asymmetric comparator keeps adjacent pairs in order |
| CSortedList.SortedList.InsertData | include/clist/clist.h:110-111 | `csl_insertd` puts a fresh node holding the payload at the ordered insertion point of the node sequence, adds exactly that node to the footprint, and under an asymmetric comparator keeps adjacent pairs in order |
| CSortedList.SortedList.PopFront | include/clist/clist.h:142-143 | `csl_pop_front` returns absent, changing nothing, on an empty list; otherwise it detaches and returns the front node, and the node sequence, the payloads and the footprint lose exactly it; the rest stays in order |
| CSortedList.SortedList.PopBack | include/clist/clist.h:136-137 | `csl_pop_back` returns absent, changing nothing, on an empty list; otherwise it detaches and returns the back node, and the node sequence, the payloads and the footprint lose exactly it; the rest stays in order |
| CSortedList.SortedList.PopdFront | include/clist/clist.h:145-146 | `csl_popd_front` returns the front payload (absent for an empty list); the node sequence, the payloads and the footprint each lose exactly their first entry |
| CSortedList.SortedList.PopdBack | include/clist/clist.h:139-140 | `csl_popd_back` returns the back payload (absent for an empty list); the node sequence, the payloads and the footprint each lose exactly their last entry |
| CSortedList.SortedList.Find | include/clist/clist.h:151-153 | `csl_find` is absent exactly when nothing matches; otherwise it is the first matching node, front to back |
| CSortedList.SortedList.Foreach | include/clist/clist.h:132-134 | `csl_foreach` visits exactly the payloads, front to back |
| CSortedList.SortedList.Destroy | include/clist/clist.h:127-130 | `csl_destroy` leaves no nodes and no payloads, keeps only the list objects themselves, and leaves every former node detached |
| ListClients.FillBack | include/clist/clist.h:76-78 | repeated `cl_empl_back` yields a list holding the payloads in push order |
| ListClients.FillFront | include/clist/clist.h:72-74 | repeated `cl_empl_front` yields a list holding the payloads in reverse push order |
| ListClients.DrainFront | include/clist/clist.h:89-90 | repeated `cl_popd_front` yields the payloads front to back and empties the list |
| ListClients.DrainBack | include/clist/clist.h:83-84 | repeated `cl_popd_back` yields the payloads back to front and empties the list |
| ListClients.QueueBackFront | include/clist/clist.h:76-90 | pushing at the back and popping at the front returns the payloads in the order they went in |
| ListClients.QueueFrontBack | include/clist/clist.h:72-84 | pushing at the front and popping at the back also returns the payloads in the order they went in |
| ListClients.StackFront | include/clist/clist.h:72-90 | pushing and popping at the front returns the payloads in reverse order |
| ListClients.SortedInsertScenario | include/clist/clist.h:106-111 | inserting 5, 1, 3 into an empty sorted list of integers leaves 1, 3, 5 |
| ListClients.SortScenario | include/clist/clist.h:95-96 | sorting the list 3, 1, 2 gives 1, 2, 3 |
| ListClients.BeatsAsymmetric | include/clist/clist.h:106-108 | the rock-paper-scissors comparator `Beats` never answers yes both ways |
| ListClients.CyclicInsertScenario | include/clist/clist.h:106-111 | inserting 2, 0, 1 into a sorted list under `Beats` leaves 1, 2, 0: adjacent pairs are in order, but the front payload beats the back one |
| ListClients.FindScenario | include/clist/clist.h:86-100 | searching 1, 2, 3 for an even payload finds the node holding 2; popping an empty list yields nothing |

## Left out

- Allocation failure in `cl_alloc_node`, `cl_alloc`, `cl_empl_*`, `csl_insertd` and `csl_alloc`. Allocation always succeeds, because the model has no allocator that can run out of memory.
- `cl_destroy_node`, and freeing memory in general. The model has no explicit heap release. A node that has been popped is simply no longer owned by any list.
- The destroyer callbacks of `cl_destroy` and `csl_destroy`. They are modelled only as "every node removed, payload not inspected", because what a callback does to a payload is outside the list.
- The `use_data` callback of `cl_foreach` and `csl_foreach`. It is modelled as the sequence of payloads it would receive, in order. Its side effects are not modelled.
- Raw pointer misuse is not modelled as behaviour. A NULL list handle and a node that already belongs to the same list are excluded by `requires` clauses: a valid list, and a node outside that list's footprint. A node that still belongs to a different list is not excluded, since the model tracks one list's footprint per call. The push or insert succeeds on this list, and the other list's `Valid()` is no longer guaranteed. In one case both lists stay valid while sharing the node: the node is the only node of its list and goes into an empty list. The header's ownership rules forbid that sharing, and the model does not rule it out. Callbacks are pure functions here, so a callback that restructures the list during a traversal cannot be expressed.
- The O(1) cost of the endpoint operations and of `cl_is_empty`, because the verifier does not check running time.
- CList.List.Sort: does not promise stability or an O(n log n) bound. The header states neither, and complexity is outside what the verifier checks. The modelled sort is insertion sort, and its ordered insert keeps ties in their original order, but no lemma states stability.
- CSortedList.SortedList.Valid: sortedness is promised only for an asymmetric comparator. For other comparators no order exists to keep, and the model makes no claim. Even for an asymmetric one, only adjacent pairs are promised to be in order; every pair is in order only when "not greater" is transitive.
- CList.List.Sort: states the nodes after the sort only as a multiset of the old nodes, not which node lands at which position; the payload sequence is stated exactly.
- The `extern "C"` wrapper and the include guard, because they carry no behaviour.
- `size_t` and `int` widths. Sizes are unbounded naturals and comparator results are unbounded integers, because no list can reach `SIZE_MAX` nodes, and only zero versus nonzero matters for the comparator and the predicate.
- The header does not say where a new element goes among the elements it ties with. The model puts it after them: in front of the first element greater than it. Placing it in front of equal elements instead is not modelled.
