# container/list: a verified model

This project models Go's generic doubly-linked list (`list.go`): a list
is a ring of nodes threaded through a sentinel `root`. `root.next` is the
front node and `root.prev` the back node. Every node points back at the
list that owns it. A free-list `epool` of at most four nodes recycles
removed nodes for later pushes.

The model has three modules:

- `ListModel` (`list_model.dfy`) is the abstract view. A list is the
  sequence of its real nodes, front to back. Each pointer primitive of the
  source is a function on that sequence:
  - `InsertAt` for `insert`;
  - `RemoveAt` for `remove`;
  - `Relink` for `move`;
  - `PoolPush` for `poolElement`.

  The properties the operations promise are proved there, once, as lemmas.
  They cover uniqueness, permutation, round trips, where a moved node lands
  and the pool bound.
- `LinkedList` (`linked_list.dfy`) holds the heap-level classes `Element`
  and `List`. Their fields are the source's fields:
  - `next`, `prev`, `list` and `Value` on `Element`;
  - `root`, `len` and `epool` on `List`.

  Every method performs the source's field writes in the source's order. A
  `List` also carries a ghost sequence `elems` of its real nodes and a
  ghost footprint `Repr`. `Valid()` states the ring invariant:
  - the sentinel and every node in `elems` are linked both ways in sequence
    order;
  - every real node belongs to this list, and the sentinel to none;
  - `len == |elems|`;
  - the pool holds at most four distinct nodes, each with every pointer
    cleared.

  Each public operation is specified by what it does to `elems` and to
  `Values()`, the values held by those nodes. It is stated through the
  `ListModel` functions, so the lemmas there carry over.
- `Scenarios` (`scenarios.dfy`) contains client code:
  - the iteration loops of the package comment, forward and backward;
  - concrete runs of the operations, including self-splicing, recycling
    through the pool and the no-op paths.

  Each one is proved to produce its exact result.

## Model

| member | source | states |
|---|---|---|
| ListModel.IndexOf | list.go:158 | the position of a node that belongs to a list is an index holding that node |
| ListModel.IndexOfDistinct | list.go:16-21 | in a sequence without repeated nodes the position of a node is unique |
| ListModel.InsertAt | list.go:94-102 | linking after ring position k puts the node at index k, keeps the nodes before it and shifts the rest back by one |
| ListModel.RemoveAt | list.go:129-137 | unlinking drops exactly the node at index k; the others keep their order |
| ListModel.Relink | list.go:140-151 | moving a node keeps the length of the list |
| ListModel.PoolPush | list.go:104-110 | the pool grows by the offered node unless it already holds four, never exceeds four and keeps its earlier nodes |
| ListModel.InsertAtDistinct | list.go:94-102 | linking a node not yet in the ring keeps its nodes unique |
| ListModel.InsertAtFront | list.go:167-170 | linking after the sentinel prepends |
| ListModel.InsertAtBack | list.go:173-176 | linking after the back node appends |
| ListModel.InsertAtMultiset | list.go:94-102 | linking adds exactly the linked node, as a multiset |
| ListModel.RemoveAtDistinct | list.go:129-137 | unlinking keeps the nodes unique and the unlinked node is no longer in the ring |
| ListModel.RemoveAtMultiset | list.go:129-137 | unlinking removes exactly the unlinked node, as a multiset |
| ListModel.PoolPushDistinct | list.go:104-110 | offering a node not yet pooled keeps the pool free of duplicates |
| ListModel.RemoveInsertRoundTrip | list.go:129-137 | removing a node just inserted gives back the original sequence |
| ListModel.InsertRemoveRoundTrip | list.go:94-102 | linking a removed node back at its old place gives back the original sequence |
| ListModel.RelinkInPlace | list.go:141-143 | moving a node after itself, or after its own predecessor, changes nothing |
| ListModel.RelinkAt | list.go:144-150 | each index of the moved sequence holds a node of the old one, as chosen by RelinkSource |
| ListModel.RelinkPermutes | list.go:140-151 | a move is a permutation: same multiset of nodes, still without repeats |
| ListModel.RelinkPlacesAfter | list.go:147-150 | after a move the node sits directly behind its anchor, or at the front when the anchor is the sentinel |
| ListModel.RelinkAnchor | list.go:144-148 | the anchor keeps its identity once the moved node is unlinked |
| ListModel.RelinkKeepsOthers | list.go:144-145 | apart from the moved node, the relative order of all nodes is unchanged |
| ListModel.RelinkPlacesBefore | list.go:225-230 | moving after the predecessor of a different node puts the moved node directly in front of that node |
| ListModel.RelinkToFront | list.go:203-209 | moving after the sentinel makes the node the front and keeps the others in order |
| ListModel.RelinkToBack | list.go:214-220 | moving after the back node makes the node the back and keeps the others in order |
| LinkedList.ValuesOf | list.go:26-27 | the values of a node sequence are read index by index |
| LinkedList.ValuesOfInsert | list.go:122-126 | after a link the values are the old values with the new node's value inserted at the same index |
| LinkedList.ValuesOfRemove | list.go:129-137 | after an unlink the values are the old values with the same index removed |
| LinkedList.ValuesOfRelink | list.go:140-151 | values travel with their nodes through a move |
| LinkedList.Element.constructor | list.go:114 | a new node is detached: no neighbours and no owning list |
| LinkedList.Element.Next | list.go:31-36 | a detached node has no next; a non-null result is the next pointer and never the sentinel |
| LinkedList.Element.Prev | list.go:39-44 | a detached node has no prev; a non-null result is the prev pointer and never the sentinel |
| LinkedList.List.constructor | list.go:64 | New gives a valid, empty list with an empty pool |
| LinkedList.List.Init | list.go:55-61 | Init returns the list itself, now valid, empty, with length 0 and an empty pool |
| LinkedList.List.Len | list.go:68 | the length counter equals the number of real nodes |
| LinkedList.List.Front | list.go:71-76 | Front is null exactly when the list is empty, and otherwise the first node |
| LinkedList.List.Back | list.go:79-84 | Back is null exactly when the list is empty, and otherwise the last node |
| LinkedList.List.NextOf | list.go:31-36 | on a node of a valid list, Next gives the following node and null at the back |
| LinkedList.List.PrevOf | list.go:39-44 | on a node of a valid list, Prev gives the preceding node and null at the front |
| LinkedList.List.SameTail | list.go:16-21 | two indices holding the same node have the same successors step by step |
| LinkedList.List.RingDistinct | list.go:16-21 | the ring visits every real node once |
| LinkedList.List.RingLinksBothWays | list.go:16-21 | every node of the ring, sentinel included, is the prev of its next and the next of its prev |
| LinkedList.List.ForwardRing | list.go:16-21 | following next from the sentinel visits the len real nodes in order and then returns to the sentinel |
| LinkedList.List.BackwardRing | list.go:16-21 | following prev from the sentinel visits the real nodes back to front and then returns to the sentinel |
| LinkedList.List.ForwardSteps | list.go:16-21 | k steps along next from the sentinel reach the node at index k - 1 |
| LinkedList.List.BackwardSteps | list.go:16-21 | k steps along prev from the sentinel reach the node at index len - k |
| LinkedList.List.AnchorLinks | list.go:94-98 | the anchor of a link and its successor point at each other |
| LinkedList.List.PoolDetached | list.go:104-110 | pooled nodes are neither the sentinel nor in the ring |
| LinkedList.List.link | list.go:95-98 | the four pointer writes of insert put the node into the ring at the anchor's position |
| LinkedList.List.insert | list.go:94-102 | insert links the node after its anchor, claims it for this list, increments len and returns the node |
| LinkedList.List.poolElement | list.go:104-110 | the pool becomes PoolPush of the old pool |
| LinkedList.List.newElement | list.go:112-119 | newElement returns the last pooled node and shrinks the pool, or a fresh node when the pool is empty; the node is detached |
| LinkedList.List.insertValue | list.go:122-126 | the list gains one node holding v at the anchor's position, taken from the pool if it has one; the other nodes keep their values |
| LinkedList.List.unlink | list.go:130-131 | the neighbours of the node now point at each other and the node leaves the ring |
| LinkedList.List.remove | list.go:129-137 | the node leaves the ring with its pointers cleared and is offered to the pool, and len decrements |
| LinkedList.List.move | list.go:140-151 | the node is moved behind its anchor; moving it behind itself changes nothing |
| LinkedList.List.Remove | list.go:157-164 | a node of this list is unlinked, cleared and offered to the pool, with its value removed from the list's values; any other node changes nothing; either way its value is returned |
| LinkedList.List.PushFront | list.go:167-170 | the list gains a front node holding v, taken from the pool or fresh; the old nodes follow it unchanged |
| LinkedList.List.PushBack | list.go:173-176 | the list gains a back node holding v, taken from the pool or fresh; the old nodes precede it unchanged |
| LinkedList.List.InsertBefore | list.go:181-187 | for a mark of this list, a node holding v appears directly in front of it; otherwise null is returned and nothing changes |
| LinkedList.List.InsertAfter | list.go:192-198 | for a mark of this list, a node holding v appears directly behind it; otherwise null is returned and nothing changes |
| LinkedList.List.relocate | list.go:140-151 | a move keeps the footprint and the pool and moves each value with its node |
| LinkedList.List.MoveToFront | list.go:203-209 | a node of this list becomes the front, the others keeping their order; any other node changes nothing |
| LinkedList.List.MoveToBack | list.go:214-220 | a node of this list becomes the back, the others keeping their order; any other node changes nothing |
| LinkedList.List.MoveBefore | list.go:225-230 | when both nodes belong to this list and differ, e ends up directly in front of mark; otherwise nothing changes |
| LinkedList.List.MoveAfter | list.go:235-240 | when both nodes belong to this list and differ, e ends up directly behind mark; otherwise nothing changes |
| LinkedList.List.LinkedBehind | list.go:239 | after moving a node behind mark, mark links forward to it |
| LinkedList.List.Adjacent | list.go:16-21 | neighbouring nodes of the sequence are linked to each other both ways |
| LinkedList.List.PushBackList | list.go:244-249 | the values of other, copied in order, follow the old values; the old nodes stay in front; a separate other is left untouched; the list may be spliced onto itself |
| LinkedList.List.copyToBack | list.go:246-247 | one round of the back walk over the list itself appends the next original value |
| LinkedList.List.copyBackSelf | list.go:246-247 | the back walk over the list itself doubles its values |
| LinkedList.List.copyToBackFrom | list.go:246-247 | one round of the back walk over another list appends its next value and leaves that list alone |
| LinkedList.List.copyBackFrom | list.go:246-247 | the back walk over another list appends all its values |
| LinkedList.List.PushFrontList | list.go:253-258 | the values of other, copied in order, precede the old values; the old nodes stay behind them; a separate other is left untouched; the list may be spliced onto itself |
| LinkedList.List.copyToFront | list.go:255-256 | one round of the front walk over the list itself prepends the previous original value |
| LinkedList.List.copyFrontSelf | list.go:255-256 | the front walk over the list itself puts a copy of its values in front of them |
| LinkedList.List.copyToFrontFrom | list.go:255-256 | one round of the front walk over another list prepends its previous value and leaves that list alone |
| LinkedList.List.copyFrontFrom | list.go:255-256 | the front walk over another list puts all its values, in order, in front of the old ones |
| Scenarios.ValuesForward | list.go:7-11 | the documented forward iteration with Front and Next yields exactly the list's values |
| Scenarios.ValuesBackward | list.go:39-44 | iterating from Back with Prev yields the values in reverse |
| Scenarios.PushThree | list.go:173-176 | pushing 1, 2, 3 at the back gives 1, 2, 3 with length 3, front value 1 and back value 3 |
| Scenarios.ReversedOf | list.go:167-170 | pushing values at the front one by one gives them in reverse |
| Scenarios.PushFrontThree | list.go:167-170 | pushing 1, 2, 3 at the front reads 3, 2, 1 forwards and 1, 2, 3 backwards |
| Scenarios.MoveBackToFront | list.go:203-209 | moving the back of 1, 2, 3 to the front gives 3, 1, 2 with length 3 |
| Scenarios.RemoveAfterMove | list.go:157-164 | removing a node gives the remaining values and length; removing it again changes nothing |
| Scenarios.RemoveMiddle | list.go:157-164 | removing the middle of 1, 2, 3 returns 2, leaves 1, 3 and pools the detached node |
| Scenarios.RemoveTwice | list.go:157-164 | a second Remove of a removed node still returns its value and leaves the list alone |
| Scenarios.Recycle | list.go:116-117 | the next push reuses the node just removed |
| Scenarios.ListOf | list.go:173-176 | pushing values at the back one by one gives them in order |
| Scenarios.Splice | list.go:244-249 | splicing 9 behind 1, 2 gives 1, 2, 9 and leaves the other list holding 9 |
| Scenarios.SpliceFront | list.go:253-258 | splicing 1, 2 in front of 9 gives 1, 2, 9 |
| Scenarios.SelfSpliceBack | list.go:244-249 | splicing 1, 2 onto its own back gives 1, 2, 1, 2 |
| Scenarios.SelfSpliceFront | list.go:253-258 | splicing 1, 2 onto its own front gives 1, 2, 1, 2 |
| Scenarios.InsertBeforeMiddle | list.go:181-187 | inserting 5 before the middle of 1, 2, 3 gives 1, 5, 2, 3 |
| Scenarios.AroundMark | list.go:192-198 | inserting 4 after that mark then gives 1, 5, 2, 4, 3 |
| Scenarios.MoveBackBeforeFront | list.go:225-230 | moving the back of 1, 2, 3 before the front gives 3, 1, 2 |
| Scenarios.MovedAfterMiddle | list.go:235-240 | moving the front of 1, 2, 3 behind the middle gives 2, 1, 3 |
| Scenarios.MoveFrontAfterMiddle | list.go:236-238 | moving a node behind itself changes nothing |
| Scenarios.RemoveAll | list.go:157-164 | removing the front until Front is null empties the list |
| Scenarios.PushAll | list.go:173-176 | pushing values at the back, with pooled nodes or fresh ones, appends exactly those values |
| Scenarios.RecyclingTransparent | list.go:112-119 | a list emptied and refilled through the pool reads the same as a new list given the same pushes |
| Scenarios.PushRemove | list.go:157-164 | pushing a value and removing its node restores the values and returns that value |

## Left out

- Concurrency and memory reclamation are not modelled; the source does not synchronise.
- nil arguments are not modelled. `Element` and `List` arguments have non-null types here, and the source documents that they must not be nil.
- The zero-value `List` and `lazyInit` (list.go:87-91) are not modelled. A list can only be made with the constructor, which already builds the ring. So the `lazyInit` call at the start of PushFront, PushBack, PushBackList and PushFrontList has nothing to do.
- The sentinel `root` is a separate node, held in a constant field, rather than a struct embedded in the list. Only its address, `next` and `prev` matter.
- LinkedList.List.Init: it clears the list and the pool exactly as the source does. Nodes that were in the list keep their stale back-reference. After Init such nodes are outside the model's invariant, so the operations that take a node rule them out (see below).
- LinkedList.List.Remove: requires that a node pointing back at this list is one of its current nodes. The source also accepts a node that `Init` has orphaned; running the pointer writes on such a node corrupts the ring.
- LinkedList.List.InsertBefore: needs the same membership precondition for `mark`.
- LinkedList.List.InsertAfter: needs the same membership precondition for `mark`.
- LinkedList.List.MoveToFront: needs the same membership precondition for `e`.
- LinkedList.List.MoveToBack: needs the same membership precondition for `e`.
- LinkedList.List.MoveBefore: needs the same membership precondition for `e` and `mark`.
- LinkedList.List.MoveAfter: needs the same membership precondition for `e` and `mark`.
- LinkedList.List.PushBackList: requires that `other` is this list or shares no node with it. Two distinct valid lists never share a node. The precondition states this because the model has no global invariant over all lists.
- LinkedList.List.PushFrontList: same disjointness requirement as PushBackList.
- Reusing a node after Remove is not modelled: the node may come back from the pool as a new node. Scenarios.Recycle shows the reuse itself.
- The `any` result type of Remove is modelled as the element type `E`, the type of the value it returns.
- The element type must have a default value (`E(0)`), standing for Go's zero value in a fresh node.
- `len` is an unbounded integer rather than Go's machine `int`. A list long enough to overflow it cannot exist in memory.
- The walks of PushBackList and PushFrontList are split into two loops, one for `other == this` and one for another list. Each round of a loop is a separate method (copyToBack, copyToBackFrom, copyToFront, copyToFrontFrom) over the same field writes as the source loop.
- Several operations take ghost index parameters naming the positions of their nodes: link, insert, insertValue, unlink, remove, move and relocate. Ghost parameters leave no trace in compiled code.
