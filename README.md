# A singly linked stack with three cursors, in Dafny

This project models `src/ok_list.rs`, a generic singly linked stack `List<T>`.
The list owns a chain of heap nodes. Each node holds one element and the link
to its successor. `push` and `pop` work at the head only, and `peek` and
`peek_mut` expose the head element. `Drop` tears the chain down one node at a
time. Three cursors walk the chain. `IntoIter` owns the list and pops it.
`Iter` yields the elements read-only. `IterMut` yields mutable references to
the elements.

The model is imperative, like the source:

- `Node<T>` is a class with the fields `elem` and `next` (null where the source
  has `None`).
- `List<T>` is a class with the field `head`. Two ghost fields form its public
  view: `Contents`, the elements head to tail, and `spine`, the owned nodes
  head to tail.
- `List.Valid()` says that `spine` is the chain reachable from `head`, and
  that node `i` holds element `i` of `Contents`. "Reachable" is the predicate
  `Chain(link, spine)`, the model of `Link<T>` at `src/ok_list.rs:3-12`:
  `link` is the first node of `spine` (null for the empty chain), each node's
  `next` is its successor, and the last node's `next` is null.
- Every operation is specified by how it changes `Contents`. `push` prepends
  and `pop` removes the first element.
- `Chain` by itself makes the chain acyclic and gives each node a single
  owner, which is proved as lemmas (`ChainUnique`, `ChainDistinct`).
- The cursors `Iter` and `IterMut` hold the source's `next` link, a ghost
  reference to the list and a ghost position `pos`. Their `Valid()` says
  that `next` starts the chain of the nodes from `pos` on. What a cursor has
  still to yield is `Contents[pos..]`, a suffix of the list's contents.
- A `&mut T` handed out by `peek_mut` or `IterMut::next` is modelled as the
  node whose `elem` it points into. The write `*r = v` through it is the
  method `WriteThrough`, which changes only that node's `elem` and that one
  position of `Contents`. Links are not touched, so a cursor walking the
  list stays valid across such writes.

The unit tests of the source (lines 140-249) are restated in module
`OkListScenarios` as methods with concrete postconditions. Beside them are the
general properties those tests are instances of: LIFO order for any sequence
of pushes, `push` then `pop` as a round trip, the three traversals yielding
the contents head to tail, and writing through every reference `iter_mut`
hands out. The tests' common set-up is shared: `OneTwoThree` pushes 1, 2, 3
as at lines 212-215, 226-229 and 239-242. `PeekOpening` is the identical
opening of the tests `peek` (lines 177-185) and `peek_mut` (lines 190-198).

Files: `ok_list.dfy` (module `OkList`), `scenarios.dfy` (module `OkListScenarios`).

## Model

| member | source | states |
|---|---|---|
| `OkList.Node.constructor` | src/ok_list.rs:7-10 | a node holds the given element and link |
| `OkList.ChainUnique` | src/ok_list.rs:3-12 | the chain of nodes reachable from a link is uniquely determined by the heap |
| `OkList.ChainDistinct` | src/ok_list.rs:3-12 | no node occurs twice in a chain: the chain is acyclic and no node has two owners |
| `OkList.List.constructor` | src/ok_list.rs:37-39 | `new` yields a valid list with no nodes and empty contents |
| `OkList.List.Push` | src/ok_list.rs:41-50 | contents become `[x] + old contents`; the head is a fresh node and the old nodes follow it in order |
| `OkList.List.Pop` | src/ok_list.rs:67-72 | on an empty list returns None and stays empty; otherwise returns the old head element and leaves exactly `old contents[1..]` and the old nodes minus the first |
| `OkList.List.Peek` | src/ok_list.rs:76-80 | None exactly when the list is empty, otherwise the head element; changes nothing |
| `OkList.List.PeekMut` | src/ok_list.rs:84-86 | None exactly when the list is empty, otherwise the head node, which holds the head element; changes nothing |
| `OkList.WriteThrough` | src/ok_list.rs:204 | a write through a reference into node `k` changes only that node's element and position `k` of the contents, and keeps the list valid with the same nodes, links and head |
| `OkList.List.IntoIter` | src/ok_list.rs:88-90 | the consuming cursor takes over this list, and what it will yield is the whole contents |
| `OkList.List.Iter` | src/ok_list.rs:92-96 | a fresh read-only cursor at position 0, about to yield the whole contents |
| `OkList.List.IterMut` | src/ok_list.rs:98-102 | a fresh mutable cursor at position 0, about to yield the whole contents |
| `OkList.List.Drop` | src/ok_list.rs:27-34 | the loop terminates with no nodes left; the nodes are released in head-to-tail order, each exactly once, and each ends with no successor |
| `OkList.IntoIter.Next` | src/ok_list.rs:105-111 | yields the first remaining element and drops it from the remaining ones; once none remain it yields None forever |
| `OkList.Iter.Next` | src/ok_list.rs:114-125 | yields element `pos` of the list and advances by one; at the end yields None and stays put; the list is not modified |
| `OkList.IterMut.Next` | src/ok_list.rs:127-138 | yields node `pos`, which holds element `pos`, and advances by one; at the end yields None and stays put; the list is not modified |
| `OkListScenarios.PushAllPopAll` | src/ok_list.rs:145-173 | pushing `x1..xn` and then popping n times yields `xn..x1`, and one more pop yields None |
| `OkListScenarios.PushThenPop` | src/ok_list.rs:41-72 | `push(x)` then `pop()` returns `Some(x)` and restores the previous contents |
| `OkListScenarios.IterCollect` | src/ok_list.rs:114-125 | draining `iter` yields exactly the contents head to tail, then None, and leaves the list unchanged |
| `OkListScenarios.IterMutNodes` | src/ok_list.rs:127-138 | draining `iter_mut` yields every node of the list once, head to tail, never the same node twice |
| `OkListScenarios.IterMutWriteAll` | src/ok_list.rs:127-138 | writing `v` through each node `iter_mut` yields, while the cursor continues, leaves the same nodes and head and makes every element `v` |
| `OkListScenarios.IntoIterCollect` | src/ok_list.rs:105-111 | draining `into_iter` yields the old contents head to tail, then None, and leaves the list empty |
| `OkListScenarios.PushAndPop` | src/ok_list.rs:145-173 | the pops in the `push_and_pop` test give None, 3, 2, 6, 5, 4, 1, None |
| `OkListScenarios.OneTwoThree` | src/ok_list.rs:212-215 | pushing 1, 2, 3 onto a new list gives the contents 3, 2, 1 in fresh nodes |
| `OkListScenarios.PeekOpening` | src/ok_list.rs:177-185 | `peek` and `peek_mut` find nothing on a new list, and find 3 after pushing 1, 2, 3, leaving the contents 3, 2, 1 |
| `OkListScenarios.Peek` | src/ok_list.rs:176-186 | the four checks of the `peek` test give None, None, 3, 3 |
| `OkListScenarios.PeekMut` | src/ok_list.rs:189-208 | the four opening checks give None, None, 3, 3; after writing 42 through `peek_mut`, `peek` and `pop` both give 42 and the rest of the list is still 2, 1 |
| `OkListScenarios.IntoIter` | src/ok_list.rs:211-222 | `into_iter` over the list built by pushing 1, 2, 3 yields 3, 2, 1, then None on every later call |
| `OkListScenarios.Iter` | src/ok_list.rs:225-235 | `iter` yields 3, 2, 1, then None, and the list still pops 3, 2, 1 afterwards |
| `OkListScenarios.IterMut` | src/ok_list.rs:238-248 | `iter_mut` yields the nodes holding 3, 2, 1, then None |
| `OkListScenarios.IterMutWrite` | src/ok_list.rs:238-248 | writing 20 through the second node `iter_mut` yields changes only that element: the list then pops 3, 20, 1, None |

## Left out

- Lifetimes and the borrow checker: nothing in the model stops a caller from changing a list while an `Iter` or `IterMut` over it is alive. It only shows in the cursor's `Valid()`, which must then be proved again. The ordering "take the current `&mut` before making the next one" is kept as statement order in `IterMut.Next`, but it has no aliasing meaning in Dafny.
- `into_iter` consumes `self` in the source. In the model the `List` object stays reachable after `IntoIter()`, and its later use is not forbidden.
- A `&T` from `peek` or `Iter::next` is modelled as the element's value. Nothing can change the element while that borrow lives.
- Memory release and stack depth: `Drop` is modelled as the loop that detaches each node's `next`, with termination and the release order proved. Freeing the boxes and the bounded stack depth cannot be expressed. `Drop` is also called explicitly here, not at the end of a scope.
- A node detached by `pop` keeps its `next` value in the model. In the source that link is moved out of the box before the box is freed. The node is no longer part of the list in either case.
- `std::mem`, `Option::take`, `Option::map`, `as_ref`, `as_mut`, `as_deref` and `as_deref_mut` are taken at their meaning on a nullable node reference.
- The `#[cfg(test)]` module is not modelled as code. Its tests appear as the scenario methods listed above.
