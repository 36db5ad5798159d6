# DynamicLinkedList in Dafny

This project models the pointer-chained singly linked list
`DynamicLinkedList<T>` of src/lib.rs and proves its behaviour against an
abstract sequence of elements.

- `lib.dfy`, module `LinkedList`:
  - `Node<T>` is a class with `data` and a nullable `next` reference.
  - `DynamicLinkedList<T>` is a class with a `head` reference.
  - Ghost fields give the list's view: `Elems`, the elements from head to tail; `Nodes`, the nodes holding them; `Repr`, its footprint.
  - `Valid()` ties these to the chain of `next` links.
- A Rust cursor `&mut Option<Box<Node<T>>>` points at a link. It is modelled by the link's owner plus the value stored in that link. The owner is `null` for the list's `head` field, or else the node whose `next` field it is.
- The two cursor walks are read-only methods: `WalkToTail` for `insert` and `WalkLinks` for `insert_at_index`. `Insert` calls `WalkToTail` and then writes the empty link it stops at. For a positive index, `InsertAtIndex` calls `WalkLinks` and writes nothing after it; for index 0 it writes `head` without walking.
- `Chain` is an independent definition of what a reader sees by following `next` links from a node. `TraversalYieldsElems` proves that the walk from `head` yields exactly `Elems`.
- `index` has the type `usize`: a newtype for Rust's 64-bit `usize`. So the verifier checks that `index - 1` never underflows. It cannot, because index 0 returns before the loop.
- `list_scenarios.dfy`, module `ListScenarios`, holds callers that use only the contracts. One is the sequence of calls in src/test.rs:4-11. Others are the boundary cases of `insert_at_index`.

The name `insert_at_index` suggests that a positive index splices the new element in before the element at that index. The code (src/lib.rs:38-44) walks `index - 1` links and returns without writing anything. The model follows the code: for every positive index, in range or not, the list is unchanged and `x` is dropped.

## Model

| member | source | states |
|---|---|---|
| `LinkedList.Node.constructor` | src/lib.rs:1-5 | a fresh node holds the given element and successor link |
| `LinkedList.DynamicLinkedList.Valid` | src/lib.rs:2-10 | `Nodes[k]` holds `Elems[k]`; `head` is the first node; each node's `next` is the following node and the last one's is empty; the list owns its object and all its nodes |
| `LinkedList.DynamicLinkedList.constructor` | src/lib.rs:13-15 | `new` gives a valid list with `head` empty and element sequence `[]`, owning only fresh objects |
| `LinkedList.DynamicLinkedList.WalkToTail` | src/lib.rs:19-23 | the `insert` cursor stops at the first empty link; that link is the one after the last node, reached after exactly `|Elems|` steps; every earlier link holds a node |
| `LinkedList.DynamicLinkedList.Insert` | src/lib.rs:17-26 | `insert(x)` makes the elements `old ++ [x]`; the old nodes keep their order and `head` is kept when non-empty; the new last node is fresh; every node except the old tail is unchanged, so only the tail link is written |
| `LinkedList.DynamicLinkedList.WalkLinks` | src/lib.rs:38-44 | the `for` loop of `insert_at_index` completes its `count` steps iff `count <= |Elems|`, and then the cursor is at link `count`; otherwise it returns early with the cursor at the empty link after the last node |
| `LinkedList.DynamicLinkedList.InsertAtIndex` | src/lib.rs:28-45 | index 0 makes the elements `[x] ++ old`, and the fresh new head's successor is the old head; any positive index leaves the list object entirely unchanged; `index - 1` is computed only when `index > 0`, so it never underflows |
| `LinkedList.Chain` | src/lib.rs:1-10 | following `next` links from a node visits each node of the given set at most once, so the walk has at most that many elements; a non-empty walk starts with the first node's element |
| `LinkedList.DistinctPair` | src/lib.rs:2-4 | in a valid list, two different positions hold different nodes |
| `LinkedList.NodesDistinct` | src/lib.rs:8-10 | a valid list's chain has no cycle: all its nodes are pairwise distinct |
| `LinkedList.ChainSuffix` | src/lib.rs:8-10 | following links from the `i`-th link over the nodes not yet visited yields exactly the elements from position `i` on |
| `LinkedList.TraversalYieldsElems` | src/lib.rs:8-10 | following `next` links from `head` yields exactly the list's element sequence, head to tail |
| `ListScenarios.AppendThree` | src/test.rs:4-11 | `new` then `insert(10)`, `insert(20)`, `insert(30)` gives the elements `[10, 20, 30]` |
| `ListScenarios.PrependToEmpty` | src/lib.rs:29-35 | `insert_at_index(0, x)` on an empty list gives `[x]` |
| `ListScenarios.PositiveIndexLeavesList` | src/lib.rs:38-45 | `insert_at_index(1, 99)` and `insert_at_index(5, 99)` on `[10, 20, 30]` change nothing, and `insert_at_index(0, x)` then gives `[x, 10, 20, 30]` |

## Left out

- `StaticLinkedList` is not part of this model. src/test.rs uses it, but src/lib.rs does not define it. Its operations `delete_at_index`, `update_element_at_index`, `get` and `find` have no source to model.
- The rest of src/test.rs is not modelled. Its only `DynamicLinkedList` test asserts nothing; `ListScenarios.AppendThree` states what that call sequence yields.
- Ownership and allocation are not modelled: `Box`, the ownership move done by `take()`, and dropping nodes. Links are plain references, and the ghost `Repr` footprint stands in for exclusive ownership.
- `#[derive(Debug)]` formatting is not modelled.
- Out-of-memory behaviour is not modelled. The list has no capacity limit, and allocation is assumed to succeed.
- The `PartialEq + Clone` bounds on `T` are not modelled, because none of the three operations compares or clones elements.
- `usize` is fixed at 64 bits. The list's length is unbounded, as it is in the model.
