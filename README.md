# Linked general tree with a breadth-first iterator

This project models `LinkedTree`, a general tree whose nodes hold an element, a
parent link, an ordered list of children and a back-reference (`myTree`) to the
tree that owns them. It also models `BFSIterator`, the iterator that hands out a
tree's positions in breadth-first order. Both classes are proved against a
specification of what they do.

## How the model is built

- **Nodes live in an arena.** All `TreeNode` objects sit in one `Arena`, a map
  from node id to node record. This stands in for the Java heap.
  - A client `Position` is either a node id, `null`, or some other
    implementation of `Position`.
  - Node ids are handed out in allocation order, so a child always has a
    larger id than its parent. That ordering is what makes the tree acyclic
    and lets the recursions below terminate.
  - `checkPosition` accepts exactly the nodes whose `myTree` is the tree. The
    model calls that set `Owned()`.
- **`LinkedTree` is a class.** Its fields are `root`, `size` and
  `iteratorFactory`. The methods that change the tree (`addRoot`, `add`,
  `replace`, `swapElements`, `remove`, `setIterator`) update those fields and
  the arena in place. The queries are functions that read them.
  - Each exception becomes a `Failure` value: `IllegalStateException`,
    `IndexOutOfBoundsException`, `NoSuchElementException`, and the
    `NullPointerException` an `ArrayDeque` throws on a null element.
- **`BFSIterator` is a class** with a queue of positions. `next` dequeues the
  head, enqueues the head's children in order, and returns the head.
  - `Remaining()` is the sequence of nodes that the remaining `next` calls
    will hand out. It is defined by the pure function
    `BreadthFirst.LevelOrder`.
- **Sound trees.** The intended invariant is `Sound()`: `size` counts the
  nodes reachable from the root, and those are exactly the nodes that pass
  `checkPosition`.
  - Every operation that changes the tree (`addRoot`, `add`, `replace`,
    `swapElements`, `remove`, `setIterator`) is proved to keep the arena well
    formed (`Valid()`). The queries and `iterator` change nothing.
  - Every one of those except `remove` of an internal node is proved to keep
    `Sound()` (see Findings).

Modules:

- `TreeArena` (`tree_arena.dfy`): the data model (`TreeNode`, `Position`,
  `Error`, `Result`), the well-formedness predicate `Forest`, and subtrees.
- `ArenaUpdates` (`arena_updates.dfy`): each change the tree makes to the
  arena, and what it does to well-formedness, to ownership and to subtrees.
- `BreadthFirst` (`level_order.dfy`): the order in which a breadth-first
  traversal visits nodes, and its properties.
- `LinkedTrees` (`linked_tree.dfy`): the `LinkedTree` and `BFSIterator`
  classes.
- `Scenarios` (`scenarios.dfy`): the unit tests of the tree, replayed on the
  model.

Where the code and its description differ, the model follows the code:

- `addRoot` refuses only when `size != 0`. It does not test whether a root
  exists.
- `remove` clears the owner of the removed node only. It leaves its
  descendants alone.

## Model

| member | source | states |
|---|---|---|
| LinkedTrees.LinkedTree.constructor | src/main/material/tree/LinkedTree.java:118-122 | A new tree has no root and size 0, is empty, `root()` fails with "empty tree", and it owns no node; it uses the breadth-first factory and leaves existing nodes untouched. |
| LinkedTrees.LinkedTree.CheckPosition | src/main/material/tree/LinkedTree.java:221-232 | Succeeds exactly for a tree-node handle whose owner is this tree, and then yields that node; a null or foreign handle is "invalid position"; a node owned by another tree of the same arena, or a removed one, is "not from this tree". |
| LinkedTrees.LinkedTree.ElementAt | src/main/material/tree/LinkedTree.java:43-45 | `getElement` returns the element the node stores: writing it back with `setElement` leaves the arena unchanged. |
| LinkedTrees.LinkedTree.Size | src/main/material/tree/LinkedTree.java:124-127 | When the size field is consistent, the size is the number of nodes reachable from the root; in a sound tree it is the number of nodes that pass `checkPosition`. |
| LinkedTrees.LinkedTree.IsEmpty | src/main/material/tree/LinkedTree.java:129-132 | Empty exactly when the size is 0; when the size is consistent, exactly when there is no root. |
| LinkedTrees.LinkedTree.Root | src/main/material/tree/LinkedTree.java:151-157 | Fails with "empty tree" exactly when there is no root (which, with a consistent size, is exactly when the tree is empty); otherwise the root passes `checkPosition` and has no parent. |
| LinkedTrees.LinkedTree.Parent | src/main/material/tree/LinkedTree.java:159-168 | Propagates the check's error; fails with "no parent" exactly for a parentless node; otherwise returns a node whose children list contains `p`. |
| LinkedTrees.LinkedTree.Children | src/main/material/tree/LinkedTree.java:170-174 | Propagates the check's error; otherwise returns handles to the node's children in list order, and the parent of each of them is `p`. |
| LinkedTrees.LinkedTree.IsLeaf | src/main/material/tree/LinkedTree.java:139-143 | Propagates the check's error; otherwise true exactly when `children(p)` is empty. |
| LinkedTrees.LinkedTree.IsInternal | src/main/material/tree/LinkedTree.java:134-137 | Propagates the check's error; otherwise true exactly when `children(p)` is non-empty. |
| LinkedTrees.LinkedTree.IsRoot | src/main/material/tree/LinkedTree.java:145-149 | Propagates the check's error, then the "empty tree" error of `root()`; otherwise true exactly when `root()` returns `p`. |
| LinkedTrees.LinkedTree.AddRoot | src/main/material/tree/LinkedTree.java:190-198 | On a non-empty tree, fails with "already has a root" and changes nothing. Otherwise it creates a parentless, childless node holding `e` and owned by the tree; that node becomes the root, `size()` becomes 1, and it is the only new owned node. Soundness is preserved. |
| LinkedTrees.LinkedTree.Add | src/main/material/tree/LinkedTree.java:242-249 | An invalid `p` gives the check's error and changes nothing. Otherwise a new leaf holding `e` becomes the last child of `p` and its parent is `p`; no other node changes; the size grows by one; the owned set gains exactly the new node; the reachable set gains it exactly when `p` was reachable. Soundness is preserved. |
| LinkedTrees.LinkedTree.Replace | src/main/material/tree/LinkedTree.java:183-188 | An invalid `p` gives the check's error and changes nothing. Otherwise it returns the old element and stores `e`, and no link, owner or reachable node changes. Soundness is preserved. |
| LinkedTrees.LinkedTree.SwapElements | src/main/material/tree/LinkedTree.java:206-213 | `p1` is checked first, then `p2`; either error leaves the arena unchanged. Otherwise the two elements trade places, and swapping a node with itself changes nothing. No link, owner or reachable node changes. Soundness is preserved. |
| LinkedTrees.LinkedTree.Remove | src/main/material/tree/LinkedTree.java:257-274 | An invalid `p` gives the check's error and changes nothing. For a node with a parent, the size drops by the size of the node's subtree and the node leaves its parent's children list. For a parentless node, the tree becomes empty. Either way only `p` loses its owner; in a sound tree the reachable set loses exactly the subtree of `p` and the size stays consistent. Soundness is preserved when `p` is a leaf. |
| LinkedTrees.LinkedTree.CountSubtree | src/main/material/tree/LinkedTree.java:259-266 | The counting loop of `remove`: a traversal from `p` with the configured iterator runs to completion and counts exactly the nodes of the subtree of `p`. |
| LinkedTrees.LinkedTree.RemoveSubtree | src/main/material/tree/LinkedTree.java:257-274 | The corrected `remove`: like `remove`, but every node of the removed subtree loses its owner. The owned set loses exactly that subtree, and soundness is preserved for every node, not just leaves. |
| LinkedTrees.LinkedTree.VisitSubtree | src/main/material/tree/LinkedTree.java:260-265 | The traversal loop of the corrected removal: the positions the iterator hands out from `p` are exactly the breadth-first order of the subtree of `p`. |
| LinkedTrees.LinkedTree.SetIterator | src/main/material/tree/LinkedTree.java:276-278 | Installs the given factory, leaves the root and the size alone, and keeps a well-formed tree well formed and a sound tree sound. |
| LinkedTrees.LinkedTree.Iterator | src/main/material/tree/LinkedTree.java:280-283 | On an empty tree, fails with "empty tree" (from `root()`). Otherwise returns a fresh iterator over this tree whose queue holds just the root. |
| LinkedTrees.LinkedTree.ShapeQueries | src/main/material/tree/LinkedTree.java:134-143 | A valid node is a leaf exactly when its subtree is itself alone, and internal exactly when its subtree has more than one node; the two answers are always opposite. |
| LinkedTrees.LinkedTree.SoundQueries | src/main/material/tree/LinkedTree.java:145-168 | In a sound tree, the parent of a valid node is valid too, and a node is the root exactly when it has no parent. |
| LinkedTrees.LinkedTree.FullTraversal | src/main/material/tree/LinkedTree.java:280-283 | In a sound tree with a root, the traversal from the root visits every valid node exactly once, so it hands out `size()` positions. |
| LinkedTrees.QueueStep | src/main/material/tree/iterator/BFSIterator.java:42-49 | After one `next` step on a queue of owned nodes, the queue still holds only owned nodes, and the traversal from the old queue is the dequeued head followed by the traversal from the new queue. |
| LinkedTrees.UnlinkLive | src/main/material/tree/LinkedTree.java:266-268 | Detaching a non-root node below the root takes exactly its subtree out of the nodes reachable from the root, so subtracting the subtree's size keeps the count right; for a leaf, only that node goes. |
| LinkedTrees.ParentlessIsRoot | src/main/material/tree/LinkedTree.java:269-272 | A parentless node reachable from the root is the root itself, so removing it leaves nothing reachable; this is why the root branch can set the size to 0. |
| LinkedTrees.BFSIterator.constructor | src/main/material/tree/iterator/BFSIterator.java:25-29 | With a non-null start, the queue holds just `start`, and `hasNext()` is true. |
| LinkedTrees.BFSIterator.FromStart | src/main/material/tree/iterator/BFSIterator.java:25-29 | A null start is refused, since the queue does not accept null; any other start gives a fresh iterator whose queue holds just `start`. |
| LinkedTrees.BFSIterator.FromRoot | src/main/material/tree/iterator/BFSIterator.java:31-35 | Fails with "empty tree" when the tree has no root; otherwise gives a fresh iterator whose queue holds just the root. |
| LinkedTrees.BFSIterator.HasNext | src/main/material/tree/iterator/BFSIterator.java:37-40 | True exactly when the queue is non-empty; when every queued node belongs to the tree, that is exactly when the traversal still has nodes to hand out. |
| LinkedTrees.BFSIterator.Next | src/main/material/tree/iterator/BFSIterator.java:42-49 | On an empty queue, fails with "no such element". If the head fails `children`, the head is dropped and the error is returned. Otherwise it returns the old head and the queue becomes its tail followed by the head's children in order. When every queued node belongs to the tree, `next` always succeeds and hands out the first node of the remaining breadth-first order, which shrinks by exactly that node. |
| BreadthFirst.LevelOrderFrom | src/main/material/tree/iterator/BFSIterator.java:25-49 | A traversal started at `s` begins with `s` and visits exactly the nodes of the subtree of `s`, each once. |
| BreadthFirst.LevelOrderElements | src/main/material/tree/iterator/BFSIterator.java:42-49 | From any queue, the traversal visits exactly the union of the subtrees of the queued nodes. |
| BreadthFirst.LevelOrderNoDup | src/main/material/tree/iterator/BFSIterator.java:42-49 | When the queued nodes' subtrees are disjoint, no node is visited twice. |
| BreadthFirst.LevelOrderExcludes | src/main/material/tree/iterator/BFSIterator.java:25-49 | A traversal from `s` never visits a node outside the subtree of `s`, such as an ancestor of `s`. |
| BreadthFirst.LevelOrderFromSorted | src/main/material/tree/iterator/BFSIterator.java:42-49 | A traversal from a single node is in level order: the depths of the visited nodes never decrease. |
| BreadthFirst.LevelOrderFromOrdered | src/main/material/tree/iterator/BFSIterator.java:42-49 | In a traversal from a single node, the children of each visited node appear in their list order, and the children of a node visited earlier come before the children of a node visited later. |
| BreadthFirst.SiblingOrder | src/main/material/tree/iterator/BFSIterator.java:45-46 | From any queue whose traversal repeats nothing, two children of a visited node are visited in their list order whenever the later one was not queued at the start. |
| BreadthFirst.CousinOrder | src/main/material/tree/iterator/BFSIterator.java:45-46 | From any queue whose traversal repeats nothing, when `m` is visited before `n`, every child of `m` is visited before every child of `n` that was not queued at the start. |
| BreadthFirst.QueueOrderKept | src/main/material/tree/iterator/BFSIterator.java:42-49 | When the traversal repeats nothing, the nodes already in the queue are handed out in queue order. |
| BreadthFirst.LevelOrderPrefix | src/main/material/tree/iterator/BFSIterator.java:42-49 | The traversal from a queue starts with the queue itself, because `poll` takes the head and children join at the tail. |
| BreadthFirst.ChildrenVisited | src/main/material/tree/iterator/BFSIterator.java:42-49 | A traversal from `s` repeats nothing, visits every child of a node it visits, and never meets `s` again as a child. |
| BreadthFirst.AncestorsExcluded | src/main/material/tree/iterator/BFSIterator.java:25-49 | A proper ancestor of `s` is never visited by a traversal started at `s`. |
| BreadthFirst.LevelOrderDepthSorted | src/main/material/tree/iterator/BFSIterator.java:42-49 | From a queue whose depths are sorted and span at most one level, the traversal's depths never decrease and never drop below the head's depth. |
| ArenaUpdates.SetElement | src/main/material/tree/LinkedTree.java:52-54 | `setElement` stores `e` in the node, and keeps every link, every owner and every other node. |
| ArenaUpdates.AddLeaf | src/main/material/tree/LinkedTree.java:244-246 | `add` allocates the next id for a childless node whose parent is `p` and whose owner is `p`'s owner, appends it to `p`'s children, and leaves every other node alone. |
| ArenaUpdates.AddRootNode | src/main/material/tree/LinkedTree.java:196 | `addRoot` allocates the next id for a parentless, childless node owned by the tree, and leaves every other node alone. |
| ArenaUpdates.AddRootSubtree | src/main/material/tree/LinkedTree.java:190-198 | A new root node keeps the arena well formed, forms a subtree of its own, and leaves every existing subtree unchanged. |
| ArenaUpdates.Detach | src/main/material/tree/LinkedTree.java:268 | Removing `p` from its parent's children list takes exactly one occurrence of `p` out of that list and changes nothing else; a node without a parent is left alone. |
| ArenaUpdates.Unlink | src/main/material/tree/LinkedTree.java:267-273 | The non-root branch of `remove` keeps the set of ids, clears the owner of `p`, and takes one occurrence of `p` out of its parent's children list. |
| ArenaUpdates.Disown | src/main/material/tree/LinkedTree.java:106-108 | `setMyTree(null)` clears the owner of `p` and keeps its element, every link and every other node. |
| ArenaUpdates.Swap | src/main/material/tree/LinkedTree.java:206-213 | The exchange of two elements keeps every link and owner, gives each of the two nodes the other's element, and leaves every other node as it was. |
| ArenaUpdates.SwapInvolution | src/main/material/tree/LinkedTree.java:206-213 | Swapping a node with itself changes nothing, and swapping the same two nodes twice restores the arena. |
| ArenaUpdates.SetElementUndo | src/main/material/tree/LinkedTree.java:183-188 | Replacing an element and then storing the returned old element restores the arena. |
| ArenaUpdates.AddLeafForest | src/main/material/tree/LinkedTree.java:242-249 | Adding a leaf under a node keeps the arena well formed. |
| ArenaUpdates.AddLeafSubtree | src/main/material/tree/LinkedTree.java:242-249 | After adding a leaf under `p`, the subtree of any node gains the new node exactly when it contains `p`, and is otherwise unchanged. |
| ArenaUpdates.UnlinkForest | src/main/material/tree/LinkedTree.java:267-273 | Detaching a non-root node from its parent and clearing its owner keeps the arena well formed. |
| ArenaUpdates.UnlinkSubtree | src/main/material/tree/LinkedTree.java:267-273 | After `p` is detached, a subtree that contained the parent of `p` loses exactly the subtree of `p`, and every other subtree is unchanged. |
| ArenaUpdates.UnlinkAtParent | src/main/material/tree/LinkedTree.java:267-268 | After the removal of `p` from its parent's children list, the parent's subtree is its old subtree minus the subtree of `p`. |
| ArenaUpdates.PruneSubtree | src/main/material/tree/LinkedTree.java:267-273 | The corrected removal (detach, then clear the owner of the whole subtree) keeps the arena well formed, and every subtree loses exactly the removed nodes. |
| ArenaUpdates.PruneOwned | src/main/material/tree/LinkedTree.java:273 | The corrected removal clears the owner of exactly the removed subtree. |
| ArenaUpdates.DisownOwned | src/main/material/tree/LinkedTree.java:273 | `setMyTree(null)` on one node takes exactly that node out of every tree's owned set. |
| TreeArena.RemoveFirst | src/main/material/tree/LinkedTree.java:268 | `List.remove(Object)` leaves a list without the element unchanged; otherwise it deletes the first occurrence, so the multiset of the list loses exactly one copy of it. |
| TreeArena.RemoveFirstMembers | src/main/material/tree/LinkedTree.java:268 | Removing the first occurrence of a node from a duplicate-free children list leaves every other child, and no duplicate. |
| TreeArena.SubtreeParent | src/main/material/tree/LinkedTree.java:159-168 | The parent of any node of a subtree, other than the subtree's top, is in the subtree too. |
| TreeArena.SiblingsDisjoint | src/main/material/tree/LinkedTree.java:170-174 | Two distinct children of the same node have disjoint subtrees. |
| Scenarios.SampleBuilt | src/test/material/tree/LinkedTreeTest.java:46-50 | `addRoot("A")`, `add("B", a)`, `add("C", a)` and `add("D", b)` on an empty arena build a well-formed arena shaped as A with children B and C, and B with child D. |
| Scenarios.SampleSubtrees | src/test/material/tree/LinkedTreeTest.java:165-178 | On the test tree, A's subtree has all four nodes, and B's has B and D. |
| Scenarios.SampleQueries | src/test/material/tree/LinkedTreeTest.java:44-121 | On the test tree (A with children B and C, and B with child D), B is internal, A is the root and the parent of B, A's children are B then C, and C and D are leaves. |
| Scenarios.SampleOrder | src/test/material/tree/LinkedTreeTest.java:165-178 | The test tree is traversed A, B, C, D. |
| Scenarios.RemoveLeafFromSample | src/test/material/tree/LinkedTreeTest.java:165-178 | After `remove(d)`, D is out of B's children, only A, B and C are owned, and the traversal from the root is A, B, C. |
| Scenarios.FreshTree | src/test/material/tree/LinkedTreeTest.java:24-147 | A new tree is empty; after `addRoot("A")` it has size 1, and the new position is the root, a leaf and holds "A"; a second `addRoot` is refused. |
| Scenarios.SwapAndReplace | src/test/material/tree/LinkedTreeTest.java:152-160 | After `addRoot("A")`, `add("B", a)` and `swapElements(a, b)`, A holds "B" and B holds "A"; `replace` then returns the old elements. |
| Scenarios.StaleDescendant | src/main/material/tree/LinkedTree.java:273 | As written, `remove` of a node with children leaves its first child owned by the tree, although it is no longer reachable from the root. |
| Scenarios.StaleAddAfterRemove | src/main/material/tree/LinkedTree.java:242-249 | As written, after `remove(b)` on the test tree, `add("X", d)` is accepted: D and the new node are owned, the size count becomes 4 - 2 + 1 = 3, yet only A and C are reachable from the root. |
| Scenarios.TwoTreesOneArena | src/main/material/tree/LinkedTree.java:221-232 | With two trees on one arena, the first tree's root is valid for the first tree and is "not from this tree" for the second, for `checkPosition`, `isLeaf` and `parent` alike. |
| Scenarios.NoStaleDescendant | src/main/material/tree/LinkedTree.java:273 | After the corrected removal, no node of the removed subtree is owned by any tree. |

## Left out

- Integer width: `size` is an unbounded integer. The Java `int` would wrap
  after 2^31 - 1 nodes.
- Generics and casts: the element type is a type parameter with no
  `equals`. The cast inside `checkPosition` is modelled by the
  `OtherPosition` handle.
- `getChildren()` returns the live `ArrayList`, so a caller who keeps it
  sees later changes and can change the tree through it. The model returns
  a snapshot of handles and does not model changes made through that list.
- The `Iterable`/`Iterator` protocol: the model has `HasNext` and `Next`.
  Java's `for`-each over `children`, iterator `remove`, and
  `ConcurrentModificationException` are not modelled.
- `TreeIteratorFactory` becomes a datatype with one variant,
  `BFSIteratorFactory`, because breadth-first is the only factory in the
  core. Other factories are not part of this model.
- Children lists are never null in the model, because every constructor
  call in the core passes a new `ArrayList`. The `getChildren() == null`
  branch of `isLeaf` therefore cannot be reached.
- Tree identity: `myTree` holds a tree id. Ids are numbered by the arena's
  tree counter instead of Java object identity. They are unique only within
  one arena.
- One heap: a program is modelled with a single `Arena`, as the Java heap
  is one. A handle carries no arena, so trees built on two separate `Arena`
  objects can share ids and would accept each other's handles. Two trees on
  the same arena are told apart.
- `List.remove(Object)` compares with `equals`. `TreeNode` does not
  override it, so the comparison is by identity, modelled as removal of the
  first matching id.
- `LCRSTree2`, the `Tree` and `Position` interfaces, and the node
  accessors other than the ones used above are not part of this model.
- LinkedTrees.LinkedTree.Remove: soundness is proved only for the removal
  of a leaf, because for an internal node it does not hold (see Findings).
- LinkedTrees.BFSIterator.Next: the post-state is stated fully, but the
  breadth-first progress is proved only when every queued node belongs to
  the tree. A stale handle makes `children` fail, and `next` then reports
  that error.

## Findings

| source | as written | input that shows it | evidently intended | confidence | as-written member | corrected member |
|---|---|---|---|---|---|---|
| src/main/material/tree/LinkedTree.java:273 | `remove(p)` clears the owner of `p` only. Its descendants stay owned by the tree, so `checkPosition` still accepts them, although they are no longer reachable from the root and no longer counted in `size`. `add` under such a stale handle then increases `size` without growing the reachable tree. | The test tree A → {B → {D}, C}: `remove(b)`, then `add("X", d)`. D still passes `checkPosition`, and `size()` becomes 3 while only A and C are reachable. | Every node of the removed subtree stops belonging to the tree, so the handles into it are rejected. | not executed | Scenarios.StaleDescendant (with Scenarios.StaleAddAfterRemove) | LinkedTrees.LinkedTree.RemoveSubtree (with Scenarios.NoStaleDescendant) |
