/** The scenarios of the linked tree's test suite replayed on the model, and
    what `remove` does to the handles into the subtree it takes away. */
module Scenarios {
  import opened TreeArena
  import opened ArenaUpdates
  import opened BreadthFirst
  import opened LinkedTrees

  /** The arena of the test tree after `addRoot("A")`, `add("B", a)`,
      `add("C", a)` and `add("D", b)` on tree 0: A has the children B and C,
      and B has the child D. */
  ghost predicate SampleShape(h: Heap<char>) {
    h.Keys == {0, 1, 2, 3} &&
    h[0] == TreeNode('A', None, [1, 2], Some(0)) &&
    h[1] == TreeNode('B', Some(0), [3], Some(0)) &&
    h[2] == TreeNode('C', Some(0), [], Some(0)) &&
    h[3] == TreeNode('D', Some(1), [], Some(0))
  }

  /** The arena the test's `addRoot("A")`, `add("B", a)`, `add("C", a)`,
      `add("D", b)` build on tree 0, starting from an empty arena. */
  ghost function SampleArena(): Heap<char> {
    AddLeaf(AddLeaf(AddLeaf(AddRootNode(map[], 'A', 0), 0, 'B'), 0, 'C'), 1, 'D')
  }

  /** Those four calls build a well-formed arena. */
  lemma SampleBuiltForest()
    ensures Forest(SampleArena())
  {
    var h0: Heap<char> := map[];
    var h1 := AddRootNode(h0, 'A', 0);
    AddRootForest(h0, 'A', 0);
    assert h1.Keys == {0};
    var h2 := AddLeaf(h1, 0, 'B');
    AddLeafForest(h1, 0, 'B');
    var h3 := AddLeaf(h2, 0, 'C');
    AddLeafForest(h2, 0, 'C');
    AddLeafForest(h3, 1, 'D');
  }

  /** After `addRoot("A")` and `add("B", a)`: A with the one child B. */
  lemma SampleFirstTwo()
    ensures var h2 := AddLeaf(AddRootNode(map[], 'A', 0), 0, 'B');
      h2.Keys == {0, 1} && h2[0] == TreeNode('A', None, [1], Some(0)) &&
      h2[1] == TreeNode('B', Some(0), [], Some(0))
  {
    var h1 := AddRootNode(map[], 'A', 0);
    assert |h1| == 1 by { assert h1.Keys == {0}; }
  }

  /** The last two calls, `add("C", a)` and `add("D", b)`, on that arena. */
  lemma SampleLastTwo(h2: Heap<char>)
    requires h2.Keys == {0, 1} && h2[0] == TreeNode('A', None, [1], Some(0))
    requires h2[1] == TreeNode('B', Some(0), [], Some(0))
    ensures SampleShape(AddLeaf(AddLeaf(h2, 0, 'C'), 1, 'D'))
  {
    assert |h2| == 2;
    var h3 := AddLeaf(h2, 0, 'C');
    assert |h3| == 3 by { assert h3.Keys == {0, 1, 2}; }
    assert h3[1] == h2[1];
  }

  /** Those four calls build a well-formed arena of the test tree's shape. */
  lemma SampleBuilt()
    ensures Forest(SampleArena()) && SampleShape(SampleArena())
  {
    SampleBuiltForest();
    SampleFirstTwo();
    SampleLastTwo(AddLeaf(AddRootNode(map[], 'A', 0), 0, 'B'));
  }

  /** The queries of the test suite on the test tree: B is internal, A is the
      root and the parent of B, the children of A are B then C, C and D are leaves. */
  lemma SampleQueries(t: LinkedTree<char>)
    requires t.Valid() && t.id == 0 && t.root == Some(0) && SampleShape(t.arena.nodes)
    ensures t.Root() == Success(NodePosition(0)) && t.IsRoot(NodePosition(0)) == Success(true)
    ensures t.IsInternal(NodePosition(1)) == Success(true)
    ensures t.Parent(NodePosition(1)) == Success(NodePosition(0))
    ensures t.Children(NodePosition(0)) == Success([NodePosition(1), NodePosition(2)])
    ensures t.IsLeaf(NodePosition(2)) == Success(true) && t.IsLeaf(NodePosition(3)) == Success(true)
    ensures t.ElementAt(NodePosition(3)) == 'D'
  {
    assert Handles([1, 2]) == [NodePosition(1), NodePosition(2)];
  }

  /** The last two leaves of a queue are dequeued in order. */
  lemma TwoLeavesOrder<E>(h: Heap<E>, x: NodeId, y: NodeId)
    requires Forest(h) && x in h && y in h && h[x].children == [] && h[y].children == []
    ensures AllIn(h, [x, y]) && LevelOrder(h, [x, y]) == [x, y]
  {
    LevelStep(h, [y]);
    assert [y][1..] + h[y].children == [];
    LevelStep(h, [x, y]);
    assert [x, y][1..] + h[x].children == [y];
  }

  /** The traversal of a four-node arena shaped like the test tree. */
  lemma FourNodeOrder<E>(h: Heap<E>)
    requires Forest(h) && h.Keys == {0, 1, 2, 3}
    requires h[0].children == [1, 2] && h[1].children == [3] && h[2].children == [] && h[3].children == []
    ensures AllIn(h, [0]) && LevelOrder(h, [0]) == [0, 1, 2, 3]
  {
    TwoLeavesOrder(h, 2, 3);
    LevelStep(h, [1, 2]);
    assert [1, 2][1..] + h[1].children == [2, 3];
    LevelStep(h, [0]);
    assert [0][1..] + h[0].children == [1, 2];
  }

  /** A well-formed arena of the test tree is traversed A, B, C, D. */
  lemma SampleOrder(h: Heap<char>)
    requires Forest(h) && SampleShape(h)
    ensures AllIn(h, [0]) && LevelOrder(h, [0]) == [0, 1, 2, 3]
  {
    FourNodeOrder(h);
  }

  /** `remove(d)` on the test tree: D leaves B's children, only D loses its
      owner, and the traversal from the root is A, B, C. */
  lemma RemoveLeafFromSample(h: Heap<char>)
    requires Forest(h) && SampleShape(h)
    ensures Forest(Unlink(h, 3)) && AllIn(Unlink(h, 3), [0])
    ensures Unlink(h, 3)[1].children == [] && OwnedBy(Unlink(h, 3), 0) == {0, 1, 2}
    ensures LevelOrder(Unlink(h, 3), [0]) == [0, 1, 2]
  {
    var h' := Unlink(h, 3);
    UnlinkForest(h, 3);
    assert RemoveFirst([3], 3) == [];
    assert h'[1].children == [];
    assert h'[0] == h[0] && h'[2] == h[2];
    assert OwnedBy(h', 0) == {0, 1, 2};
    var r2 := LevelOrder(h', [2]);
    assert [2][1..] + h'[2].children == [];
    assert r2 == [2];
    var r1 := LevelOrder(h', [1, 2]);
    assert [1, 2][1..] + h'[1].children == [2];
    assert r1 == [1] + r2;
    assert [0][1..] + h'[0].children == [1, 2];
    assert LevelOrder(h', [0]) == [0] + r1;
  }

  /** As written, `remove` of a node with children leaves the first child
      owned by the tree, so it still passes `checkPosition`, although it is no
      longer reachable from the root. */
  lemma StaleDescendant<E>(h: Heap<E>, x: NodeId, r: NodeId)
    requires Forest(h) && r in h && x in h && h[r].parent.None? && x in Subtree(h, r)
    requires h[x].parent.Some? && h[x].myTree.Some? && h[x].children != []
    ensures h[x].children[0] in OwnedBy(Unlink(h, x), h[x].myTree.value)
    ensures Forest(Unlink(h, x)) && r in Unlink(h, x) && h[x].children[0] !in Subtree(Unlink(h, x), r)
  {
    var c := h[x].children[0];
    UnlinkLive(h, x, r);
    SubtreeUnfold(h, x);
    InSubtreeOfParent(h, x, c, c);
    assert c != x;
  }

  /** On the test tree, A's subtree holds all four nodes and B's holds B and D. */
  lemma SampleSubtrees(h: Heap<char>)
    requires Forest(h) && SampleShape(h)
    ensures Subtree(h, 0) == {0, 1, 2, 3} && Subtree(h, 1) == {1, 3}
  {
    SampleOrder(h);
    LevelOrderFrom(h, 0);
    assert Elements([0, 1, 2, 3]) == {0, 1, 2, 3};
    SubtreeUnfold(h, 1);
    SubtreesOfCons(h, [3]);
    LeafSubtree(h, 3);
  }

  /** The old `remove(b)` on the test tree: A's subtree shrinks to A and C,
      while D stays owned by the tree. */
  lemma SampleUnlinked(h: Heap<char>)
    requires Forest(h) && SampleShape(h)
    ensures Forest(Unlink(h, 1)) && 3 in Unlink(h, 1) && 0 in Unlink(h, 1)
    ensures Subtree(Unlink(h, 1), 0) == {0, 2} && 3 in OwnedBy(Unlink(h, 1), 0)
  {
    SampleSubtrees(h);
    UnlinkForest(h, 1);
    UnlinkSubtree(h, 1, 0);
    assert Unlink(h, 1)[3] == h[3];
  }

  /** `add("X", d)` under an owned node D that the root no longer reaches:
      the new node is owned by the tree and unreachable from the root too. */
  lemma AddUnderStale(u: Heap<char>)
    requires Forest(u) && 0 in u && 3 in u && |u| == 4
    requires Subtree(u, 0) == {0, 2} && 3 in OwnedBy(u, 0)
    ensures Forest(AddLeaf(u, 3, 'X')) && 0 in AddLeaf(u, 3, 'X')
    ensures 3 in OwnedBy(AddLeaf(u, 3, 'X'), 0) && 4 in OwnedBy(AddLeaf(u, 3, 'X'), 0)
    ensures Subtree(AddLeaf(u, 3, 'X'), 0) == {0, 2}
  {
    AddLeafSubtree(u, 3, 'X', 0);
  }

  /** The input that shows the stale-descendant defect: on the test tree, `remove(b)` leaves D owned;
      `add("X", d)` is then accepted, so `size()` goes from 4 to 4 - 2 + 1 = 3,
      while only A and C are reachable from the root. */
  lemma StaleAddAfterRemove(h: Heap<char>)
    requires Forest(h) && SampleShape(h)
    ensures |Subtree(h, 0)| == 4 && |Subtree(h, 1)| == 2
    ensures Forest(AddLeaf(Unlink(h, 1), 3, 'X')) && 0 in AddLeaf(Unlink(h, 1), 3, 'X')
    ensures 3 in OwnedBy(Unlink(h, 1), 0) && 3 in OwnedBy(AddLeaf(Unlink(h, 1), 3, 'X'), 0)
    ensures 4 in OwnedBy(AddLeaf(Unlink(h, 1), 3, 'X'), 0)
    ensures Subtree(AddLeaf(Unlink(h, 1), 3, 'X'), 0) == {0, 2}
  {
    SampleSubtrees(h);
    SampleUnlinked(h);
    var u := Unlink(h, 1);
    assert |u| == 4 by { assert u.Keys == h.Keys; }
    AddUnderStale(u);
  }

  /** The corrected removal leaves no node of the removed subtree owned. */
  lemma NoStaleDescendant<E>(h: Heap<E>, x: NodeId, t: TreeId, count: nat)
    requires Forest(h) && x in h && h[x].parent.Some? && h[x].myTree.Some? && OwnersBelow(h, count)
    ensures forall y | y in Subtree(h, x) :: y !in OwnedBy(DisownAll(Detach(h, x), Subtree(h, x)), t)
  {
    PruneOwned(h, x, t, count);
  }

  /** A new tree is empty and has no root; `addRoot` then gives a one-node tree
      whose root is the new position, and a second `addRoot` is refused. */
  method FreshTree() returns (t: LinkedTree<char>, first: Result<Position>, second: Result<Position>)
    ensures t.Sound() && first.Success? && t.Root() == first
    ensures t.Size() == 1 && !t.IsEmpty() && t.ElementAt(first.value) == 'A'
    ensures t.IsLeaf(first.value) == Success(true) && t.IsRoot(first.value) == Success(true)
    ensures second == Failure(AlreadyHasRoot)
  {
    var arena := new Arena<char>();
    t := new LinkedTree(arena);
    assert t.Size() == 0 && t.IsEmpty() && t.Root() == Failure(EmptyTree);
    first := t.AddRoot('A');
    second := t.AddRoot('B');
  }

  /** `swapElements(a, b)` on the tree A -> {B}: B then holds "A" and A holds "B";
      `replace` then hands back "A" and a second `replace` restores it. */
  method SwapAndReplace() returns (t: LinkedTree<char>, old1: Result<char>, old2: Result<char>)
    ensures t.Sound() && t.Size() == 2 && 0 in t.arena.nodes && 1 in t.arena.nodes
    ensures t.ElementAt(NodePosition(0)) == 'B' && t.ElementAt(NodePosition(1)) == 'A'
    ensures old1 == Success('A') && old2 == Success('Z')
  {
    var arena := new Arena<char>();
    t := new LinkedTree(arena);
    var a := t.AddRoot('A');
    var b := t.Add('B', a.value);
    var s := t.SwapElements(a.value, b.value);
    assert t.ElementAt(b.value) == 'A';
    old1 := t.Replace(b.value, 'Z');
    old2 := t.Replace(b.value, 'A');
  }

  /** Two trees on one arena: a handle of the first is "not from this tree"
      for the second, while the first still sees it as its root. */
  method TwoTreesOneArena() returns (t1: LinkedTree<char>, t2: LinkedTree<char>, a: Result<Position>)
    ensures t1 != t2 && a.Success?
    ensures t1.CheckPosition(a.value).Success? && t1.IsLeaf(a.value) == Success(true)
    ensures t2.CheckPosition(a.value) == Failure(NotFromThisTree)
    ensures t2.IsLeaf(a.value) == Failure(NotFromThisTree) && t2.Parent(a.value) == Failure(NotFromThisTree)
  {
    var arena := new Arena<char>();
    t1 := new LinkedTree(arena);
    t2 := new LinkedTree(arena);
    a := t1.AddRoot('A');
    var b := t2.AddRoot('B');
  }
}
