/** The linked general tree and its breadth-first iterator.
    Every `TreeNode` object lives in an `Arena` shared by all trees (it plays
    the part of the heap); a `LinkedTree` owns the nodes whose `myTree` names
    it, and a client handle is a `Position`. */
module LinkedTrees {
  import opened TreeArena
  import opened ArenaUpdates
  import opened BreadthFirst

  /** A leaf to be added by `add`: its parent and its element. */
  datatype Leaf<E> = Leaf(parent: NodeId, element: E)

  /** The traversal strategies a tree can be given; breadth-first is the only one. */
  datatype IteratorFactory = BFSIteratorFactory

  /** All tree nodes allocated so far, and the number of trees created so far. */
  class Arena<E> {
    var nodes: Heap<E>
    var treeCount: nat

    ghost predicate Valid()
      reads this
    {
      Forest(nodes) && OwnersBelow(nodes, treeCount)
    }

    constructor ()
      ensures Valid() && nodes == map[] && treeCount == 0
    {
      nodes := map[];
      treeCount := 0;
    }
  }

  class LinkedTree<E> {
    const arena: Arena<E>
    const id: TreeId
    var root: Option<NodeId>
    var size: int
    var iteratorFactory: IteratorFactory

    /** A new, empty tree registered in `arena`, traversed breadth-first. */
    constructor (arena: Arena<E>)
      requires arena.Valid()
      modifies arena
      ensures this.arena == arena && id == old(arena.treeCount)
      ensures arena.nodes == old(arena.nodes) && arena.treeCount == old(arena.treeCount) + 1
      ensures root.None? && size == 0 && iteratorFactory == BFSIteratorFactory
      ensures Sound() && Owned() == {}
      ensures Size() == 0 && IsEmpty() && Root() == Failure(EmptyTree)
    {
      this.arena := arena;
      id := arena.treeCount;
      root := None;
      size := 0;
      iteratorFactory := BFSIteratorFactory;
      new;
      assert forall n | n in arena.nodes :: arena.nodes[n].myTree != Some(id);
      arena.treeCount := arena.treeCount + 1;
    }

    /** The arena is well formed, the tree is registered in it, and the root,
        if any, is a parentless node of this tree. */
    ghost predicate Valid()
      reads this, arena
    {
      arena.Valid() && id < arena.treeCount &&
      (root.Some? ==>
        root.value in arena.nodes && arena.nodes[root.value].parent.None? &&
        arena.nodes[root.value].myTree == Some(id))
    }

    /** The nodes that pass `checkPosition`. */
    ghost function Owned(): set<NodeId>
      reads this, arena
    {
      OwnedBy(arena.nodes, id)
    }

    /** The nodes reachable from the root. */
    ghost function Live(): set<NodeId>
      reads this, arena
      requires Valid()
    {
      if root.Some? then Subtree(arena.nodes, root.value) else {}
    }

    /** `size` counts the nodes reachable from the root. */
    ghost predicate SizeConsistent()
      reads this, arena
      requires Valid()
    {
      size == |Live()|
    }

    /** The intended invariant: `size` counts the nodes reachable from the root,
        and those are exactly the nodes that pass `checkPosition`. */
    ghost predicate Sound()
      reads this, arena
    {
      Valid() && SizeConsistent() && Owned() == Live()
    }

    // -------------------------------------------------------------------
    // Queries

    /** `checkPosition`: a null handle or one that is not a tree node is invalid;
        a tree node must be owned by this tree. */
    function CheckPosition(p: Position): (r: Result<NodeId>)
      reads this, arena
      ensures r.Success? <==> p.NodePosition? && p.id in Owned()
      ensures r.Success? ==> r.value == p.id
      ensures !p.NodePosition? ==> r == Failure(InvalidPosition)
      ensures p.NodePosition? && p.id !in Owned() ==> r == Failure(NotFromThisTree)
    {
      if !p.NodePosition? then Failure(InvalidPosition)
      else if p.id in arena.nodes && arena.nodes[p.id].myTree == Some(id) then Success(p.id)
      else Failure(NotFromThisTree)
    }

    /** `getElement` of a node handle. */
    function ElementAt(p: Position): (r: E)
      reads this, arena
      requires p.NodePosition? && p.id in arena.nodes
      ensures SetElement(arena.nodes, p.id, r) == arena.nodes
    {
      arena.nodes[p.id].element
    }

    function Size(): (r: int)
      reads this, arena
      ensures Valid() && SizeConsistent() ==> r == |Live()|
      ensures Sound() ==> r == |Owned()|
    {
      size
    }

    function IsEmpty(): (r: bool)
      reads this, arena
      ensures r <==> Size() == 0
      ensures Valid() && SizeConsistent() ==> (r <==> root.None?)
    {
      assert Valid() && root.Some? ==> root.value in Live();
      size == 0
    }

    function Root(): (r: Result<Position>)
      reads this, arena
      ensures r.Failure? <==> root.None?
      ensures r.Failure? ==> r.error == EmptyTree
      ensures Valid() && SizeConsistent() ==> (r.Failure? <==> IsEmpty())
      ensures Valid() && r.Success? ==>
        r.value.NodePosition? && CheckPosition(r.value) == Success(r.value.id) &&
        Parent(r.value) == Failure(NoParent)
    {
      if root.None? then Failure(EmptyTree) else Success(NodePosition(root.value))
    }

    function Parent(p: Position): (r: Result<Position>)
      reads this, arena
      ensures CheckPosition(p).Failure? ==> r == Failure(CheckPosition(p).error)
      ensures CheckPosition(p).Success? ==> (r == Failure(NoParent) <==> arena.nodes[p.id].parent.None?)
      ensures Valid() && r.Success? ==>
        r.value.NodePosition? && r.value.id in arena.nodes && p.id in arena.nodes[r.value.id].children
    {
      match CheckPosition(p)
      case Failure(err) => Failure(err)
      case Success(n) =>
        if arena.nodes[n].parent.None? then Failure(NoParent)
        else
          assert Valid() ==> Listed(arena.nodes, n);
          Success(NodePosition(arena.nodes[n].parent.value))
    }

    /** `children`: the handles of the children, in order; every one of them
        passes the check and has `p` as its parent. */
    function Children(p: Position): (r: Result<seq<Position>>)
      reads this, arena
      ensures CheckPosition(p).Failure? ==> r == Failure(CheckPosition(p).error)
      ensures CheckPosition(p).Success? ==>
        r.Success? && |r.value| == |arena.nodes[p.id].children| &&
        forall i | 0 <= i < |r.value| :: r.value[i] == NodePosition(arena.nodes[p.id].children[i])
      ensures Valid() && r.Success? ==>
        forall i | 0 <= i < |r.value| :: Parent(r.value[i]) == Success(p)
    {
      match CheckPosition(p)
      case Failure(err) => Failure(err)
      case Success(n) => Success(Handles(arena.nodes[n].children))
    }

    function IsLeaf(p: Position): (r: Result<bool>)
      reads this, arena
      ensures CheckPosition(p).Failure? ==> r == Failure(CheckPosition(p).error)
      ensures CheckPosition(p).Success? ==> r == Success(Children(p) == Success([]))
    {
      match CheckPosition(p)
      case Failure(err) => Failure(err)
      case Success(n) => Success(arena.nodes[n].children == [])
    }

    function IsInternal(p: Position): (r: Result<bool>)
      reads this, arena
      ensures CheckPosition(p).Failure? ==> r == Failure(CheckPosition(p).error)
      ensures CheckPosition(p).Success? ==> r == Success(Children(p) != Success([]))
    {
      match IsLeaf(p)
      case Failure(err) => Failure(err)
      case Success(b) => Success(!b)
    }

    function IsRoot(p: Position): (r: Result<bool>)
      reads this, arena
      ensures CheckPosition(p).Failure? ==> r == Failure(CheckPosition(p).error)
      ensures CheckPosition(p).Success? && root.None? ==> r == Failure(EmptyTree)
      ensures r.Success? ==> (r.value <==> Root() == Success(p))
    {
      match CheckPosition(p)
      case Failure(err) => Failure(err)
      case Success(n) =>
        match Root()
        case Failure(err) => Failure(err)
        case Success(q) => Success(NodePosition(n) == q)
    }

    // -------------------------------------------------------------------
    // Updates

    /** `addRoot`: guarded by the size, not by the root. */
    method AddRoot(e: E) returns (r: Result<Position>)
      requires Valid()
      modifies this, arena
      ensures Valid() && arena.treeCount == old(arena.treeCount) && iteratorFactory == old(iteratorFactory)
      ensures old(size) != 0 ==>
        r == Failure(AlreadyHasRoot) && root == old(root) && size == old(size) && arena.nodes == old(arena.nodes)
      ensures old(size) == 0 ==>
        r == Success(NodePosition(old(|arena.nodes|))) && root == Some(old(|arena.nodes|)) && size == 1 &&
        arena.nodes == AddRootNode(old(arena.nodes), e, id)
      ensures old(size) == 0 ==>
        Root() == r && ElementAt(r.value) == e && Parent(r.value) == Failure(NoParent) &&
        IsLeaf(r.value) == Success(true) && Size() == 1
      ensures Owned() == old(Owned()) + (if old(size) == 0 then {old(|arena.nodes|)} else {})
      ensures old(Sound()) ==> Sound()
    {
      if !IsEmpty() {
        return Failure(AlreadyHasRoot);
      }
      var k := |arena.nodes|;
      size, arena.nodes, root := 1, AddRootNode(arena.nodes, e, id), Some(k);
      r := Success(NodePosition(k));
      AddRootKeeps(e);
    }

    twostate lemma AddRootKeeps(e: E)
      requires old(Valid()) && old(size) == 0 && arena.treeCount == old(arena.treeCount)
      requires arena.nodes == AddRootNode(old(arena.nodes), e, id) && size == 1 && root == Some(old(|arena.nodes|))
      ensures Valid() && Owned() == old(Owned()) + {old(|arena.nodes|)}
      ensures old(Sound()) ==> Sound()
    {
      ghost var h := old(arena.nodes);
      ghost var k := |h|;
      AddRootForest(h, e, id);
      AddRootOwned(h, e, id, id, arena.treeCount);
      AddRootSubtree(h, e, id);
    }

    /** `add`: a new leaf appended as the last child of `p`. */
    method Add(e: E, p: Position) returns (r: Result<Position>)
      requires Valid()
      modifies this, arena
      ensures Valid() && arena.treeCount == old(arena.treeCount) && iteratorFactory == old(iteratorFactory)
      ensures root == old(root)
      ensures old(CheckPosition(p)).Failure? ==>
        r == Failure(old(CheckPosition(p)).error) && size == old(size) && arena.nodes == old(arena.nodes)
      ensures old(CheckPosition(p)).Success? ==>
        r == Success(NodePosition(old(|arena.nodes|))) && size == old(size) + 1 &&
        arena.nodes == AddLeaf(old(arena.nodes), p.id, e)
      ensures old(CheckPosition(p)).Success? ==>
        ElementAt(r.value) == e && Parent(r.value) == Success(p) && IsLeaf(r.value) == Success(true) &&
        Children(p) == Success(old(Children(p)).value + [r.value]) &&
        (forall n | n in old(arena.nodes) && n != p.id :: arena.nodes[n] == old(arena.nodes[n]))
      ensures old(CheckPosition(p)).Success? ==>
        Owned() == old(Owned()) + {old(|arena.nodes|)} &&
        Live() == old(Live()) + (if p.id in old(Live()) then {old(|arena.nodes|)} else {})
      ensures old(Sound()) ==> Sound()
    {
      var check := CheckPosition(p);
      if check.Failure? {
        return Failure(check.error);
      }
      var n := check.value;
      var k := |arena.nodes|;
      arena.nodes := AddLeaf(arena.nodes, n, e);
      size := size + 1;
      r := Success(NodePosition(k));
      AddKeeps(Leaf(n, e));
      AddedLeaf(Leaf(n, e));
    }

    /** What the queries report about the leaf `add` created. */
    twostate lemma AddedLeaf(leaf: Leaf<E>)
      requires old(Valid()) && leaf.parent in old(Owned()) && arena.treeCount == old(arena.treeCount)
      requires arena.nodes == AddLeaf(old(arena.nodes), leaf.parent, leaf.element)
      ensures ElementAt(NodePosition(old(|arena.nodes|))) == leaf.element
      ensures Parent(NodePosition(old(|arena.nodes|))) == Success(NodePosition(leaf.parent))
      ensures IsLeaf(NodePosition(old(|arena.nodes|))) == Success(true)
      ensures Children(NodePosition(leaf.parent)) ==
        Success(old(Children(NodePosition(leaf.parent))).value + [NodePosition(old(|arena.nodes|))])
      ensures forall n | n in old(arena.nodes) && n != leaf.parent :: arena.nodes[n] == old(arena.nodes[n])
    {
      ghost var h := old(arena.nodes);
      var p := NodePosition(leaf.parent);
      assert |h| !in h;
      ghost var cs := Handles(h[p.id].children);
      assert old(Children(p)).value == cs;
      assert Children(p).value == cs + [NodePosition(|h|)];
    }

    twostate lemma AddKeeps(leaf: Leaf<E>)
      requires old(Valid()) && leaf.parent in old(Owned()) && arena.treeCount == old(arena.treeCount) && root == old(root)
      requires arena.nodes == AddLeaf(old(arena.nodes), leaf.parent, leaf.element) && size == old(size) + 1
      ensures Valid() && Owned() == old(Owned()) + {old(|arena.nodes|)}
      ensures Live() == old(Live()) + (if leaf.parent in old(Live()) then {old(|arena.nodes|)} else {})
      ensures old(Sound()) ==> Sound()
    {
      ghost var h := old(arena.nodes);
      var n, e := leaf.parent, leaf.element;
      AddLeafForest(h, n, e);
      AddLeafOwned(h, n, e, id, arena.treeCount);
      if root.Some? {
        AddLeafSubtree(h, n, e, root.value);
      }
      assert |h| !in h;
    }

    /** `replace`: store `e` at `p` and hand back what was there. */
    method Replace(p: Position, e: E) returns (r: Result<E>)
      requires Valid()
      modifies arena
      ensures Valid() && arena.treeCount == old(arena.treeCount)
      ensures old(CheckPosition(p)).Failure? ==>
        r == Failure(old(CheckPosition(p)).error) && arena.nodes == old(arena.nodes)
      ensures old(CheckPosition(p)).Success? ==>
        r == Success(old(ElementAt(p))) && arena.nodes == SetElement(old(arena.nodes), p.id, e) &&
        ElementAt(p) == e
      ensures SameShape(old(arena.nodes), arena.nodes) && Owned() == old(Owned()) && Live() == old(Live())
      ensures old(Sound()) ==> Sound()
    {
      var check := CheckPosition(p);
      if check.Failure? {
        return Failure(check.error);
      }
      var n := check.value;
      var temp := ElementAt(p);
      arena.nodes := SetElement(arena.nodes, n, e);
      r := Success(temp);
      ElementsOnlyChanged();
    }

    /** `swapElements`: both handles are checked, then the two elements trade places. */
    method SwapElements(p1: Position, p2: Position) returns (r: Result<()>)
      requires Valid()
      modifies arena
      ensures Valid() && arena.treeCount == old(arena.treeCount)
      ensures old(CheckPosition(p1)).Failure? ==>
        r == Failure(old(CheckPosition(p1)).error) && arena.nodes == old(arena.nodes)
      ensures old(CheckPosition(p1)).Success? && old(CheckPosition(p2)).Failure? ==>
        r == Failure(old(CheckPosition(p2)).error) && arena.nodes == old(arena.nodes)
      ensures old(CheckPosition(p1)).Success? && old(CheckPosition(p2)).Success? ==>
        r == Success(()) && arena.nodes == Swap(old(arena.nodes), p1.id, p2.id) &&
        ElementAt(p1) == old(ElementAt(p2)) && ElementAt(p2) == old(ElementAt(p1))
      ensures p1 == p2 ==> arena.nodes == old(arena.nodes)
      ensures SameShape(old(arena.nodes), arena.nodes) && Owned() == old(Owned()) && Live() == old(Live())
      ensures old(Sound()) ==> Sound()
    {
      var check1 := CheckPosition(p1);
      if check1.Failure? {
        return Failure(check1.error);
      }
      var check2 := CheckPosition(p2);
      if check2.Failure? {
        return Failure(check2.error);
      }
      var n1, n2 := check1.value, check2.value;
      var temp := ElementAt(p2);
      arena.nodes := SetElement(arena.nodes, n2, ElementAt(p1));
      arena.nodes := SetElement(arena.nodes, n1, temp);
      r := Success(());
      ElementsOnlyChanged();
    }

    /** A change to elements alone keeps the invariants, the owned nodes and the reachable nodes. */
    twostate lemma ElementsOnlyChanged()
      requires old(Valid()) && SameShape(old(arena.nodes), arena.nodes)
      requires root == old(root) && size == old(size) && arena.treeCount == old(arena.treeCount)
      ensures Valid() && Owned() == old(Owned()) && Live() == old(Live())
      ensures old(Sound()) ==> Sound()
    {
      SameShapeForest(old(arena.nodes), arena.nodes);
      if root.Some? {
        SameShapeSubtree(old(arena.nodes), arena.nodes, root.value);
      }
    }

    /** `remove`: a node with a parent is counted with the configured iterator,
        the count is taken off `size` and the node leaves its parent's children;
        the root empties the tree. Only the removed node loses its owner. */
    method Remove(p: Position) returns (r: Result<()>)
      requires Valid()
      modifies this, arena
      ensures Valid() && arena.treeCount == old(arena.treeCount) && iteratorFactory == old(iteratorFactory)
      ensures old(CheckPosition(p)).Failure? ==>
        r == Failure(old(CheckPosition(p)).error) && root == old(root) && size == old(size) &&
        arena.nodes == old(arena.nodes)
      ensures old(CheckPosition(p)).Success? && old(arena.nodes[p.id].parent).Some? ==>
        r == Success(()) && root == old(root) && size == old(size - |Subtree(arena.nodes, p.id)|) &&
        arena.nodes == Unlink(old(arena.nodes), p.id)
      ensures old(CheckPosition(p)).Success? && old(arena.nodes[p.id].parent).None? ==>
        r == Success(()) && root.None? && size == 0 && arena.nodes == Disown(old(arena.nodes), p.id)
      ensures old(CheckPosition(p)).Success? ==> Owned() == old(Owned()) - {p.id}
      ensures old(Sound()) && old(CheckPosition(p)).Success? ==>
        SizeConsistent() && Live() == old(Live() - Subtree(arena.nodes, p.id))
      ensures old(Sound()) && old(IsLeaf(p)) == Success(true) ==> Sound()
    {
      var check := CheckPosition(p);
      if check.Failure? {
        return Failure(check.error);
      }
      var node := check.value;
      ghost var h := arena.nodes;
      if arena.nodes[node].parent.Some? {
        var cont := CountSubtree(p);
        size := size - cont;
        arena.nodes := Detach(arena.nodes, node);
      } else {
        root := None;
        size := 0;
      }
      arena.nodes := Disown(arena.nodes, node);
      r := Success(());
      if h[node].parent.Some? {
        RemoveChildKeeps(node);
      } else {
        RemoveRootKeeps(node);
      }
    }

    /** The counting loop of `remove`: a traversal from `p` with the configured
        iterator hands out every node of the subtree of `p` exactly once. */
    method CountSubtree(p: Position) returns (cont: int)
      requires Valid() && CheckPosition(p).Success?
      ensures cont == |Subtree(arena.nodes, p.id)|
    {
      var it: BFSIterator<E>;
      match iteratorFactory {
        case BFSIteratorFactory => it := new BFSIterator(this, p);
      }
      LevelOrderFrom(arena.nodes, p.id);
      assert Ids(it.nodeQueue) == [p.id];
      cont := 0;
      while it.HasNext()
        modifies it
        invariant it.tree == this && it.Traversable()
        invariant cont + |it.Remaining()| == |Subtree(arena.nodes, p.id)|
        decreases |it.Remaining()|
      {
        var _ := it.Next();
        cont := cont + 1;
      }
    }

    /** `remove` of a node with a parent. */
    twostate lemma RemoveChildKeeps(x: NodeId)
      requires old(Valid()) && x in old(Owned()) && arena.treeCount == old(arena.treeCount)
      requires old(arena.nodes[x].parent).Some?
      requires root == old(root) && size == old(size - |Subtree(arena.nodes, x)|)
      requires arena.nodes == Unlink(old(arena.nodes), x)
      ensures Valid() && Owned() == old(Owned()) - {x}
      ensures old(Sound()) ==> SizeConsistent() && Live() == old(Live() - Subtree(arena.nodes, x))
      ensures old(Sound()) && old(arena.nodes[x].children) == [] ==> Sound()
    {
      ghost var h := old(arena.nodes);
      UnlinkForest(h, x);
      DetachOwned(h, x, id, arena.treeCount);
      DisownOwned(Detach(h, x), x, id, arena.treeCount);
      if old(Sound()) {
        UnlinkLive(h, x, root.value);
      }
    }

    /** `remove` of the root. */
    twostate lemma RemoveRootKeeps(x: NodeId)
      requires old(Valid()) && x in old(Owned()) && arena.treeCount == old(arena.treeCount)
      requires old(arena.nodes[x].parent).None?
      requires root.None? && size == 0 && arena.nodes == Disown(old(arena.nodes), x)
      ensures Valid() && Owned() == old(Owned()) - {x}
      ensures old(Sound()) ==> SizeConsistent() && Live() == old(Live() - Subtree(arena.nodes, x))
      ensures old(Sound()) && old(arena.nodes[x].children) == [] ==> Sound()
    {
      ghost var h := old(arena.nodes);
      DisownParentlessForest(h, x);
      DisownOwned(h, x, id, arena.treeCount);
      if old(Sound()) {
        ParentlessIsRoot(h, x, old(root).value);
      }
    }

    /** The corrected removal: every node the traversal visits is counted and
        loses its owner, so no handle into the removed subtree stays valid. */
    method RemoveSubtree(p: Position) returns (r: Result<()>)
      requires Valid()
      modifies this, arena
      ensures Valid() && arena.treeCount == old(arena.treeCount) && iteratorFactory == old(iteratorFactory)
      ensures old(CheckPosition(p)).Failure? ==>
        r == Failure(old(CheckPosition(p)).error) && root == old(root) && size == old(size) &&
        arena.nodes == old(arena.nodes)
      ensures old(CheckPosition(p)).Success? && old(arena.nodes[p.id].parent).Some? ==>
        r == Success(()) && root == old(root) && size == old(size - |Subtree(arena.nodes, p.id)|) &&
        arena.nodes == DisownAll(Detach(old(arena.nodes), p.id), old(Subtree(arena.nodes, p.id)))
      ensures old(CheckPosition(p)).Success? && old(arena.nodes[p.id].parent).None? ==>
        r == Success(()) && root.None? && size == 0 &&
        arena.nodes == DisownAll(old(arena.nodes), old(Subtree(arena.nodes, p.id)))
      ensures old(CheckPosition(p)).Success? ==> Owned() == old(Owned() - Subtree(arena.nodes, p.id))
      ensures old(Sound()) ==> Sound()
      ensures old(Sound()) && old(CheckPosition(p)).Success? ==> Live() == old(Live() - Subtree(arena.nodes, p.id))
    {
      var check := CheckPosition(p);
      if check.Failure? {
        return Failure(check.error);
      }
      var node := check.value;
      ghost var h := arena.nodes;
      var visited := VisitSubtree(p);
      LevelOrderFrom(h, node);
      if arena.nodes[node].parent.Some? {
        size := size - |visited|;
        arena.nodes := Detach(arena.nodes, node);
      } else {
        root := None;
        size := 0;
      }
      arena.nodes := DisownAll(arena.nodes, Elements(visited));
      r := Success(());
      PruneKeeps(node);
    }

    /** The traversal loop of the corrected removal: the nodes a traversal from
        `p` hands out, in the order it hands them out. */
    method VisitSubtree(p: Position) returns (visited: seq<NodeId>)
      requires Valid() && CheckPosition(p).Success?
      ensures AllIn(arena.nodes, [p.id]) && visited == LevelOrder(arena.nodes, [p.id])
    {
      var it: BFSIterator<E>;
      match iteratorFactory {
        case BFSIteratorFactory => it := new BFSIterator(this, p);
      }
      assert Ids(it.nodeQueue) == [p.id];
      ghost var all := it.Remaining();
      visited := [];
      while it.HasNext()
        modifies it
        invariant it.tree == this && it.Traversable()
        invariant visited + it.Remaining() == all
        decreases |it.Remaining()|
      {
        ghost var seen, rest := visited, it.Remaining();
        var q := it.Next();
        visited := visited + [q.value.id];
        assert visited + it.Remaining() == seen + rest;
      }
    }

    twostate lemma PruneKeeps(x: NodeId)
      requires old(Valid()) && x in old(Owned()) && arena.treeCount == old(arena.treeCount)
      requires old(arena.nodes[x].parent).Some? ==>
        root == old(root) && size == old(size - |Subtree(arena.nodes, x)|) &&
        arena.nodes == DisownAll(Detach(old(arena.nodes), x), old(Subtree(arena.nodes, x)))
      requires old(arena.nodes[x].parent).None? ==>
        root.None? && size == 0 && arena.nodes == DisownAll(old(arena.nodes), old(Subtree(arena.nodes, x)))
      ensures Valid() && Owned() == old(Owned() - Subtree(arena.nodes, x))
      ensures old(Sound()) ==> Sound() && Live() == old(Live() - Subtree(arena.nodes, x))
    {
      ghost var h := old(arena.nodes);
      ghost var count := arena.treeCount;
      if h[x].parent.Some? {
        PruneOwned(h, x, id, count);
        PruneSubtree(h, x, x);
        if root.Some? {
          PruneKeepsRoot(h, x, root.value);
          if old(Sound()) {
            PruneLive(h, x, root.value);
          }
        }
      } else {
        ParentlessUnlisted(h, x);
        DisownUnlistedSubtree(h, x, x);
        DisownAllOwned(h, Subtree(h, x), id, count);
        if old(Sound()) {
          ParentlessIsRoot(h, x, old(root).value);
        }
      }
    }

    /** `setIterator`: only the breadth-first strategy exists in this model. */
    method SetIterator(f: IteratorFactory)
      modifies this
      ensures iteratorFactory == f && root == old(root) && size == old(size)
      ensures old(Valid()) ==> Valid()
      ensures old(Sound()) ==> Sound()
    {
      iteratorFactory := f;
    }

    /** `iterator`: a traversal of the whole tree from the root. */
    method Iterator() returns (r: Result<BFSIterator<E>>)
      ensures root.None? ==> r == Failure(EmptyTree)
      ensures root.Some? ==>
        r.Success? && fresh(r.value) && r.value.tree == this && r.value.nodeQueue == [NodePosition(root.value)]
    {
      match iteratorFactory {
        case BFSIteratorFactory => r := BFSIterator.FromRoot(this);
      }
    }

    // -------------------------------------------------------------------
    // What the queries mean for the shape of the tree

    /** A node is a leaf exactly when its subtree is itself alone, and internal
        exactly when its subtree has more nodes. */
    lemma ShapeQueries(p: Position)
      requires Valid() && CheckPosition(p).Success?
      ensures IsLeaf(p) == Success(Subtree(arena.nodes, p.id) == {p.id})
      ensures IsInternal(p) == Success(|Subtree(arena.nodes, p.id)| > 1)
      ensures IsInternal(p).value == !IsLeaf(p).value
    {
      var h := arena.nodes;
      LeafSubtree(h, p.id);
      SubtreeUnfold(h, p.id);
      if Subtree(h, p.id) != {p.id} {
        var m :| m in Subtree(h, p.id) && m != p.id;
        var rest := Subtree(h, p.id) - {p.id, m};
        assert Subtree(h, p.id) == rest + {p.id, m} && rest !! {p.id, m};
        assert |Subtree(h, p.id)| == |rest| + |{p.id, m}| == |rest| + 2;
      }
    }

    /** In a sound tree, the traversal from the root visits every node that
        passes the check exactly once, so it hands out `size()` positions. */
    lemma FullTraversal()
      requires Sound() && root.Some?
      ensures AllIn(arena.nodes, [root.value])
      ensures Elements(LevelOrder(arena.nodes, [root.value])) == Owned()
      ensures NoDup(LevelOrder(arena.nodes, [root.value]))
      ensures |LevelOrder(arena.nodes, [root.value])| == Size()
    {
      LevelOrderFrom(arena.nodes, root.value);
    }

    /** In a sound tree, the parent of an owned node is owned too, and a node
        is the root exactly when it has no parent. */
    lemma SoundQueries(p: Position)
      requires Sound() && CheckPosition(p).Success?
      ensures Parent(p).Success? ==> CheckPosition(Parent(p).value).Success?
      ensures IsRoot(p) == Success(Parent(p) == Failure(NoParent))
    {
      var h := arena.nodes;
      var x := p.id;
      assert root.Some? && x in Subtree(h, root.value);
      if x != root.value {
        SubtreeParent(h, root.value, x);
      }
    }
  }

  // ---------------------------------------------------------------------
  // What removal does to the nodes reachable from a root

  lemma DifferenceSize<T>(a: set<T>, b: set<T>)
    requires b <= a
    ensures |a - b| == |a| - |b|
  {
    assert a == (a - b) + b;
  }

  /** A parentless node inside the subtree of `r` is `r` itself. */
  lemma ParentlessIsRoot<E>(h: Heap<E>, x: NodeId, r: NodeId)
    requires Forest(h) && r in h && x in h && x in Subtree(h, r) && h[x].parent.None?
    ensures x == r && Subtree(h, r) - Subtree(h, x) == {}
  {
    if x != r {
      SubtreeParent(h, r, x);
    }
  }

  /** Unlinking a node below the parentless `r` takes its subtree out of the
      subtree of `r`, and the sizes subtract. */
  lemma UnlinkLive<E>(h: Heap<E>, x: NodeId, r: NodeId)
    requires Forest(h) && r in h && x in h && h[r].parent.None? && x in Subtree(h, r)
    requires h[x].parent.Some? && h[x].myTree.Some?
    ensures Forest(Unlink(h, x)) && r in Unlink(h, x)
    ensures Subtree(Unlink(h, x), r) == Subtree(h, r) - Subtree(h, x)
    ensures |Subtree(Unlink(h, x), r)| == |Subtree(h, r)| - |Subtree(h, x)|
    ensures h[x].children == [] ==> Subtree(h, r) - Subtree(h, x) == Subtree(h, r) - {x}
  {
    var live, s := Subtree(h, r), Subtree(h, x);
    SubtreeParent(h, r, x);
    SubtreeTransitive(h, r, x);
    UnlinkSubtree(h, x, r);
    DifferenceSize(live, s);
    LeafSubtree(h, x);
  }

  /** The parentless `r` outside the subtree of `x` keeps its place after the
      corrected removal of `x`. */
  lemma PruneKeepsRoot<E>(h: Heap<E>, x: NodeId, r: NodeId)
    requires Forest(h) && x in h && r in h && h[r].parent.None? && h[x].parent.Some?
    ensures r !in Subtree(h, x)
    ensures r in DisownAll(Detach(h, x), Subtree(h, x)) && DisownAll(Detach(h, x), Subtree(h, x))[r].parent.None?
    ensures DisownAll(Detach(h, x), Subtree(h, x))[r].myTree == h[r].myTree
  {
    if r in Subtree(h, x) {
      SubtreeParent(h, x, r);
    }
  }

  /** The corrected removal of a node below the parentless `r` takes its subtree
      out of the subtree of `r`, and the sizes subtract. */
  lemma PruneLive<E>(h: Heap<E>, x: NodeId, r: NodeId)
    requires Forest(h) && r in h && x in h && h[r].parent.None? && x in Subtree(h, r)
    requires h[x].parent.Some? && h[x].myTree.Some?
    ensures Forest(DisownAll(Detach(h, x), Subtree(h, x))) && r in DisownAll(Detach(h, x), Subtree(h, x))
    ensures Subtree(DisownAll(Detach(h, x), Subtree(h, x)), r) == Subtree(h, r) - Subtree(h, x)
    ensures |Subtree(h, r) - Subtree(h, x)| == |Subtree(h, r)| - |Subtree(h, x)|
  {
    var live, s := Subtree(h, r), Subtree(h, x);
    SubtreeParent(h, r, x);
    SubtreeTransitive(h, r, x);
    PruneSubtree(h, x, r);
    DifferenceSize(live, s);
  }

  /** One `next` on a queue of nodes of tree `t`: the queue stays within the tree,
      and the traversal from the old queue is the head followed by the traversal
      from the new one. */
  lemma QueueStep<E>(h: Heap<E>, t: TreeId, q: seq<Position>, q': seq<Position>)
    requires Forest(h) && q != []
    requires forall i | 0 <= i < |q| :: q[i].NodePosition? && q[i].id in h && h[q[i].id].myTree == Some(t)
    requires q' == q[1..] + Handles(h[q[0].id].children)
    ensures forall i | 0 <= i < |q'| :: q'[i].NodePosition? && q'[i].id in OwnedBy(h, t)
    ensures AllIn(h, Ids(q)) && AllIn(h, Ids(q'))
    ensures LevelOrder(h, Ids(q)) == [q[0].id] + LevelOrder(h, Ids(q'))
  {
    var n := q[0].id;
    var cs := h[n].children;
    IdsStep(q, cs);
    forall i | 0 <= i < |q'| ensures q'[i].NodePosition? && q'[i].id in OwnedBy(h, t) {
      if i >= |q| - 1 {
        var j := i - (|q| - 1);
        assert q'[i].id == cs[j] && h[cs[j]].myTree == h[n].myTree;
      } else {
        assert q'[i] == q[i + 1];
      }
    }
    assert Ids(q)[0] == n;
  }

  /** `BFSIterator`: a FIFO queue of the positions still to be handed out.
      Children are fetched through the tree when their parent is dequeued. */
  class BFSIterator<E> {
    const tree: LinkedTree<E>
    var nodeQueue: seq<Position>

    /** The `(tree, start)` constructor for a non-null start. */
    constructor (tree: LinkedTree<E>, start: Position)
      requires start != NullPosition
      ensures this.tree == tree && nodeQueue == [start]
      ensures HasNext()
    {
      this.tree := tree;
      nodeQueue := [start];
    }

    /** The `(tree, start)` constructor: the queue refuses a null start. */
    static method FromStart(tree: LinkedTree<E>, start: Position) returns (r: Result<BFSIterator<E>>)
      ensures start == NullPosition ==> r == Failure(NullElement)
      ensures start != NullPosition ==>
        r.Success? && fresh(r.value) && r.value.tree == tree && r.value.nodeQueue == [start]
    {
      if start == NullPosition {
        return Failure(NullElement);
      }
      var it := new BFSIterator(tree, start);
      return Success(it);
    }

    /** The `(tree)` constructor: seeded with `root()`, which fails on an empty tree. */
    static method FromRoot(tree: LinkedTree<E>) returns (r: Result<BFSIterator<E>>)
      ensures tree.root.None? ==> r == Failure(EmptyTree)
      ensures tree.root.Some? ==>
        r.Success? && fresh(r.value) && r.value.tree == tree && r.value.nodeQueue == [NodePosition(tree.root.value)]
    {
      var start := tree.Root();
      if start.Failure? {
        return Failure(start.error);
      }
      var it := new BFSIterator(tree, start.value);
      return Success(it);
    }

    /** Every pending position is a node of the tree, so no `next` can fail. */
    ghost predicate Traversable()
      reads this, tree, tree.arena
    {
      tree.Valid() &&
      forall i | 0 <= i < |nodeQueue| :: nodeQueue[i].NodePosition? && nodeQueue[i].id in tree.Owned()
    }

    /** The nodes the remaining calls of `next` hand out, in order. */
    ghost function Remaining(): seq<NodeId>
      reads this, tree, tree.arena
      requires Traversable()
    {
      LevelOrder(tree.arena.nodes, Ids(nodeQueue))
    }

    function HasNext(): (r: bool)
      reads this, tree, tree.arena
      ensures r <==> nodeQueue != []
      ensures Traversable() ==> (r <==> Remaining() != [])
    {
      |nodeQueue| != 0
    }

    /** `next`: dequeue the head, enqueue its children in order, hand out the head.
        The head is validated only now, by `children`. */
    method Next() returns (r: Result<Position>)
      modifies this
      ensures old(nodeQueue) == [] ==> r == Failure(NoSuchElement) && nodeQueue == old(nodeQueue)
      ensures old(nodeQueue) != [] && tree.Children(old(nodeQueue)[0]).Failure? ==>
        r == Failure(tree.Children(old(nodeQueue)[0]).error) && nodeQueue == old(nodeQueue)[1..]
      ensures old(nodeQueue) != [] && tree.Children(old(nodeQueue)[0]).Success? ==>
        r == Success(old(nodeQueue)[0]) && nodeQueue == old(nodeQueue)[1..] + tree.Children(old(nodeQueue)[0]).value
      ensures old(Traversable()) && old(nodeQueue) != [] ==>
        r.Success? && r.value.NodePosition? && Traversable() && old(Remaining()) == [r.value.id] + Remaining()
    {
      if |nodeQueue| == 0 {
        return Failure(NoSuchElement);
      }
      var aux := nodeQueue[0];
      nodeQueue := nodeQueue[1..];
      var kids := tree.Children(aux);
      if kids.Failure? {
        return Failure(kids.error);
      }
      for i := 0 to |kids.value|
        invariant nodeQueue == old(nodeQueue)[1..] + kids.value[..i]
      {
        nodeQueue := nodeQueue + [kids.value[i]];
      }
      assert kids.value[..|kids.value|] == kids.value;
      r := Success(aux);
      if old(Traversable()) {
        assert kids.value == Handles(tree.arena.nodes[aux.id].children);
        QueueStep(tree.arena.nodes, tree.id, old(nodeQueue), nodeQueue);
      }
    }
  }
}
