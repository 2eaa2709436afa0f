/** The changes the linked tree makes to the arena, and what each does to
    the structural invariant and to the set of nodes below any node. */
module ArenaUpdates {
  import opened TreeArena

  /** Every node of `h` other than `p` is in `h'` unchanged. */
  ghost predicate KeptOutside<E>(h: Heap<E>, h': Heap<E>, p: NodeId) {
    forall n | n in h && n != p :: n in h' && h'[n] == h[n]
  }

  /** `add`: a new leaf, owned like its parent, appended as the parent's last child. */
  function AddLeaf<E>(h: Heap<E>, p: NodeId, e: E): (h': Heap<E>)
    requires p in h
    ensures h'.Keys == h.Keys + {|h|}
    ensures IdsBounded(h) ==>
      |h| !in h && IdsBounded(h') &&
      h'[|h|].parent == Some(p) && h'[|h|].children == [] && h'[|h|].myTree == h[p].myTree &&
      h'[p].children == h[p].children + [|h|] && KeptOutside(h, h', p)
  {
    var k := |h|;
    h[p := h[p].(children := h[p].children + [k])][k := TreeNode(e, Some(p), [], h[p].myTree)]
  }

  /** `addRoot`: a new parentless, childless node owned by tree `t`. */
  function AddRootNode<E>(h: Heap<E>, e: E, t: TreeId): (h': Heap<E>)
    ensures h'.Keys == h.Keys + {|h|}
    ensures IdsBounded(h) ==>
      |h| !in h && IdsBounded(h') &&
      h'[|h|].parent.None? && h'[|h|].children == [] && h'[|h|].myTree == Some(t) &&
      KeptOutside(h, h', |h|)
  {
    h[|h| := TreeNode(e, None, [], Some(t))]
  }

  /** `parent.getChildren().remove(node)`: drop `p` from its parent's children list
      (a node without a parent in the arena is left alone). */
  function Detach<E>(h: Heap<E>, p: NodeId): (h': Heap<E>)
    requires p in h
    ensures h'.Keys == h.Keys
    ensures h[p].parent.Some? && h[p].parent.value in h ==>
      KeptOutside(h, h', h[p].parent.value) &&
      h'[h[p].parent.value] == h[h[p].parent.value].(children := h'[h[p].parent.value].children) &&
      multiset(h'[h[p].parent.value].children) == multiset(h[h[p].parent.value].children) - multiset{p}
    ensures !(h[p].parent.Some? && h[p].parent.value in h) ==> h' == h
  {
    if h[p].parent.Some? && h[p].parent.value in h then
      var q := h[p].parent.value;
      h[q := h[q].(children := RemoveFirst(h[q].children, p))]
    else h
  }

  /** `remove` of a node with a parent: detach it, then clear its owner. */
  function Unlink<E>(h: Heap<E>, p: NodeId): (h': Heap<E>)
    requires p in h
    ensures h'.Keys == h.Keys && h'[p].myTree.None?
    ensures h[p].parent.Some? && h[p].parent.value in h ==>
      multiset(h'[h[p].parent.value].children) == multiset(h[h[p].parent.value].children) - multiset{p}
  {
    Disown(Detach(h, p), p)
  }

  /** `setMyTree(null)` on one node. */
  function Disown<E>(h: Heap<E>, p: NodeId): (h': Heap<E>)
    requires p in h
    ensures SameLinks(h, h') && h'[p].myTree.None? && h'[p].element == h[p].element
    ensures KeptOutside(h, h', p)
  {
    h[p := h[p].(myTree := None)]
  }

  /** `setElement` on one node. */
  function SetElement<E>(h: Heap<E>, p: NodeId, e: E): (h': Heap<E>)
    requires p in h
    ensures SameShape(h, h') && h'[p].element == e
    ensures KeptOutside(h, h', p)
  {
    h[p := h[p].(element := e)]
  }

  /** Clear the owner of every node of `s`. */
  function DisownAll<E>(h: Heap<E>, s: set<NodeId>): Heap<E> {
    map n | n in h :: if n in s then h[n].(myTree := None) else h[n]
  }

  // ---------------------------------------------------------------------
  // The structural invariant survives every update

  /** `h'` has the same nodes, parents and children lists as `h`. */
  ghost predicate SameLinks<E>(h: Heap<E>, h': Heap<E>) {
    h'.Keys == h.Keys &&
    forall n | n in h :: h'[n].parent == h[n].parent && h'[n].children == h[n].children
  }

  lemma LinksKept<E>(h: Heap<E>, h': Heap<E>)
    requires IdsBounded(h) && ChildLinks(h) && ChildrenDistinct(h) && ParentLinks(h) && SameLinks(h, h')
    ensures IdsBounded(h') && ChildLinks(h') && ChildrenDistinct(h') && ParentLinks(h')
  {
    assert |h'| == |h'.Keys| == |h.Keys| == |h|;
    assert ChildLinks(h') by {
      forall n, i | n in h' && 0 <= i < |h'[n].children|
        ensures h'[n].children[i] in h' && n < h'[n].children[i] && h'[h'[n].children[i]].parent == Some(n)
      {
        var c := h'[n].children[i];
        assert c in h[n].children;
      }
    }
    assert ChildrenDistinct(h') by {
      forall n | n in h' ensures NoDup(h'[n].children) {
        assert NoDup(h[n].children);
      }
    }
    assert ParentLinks(h') by {
      forall n | n in h' ensures ParentBelow(h', n) {
        assert ParentBelow(h, n);
      }
    }
  }

  /** `h'` differs from `h` in elements only. */
  ghost predicate SameShape<E>(h: Heap<E>, h': Heap<E>) {
    SameLinks(h, h') && forall n | n in h :: h'[n].myTree == h[n].myTree
  }

  lemma SameShapeForest<E>(h: Heap<E>, h': Heap<E>)
    requires Forest(h) && SameShape(h, h')
    ensures Forest(h')
    ensures forall t :: OwnedBy(h', t) == OwnedBy(h, t)
    ensures forall count :: OwnersBelow(h, count) ==> OwnersBelow(h', count)
  {
    LinksKept(h, h');
    assert OwnerInherited(h') by {
      forall n, i | n in h' && 0 <= i < |h'[n].children| && h'[n].myTree.Some?
        ensures h'[h'[n].children[i]].myTree == h'[n].myTree
      {
        var c := h'[n].children[i];
        assert c in h[n].children;
      }
    }
    assert OwnedListed(h') by {
      forall n | n in h' && h'[n].myTree.Some? && h'[n].parent.Some? ensures Listed(h', n) {
        assert Listed(h, n);
      }
    }
  }

  /** Every subtree is the same in two arenas of the same shape. */
  lemma SameShapeSubtree<E>(h: Heap<E>, h': Heap<E>, x: NodeId)
    requires Forest(h) && SameShape(h, h') && x in h
    ensures Forest(h') && x in h' && Subtree(h', x) == Subtree(h, x)
  {
    SameShapeForest(h, h');
    SameLinksSubtree(h, h', x);
  }

  lemma DisownParentlessForest<E>(h: Heap<E>, p: NodeId)
    requires Forest(h) && p in h && h[p].parent.None?
    ensures Forest(Disown(h, p)) && Disown(h, p).Keys == h.Keys
  {
    var h' := Disown(h, p);
    LinksKept(h, h');
    assert OwnerInherited(h') by {
      forall n, i | n in h' && 0 <= i < |h'[n].children| && h'[n].myTree.Some?
        ensures h'[h'[n].children[i]].myTree == h'[n].myTree
      {
        var c := h'[n].children[i];
        assert c in h[n].children;
      }
    }
    assert OwnedListed(h') by {
      forall n | n in h' && h'[n].myTree.Some? && h'[n].parent.Some? ensures Listed(h', n) {
        assert Listed(h, n);
      }
    }
  }

  lemma DisownAllLinks<E>(h: Heap<E>, s: set<NodeId>)
    ensures SameLinks(h, DisownAll(h, s))
    ensures forall n | n in h :: DisownAll(h, s)[n].myTree == if n in s then None else h[n].myTree
  {
  }

  lemma DisownSubtreeOwners<E>(h: Heap<E>, x: NodeId)
    requires Forest(h) && x in h
    requires forall n | n in h && h[n].myTree.Some? :: x !in h[n].children
    ensures ChildLinks(DisownAll(h, Subtree(h, x))) && OwnerInherited(DisownAll(h, Subtree(h, x)))
  {
    var s := Subtree(h, x);
    var h' := DisownAll(h, s);
    DisownAllLinks(h, s);
    LinksKept(h, h');
    forall n, i | n in h' && 0 <= i < |h'[n].children| && h'[n].myTree.Some?
      ensures h'[h'[n].children[i]].myTree == h'[n].myTree
    {
      var c := h'[n].children[i];
      assert c in h[n].children && n !in s && c != x;
      if c in s {
        SubtreeParent(h, x, c);
      }
    }
  }

  /** Clearing the owners of a whole subtree whose top is listed by no owned node. */
  lemma DisownSubtreeForest<E>(h: Heap<E>, x: NodeId)
    requires Forest(h) && x in h
    requires forall n | n in h && h[n].myTree.Some? :: x !in h[n].children
    ensures Forest(DisownAll(h, Subtree(h, x))) && DisownAll(h, Subtree(h, x)).Keys == h.Keys
  {
    var s := Subtree(h, x);
    var h' := DisownAll(h, s);
    DisownAllLinks(h, s);
    LinksKept(h, h');
    DisownSubtreeOwners(h, x);
    assert OwnedListed(h') by {
      forall n | n in h' && h'[n].myTree.Some? && h'[n].parent.Some? ensures Listed(h', n) {
        assert Listed(h, n);
      }
    }
  }

  lemma AddLeafLinks<E>(h: Heap<E>, p: NodeId, e: E)
    requires IdsBounded(h) && ChildLinks(h) && p in h
    ensures IdsBounded(AddLeaf(h, p, e)) && ChildLinks(AddLeaf(h, p, e))
    ensures |AddLeaf(h, p, e)| == |h| + 1 && AddLeaf(h, p, e).Keys == h.Keys + {|h|}
  {
    var k := |h|;
    assert k !in h;
    var h' := AddLeaf(h, p, e);
    assert h'.Keys == h.Keys + {k};
    forall n, i | n in h' && 0 <= i < |h'[n].children|
      ensures h'[n].children[i] in h' && n < h'[n].children[i] && h'[h'[n].children[i]].parent == Some(n)
    {
      var c := h'[n].children[i];
      if n != p || c != k {
        assert c in h[n].children;
      }
    }
  }

  lemma AddLeafDistinct<E>(h: Heap<E>, p: NodeId, e: E)
    requires IdsBounded(h) && ChildLinks(h) && ChildrenDistinct(h) && p in h
    ensures ChildrenDistinct(AddLeaf(h, p, e))
  {
    var k := |h|;
    var h' := AddLeaf(h, p, e);
    forall n | n in h' ensures NoDup(h'[n].children) {
      if n == p {
        assert NoDup(h[p].children);
        assert forall i | 0 <= i < |h[p].children| :: h[p].children[i] < k;
      } else if n != k {
        assert NoDup(h[n].children);
      }
    }
  }

  lemma AddLeafParents<E>(h: Heap<E>, p: NodeId, e: E)
    requires IdsBounded(h) && ParentLinks(h) && p in h
    ensures ParentLinks(AddLeaf(h, p, e))
  {
    var k := |h|;
    var h' := AddLeaf(h, p, e);
    forall n | n in h' ensures ParentBelow(h', n) {
      if n != k {
        assert ParentBelow(h, n);
      }
    }
  }

  lemma AddLeafOwners<E>(h: Heap<E>, p: NodeId, e: E)
    requires IdsBounded(h) && ChildLinks(h) && OwnerInherited(h) && OwnedListed(h) && p in h
    ensures ChildLinks(AddLeaf(h, p, e)) && OwnerInherited(AddLeaf(h, p, e)) && OwnedListed(AddLeaf(h, p, e))
  {
    var k := |h|;
    var h' := AddLeaf(h, p, e);
    AddLeafLinks(h, p, e);
    forall n, i | n in h' && 0 <= i < |h'[n].children| && h'[n].myTree.Some?
      ensures h'[h'[n].children[i]].myTree == h'[n].myTree
    {
      var c := h'[n].children[i];
      if n != p || c != k {
        assert c in h[n].children;
      }
    }
    forall n | n in h' && h'[n].myTree.Some? && h'[n].parent.Some? ensures Listed(h', n) {
      if n != k {
        assert Listed(h, n);
      }
    }
  }

  lemma AddLeafForest<E>(h: Heap<E>, p: NodeId, e: E)
    requires Forest(h) && p in h
    ensures Forest(AddLeaf(h, p, e)) && |AddLeaf(h, p, e)| == |h| + 1 && AddLeaf(h, p, e).Keys == h.Keys + {|h|}
  {
    AddLeafLinks(h, p, e);
    AddLeafDistinct(h, p, e);
    AddLeafParents(h, p, e);
    AddLeafOwners(h, p, e);
  }

  lemma AddRootLinks<E>(h: Heap<E>, e: E, t: TreeId)
    requires IdsBounded(h) && ChildLinks(h) && ChildrenDistinct(h) && ParentLinks(h)
    ensures IdsBounded(AddRootNode(h, e, t)) && ChildLinks(AddRootNode(h, e, t))
    ensures ChildrenDistinct(AddRootNode(h, e, t)) && ParentLinks(AddRootNode(h, e, t))
    ensures |AddRootNode(h, e, t)| == |h| + 1 && AddRootNode(h, e, t).Keys == h.Keys + {|h|}
  {
    var k := |h|;
    assert k !in h;
    var h' := AddRootNode(h, e, t);
    assert h'.Keys == h.Keys + {k};
    forall n, i | n in h' && 0 <= i < |h'[n].children|
      ensures h'[n].children[i] in h' && n < h'[n].children[i] && h'[h'[n].children[i]].parent == Some(n)
    {
      var c := h'[n].children[i];
      assert c in h[n].children;
    }
    forall n | n in h' ensures NoDup(h'[n].children) {
      if n != k {
        assert NoDup(h[n].children);
      }
    }
    forall n | n in h' ensures ParentBelow(h', n) {
      if n != k {
        assert ParentBelow(h, n);
      }
    }
  }

  lemma AddRootOwners<E>(h: Heap<E>, e: E, t: TreeId)
    requires IdsBounded(h) && ChildLinks(h) && OwnerInherited(h) && OwnedListed(h)
    ensures ChildLinks(AddRootNode(h, e, t)) && OwnerInherited(AddRootNode(h, e, t)) && OwnedListed(AddRootNode(h, e, t))
  {
    var k := |h|;
    assert k !in h;
    var h' := AddRootNode(h, e, t);
    forall n, i | n in h' && 0 <= i < |h'[n].children|
      ensures h'[n].children[i] in h' && n < h'[n].children[i] && h'[h'[n].children[i]].parent == Some(n)
    {
      var c := h'[n].children[i];
      assert c in h[n].children;
    }
    forall n, i | n in h' && 0 <= i < |h'[n].children| && h'[n].myTree.Some?
      ensures h'[h'[n].children[i]].myTree == h'[n].myTree
    {
      var c := h'[n].children[i];
      assert c in h[n].children;
    }
    forall n | n in h' && h'[n].myTree.Some? && h'[n].parent.Some? ensures Listed(h', n) {
      assert Listed(h, n);
    }
  }

  lemma AddRootForest<E>(h: Heap<E>, e: E, t: TreeId)
    requires Forest(h)
    ensures Forest(AddRootNode(h, e, t)) && |AddRootNode(h, e, t)| == |h| + 1
    ensures AddRootNode(h, e, t).Keys == h.Keys + {|h|}
  {
    AddRootLinks(h, e, t);
    AddRootOwners(h, e, t);
  }

  lemma UnlinkLinks<E>(h: Heap<E>, p: NodeId)
    requires IdsBounded(h) && ChildLinks(h) && ChildrenDistinct(h) && ParentLinks(h)
    requires p in h && h[p].parent.Some? && h[p].parent.value in h
    ensures IdsBounded(Unlink(h, p)) && ChildLinks(Unlink(h, p)) && ChildrenDistinct(Unlink(h, p)) && ParentLinks(Unlink(h, p))
    ensures Unlink(h, p).Keys == h.Keys
  {
    var q := h[p].parent.value;
    var h' := Unlink(h, p);
    assert h'.Keys == h.Keys;
    assert |h'| == |h'.Keys| == |h.Keys| == |h|;
    assert ParentBelow(h, p);
    RemoveFirstMembers(h[q].children, p);
    forall n, i | n in h' && 0 <= i < |h'[n].children|
      ensures h'[n].children[i] in h' && n < h'[n].children[i] && h'[h'[n].children[i]].parent == Some(n)
    {
      var c := h'[n].children[i];
      assert c in h[n].children;
    }
    forall n | n in h' ensures NoDup(h'[n].children) {
      assert NoDup(h[n].children);
    }
    forall n | n in h' ensures ParentBelow(h', n) {
      assert ParentBelow(h, n);
    }
  }

  lemma UnlinkOwners<E>(h: Heap<E>, p: NodeId)
    requires IdsBounded(h) && ChildLinks(h) && ChildrenDistinct(h) && ParentLinks(h) && OwnerInherited(h) && OwnedListed(h)
    requires p in h && h[p].parent.Some? && h[p].myTree.Some?
    ensures h[p].parent.value in h
    ensures ChildLinks(Unlink(h, p)) && OwnerInherited(Unlink(h, p)) && OwnedListed(Unlink(h, p))
  {
    assert Listed(h, p);
    var q := h[p].parent.value;
    var h' := Unlink(h, p);
    UnlinkLinks(h, p);
    assert ParentBelow(h, p);
    RemoveFirstMembers(h[q].children, p);
    forall n, i | n in h' && 0 <= i < |h'[n].children| && h'[n].myTree.Some?
      ensures h'[h'[n].children[i]].myTree == h'[n].myTree
    {
      var c := h'[n].children[i];
      assert c in h[n].children;
      assert c != p;
    }
    forall n | n in h' && h'[n].myTree.Some? && h'[n].parent.Some? ensures Listed(h', n) {
      assert n != p;
      assert Listed(h, n);
    }
  }

  lemma UnlinkForest<E>(h: Heap<E>, p: NodeId)
    requires Forest(h) && p in h && h[p].parent.Some? && h[p].myTree.Some?
    ensures h[p].parent.value in h && Forest(Unlink(h, p)) && Unlink(h, p).Keys == h.Keys
  {
    UnlinkOwners(h, p);
    UnlinkLinks(h, p);
  }

  // ---------------------------------------------------------------------
  // What each update does to the nodes below a node

  /** Subtrees only depend on children lists. */
  lemma {:induction false} SubtreeFrame<E>(h: Heap<E>, h': Heap<E>, x: NodeId)
    requires Forest(h) && Forest(h') && x in h
    requires forall n | n in Subtree(h, x) :: n in h && n in h' && h'[n].children == h[n].children
    ensures x in h' && Subtree(h', x) == Subtree(h, x)
    decreases |h| - x
  {
    assert x in Subtree(h, x);
    var cs := h[x].children;
    forall c | c in cs ensures c in h' && Subtree(h', c) == Subtree(h, c) {
      forall n | n in Subtree(h, c) ensures n in h && n in h' && h'[n].children == h[n].children {
        InSubtreeOfParent(h, x, c, n);
      }
      SubtreeFrame(h, h', c);
    }
    SubtreeUnfold(h, x);
    SubtreeUnfold(h', x);
    forall m ensures m in SubtreesOf(h', cs) <==> m in SubtreesOf(h, cs) {
      if m in SubtreesOf(h', cs) {
        var c := PickQueued(h', cs, m);
        InSubtreesOf(h, cs, c, m);
      }
      if m in SubtreesOf(h, cs) {
        var c := PickQueued(h, cs, m);
        InSubtreesOf(h', cs, c, m);
      }
    }
  }

  /** A subtree that does not contain the one node whose children changed is unchanged. */
  lemma SubtreeAvoiding<E>(h: Heap<E>, h': Heap<E>, x: NodeId, z: NodeId)
    requires Forest(h) && Forest(h') && x in h && z !in Subtree(h, x)
    requires forall n | n in h && n != z :: n in h' && h'[n].children == h[n].children
    ensures x in h' && Subtree(h', x) == Subtree(h, x)
  {
    forall n | n in Subtree(h, x) ensures n in h && n in h' && h'[n].children == h[n].children {
      SubtreeBelow(h, x, n);
    }
    SubtreeFrame(h, h', x);
  }

  /** The subtrees of the children of `z` do not contain `z`. */
  lemma ChildSubtreesAvoid<E>(h: Heap<E>, z: NodeId)
    requires Forest(h) && z in h
    ensures forall c | c in h[z].children :: c in h && z !in Subtree(h, c)
  {
    forall c | c in h[z].children ensures c in h && z !in Subtree(h, c) {
      if z in Subtree(h, c) {
        SubtreeBelow(h, c, z);
      }
    }
  }

  /** The new leaf joins the subtree of its parent, and nothing else below the parent changes. */
  lemma AddLeafAtParent<E>(h: Heap<E>, p: NodeId, e: E)
    requires Forest(h) && p in h
    ensures Forest(AddLeaf(h, p, e)) && p in AddLeaf(h, p, e)
    ensures Subtree(AddLeaf(h, p, e), p) == Subtree(h, p) + {|h|}
  {
    var h' := AddLeaf(h, p, e);
    var k := |h|;
    AddLeafForest(h, p, e);
    var cs := h[p].children;
    var cs' := h'[p].children;
    assert cs' == cs + [k];
    ChildSubtreesAvoid(h, p);
    forall c | c in cs ensures c in h && Subtree(h', c) == Subtree(h, c) {
      SubtreeAvoiding(h, h', c, p);
    }
    assert k in h' && h'[k].children == [];
    LeafSubtree(h', k);
    SubtreeUnfold(h, p);
    SubtreeUnfold(h', p);
    forall m ensures m in SubtreesOf(h', cs') <==> m in SubtreesOf(h, cs) + {k} {
      if m in SubtreesOf(h', cs') {
        var c := PickQueued(h', cs', m);
        if c != k {
          assert c in cs;
          InSubtreesOf(h, cs, c, m);
        }
      }
      if m in SubtreesOf(h, cs) {
        var c := PickQueued(h, cs, m);
        assert c in cs';
        InSubtreesOf(h', cs', c, m);
      }
      if m == k {
        assert k in cs';
        InSubtreesOf(h', cs', k, k);
      }
    }
  }

  /** The hypothesis of `AddLeafAbove`: every child's subtree gains the new
      leaf exactly when it contains the parent `p`. */
  ghost predicate ChildrenGain<E>(h: Heap<E>, p: NodeId, e: E, x: NodeId)
    requires Forest(h) && p in h && x in h && Forest(AddLeaf(h, p, e))
  {
    forall c | c in h[x].children ::
      (c in h && c in AddLeaf(h, p, e) &&
       Subtree(AddLeaf(h, p, e), c) == Subtree(h, c) + (if p in Subtree(h, c) then {|h|} else {}))
  }

  /** Above the parent, a subtree gains the new leaf when its children's subtrees do. */
  lemma AddLeafAbove<E>(h: Heap<E>, p: NodeId, e: E, x: NodeId)
    requires Forest(h) && p in h && x in h && x != p && Forest(AddLeaf(h, p, e))
    requires ChildrenGain(h, p, e, x)
    ensures x in AddLeaf(h, p, e)
    ensures Subtree(AddLeaf(h, p, e), x) == Subtree(h, x) + (if p in Subtree(h, x) then {|h|} else {})
  {
    var h' := AddLeaf(h, p, e);
    var cs := h[x].children;
    assert h'[x].children == cs;
    SubtreeUnfold(h, x);
    SubtreeUnfold(h', x);
    AddLeafAboveNoMore(h, p, e, x);
    AddLeafAboveNoLess(h, p, e, x);
  }

  lemma AddLeafAboveNoMore<E>(h: Heap<E>, p: NodeId, e: E, x: NodeId)
    requires Forest(h) && p in h && x in h && x != p && Forest(AddLeaf(h, p, e))
    requires ChildrenGain(h, p, e, x)
    ensures AllIn(h, h[x].children) && AllIn(AddLeaf(h, p, e), h[x].children)
    ensures SubtreesOf(AddLeaf(h, p, e), h[x].children) <=
      SubtreesOf(h, h[x].children) + (if p in Subtree(h, x) then {|h|} else {})
  {
    var h' := AddLeaf(h, p, e);
    var cs := h[x].children;
    forall m | m in SubtreesOf(h', cs)
      ensures m in SubtreesOf(h, cs) + (if p in Subtree(h, x) then {|h|} else {})
    {
      var c := PickQueued(h', cs, m);
      if m in Subtree(h, c) {
        InSubtreesOf(h, cs, c, m);
      } else {
        InSubtreeOfParent(h, x, c, p);
      }
    }
  }

  lemma AddLeafAboveNoLess<E>(h: Heap<E>, p: NodeId, e: E, x: NodeId)
    requires Forest(h) && p in h && x in h && x != p && Forest(AddLeaf(h, p, e))
    requires ChildrenGain(h, p, e, x)
    ensures AllIn(h, h[x].children) && AllIn(AddLeaf(h, p, e), h[x].children)
    ensures SubtreesOf(h, h[x].children) + (if p in Subtree(h, x) then {|h|} else {}) <=
      SubtreesOf(AddLeaf(h, p, e), h[x].children)
  {
    AddLeafAboveKeeps(h, p, e, x);
    if p in Subtree(h, x) {
      var c := PickChild(h, x, p);
      InSubtreesOf(AddLeaf(h, p, e), h[x].children, c, |h|);
    }
  }

  lemma AddLeafAboveKeeps<E>(h: Heap<E>, p: NodeId, e: E, x: NodeId)
    requires Forest(h) && p in h && x in h && Forest(AddLeaf(h, p, e))
    requires ChildrenGain(h, p, e, x)
    ensures AllIn(h, h[x].children) && AllIn(AddLeaf(h, p, e), h[x].children)
    ensures SubtreesOf(h, h[x].children) <= SubtreesOf(AddLeaf(h, p, e), h[x].children)
  {
    var h' := AddLeaf(h, p, e);
    var cs := h[x].children;
    forall m | m in SubtreesOf(h, cs) ensures m in SubtreesOf(h', cs) {
      var c := PickQueued(h, cs, m);
      InSubtreesOf(h', cs, c, m);
    }
  }

  lemma {:induction false} AddLeafSubtree<E>(h: Heap<E>, p: NodeId, e: E, x: NodeId)
    requires Forest(h) && p in h && x in h
    ensures Forest(AddLeaf(h, p, e)) && x in AddLeaf(h, p, e)
    ensures Subtree(AddLeaf(h, p, e), x) == Subtree(h, x) + (if p in Subtree(h, x) then {|h|} else {})
    decreases |h| - x
  {
    var h' := AddLeaf(h, p, e);
    AddLeafForest(h, p, e);
    if p !in Subtree(h, x) {
      forall n | n in Subtree(h, x) ensures n in h && n in h' && h'[n].children == h[n].children {
        SubtreeBelow(h, x, n);
      }
      SubtreeFrame(h, h', x);
    } else if x == p {
      AddLeafAtParent(h, p, e);
    } else {
      forall c | c in h[x].children
        ensures c in h && c in h' && Subtree(h', c) == Subtree(h, c) + (if p in Subtree(h, c) then {|h|} else {})
      {
        assert x < c < |h|;
        AddLeafSubtree(h, p, e, c);
      }
      AddLeafAbove(h, p, e, x);
    }
  }

  /** Dropping `p` from a children list whose other subtrees are unchanged and
      disjoint from that of `p` drops exactly the subtree of `p`. */
  lemma DropChildSubtrees<E>(h: Heap<E>, h': Heap<E>, cs: seq<NodeId>, cs': seq<NodeId>, p: NodeId)
    requires Forest(h) && Forest(h') && AllIn(h, cs) && AllIn(h', cs') && p in h
    requires forall c :: c in cs' <==> c in cs && c != p
    requires forall c | c in cs' :: Subtree(h', c) == Subtree(h, c) && Subtree(h, c) !! Subtree(h, p)
    ensures SubtreesOf(h', cs') == SubtreesOf(h, cs) - Subtree(h, p)
  {
    forall m ensures m in SubtreesOf(h', cs') <==> m in SubtreesOf(h, cs) - Subtree(h, p) {
      if m in SubtreesOf(h', cs') {
        var c := PickQueued(h', cs', m);
        InSubtreesOf(h, cs, c, m);
      }
      if m in SubtreesOf(h, cs) && m !in Subtree(h, p) {
        var c := PickQueued(h, cs, m);
        InSubtreesOf(h', cs', c, m);
      }
    }
  }

  /** Unlinking `p` takes its subtree out of its parent's. */
  lemma UnlinkAtParent<E>(h: Heap<E>, p: NodeId)
    requires Forest(h) && p in h && h[p].parent.Some? && h[p].myTree.Some?
    ensures h[p].parent.value in h && Forest(Unlink(h, p))
    ensures Subtree(Unlink(h, p), h[p].parent.value) == Subtree(h, h[p].parent.value) - Subtree(h, p)
  {
    assert Listed(h, p) && ParentBelow(h, p);
    var q := h[p].parent.value;
    var h' := Unlink(h, p);
    UnlinkForest(h, p);
    var cs := h[q].children;
    var cs' := RemoveFirst(cs, p);
    assert h'[q].children == cs';
    assert NoDup(cs);
    RemoveFirstMembers(cs, p);
    UnlinkSiblings(h, p);
    assert q !in Subtree(h, p) by {
      if q in Subtree(h, p) { SubtreeBelow(h, p, q); }
    }
    SubtreeUnfold(h, q);
    SubtreeUnfold(h', q);
    DropChildSubtrees(h, h', cs, cs', p);
  }

  /** The siblings left behind keep their subtrees, which avoid the subtree of `p`. */
  lemma UnlinkSiblings<E>(h: Heap<E>, p: NodeId)
    requires Forest(h) && p in h && h[p].parent.Some? && h[p].myTree.Some?
    requires h[p].parent.value in h && Forest(Unlink(h, p))
    ensures forall c | c in RemoveFirst(h[h[p].parent.value].children, p) ::
      c in h && c != p && c in h[h[p].parent.value].children &&
      Subtree(Unlink(h, p), c) == Subtree(h, c) && Subtree(h, c) !! Subtree(h, p)
  {
    var q := h[p].parent.value;
    var h' := Unlink(h, p);
    var cs := h[q].children;
    assert NoDup(cs);
    RemoveFirstMembers(cs, p);
    UnlinkKeeps(h, p);
    ChildSubtreesAvoid(h, q);
    forall c | c in RemoveFirst(cs, p)
      ensures c in h && c != p && c in cs && Subtree(h', c) == Subtree(h, c) && Subtree(h, c) !! Subtree(h, p)
    {
      SubtreeAvoiding(h, h', c, q);
      SiblingsDisjoint(h, c, p);
    }
  }

  /** Unlinking changes no children list except the parent's. */
  lemma UnlinkKeeps<E>(h: Heap<E>, p: NodeId)
    requires p in h && h[p].parent.Some? && h[p].parent.value in h
    ensures forall n | n in h && n != h[p].parent.value :: n in Unlink(h, p) && Unlink(h, p)[n].children == h[n].children
  {
  }

  /** The hypothesis of `UnlinkAbove`: every child's subtree loses the subtree
      of `p` exactly when it contains the parent of `p`. */
  ghost predicate ChildrenLose<E>(h: Heap<E>, p: NodeId, x: NodeId)
    requires Forest(h) && p in h && h[p].parent.Some? && x in h && Forest(Unlink(h, p))
  {
    forall c | c in h[x].children ::
      (c in h && c in Unlink(h, p) &&
       Subtree(Unlink(h, p), c) == if h[p].parent.value in Subtree(h, c) then Subtree(h, c) - Subtree(h, p) else Subtree(h, c))
  }

  /** Above the parent of `p`, a subtree loses exactly the subtree of `p`. */
  lemma UnlinkAbove<E>(h: Heap<E>, p: NodeId, x: NodeId)
    requires Forest(h) && p in h && h[p].parent.Some? && h[p].parent.value in h && x in h
    requires h[p].parent.value in Subtree(h, x) && x != h[p].parent.value
    requires Listed(h, p) && Forest(Unlink(h, p))
    requires ChildrenLose(h, p, x)
    ensures x in Unlink(h, p) && Subtree(Unlink(h, p), x) == Subtree(h, x) - Subtree(h, p)
  {
    var q := h[p].parent.value;
    var h' := Unlink(h, p);
    var cs := h[x].children;
    SubtreeBelow(h, x, q);
    assert ParentBelow(h, p);
    assert x !in Subtree(h, p) by {
      if x in Subtree(h, p) { SubtreeBelow(h, p, x); }
    }
    assert h'[x].children == cs;
    SubtreeUnfold(h, x);
    SubtreeUnfold(h', x);
    var c0 := PickChild(h, x, q);
    assert p in Subtree(h, c0) by {
      InSubtreeOfParent(h, q, p, p);
      SubtreeTransitive(h, c0, q);
    }
    SubtreeTransitive(h, c0, p);
    UnlinkAboveNoMore(h, p, x, c0);
    UnlinkAboveNoLess(h, p, x);
  }

  lemma UnlinkAboveNoMore<E>(h: Heap<E>, p: NodeId, x: NodeId, c0: NodeId)
    requires Forest(h) && p in h && h[p].parent.Some? && h[p].parent.value in h && x in h && Forest(Unlink(h, p))
    requires ChildrenLose(h, p, x)
    requires AllIn(h, h[x].children) && AllIn(Unlink(h, p), h[x].children)
    requires c0 in h[x].children && h[p].parent.value in Subtree(h, c0) && Subtree(h, p) <= Subtree(h, c0)
    ensures SubtreesOf(Unlink(h, p), h[x].children) <= SubtreesOf(h, h[x].children) - Subtree(h, p)
  {
    var h' := Unlink(h, p);
    var cs := h[x].children;
    forall m | m in SubtreesOf(h', cs) ensures m in SubtreesOf(h, cs) && m !in Subtree(h, p) {
      var c := PickQueued(h', cs, m);
      InSubtreesOf(h, cs, c, m);
      if h[p].parent.value !in Subtree(h, c) {
        assert c != c0;
        SiblingsDisjoint(h, c, c0);
      }
    }
  }

  lemma ChildKeeps<E>(h: Heap<E>, p: NodeId, x: NodeId, c: NodeId, m: NodeId)
    requires Forest(h) && p in h && h[p].parent.Some? && x in h && Forest(Unlink(h, p))
    requires ChildrenLose(h, p, x) && c in h[x].children && c in h
    requires m in Subtree(h, c) && m !in Subtree(h, p)
    ensures c in Unlink(h, p) && m in Subtree(Unlink(h, p), c)
  {
  }

  lemma UnlinkAboveNoLess<E>(h: Heap<E>, p: NodeId, x: NodeId)
    requires Forest(h) && p in h && h[p].parent.Some? && h[p].parent.value in h && x in h && Forest(Unlink(h, p))
    requires ChildrenLose(h, p, x)
    requires AllIn(h, h[x].children) && AllIn(Unlink(h, p), h[x].children)
    ensures SubtreesOf(h, h[x].children) - Subtree(h, p) <= SubtreesOf(Unlink(h, p), h[x].children)
  {
    var h' := Unlink(h, p);
    var cs := h[x].children;
    forall m | m in SubtreesOf(h, cs) && m !in Subtree(h, p) ensures m in SubtreesOf(h', cs) {
      var c := PickQueued(h, cs, m);
      ChildKeeps(h, p, x, c, m);
      InSubtreesOf(h', cs, c, m);
    }
  }

  lemma {:induction false} UnlinkSubtree<E>(h: Heap<E>, p: NodeId, x: NodeId)
    requires Forest(h) && p in h && h[p].parent.Some? && h[p].myTree.Some? && x in h
    ensures h[p].parent.value in h && Forest(Unlink(h, p)) && x in Unlink(h, p)
    ensures Subtree(Unlink(h, p), x) ==
      if h[p].parent.value in Subtree(h, x) then Subtree(h, x) - Subtree(h, p) else Subtree(h, x)
    decreases |h| - x
  {
    assert Listed(h, p);
    var q := h[p].parent.value;
    var h' := Unlink(h, p);
    UnlinkForest(h, p);
    if q !in Subtree(h, x) {
      forall n | n in Subtree(h, x) ensures n in h && n in h' && h'[n].children == h[n].children {
        SubtreeBelow(h, x, n);
      }
      SubtreeFrame(h, h', x);
    } else if x == q {
      UnlinkAtParent(h, p);
    } else {
      forall c | c in h[x].children
        ensures c in h && c in h' &&
          Subtree(h', c) == if q in Subtree(h, c) then Subtree(h, c) - Subtree(h, p) else Subtree(h, c)
      {
        assert x < c < |h|;
        UnlinkSubtree(h, p, c);
      }
      UnlinkAbove(h, p, x);
    }
  }

  // ---------------------------------------------------------------------
  // Owners

  /** The nodes whose owner is tree `t`. */
  ghost function OwnedBy<E>(h: Heap<E>, t: TreeId): set<NodeId> {
    set n | n in h && h[n].myTree == Some(t)
  }

  /** Every owner is one of the `count` trees created so far. */
  ghost predicate OwnersBelow<E>(h: Heap<E>, count: nat) {
    forall n | n in h && h[n].myTree.Some? :: h[n].myTree.value < count
  }

  lemma AddLeafOwned<E>(h: Heap<E>, p: NodeId, e: E, t: TreeId, count: nat)
    requires IdsBounded(h) && p in h && OwnersBelow(h, count)
    ensures OwnedBy(AddLeaf(h, p, e), t) == OwnedBy(h, t) + (if h[p].myTree == Some(t) then {|h|} else {})
    ensures OwnersBelow(AddLeaf(h, p, e), count)
  {
    var h' := AddLeaf(h, p, e);
    assert |h| !in h && h'[|h|].myTree == h[p].myTree && KeptOutside(h, h', p);
    forall n ensures n in OwnedBy(h', t) <==> n in OwnedBy(h, t) + (if h[p].myTree == Some(t) then {|h|} else {}) {
      if n in h {
        assert h'[n].myTree == h[n].myTree;
      }
    }
  }

  lemma AddRootOwned<E>(h: Heap<E>, e: E, t: TreeId, u: TreeId, count: nat)
    requires IdsBounded(h) && OwnersBelow(h, count) && t < count
    ensures OwnedBy(AddRootNode(h, e, t), u) == OwnedBy(h, u) + (if t == u then {|h|} else {})
    ensures OwnersBelow(AddRootNode(h, e, t), count)
  {
    var h' := AddRootNode(h, e, t);
    assert |h| !in h && h'[|h|].myTree == Some(t) && KeptOutside(h, h', |h|);
    forall n ensures n in OwnedBy(h', u) <==> n in OwnedBy(h, u) + (if t == u then {|h|} else {}) {
      if n in h {
        assert h'[n] == h[n];
      }
    }
    forall n | n in h' && h'[n].myTree.Some? ensures h'[n].myTree.value < count {
      if n in h {
        assert h'[n] == h[n];
      }
    }
  }

  lemma DisownOwned<E>(h: Heap<E>, p: NodeId, t: TreeId, count: nat)
    requires p in h && OwnersBelow(h, count)
    ensures OwnedBy(Disown(h, p), t) == OwnedBy(h, t) - {p}
    ensures OwnersBelow(Disown(h, p), count)
  {
  }

  lemma DetachOwned<E>(h: Heap<E>, p: NodeId, t: TreeId, count: nat)
    requires p in h && h[p].parent.Some? && h[p].parent.value in h && OwnersBelow(h, count)
    ensures OwnedBy(Detach(h, p), t) == OwnedBy(h, t)
    ensures OwnersBelow(Detach(h, p), count)
  {
    var h' := Detach(h, p);
    assert forall n | n in h :: h'[n].myTree == h[n].myTree;
  }

  lemma DisownAllOwned<E>(h: Heap<E>, s: set<NodeId>, t: TreeId, count: nat)
    requires OwnersBelow(h, count)
    ensures OwnedBy(DisownAll(h, s), t) == OwnedBy(h, t) - s
    ensures OwnersBelow(DisownAll(h, s), count)
  {
  }

  /** Replacing the element and then putting back the old one restores the arena. */
  lemma SetElementUndo<E>(h: Heap<E>, p: NodeId, e: E)
    requires p in h
    ensures SetElement(SetElement(h, p, e), p, h[p].element) == h
  {
  }

  /** The elements at `p` and `q` exchanged the way `swapElements` does it:
      `q` first receives the element of `p`, then `p` receives the old element of `q`. */
  function Swap<E>(h: Heap<E>, p: NodeId, q: NodeId): (h': Heap<E>)
    requires p in h && q in h
    ensures SameShape(h, h')
    ensures h'[p].element == h[q].element && h'[q].element == h[p].element
    ensures forall n | n in h && n != p && n != q :: h'[n] == h[n]
  {
    SetElement(SetElement(h, q, h[p].element), p, h[q].element)
  }

  /** Swapping a node with itself changes nothing, and swapping twice restores the arena. */
  lemma SwapInvolution<E>(h: Heap<E>, p: NodeId, q: NodeId)
    requires p in h && q in h
    ensures Swap(h, p, p) == h
    ensures Swap(Swap(h, p, q), p, q) == h
  {
    var h' := Swap(Swap(h, p, q), p, q);
    assert h'.Keys == h.Keys;
    forall n | n in h ensures h'[n] == h[n] {
    }
  }

  // ---------------------------------------------------------------------
  // Updates that keep every children list

  lemma SameLinksSubtree<E>(h: Heap<E>, h': Heap<E>, x: NodeId)
    requires Forest(h) && Forest(h') && SameLinks(h, h') && x in h
    ensures x in h' && Subtree(h', x) == Subtree(h, x)
  {
    forall n | n in Subtree(h, x) ensures n in h && n in h' && h'[n].children == h[n].children {
      SubtreeBelow(h, x, n);
    }
    SubtreeFrame(h, h', x);
  }

  /** A new root node leaves every existing subtree as it was and is a subtree of its own. */
  lemma AddRootSubtree<E>(h: Heap<E>, e: E, t: TreeId)
    requires Forest(h)
    ensures Forest(AddRootNode(h, e, t)) && |h| in AddRootNode(h, e, t)
    ensures Subtree(AddRootNode(h, e, t), |h|) == {|h|}
    ensures forall x | x in h :: x in AddRootNode(h, e, t) && Subtree(AddRootNode(h, e, t), x) == Subtree(h, x)
  {
    var h' := AddRootNode(h, e, t);
    AddRootForest(h, e, t);
    assert |h| !in h;
    assert forall n | n in h && n != |h| :: n in h' && h'[n].children == h[n].children;
    forall x | x in h ensures x in h' && Subtree(h', x) == Subtree(h, x) {
      assert |h| !in Subtree(h, x) by {
        if |h| in Subtree(h, x) { SubtreeBelow(h, x, |h|); }
      }
      SubtreeAvoiding(h, h', x, |h|);
    }
    LeafSubtree(h', |h|);
  }

  // ---------------------------------------------------------------------
  // Removing a whole subtree

  /** After unlinking `x`, no node lists `x` among its children any more. */
  lemma UnlinkUnlisted<E>(h: Heap<E>, x: NodeId)
    requires Forest(h) && x in h && h[x].parent.Some? && h[x].myTree.Some?
    ensures h[x].parent.value in h && Forest(Unlink(h, x)) && x in Unlink(h, x)
    ensures forall n | n in Unlink(h, x) :: x !in Unlink(h, x)[n].children
  {
    assert Listed(h, x);
    var q := h[x].parent.value;
    var u := Unlink(h, x);
    UnlinkForest(h, x);
    assert NoDup(h[q].children);
    RemoveFirstMembers(h[q].children, x);
    assert u[x].parent == Some(q);
    forall n, i | n in u && 0 <= i < |u[n].children| ensures u[n].children[i] != x {
      if n == q {
        assert u[n].children[i] in RemoveFirst(h[q].children, x);
      } else {
        assert u[u[n].children[i]].parent == Some(n);
      }
    }
  }

  /** No node lists a parentless node among its children. */
  lemma ParentlessUnlisted<E>(h: Heap<E>, x: NodeId)
    requires Forest(h) && x in h && h[x].parent.None?
    ensures forall n | n in h :: x !in h[n].children
  {
    forall n, i | n in h && 0 <= i < |h[n].children| ensures h[n].children[i] != x {
      assert h[h[n].children[i]].parent == Some(n);
    }
  }

  /** Clearing the owner of the whole subtree of an unlisted node keeps the invariant
      and every subtree. */
  lemma DisownUnlistedSubtree<E>(h: Heap<E>, x: NodeId, y: NodeId)
    requires Forest(h) && x in h && y in h
    requires forall n | n in h :: x !in h[n].children
    ensures Forest(DisownAll(h, Subtree(h, x))) && y in DisownAll(h, Subtree(h, x))
    ensures Subtree(DisownAll(h, Subtree(h, x)), y) == Subtree(h, y)
  {
    DisownSubtreeForest(h, x);
    DisownAllLinks(h, Subtree(h, x));
    SameLinksSubtree(h, DisownAll(h, Subtree(h, x)), y);
  }

  /** Clearing one owner before clearing a set of owners that includes it changes nothing. */
  lemma DisownAllAbsorbs<E>(h: Heap<E>, x: NodeId, s: set<NodeId>)
    requires x in h && x in s
    ensures DisownAll(Disown(h, x), s) == DisownAll(h, s)
  {
  }

  /** The corrected removal of a node with a parent: detach it and clear the owner
      of its whole subtree.  Every other subtree loses exactly the removed nodes. */
  lemma PruneSubtree<E>(h: Heap<E>, x: NodeId, y: NodeId)
    requires Forest(h) && x in h && h[x].parent.Some? && h[x].myTree.Some? && y in h
    ensures h[x].parent.value in h && Forest(DisownAll(Detach(h, x), Subtree(h, x)))
    ensures y in DisownAll(Detach(h, x), Subtree(h, x))
    ensures Subtree(DisownAll(Detach(h, x), Subtree(h, x)), y) ==
      if h[x].parent.value in Subtree(h, y) then Subtree(h, y) - Subtree(h, x) else Subtree(h, y)
  {
    var s := Subtree(h, x);
    UnlinkUnlisted(h, x);
    var u := Unlink(h, x);
    assert ParentBelow(h, x);
    assert h[x].parent.value !in s by {
      if h[x].parent.value in s { SubtreeBelow(h, x, h[x].parent.value); }
    }
    UnlinkSubtree(h, x, x);
    UnlinkSubtree(h, x, y);
    assert x in s;
    DisownAllAbsorbs(Detach(h, x), x, s);
    DisownUnlistedSubtree(u, x, y);
  }

  /** The corrected removal clears the owner of exactly the removed subtree. */
  lemma PruneOwned<E>(h: Heap<E>, x: NodeId, t: TreeId, count: nat)
    requires Forest(h) && x in h && h[x].parent.Some? && h[x].myTree.Some? && OwnersBelow(h, count)
    ensures h[x].parent.value in h
    ensures OwnedBy(DisownAll(Detach(h, x), Subtree(h, x)), t) == OwnedBy(h, t) - Subtree(h, x)
    ensures OwnersBelow(DisownAll(Detach(h, x), Subtree(h, x)), count)
  {
    assert Listed(h, x);
    DetachOwned(h, x, t, count);
    DisownAllOwned(Detach(h, x), Subtree(h, x), t, count);
  }
}
