/** The node store shared by linked trees.
    Every `TreeNode` object of the linked tree is a record in an arena: a map
    from node id to the node's element, parent, ordered children and owning
    tree.  Node ids are handed out in allocation order, so a node created by
    `add` always has a larger id than its parent; that order is what makes
    the structure acyclic and gives every recursion below its measure. */
module TreeArena {

  type NodeId = nat
  type TreeId = nat

  datatype Option<+T> = None | Some(value: T)

  /** The exceptions of the linked tree and of its breadth-first iterator. */
  datatype Error =
    | EmptyTree          // IllegalStateException: the tree has no root
    | InvalidPosition    // IllegalStateException: null handle or not a tree node
    | NotFromThisTree    // IllegalStateException: the node's owner is another tree (or none)
    | AlreadyHasRoot     // IllegalStateException: addRoot on a non-empty tree
    | NoParent           // IndexOutOfBoundsException: parent of a parentless node
    | NoSuchElement      // NoSuchElementException: next() on an exhausted iterator
    | NullElement        // NullPointerException: a null start handle in the queue

  datatype Result<+T> = Success(value: T) | Failure(error: Error)

  /** A client handle: null, some other implementation of Position, or a tree node. */
  datatype Position = NullPosition | OtherPosition | NodePosition(id: NodeId)

  /** The fields of one tree node; `myTree` is None once the node is removed. */
  datatype TreeNode<E> = TreeNode(element: E, parent: Option<NodeId>, children: seq<NodeId>, myTree: Option<TreeId>)

  type Heap<E> = map<NodeId, TreeNode<E>>

  ghost predicate NoDup<T>(s: seq<T>) {
    forall i, j | 0 <= i < j < |s| :: s[i] != s[j]
  }

  /** Ids are allocation indices. */
  ghost predicate IdsBounded<E>(h: Heap<E>) {
    forall n | n in h :: n < |h|
  }

  /** A child is a younger node whose parent field names the node listing it. */
  ghost predicate ChildLinks<E>(h: Heap<E>) {
    forall n, i {:trigger h[n].children[i]} | n in h && 0 <= i < |h[n].children| ::
      h[n].children[i] in h && n < h[n].children[i] && h[h[n].children[i]].parent == Some(n)
  }

  ghost predicate ChildrenDistinct<E>(h: Heap<E>) {
    forall n {:trigger NoDup(h[n].children)} | n in h :: NoDup(h[n].children)
  }

  /** The parent of `n`, if any, is an older node of the arena. */
  ghost predicate ParentBelow<E>(h: Heap<E>, n: NodeId)
    requires n in h
  {
    h[n].parent.Some? ==> h[n].parent.value in h && h[n].parent.value < n
  }

  ghost predicate ParentLinks<E>(h: Heap<E>) {
    forall n {:trigger ParentBelow(h, n)} | n in h :: ParentBelow(h, n)
  }

  /** The children of an owned node belong to the same tree. */
  ghost predicate OwnerInherited<E>(h: Heap<E>)
    requires ChildLinks(h)
  {
    forall n, i {:trigger h[n].children[i]} | n in h && 0 <= i < |h[n].children| && h[n].myTree.Some? ::
      h[h[n].children[i]].myTree == h[n].myTree
  }

  /** `n` is among the children of its parent. */
  ghost predicate Listed<E>(h: Heap<E>, n: NodeId)
    requires n in h && h[n].parent.Some?
  {
    h[n].parent.value in h && n in h[h[n].parent.value].children
  }

  /** An owned node with a parent is listed among its parent's children. */
  ghost predicate OwnedListed<E>(h: Heap<E>) {
    forall n {:trigger Listed(h, n)} | n in h && h[n].myTree.Some? && h[n].parent.Some? :: Listed(h, n)
  }

  /** The structural invariant of the arena, for all trees that share it. */
  ghost predicate Forest<E>(h: Heap<E>) {
    IdsBounded(h) && ChildLinks(h) && ChildrenDistinct(h) && ParentLinks(h) && OwnerInherited(h) && OwnedListed(h)
  }

  ghost predicate AllIn<E>(h: Heap<E>, q: seq<NodeId>) {
    forall x | x in q :: x in h
  }

  /** Every node of `q` is an arena node younger than `lo`. */
  ghost predicate Above<E>(h: Heap<E>, q: seq<NodeId>, lo: int) {
    forall x | x in q :: x in h && lo < x
  }

  /** The nodes reachable from `n` through children lists, `n` included. */
  ghost function Subtree<E>(h: Heap<E>, n: NodeId): set<NodeId>
    requires Forest(h) && n in h
    decreases |h| - n, 1, 0
  {
    {n} + SubtreesAbove(h, h[n].children, n)
  }

  /** The union of the subtrees of the nodes of `q`, all younger than `lo`
      (the bound only serves the termination measure). */
  ghost function SubtreesAbove<E>(h: Heap<E>, q: seq<NodeId>, lo: int): set<NodeId>
    requires Forest(h) && Above(h, q, lo)
    decreases |h| - lo, 0, |q|
  {
    if q == [] then {} else Subtree(h, q[0]) + SubtreesAbove(h, q[1..], lo)
  }

  /** The union of the subtrees of the nodes of a queue. */
  ghost function SubtreesOf<E>(h: Heap<E>, q: seq<NodeId>): set<NodeId>
    requires Forest(h) && AllIn(h, q)
  {
    SubtreesAbove(h, q, -1)
  }

  /** The sum of the subtree sizes of the nodes of a queue. */
  ghost function Weight<E>(h: Heap<E>, q: seq<NodeId>): nat
    requires Forest(h) && AllIn(h, q)
  {
    if q == [] then 0 else |Subtree(h, q[0])| + Weight(h, q[1..])
  }

  /** The subtrees of the queue's nodes are pairwise disjoint. */
  ghost predicate DisjointQueue<E>(h: Heap<E>, q: seq<NodeId>)
    requires Forest(h) && AllIn(h, q)
  {
    forall i, j | 0 <= i < j < |q| :: Subtree(h, q[i]) !! Subtree(h, q[j])
  }

  function Handles(ids: seq<NodeId>): (r: seq<Position>)
    ensures |r| == |ids|
    ensures forall i | 0 <= i < |ids| :: r[i] == NodePosition(ids[i])
  {
    if ids == [] then [] else [NodePosition(ids[0])] + Handles(ids[1..])
  }

  /** The node ids behind a queue of tree-node handles. */
  function Ids(q: seq<Position>): (r: seq<NodeId>)
    requires forall i | 0 <= i < |q| :: q[i].NodePosition?
    ensures |r| == |q|
    ensures forall i | 0 <= i < |q| :: r[i] == q[i].id
  {
    if q == [] then [] else [q[0].id] + Ids(q[1..])
  }

  /** Dequeuing the head of a handle queue and enqueuing handles of `cs`. */
  lemma IdsStep(q: seq<Position>, cs: seq<NodeId>)
    requires q != [] && forall i | 0 <= i < |q| :: q[i].NodePosition?
    ensures forall i | 0 <= i < |q[1..] + Handles(cs)| :: (q[1..] + Handles(cs))[i].NodePosition?
    ensures Ids(q[1..] + Handles(cs)) == Ids(q)[1..] + cs
  {
    var q' := q[1..] + Handles(cs);
    forall i | 0 <= i < |q'| ensures q'[i].NodePosition? && q'[i].id == (Ids(q)[1..] + cs)[i] {
      if i < |q| - 1 {
        assert q'[i] == q[i + 1];
      } else {
        assert q'[i] == Handles(cs)[i - (|q| - 1)];
      }
    }
  }

  /** The set of entries of a sequence. */
  function Elements(s: seq<NodeId>): set<NodeId> {
    set x | x in s
  }

  /** The index of the first occurrence of `x` in `s`. */
  function FirstIndex(s: seq<NodeId>, x: NodeId): (i: nat)
    requires x in s
    ensures i < |s| && s[i] == x && x !in s[..i]
  {
    if s[0] == x then 0
    else
      var i := 1 + FirstIndex(s[1..], x);
      assert s[..i] == [s[0]] + s[1..][..i - 1];
      i
  }

  /** `List.remove(Object)`: drop the first occurrence of `x`, keeping the order of the rest. */
  function RemoveFirst(s: seq<NodeId>, x: NodeId): (r: seq<NodeId>)
    ensures x !in s ==> r == s
    ensures x in s ==> r == s[..FirstIndex(s, x)] + s[FirstIndex(s, x) + 1..]
    ensures multiset(r) == multiset(s) - multiset{x}
  {
    if x in s then
      var i := FirstIndex(s, x);
      assert s == s[..i] + [x] + s[i + 1..];
      s[..i] + s[i + 1..]
    else s
  }

  /** Past the dropped occurrence, every later entry moves down by one place. */
  lemma RemoveFirstShift(s: seq<NodeId>, x: NodeId)
    requires x in s
    ensures |RemoveFirst(s, x)| == |s| - 1
    ensures forall k | 0 <= k < |RemoveFirst(s, x)| ::
      RemoveFirst(s, x)[k] == s[if k < FirstIndex(s, x) then k else k + 1]
  {
  }

  lemma RemoveFirstMembers(s: seq<NodeId>, x: NodeId)
    requires NoDup(s)
    ensures NoDup(RemoveFirst(s, x))
    ensures forall y :: y in RemoveFirst(s, x) <==> y in s && y != x
  {
    if x in s {
      var i := FirstIndex(s, x);
      var r := RemoveFirst(s, x);
      RemoveFirstShift(s, x);
      forall y ensures y in r <==> y in s && y != x {
        if y in r {
          var k :| 0 <= k < |r| && r[k] == y;
          assert r[k] == s[if k < i then k else k + 1];
        }
        if y in s && y != x {
          var k :| 0 <= k < |s| && s[k] == y;
          if k < i { assert r[k] == y; } else { assert r[k - 1] == y; }
        }
      }
      forall a, b | 0 <= a < b < |r| ensures r[a] != r[b] {
        assert r[a] == s[if a < i then a else a + 1];
        assert r[b] == s[if b < i then b else b + 1];
      }
    }
  }

  // ---------------------------------------------------------------------
  // Shape of subtrees

  /** A node in a union of subtrees lies below one of the queue's nodes. */
  lemma {:induction false} PickRoot<E>(h: Heap<E>, q: seq<NodeId>, lo: int, m: NodeId) returns (x: NodeId)
    requires Forest(h) && Above(h, q, lo) && m in SubtreesAbove(h, q, lo)
    ensures x in q && m in Subtree(h, x)
    decreases |q|
  {
    if m in Subtree(h, q[0]) {
      x := q[0];
    } else {
      x := PickRoot(h, q[1..], lo, m);
    }
  }

  lemma {:induction false} InSubtreesAbove<E>(h: Heap<E>, q: seq<NodeId>, lo: int, x: NodeId, m: NodeId)
    requires Forest(h) && Above(h, q, lo) && x in q && m in Subtree(h, x)
    ensures m in SubtreesAbove(h, q, lo)
    decreases |q|
  {
    if x != q[0] {
      assert x in q[1..];
      assert forall y | y in q[1..] :: y in q;
      InSubtreesAbove(h, q[1..], lo, x, m);
    }
  }

  /** A node strictly below `n` lies below one of its children. */
  lemma PickChild<E>(h: Heap<E>, n: NodeId, m: NodeId) returns (c: NodeId)
    requires Forest(h) && n in h && m in Subtree(h, n) && m != n
    ensures c in h[n].children && c in h && n < c && m in Subtree(h, c)
  {
    c := PickRoot(h, h[n].children, n, m);
  }

  lemma InSubtreeOfParent<E>(h: Heap<E>, n: NodeId, c: NodeId, m: NodeId)
    requires Forest(h) && n in h && c in h[n].children && c in h && m in Subtree(h, c)
    ensures m in Subtree(h, n)
  {
    InSubtreesAbove(h, h[n].children, n, c, m);
  }

  lemma {:induction false} SubtreeBelow<E>(h: Heap<E>, n: NodeId, m: NodeId)
    requires Forest(h) && n in h && m in Subtree(h, n)
    ensures m in h && n <= m
    decreases |h| - n
  {
    if m != n {
      var c := PickChild(h, n, m);
      SubtreeBelow(h, c, m);
    }
  }

  /** A node below `n` has its parent below `n` too. */
  lemma {:induction false} SubtreeParent<E>(h: Heap<E>, n: NodeId, m: NodeId)
    requires Forest(h) && n in h && m in Subtree(h, n) && m != n
    ensures m in h && h[m].parent.Some? && h[m].parent.value in Subtree(h, n)
    decreases |h| - n
  {
    var c := PickChild(h, n, m);
    if m != c {
      SubtreeParent(h, c, m);
      InSubtreeOfParent(h, n, c, h[m].parent.value);
    }
  }

  lemma {:induction false} SubtreeTransitive<E>(h: Heap<E>, n: NodeId, m: NodeId)
    requires Forest(h) && n in h && m in Subtree(h, n)
    ensures m in h && Subtree(h, m) <= Subtree(h, n)
    decreases |h| - n
  {
    SubtreeBelow(h, n, m);
    if m != n {
      var c := PickChild(h, n, m);
      SubtreeTransitive(h, c, m);
      forall k | k in Subtree(h, c) ensures k in Subtree(h, n) {
        InSubtreeOfParent(h, n, c, k);
      }
    }
  }

  /** Owned nodes own their whole subtree. */
  lemma {:induction false} SubtreeOwned<E>(h: Heap<E>, n: NodeId, m: NodeId)
    requires Forest(h) && n in h && h[n].myTree.Some? && m in Subtree(h, n)
    ensures m in h && h[m].myTree == h[n].myTree
    decreases |h| - n
  {
    if m != n {
      var c := PickChild(h, n, m);
      SubtreeOwned(h, c, m);
    }
  }

  lemma {:induction false} NotInBoth<E>(h: Heap<E>, c: NodeId, d: NodeId, m: NodeId)
    requires Forest(h) && c in h && d in h && c != d
    requires h[c].parent.Some? && h[c].parent == h[d].parent
    ensures !(m in Subtree(h, c) && m in Subtree(h, d))
    decreases m
  {
    if m in Subtree(h, c) && m in Subtree(h, d) {
      var n := h[c].parent.value;
      assert ParentBelow(h, c) && ParentBelow(h, d);
      if m == c {
        SubtreeParent(h, d, m);
        SubtreeBelow(h, d, n);
        assert false;
      } else if m == d {
        SubtreeParent(h, c, m);
        SubtreeBelow(h, c, n);
        assert false;
      } else {
        SubtreeParent(h, c, m);
        SubtreeParent(h, d, m);
        assert ParentBelow(h, m);
        NotInBoth(h, c, d, h[m].parent.value);
      }
    }
  }

  /** Two distinct nodes with the same parent have disjoint subtrees. */
  lemma SiblingsDisjoint<E>(h: Heap<E>, c: NodeId, d: NodeId)
    requires Forest(h) && c in h && d in h && c != d
    requires h[c].parent.Some? && h[c].parent == h[d].parent
    ensures Subtree(h, c) !! Subtree(h, d)
  {
    forall m ensures !(m in Subtree(h, c) && m in Subtree(h, d)) {
      NotInBoth(h, c, d, m);
    }
  }

  lemma ChildrenDisjoint<E>(h: Heap<E>, n: NodeId)
    requires Forest(h) && n in h
    ensures AllIn(h, h[n].children) && DisjointQueue(h, h[n].children)
  {
    var cs := h[n].children;
    forall i, j | 0 <= i < j < |cs| ensures Subtree(h, cs[i]) !! Subtree(h, cs[j]) {
      assert cs[i] in cs && cs[j] in cs;
      assert NoDup(cs);
      SiblingsDisjoint(h, cs[i], cs[j]);
    }
  }

  /** The bound `lo` does not change the union. */
  lemma {:induction false} SubtreesAboveIsOf<E>(h: Heap<E>, q: seq<NodeId>, lo: int)
    requires Forest(h) && Above(h, q, lo)
    ensures AllIn(h, q) && SubtreesAbove(h, q, lo) == SubtreesOf(h, q)
    decreases |q|
  {
    if q != [] {
      assert forall y | y in q[1..] :: y in q;
      assert Above(h, q[1..], lo) && AllIn(h, q[1..]);
      SubtreesAboveIsOf(h, q[1..], lo);
    }
  }

  lemma PickQueued<E>(h: Heap<E>, q: seq<NodeId>, m: NodeId) returns (x: NodeId)
    requires Forest(h) && AllIn(h, q) && m in SubtreesOf(h, q)
    ensures x in q && m in Subtree(h, x)
  {
    x := PickRoot(h, q, -1, m);
  }

  lemma InSubtreesOf<E>(h: Heap<E>, q: seq<NodeId>, x: NodeId, m: NodeId)
    requires Forest(h) && AllIn(h, q) && x in q && m in Subtree(h, x)
    ensures m in SubtreesOf(h, q)
  {
    InSubtreesAbove(h, q, -1, x, m);
  }

  lemma SubtreesOfCons<E>(h: Heap<E>, q: seq<NodeId>)
    requires Forest(h) && AllIn(h, q) && q != []
    ensures AllIn(h, q[1..]) && SubtreesOf(h, q) == Subtree(h, q[0]) + SubtreesOf(h, q[1..])
  {
    assert AllIn(h, q[1..]);
  }

  lemma {:induction false} SubtreesOfAppend<E>(h: Heap<E>, a: seq<NodeId>, b: seq<NodeId>)
    requires Forest(h) && AllIn(h, a) && AllIn(h, b)
    ensures AllIn(h, a + b) && SubtreesOf(h, a + b) == SubtreesOf(h, a) + SubtreesOf(h, b)
    decreases |a|
  {
    assert AllIn(h, a + b);
    if a == [] {
      assert a + b == b;
    } else {
      assert (a + b)[1..] == a[1..] + b;
      SubtreesOfCons(h, a);
      SubtreesOfCons(h, a + b);
      SubtreesOfAppend(h, a[1..], b);
    }
  }

  lemma {:induction false} WeightAppend<E>(h: Heap<E>, a: seq<NodeId>, b: seq<NodeId>)
    requires Forest(h) && AllIn(h, a) && AllIn(h, b)
    ensures AllIn(h, a + b) && Weight(h, a + b) == Weight(h, a) + Weight(h, b)
    decreases |a|
  {
    if a != [] {
      assert (a + b)[1..] == a[1..] + b;
      WeightAppend(h, a[1..], b);
    } else {
      assert a + b == b;
    }
  }

  lemma DisjointTail<E>(h: Heap<E>, q: seq<NodeId>)
    requires Forest(h) && AllIn(h, q) && q != [] && DisjointQueue(h, q)
    ensures AllIn(h, q[1..]) && DisjointQueue(h, q[1..])
    ensures Subtree(h, q[0]) !! SubtreesOf(h, q[1..])
  {
    assert AllIn(h, q[1..]);
    forall i, j | 0 <= i < j < |q[1..]| ensures Subtree(h, q[1..][i]) !! Subtree(h, q[1..][j]) {
      assert q[1..][i] == q[i + 1] && q[1..][j] == q[j + 1];
    }
    forall m | m in SubtreesOf(h, q[1..]) ensures m !in Subtree(h, q[0]) {
      var x := PickQueued(h, q[1..], m);
      var j :| 0 <= j < |q[1..]| && q[1..][j] == x;
      assert q[j + 1] == x;
    }
  }

  /** For a queue with disjoint subtrees, the weight counts the distinct nodes below it. */
  lemma {:induction false} WeightIsCard<E>(h: Heap<E>, q: seq<NodeId>)
    requires Forest(h) && AllIn(h, q) && DisjointQueue(h, q)
    ensures Weight(h, q) == |SubtreesOf(h, q)|
    decreases |q|
  {
    if q != [] {
      SubtreesOfCons(h, q);
      DisjointTail(h, q);
      WeightIsCard(h, q[1..]);
    }
  }

  lemma SubtreeUnfold<E>(h: Heap<E>, n: NodeId)
    requires Forest(h) && n in h
    ensures AllIn(h, h[n].children)
    ensures Subtree(h, n) == {n} + SubtreesOf(h, h[n].children)
  {
    SubtreesAboveIsOf(h, h[n].children, n);
  }

  /** Everything below the children of `n` is younger than `n`. */
  lemma NotBelowChildren<E>(h: Heap<E>, n: NodeId)
    requires Forest(h) && n in h
    ensures AllIn(h, h[n].children) && n !in SubtreesOf(h, h[n].children)
  {
    forall m | m in SubtreesOf(h, h[n].children) ensures n < m {
      var c := PickQueued(h, h[n].children, m);
      SubtreeBelow(h, c, m);
    }
  }

  /** A subtree is its root plus the disjoint subtrees of the root's children. */
  lemma SubtreeSize<E>(h: Heap<E>, n: NodeId)
    requires Forest(h) && n in h
    ensures AllIn(h, h[n].children)
    ensures |Subtree(h, n)| == 1 + Weight(h, h[n].children)
  {
    var cs := h[n].children;
    SubtreeUnfold(h, n);
    NotBelowChildren(h, n);
    ChildrenDisjoint(h, n);
    WeightIsCard(h, cs);
  }

  /** A node is a leaf exactly when its subtree is the node alone. */
  lemma LeafSubtree<E>(h: Heap<E>, n: NodeId)
    requires Forest(h) && n in h
    ensures h[n].children == [] <==> Subtree(h, n) == {n}
  {
    if h[n].children != [] {
      var c := h[n].children[0];
      assert c in Subtree(h, c);
      InSubtreeOfParent(h, n, c, c);
    }
  }
}
