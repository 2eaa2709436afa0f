/** The order in which a breadth-first iterator hands out the nodes of an
    arena: take the head of the pending queue, then continue with the rest of
    the queue followed by the head's children in children-list order. */
module BreadthFirst {
  import opened TreeArena

  /** The nodes a FIFO traversal visits, starting from the pending queue `q`. */
  ghost function LevelOrder<E>(h: Heap<E>, q: seq<NodeId>): (r: seq<NodeId>)
    requires Forest(h) && AllIn(h, q)
    ensures |r| == Weight(h, q)
    decreases Weight(h, q)
  {
    if q == [] then []
    else
      var n := q[0];
      SubtreeSize(h, n);
      WeightAppend(h, q[1..], h[n].children);
      [n] + LevelOrder(h, q[1..] + h[n].children)
  }

  /** The number of parent links from `n` up to a parentless node. */
  ghost function Depth<E>(h: Heap<E>, n: NodeId): nat
    requires ParentLinks(h) && n in h
    decreases n
  {
    assert ParentBelow(h, n);
    if h[n].parent.None? then 0 else 1 + Depth(h, h[n].parent.value)
  }

  ghost predicate DepthSorted<E>(h: Heap<E>, s: seq<NodeId>)
    requires ParentLinks(h) && AllIn(h, s)
  {
    forall i, j | 0 <= i < j < |s| :: Depth(h, s[i]) <= Depth(h, s[j])
  }

  /** A breadth-first frontier: depths never decrease and span at most one level. */
  ghost predicate Frontier<E>(h: Heap<E>, q: seq<NodeId>)
    requires ParentLinks(h) && AllIn(h, q)
  {
    DepthSorted(h, q) && forall i | 0 <= i < |q| :: Depth(h, q[i]) <= Depth(h, q[0]) + 1
  }

  // ---------------------------------------------------------------------
  // Counting

  lemma {:induction false} ElementsBound(s: seq<NodeId>)
    ensures |Elements(s)| <= |s|
    ensures !NoDup(s) ==> |Elements(s)| < |s|
    decreases |s|
  {
    if s != [] {
      ElementsBound(s[1..]);
      assert Elements(s) == {s[0]} + Elements(s[1..]);
      if s[0] in s[1..] {
        assert Elements(s) == Elements(s[1..]);
      } else if !NoDup(s) {
        var i, j :| 0 <= i < j < |s| && s[i] == s[j];
        assert i != 0;
        assert s[1..][i - 1] == s[1..][j - 1];
      }
    }
  }

  /** The traversal visits exactly the nodes below the queue. */
  lemma {:induction false} LevelOrderElements<E>(h: Heap<E>, q: seq<NodeId>)
    requires Forest(h) && AllIn(h, q)
    ensures Elements(LevelOrder(h, q)) == SubtreesOf(h, q)
    decreases Weight(h, q)
  {
    if q != [] {
      var n := q[0];
      var cs := h[n].children;
      SubtreeSize(h, n);
      WeightAppend(h, q[1..], cs);
      LevelOrderElements(h, q[1..] + cs);
      SubtreesOfCons(h, q);
      SubtreeUnfold(h, n);
      SubtreesOfAppend(h, q[1..], cs);
      var rest := LevelOrder(h, q[1..] + cs);
      assert LevelOrder(h, q) == [n] + rest;
      assert Elements([n] + rest) == {n} + Elements(rest);
    }
  }

  /** When the queue's subtrees are disjoint, no node is visited twice. */
  lemma LevelOrderNoDup<E>(h: Heap<E>, q: seq<NodeId>)
    requires Forest(h) && AllIn(h, q) && DisjointQueue(h, q)
    ensures NoDup(LevelOrder(h, q))
  {
    LevelOrderElements(h, q);
    WeightIsCard(h, q);
    ElementsBound(LevelOrder(h, q));
  }

  /** A traversal started at `s` visits every node of the subtree of `s`, each exactly once. */
  lemma LevelOrderFrom<E>(h: Heap<E>, s: NodeId)
    requires Forest(h) && s in h
    ensures AllIn(h, [s])
    ensures Elements(LevelOrder(h, [s])) == Subtree(h, s)
    ensures NoDup(LevelOrder(h, [s]))
    ensures |LevelOrder(h, [s])| == |Subtree(h, s)|
    ensures LevelOrder(h, [s])[0] == s
  {
    assert AllIn(h, [s]) && [s][1..] == [];
    assert Weight(h, [s]) == |Subtree(h, s)| + Weight(h, []);
    SubtreesOfCons(h, [s]);
    assert SubtreesOf(h, [s]) == Subtree(h, s) + SubtreesOf(h, []);
    LevelOrderElements(h, [s]);
    LevelOrderNoDup(h, [s]);
  }

  /** Neither the ancestors nor the other nodes outside the subtree of `s` are visited. */
  lemma LevelOrderExcludes<E>(h: Heap<E>, s: NodeId, a: NodeId)
    requires Forest(h) && s in h && a in h && a !in Subtree(h, s)
    ensures AllIn(h, [s]) && a !in LevelOrder(h, [s])
  {
    LevelOrderFrom(h, s);
    var r := LevelOrder(h, [s]);
    forall x | x in r ensures x != a {
      assert x in Elements(r);
    }
  }

  /** A traversal from `s` never climbs back to a proper ancestor of `s`. */
  lemma AncestorsExcluded<E>(h: Heap<E>, s: NodeId, a: NodeId)
    requires Forest(h) && a in h && s in Subtree(h, a) && a != s
    ensures s in h && AllIn(h, [s]) && a !in LevelOrder(h, [s])
  {
    SubtreeBelow(h, a, s);
    if a in Subtree(h, s) {
      SubtreeBelow(h, s, a);
    }
    LevelOrderExcludes(h, s, a);
  }

  // ---------------------------------------------------------------------
  // Depth order

  lemma ChildDepth<E>(h: Heap<E>, n: NodeId, c: NodeId)
    requires Forest(h) && n in h && c in h[n].children
    ensures c in h && Depth(h, c) == Depth(h, n) + 1
  {
  }

  lemma FrontierStep<E>(h: Heap<E>, q: seq<NodeId>)
    requires Forest(h) && AllIn(h, q) && q != [] && Frontier(h, q)
    ensures AllIn(h, q[1..] + h[q[0]].children)
    ensures Frontier(h, q[1..] + h[q[0]].children)
    ensures forall i | 0 <= i < |q[1..] + h[q[0]].children| ::
      Depth(h, q[0]) <= Depth(h, (q[1..] + h[q[0]].children)[i])
  {
    var n := q[0];
    var cs := h[n].children;
    var q' := q[1..] + cs;
    assert AllIn(h, q');
    forall i | 0 <= i < |q'| ensures Depth(h, n) <= Depth(h, q'[i]) <= Depth(h, n) + 1 {
      if i < |q| - 1 {
        assert q'[i] == q[i + 1];
      } else {
        assert q'[i] == cs[i - (|q| - 1)] && q'[i] in cs;
        ChildDepth(h, n, q'[i]);
      }
    }
    forall i, j | 0 <= i < j < |q'| ensures Depth(h, q'[i]) <= Depth(h, q'[j]) {
      if j < |q| - 1 {
        assert q'[i] == q[i + 1] && q'[j] == q[j + 1];
      } else {
        assert q'[j] in cs;
        ChildDepth(h, n, q'[j]);
      }
    }
  }

  lemma LevelOrderInArena<E>(h: Heap<E>, q: seq<NodeId>)
    requires Forest(h) && AllIn(h, q)
    ensures AllIn(h, LevelOrder(h, q))
  {
    LevelOrderElements(h, q);
    var r := LevelOrder(h, q);
    forall x | x in r ensures x in h {
      assert x in Elements(r);
      var y := PickQueued(h, q, x);
      SubtreeBelow(h, y, x);
    }
  }

  /** Starting from a frontier, depths along the traversal never decrease and never drop below the head's. */
  lemma {:induction false} LevelOrderDepthSorted<E>(h: Heap<E>, q: seq<NodeId>)
    requires Forest(h) && AllIn(h, q) && Frontier(h, q)
    ensures AllIn(h, LevelOrder(h, q)) && DepthSorted(h, LevelOrder(h, q))
    ensures q != [] ==> forall i | 0 <= i < |LevelOrder(h, q)| :: Depth(h, q[0]) <= Depth(h, LevelOrder(h, q)[i])
    decreases Weight(h, q)
  {
    LevelOrderInArena(h, q);
    var r := LevelOrder(h, q);
    if q != [] {
      var n := q[0];
      var q' := q[1..] + h[n].children;
      SubtreeSize(h, n);
      WeightAppend(h, q[1..], h[n].children);
      FrontierStep(h, q);
      LevelOrderDepthSorted(h, q');
      var rest := LevelOrder(h, q');
      assert r == [n] + rest;
      forall i | 0 <= i < |rest| ensures Depth(h, n) <= Depth(h, rest[i]) {
        assert Depth(h, q'[0]) <= Depth(h, rest[i]);
      }
      forall i, j | 0 <= i < j < |r| ensures Depth(h, r[i]) <= Depth(h, r[j]) {
        assert r[j] == rest[j - 1];
        if i > 0 {
          assert r[i] == rest[i - 1];
        }
      }
    }
  }

  /** A traversal from a single start node is in level order. */
  lemma LevelOrderFromSorted<E>(h: Heap<E>, s: NodeId)
    requires Forest(h) && s in h
    ensures AllIn(h, [s]) && AllIn(h, LevelOrder(h, [s])) && DepthSorted(h, LevelOrder(h, [s]))
  {
    assert AllIn(h, [s]);
    LevelOrderDepthSorted(h, [s]);
  }

  // ---------------------------------------------------------------------
  // Order within a level

  /** Every occurrence of `x` in `r` comes before every occurrence of `y`. */
  ghost predicate Before(r: seq<NodeId>, x: NodeId, y: NodeId) {
    forall a, b | 0 <= a < |r| && 0 <= b < |r| && r[a] == x && r[b] == y :: a < b
  }

  lemma BeforeCons(n: NodeId, r: seq<NodeId>, x: NodeId, y: NodeId)
    requires y != n && Before(r, x, y)
    ensures Before([n] + r, x, y)
  {
    var r' := [n] + r;
    forall a, b | 0 <= a < |r'| && 0 <= b < |r'| && r'[a] == x && r'[b] == y ensures a < b {
      assert b != 0 && r[b - 1] == y;
      if a != 0 {
        assert r[a - 1] == x;
      }
    }
  }

  lemma BeforeTail(n: NodeId, r: seq<NodeId>, x: NodeId, y: NodeId)
    requires Before([n] + r, x, y)
    ensures Before(r, x, y)
  {
    forall a, b | 0 <= a < |r| && 0 <= b < |r| && r[a] == x && r[b] == y ensures a < b {
      assert ([n] + r)[a + 1] == x && ([n] + r)[b + 1] == y;
    }
  }

  /** One step of the traversal: the head, then the traversal of the tail
      followed by the head's children. */
  lemma LevelStep<E>(h: Heap<E>, q: seq<NodeId>)
    requires Forest(h) && AllIn(h, q) && q != []
    ensures AllIn(h, q[1..] + h[q[0]].children)
    ensures Weight(h, q[1..] + h[q[0]].children) < Weight(h, q)
    ensures LevelOrder(h, q) == [q[0]] + LevelOrder(h, q[1..] + h[q[0]].children)
  {
    SubtreeSize(h, q[0]);
    WeightAppend(h, q[1..], h[q[0]].children);
  }

  /** Without repeats in the traversal, its head does not come back later. */
  lemma NoDupStep(n: NodeId, r: seq<NodeId>)
    requires NoDup([n] + r)
    ensures NoDup(r) && n !in r
  {
    var r0 := [n] + r;
    forall a, b | 0 <= a < b < |r| ensures r[a] != r[b] {
      assert r0[a + 1] == r[a] && r0[b + 1] == r[b];
    }
    forall a | 0 <= a < |r| ensures r[a] != n {
      assert r0[a + 1] == r[a] && r0[0] == n;
    }
  }

  /** The traversal starts by handing out the queue itself, in queue order. */
  lemma {:induction false} LevelOrderPrefix<E>(h: Heap<E>, q: seq<NodeId>)
    requires Forest(h) && AllIn(h, q)
    ensures |q| <= |LevelOrder(h, q)| && LevelOrder(h, q)[..|q|] == q
    decreases Weight(h, q)
  {
    if q != [] {
      LevelStep(h, q);
      var q' := q[1..] + h[q[0]].children;
      LevelOrderPrefix(h, q');
      var r, r' := LevelOrder(h, q), LevelOrder(h, q');
      forall t | 0 <= t < |q| ensures r[t] == q[t] {
        if t > 0 {
          assert r[t] == r'[t - 1] == r'[..|q'|][t - 1] == q'[t - 1] == q[t];
        }
      }
    }
  }

  /** Queued nodes are handed out in queue order. */
  lemma {:induction false} QueueOrderKept<E>(h: Heap<E>, q: seq<NodeId>)
    requires Forest(h) && AllIn(h, q) && NoDup(LevelOrder(h, q))
    ensures forall i, j | 0 <= i < j < |q| :: Before(LevelOrder(h, q), q[i], q[j])
    decreases Weight(h, q)
  {
    if q != [] {
      LevelStep(h, q);
      LevelOrderPrefix(h, q);
      var q' := q[1..] + h[q[0]].children;
      var r, r' := LevelOrder(h, q), LevelOrder(h, q');
      NoDupStep(q[0], r');
      QueueOrderKept(h, q');
      forall i, j | 0 <= i < j < |q| ensures Before(r, q[i], q[j]) {
        assert r[..|q|][j] == r[j] == q[j] && r[..|q|][0] == r[0] == q[0];
        if i != 0 {
          assert q[i] == q'[i - 1] && q[j] == q'[j - 1];
        }
        BeforeCons(q[0], r', q[i], q[j]);
      }
    }
  }

  /** A child listed in `n` is the child of `n` only. */
  lemma OnlyParent<E>(h: Heap<E>, n: NodeId, m: NodeId, c: NodeId)
    requires Forest(h) && n in h && m in h && n != m && c in h[n].children
    ensures c !in h[m].children
  {
    var k :| 0 <= k < |h[n].children| && h[n].children[k] == c;
    assert h[c].parent == Some(n);
    forall l | 0 <= l < |h[m].children| ensures h[m].children[l] != c {
      assert h[h[m].children[l]].parent == Some(m);
    }
  }

  /** Siblings are handed out in children-list order. */
  lemma {:induction false} SiblingOrder<E>(h: Heap<E>, q: seq<NodeId>)
    requires Forest(h) && AllIn(h, q) && NoDup(LevelOrder(h, q))
    ensures AllIn(h, LevelOrder(h, q))
    ensures forall n, i, j | n in LevelOrder(h, q) && 0 <= i < j < |h[n].children| && h[n].children[j] !in q ::
      Before(LevelOrder(h, q), h[n].children[i], h[n].children[j])
    decreases Weight(h, q)
  {
    LevelOrderInArena(h, q);
    if q != [] {
      LevelStep(h, q);
      var n0 := q[0];
      var q' := q[1..] + h[n0].children;
      var r, r' := LevelOrder(h, q), LevelOrder(h, q');
      NoDupStep(n0, r');
      SiblingOrder(h, q');
      QueueOrderKept(h, q');
      forall n, i, j | n in r && 0 <= i < j < |h[n].children| && h[n].children[j] !in q
        ensures Before(r, h[n].children[i], h[n].children[j])
      {
        var cs := h[n].children;
        if n == n0 {
          assert cs[i] == q'[|q| - 1 + i] && cs[j] == q'[|q| - 1 + j];
        } else {
          assert n in r';
          assert cs[j] in cs;
          OnlyParent(h, n, n0, cs[j]);
          assert cs[j] !in q';
        }
        BeforeCons(n0, r', cs[i], cs[j]);
      }
    }
  }

  /** In a sequence that starts with `q` and repeats nothing, a node of `q`
      comes before any node outside `q`. */
  lemma PrefixBefore(q: seq<NodeId>, r: seq<NodeId>, k: int, y: NodeId)
    requires |q| <= |r| && r[..|q|] == q && 0 <= k < |q| && NoDup(r) && y !in q
    ensures Before(r, q[k], y)
  {
    assert forall t | 0 <= t < |q| :: r[t] == r[..|q|][t] == q[t];
    forall a, b | 0 <= a < |r| && 0 <= b < |r| && r[a] == q[k] && r[b] == y ensures a < b {
      assert a == k;
      assert b >= |q|;
    }
  }

  /** The children of a node handed out earlier come before the children of a
      node handed out later. */
  lemma {:induction false} CousinOrder<E>(h: Heap<E>, q: seq<NodeId>)
    requires Forest(h) && AllIn(h, q) && NoDup(LevelOrder(h, q))
    ensures AllIn(h, LevelOrder(h, q))
    ensures forall m, n, i, j |
      m in LevelOrder(h, q) && n in LevelOrder(h, q) && m != n && Before(LevelOrder(h, q), m, n) &&
      0 <= i < |h[m].children| && 0 <= j < |h[n].children| && h[n].children[j] !in q ::
      Before(LevelOrder(h, q), h[m].children[i], h[n].children[j])
    decreases Weight(h, q)
  {
    LevelOrderInArena(h, q);
    if q != [] {
      LevelStep(h, q);
      var n0 := q[0];
      var q' := q[1..] + h[n0].children;
      var r, r' := LevelOrder(h, q), LevelOrder(h, q');
      NoDupStep(n0, r');
      CousinOrder(h, q');
      LevelOrderPrefix(h, q');
      forall m, n, i, j |
        m in r && n in r && m != n && Before(r, m, n) &&
        0 <= i < |h[m].children| && 0 <= j < |h[n].children| && h[n].children[j] !in q
        ensures Before(r, h[m].children[i], h[n].children[j])
      {
        var x, y := h[m].children[i], h[n].children[j];
        var a0 :| 0 <= a0 < |r| && r[a0] == m;
        assert r[0] == n0;
        assert n != n0;
        assert y in h[n].children;
        OnlyParent(h, n, n0, y);
        assert y !in q';
        if m == n0 {
          var k := |q| - 1 + i;
          assert q'[k] == x;
          PrefixBefore(q', r', k, y);
        } else {
          BeforeTail(n0, r', m, n);
          assert m in r' && n in r';
        }
        BeforeCons(n0, r', x, y);
      }
    }
  }

  /** A traversal from `s` reaches every child of a node it visits, and never
      comes back to `s` as anybody's child. */
  lemma ChildrenVisited<E>(h: Heap<E>, s: NodeId)
    requires Forest(h) && s in h
    ensures AllIn(h, [s]) && AllIn(h, LevelOrder(h, [s]))
    ensures NoDup(LevelOrder(h, [s]))
    ensures forall n, c | n in LevelOrder(h, [s]) && c in h[n].children :: c in LevelOrder(h, [s]) && c != s
  {
    LevelOrderFrom(h, s);
    LevelOrderInArena(h, [s]);
    var r := LevelOrder(h, [s]);
    forall n, c | n in r && c in h[n].children ensures c in r && c != s {
      assert n in Elements(r);
      SubtreeBelow(h, s, n);
      InSubtreeOfParent(h, n, c, c);
      SubtreeTransitive(h, s, n);
      assert c in Elements(r);
    }
  }

  /** A traversal from `s` hands out siblings in children-list order, and the
      children of an earlier node before those of a later one. */
  lemma LevelOrderFromOrdered<E>(h: Heap<E>, s: NodeId)
    requires Forest(h) && s in h
    ensures AllIn(h, [s]) && AllIn(h, LevelOrder(h, [s]))
    ensures forall n, i, j | n in LevelOrder(h, [s]) && 0 <= i < j < |h[n].children| ::
      Before(LevelOrder(h, [s]), h[n].children[i], h[n].children[j])
    ensures forall m, n, i, j |
      m in LevelOrder(h, [s]) && n in LevelOrder(h, [s]) && m != n && Before(LevelOrder(h, [s]), m, n) &&
      0 <= i < |h[m].children| && 0 <= j < |h[n].children| ::
      Before(LevelOrder(h, [s]), h[m].children[i], h[n].children[j])
  {
    ChildrenVisited(h, s);
    var r := LevelOrder(h, [s]);
    forall n, k | n in r && 0 <= k < |h[n].children| ensures h[n].children[k] !in [s] {
      assert h[n].children[k] in h[n].children;
    }
    SiblingOrder(h, [s]);
    CousinOrder(h, [s]);
  }
}
