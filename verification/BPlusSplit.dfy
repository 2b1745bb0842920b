/** Node splitting: bpsplit of bplus.c. */
module BPlusSplit {
  import opened BPlusTree

  /** Every node but n and q keeps all but its parent, and that too unless it moved below r. */
  ghost predicate KeptAt(h: Heap, h': Heap, r: BPNode, x: BPNode)
    requires r in h' && x in h && x in h'
  {
    h'[x] == h[x].(parent := if IsBelow(h'[r].links, x) then r else h[x].parent)
  }

  /** n keeps its first five links; the others go to the new node r, both below q. */
  ghost predicate Halved(h: Heap, h': Heap, n: BPNode, r: BPNode, q: BPNode) {
    && n in h && n != q && r !in h && h'.Keys == h.Keys + {r}
    && |h[n].links| > MAXDEGREE
    && h'[n] == h[n].(key := h[n].links[MINDEGREE].key, links := h[n].links[..MINDEGREE + 1], parent := q)
    && h'[r] == NodeState(h[n].key, q, h[n].links[MINDEGREE + 1..], h'[n].key, h[n].level)
    && (forall x {:trigger KeptAt(h, h', r, x)} :: x in h && x != n && x != q ==> KeptAt(h, h', r, x))
  }

  /** The split of n at link j of its parent q. */
  ghost predicate SplitAt(h: Heap, h': Heap, n: BPNode, r: BPNode, q: BPNode, j: nat) {
    && Halved(h, h', n, r, q)
    && q in h && h[n].parent == q
    && j < |h[q].links| && h[q].links[j] == ToNode(h[n].key, n)
    && h'[q] == h[q].(links := h[q].links[..j] + [ToNode(h'[n].key, n), ToNode(h[n].key, r)] + h[q].links[j + 1..])
  }

  lemma HalfNodes(a: NodeState, b: NodeState, c: NodeState, m: Index)
    requires NodeOK(a) && LeafOK(a, m) && |a.links| > MAXDEGREE
    requires b.links == a.links[..MINDEGREE + 1] && b.key == a.links[MINDEGREE].key && b.lo == a.lo
             && b.level == a.level
    requires c.links == a.links[MINDEGREE + 1..] && c.key == a.key && c.lo == b.key && c.level == a.level
    ensures NodeOK(b) && LeafOK(b, m) && a.lo < b.key < a.key
    ensures NodeOK(c) && LeafOK(c, m)
  {
    SortedLe(a.links, 0, MINDEGREE);
  }

  /** Sizes of the link lists the split reads and writes. */
  lemma ParentNode(a: NodeState, b: NodeState, j: nat, mid: nat, n: BPNode, r: BPNode)
    requires NodeOK(a) && j < |a.links| && a.links[j].ToNode?
    requires (if j == 0 then a.lo else a.links[j - 1].key) < mid < a.links[j].key
    requires b == a.(links := a.links[..j] + [ToNode(mid, n), ToNode(a.links[j].key, r)] + a.links[j + 1..])
    ensures NodeOK(b)
  {
    forall i, k | 0 <= i < k < |b.links| ensures b.links[i].key < b.links[k].key {
      SortedLe(a.links, i, j - 1);
      SortedLe(a.links, j, k - 1);
    }
  }

  lemma SplitNodes(h: Heap, h': Heap, m: Index, n: BPNode, r: BPNode, q: BPNode, j: nat)
    requires Nodes(h) && Leaves(h, m) && Downs(h, NoSeam) && SplitAt(h, h', n, r, q, j)
    ensures Nodes(h') && Leaves(h', m)
  {
    assert NodeOK(h[n]) && LeafOK(h[n], m) && NodeOK(h[q]) && ChildOK(h, q, j, NoSeam);
    HalfNodes(h[n], h'[n], h'[r], m);
    ParentNode(h[q], h'[q], j, h'[n].key, n, r);
    forall x | x in h' ensures NodeOK(h'[x]) && LeafOK(h'[x], m) {
      if x in h && x != n && x != q {
        assert NodeOK(h[x]) && LeafOK(h[x], m) && KeptAt(h, h', r, x);
      }
    }
  }

  /** The child at each old position of n hangs below n or below r. */
  lemma HalvedChild(h: Heap, h': Heap, n: BPNode, r: BPNode, q: BPNode, i: nat)
    requires Halved(h, h', n, r, q) && Downs(h, NoSeam) && NodeOK(h[n]) && q in h && h[n].level < h[q].level
    requires i < |h[n].links| && h[n].links[i].ToNode?
    ensures var c := h[n].links[i].child;
      && c in h && c != n && c != q && h[c].parent == n && h'[c] == h[c].(parent := h'[c].parent)
      && h'[c].parent == if i <= MINDEGREE then n else r
  {
    var c := h[n].links[i].child;
    assert ChildOK(h, n, i, NoSeam);
    assert KeptAt(h, h', r, c);
    if i <= MINDEGREE {
      forall j | 0 <= j < |h'[r].links| && h'[r].links[j].ToNode? ensures h'[r].links[j].child != c {
        assert ChildOK(h, n, MINDEGREE + 1 + j, NoSeam);
        assert h[n].links[i].key < h[n].links[MINDEGREE + 1 + j].key;
      }
    } else {
      assert h'[r].links[i - MINDEGREE - 1] == h[n].links[i];
    }
  }

  /** Nodes below any other parent keep it. */
  lemma HalvedOther(h: Heap, h': Heap, n: BPNode, r: BPNode, q: BPNode, x: BPNode)
    requires Halved(h, h', n, r, q) && Downs(h, NoSeam) && x in h && x != n && x != q && h[x].parent != n
    ensures h'[x] == h[x]
  {
    assert KeptAt(h, h', r, x);
    forall j | 0 <= j < |h'[r].links| && h'[r].links[j].ToNode? ensures h'[r].links[j].child != x {
      assert ChildOK(h, n, MINDEGREE + 1 + j, NoSeam);
    }
  }

  lemma SplitUp(h: Heap, h': Heap, root: BPNode, n: BPNode, r: BPNode, q: BPNode, j: nat, x: BPNode)
    requires SplitAt(h, h', n, r, q, j) && root in h && Ups(h, root, NoSeam) && Downs(h, NoSeam) && NodeOK(h[n])
    requires h[n].level < h[q].level
    requires x in h && x != n
    ensures UpOK(h', root, x, NoSeam)
  {
    assert UpOK(h, root, x, NoSeam);
    assert root != n by {
      assert UpOK(h, root, n, NoSeam);
    }
    assert h'[root].level == h[root].level by {
      if root != q { assert KeptAt(h, h', r, root); }
    }
    if x != q { assert KeptAt(h, h', r, x); }
    if x == root {
      if x != q { HalvedOther(h, h', n, r, q, x); }
    } else {
      var y := h[x].parent;
      var i :| 0 <= i < |h[y].links| && h[y].links[i] == ToNode(h[x].key, x);
      if y == n {
        HalvedChild(h, h', n, r, q, i);
        if i <= MINDEGREE {
          assert h'[n].links[i] == h[n].links[i];
        } else {
          assert h'[r].links[i - MINDEGREE - 1] == h[n].links[i];
        }
      } else {
        if x != q { HalvedOther(h, h', n, r, q, x); }
        if y == q {
          assert h'[q].links[if i < j then i else i + 1] == h[q].links[i];
        } else {
          assert KeptAt(h, h', r, y);
        }
      }
    }
  }

  lemma SplitUps(h: Heap, h': Heap, root: BPNode, n: BPNode, r: BPNode, q: BPNode, j: nat)
    requires SplitAt(h, h', n, r, q, j) && root in h && Ups(h, root, NoSeam) && Downs(h, NoSeam) && NodeOK(h[n])
    requires h[n].level < h[q].level
    ensures Ups(h', root, NoSeam)
  {
    assert UpOK(h, root, n, NoSeam) && UpOK(h, root, q, NoSeam);
    assert h'[root].level == h[root].level by {
      if root != q { assert KeptAt(h, h', r, root); }
    }
    forall x | x in h' ensures UpOK(h', root, x, NoSeam) {
      if x == n {
        assert h'[q].links[j] == ToNode(h'[n].key, n);
      } else if x == r {
        assert h'[q].links[j + 1] == ToNode(h'[r].key, r);
      } else {
        SplitUp(h, h', root, n, r, q, j, x);
      }
    }
  }

  lemma SplitDowns(h: Heap, h': Heap, n: BPNode, r: BPNode, q: BPNode, j: nat)
    requires SplitAt(h, h', n, r, q, j) && Downs(h, NoSeam) && NodeOK(h[n]) && NodeOK(h[q])
    ensures Downs(h', NoSeam)
  {
    assert ChildOK(h, q, j, NoSeam);
    forall x, i | x in h' && 0 <= i < |h'[x].links| ensures ChildOK(h', x, i, NoSeam) {
      if x == r {
        SplitDownRight(h, h', n, r, q, j, i);
      } else if x == n {
        assert ChildOK(h, n, i, NoSeam);
        if h'[n].links[i].ToNode? {
          HalvedChild(h, h', n, r, q, i);
        }
      } else if x == q {
        SplitDownParent(h, h', n, r, q, j, i);
      } else {
        assert KeptAt(h, h', r, x);
        assert ChildOK(h, x, i, NoSeam);
        if h[x].links[i].ToNode? {
          var c := h[x].links[i].child;
          if c != q { HalvedOther(h, h', n, r, q, c); }
        }
      }
    }
  }

  lemma SplitDownRight(h: Heap, h': Heap, n: BPNode, r: BPNode, q: BPNode, j: nat, i: nat)
    requires SplitAt(h, h', n, r, q, j) && Downs(h, NoSeam) && NodeOK(h[n]) && i < |h'[r].links|
    ensures ChildOK(h', r, i, NoSeam)
  {
    assert ChildOK(h, q, j, NoSeam);
    assert ChildOK(h, n, MINDEGREE + 1 + i, NoSeam);
    if h'[r].links[i].ToNode? {
      HalvedChild(h, h', n, r, q, MINDEGREE + 1 + i);
    }
  }

  lemma SplitDownParent(h: Heap, h': Heap, n: BPNode, r: BPNode, q: BPNode, j: nat, i: nat)
    requires SplitAt(h, h', n, r, q, j) && Downs(h, NoSeam) && NodeOK(h[n]) && NodeOK(h[q]) && i < |h'[q].links|
    ensures ChildOK(h', q, i, NoSeam)
  {
    assert ChildOK(h, q, j, NoSeam);
    if i != j && i != j + 1 {
      var k := if i < j then i else i - 1;
      assert h'[q].links[i] == h[q].links[k];
      assert ChildOK(h, q, k, NoSeam);
      if h[q].links[k].ToNode? {
        var c := h[q].links[k].child;
        assert c != n by {
          SortedLe(h[q].links, k, j - 1);
          SortedLe(h[q].links, j + 1, k);
        }
        HalvedOther(h, h', n, r, q, c);
      }
    }
  }

  /** A split keeps the search tree and what it indexes. */
  lemma SplitShape(h: Heap, h': Heap, root: BPNode, m: Index, n: BPNode, r: BPNode, q: BPNode, j: nat)
    requires Shape(h, root, m, NoSeam) && SplitAt(h, h', n, r, q, j)
    ensures Shape(h', root, m, NoSeam)
  {
    assert NodeOK(h[n]) && NodeOK(h[q]) && ChildOK(h, q, j, NoSeam) && UpOK(h, root, n, NoSeam);
    SplitNodes(h, h', m, n, r, q, j);
    SplitUps(h, h', root, n, r, q, j);
    SplitDowns(h, h', n, r, q, j);
    if root != q { assert KeptAt(h, h', r, root); }
  }

  /** Where the search of the parent's links for the shrunken key stops. */
  lemma SplitPlace(h: Heap, n: BPNode, q: BPNode, j: nat, i: nat, mid: nat)
    requires n in h && q in h && Downs(h, NoSeam) && NodeOK(h[q])
    requires i < |h[q].links| && h[q].links[i] == ToNode(h[n].key, n) && h[n].lo < mid <= h[n].key
    requires j < |h[q].links| && mid <= h[q].links[j].key
    requires forall k :: 0 <= k < j ==> h[q].links[k].key < mid
    ensures j == i
  {
    assert ChildOK(h, q, i, NoSeam);
    SortedLe(h[q].links, j, i - 1);
  }

  ghost predicate Raised(h: Heap, h': Heap, n: BPNode, p: BPNode) {
    && n in h && p !in h
    && h' == h[n := h[n].(parent := p)][p := NodeState(h[n].key, null, [ToNode(h[n].key, n)], h[n].lo, h[n].level + 1)]
  }

  /** A new root above the old one indexes the same values. */
  lemma RaiseShape(h: Heap, h': Heap, n: BPNode, p: BPNode, m: Index)
    requires Shape(h, n, m, NoSeam) && Raised(h, h', n, p)
    ensures Shape(h', p, m, NoSeam)
  {
    RaiseNodes(h, h', n, p, m);
    RaiseLinks(h, h', n, p);
  }

  lemma RaiseNodes(h: Heap, h': Heap, n: BPNode, p: BPNode, m: Index)
    requires Raised(h, h', n, p) && Nodes(h) && Leaves(h, m)
    ensures Nodes(h') && Leaves(h', m)
  {
    forall x | x in h' ensures NodeOK(h'[x]) && LeafOK(h'[x], m) {
      if x in h {
        assert NodeOK(h[x]) && LeafOK(h[x], m);
      } else {
        assert NodeOK(h[n]);
        SortedLe(h[n].links, 0, |h[n].links| - 1);
      }
    }
  }

  lemma RaiseLinks(h: Heap, h': Heap, n: BPNode, p: BPNode)
    requires Raised(h, h', n, p) && Ups(h, n, NoSeam) && Downs(h, NoSeam)
    ensures Ups(h', p, NoSeam) && Downs(h', NoSeam)
  {
    assert UpOK(h, n, n, NoSeam);
    forall x | x in h' ensures UpOK(h', p, x, NoSeam) {
      if x in h {
        assert UpOK(h, n, x, NoSeam);
      }
    }
    forall x, i | x in h' && 0 <= i < |h'[x].links| ensures ChildOK(h', x, i, NoSeam) {
      if x in h {
        assert ChildOK(h, x, i, NoSeam);
      }
    }
  }

  lemma SplitDegrees(h: Heap, h': Heap, root: BPNode, n: BPNode, r: BPNode, q: BPNode, j: nat)
    requires SplitAt(h, h', n, r, q, j) && Degrees(h, root, {n, q}) && |h[n].links| <= MAXDEGREE + 3
    requires root != n
    ensures Degrees(h', root, {q}) && |h'[q].links| == |h[q].links| + 1
  {
    forall x | x in h' && x != q ensures DegreeOK(h', root, x) {
      if x in h && x != n {
        assert DegreeOK(h, root, x) && KeptAt(h, h', r, x);
      }
    }
  }

  /** Moves the links of n past the fifth, and the parents of the nodes below them, to a new node
      that hangs, like n, below q. */
  method Halve(n: BPNode, q: BPNode, ghost nodes: set<BPNode>) returns (r: BPNode)
    requires n in nodes && n != q && |n.links| > MAXDEGREE
    requires forall i :: 0 <= i < |n.links| && n.links[i].ToNode? ==> n.links[i].child in nodes - {n, q}
    modifies nodes
    ensures fresh(r)
    ensures Halved(old(Snap(nodes)), Snap(nodes + {r}), n, r, q)
    ensures q in nodes ==> q.key == old(q.key) && q.parent == old(q.parent) && q.links == old(q.links)
                           && q.lo == old(q.lo) && q.level == old(q.level)
  {
    var mid := n.links[MINDEGREE].key;
    r := new BPNode(n.key, n.links[MINDEGREE + 1..], mid, n.level);
    n.key := mid;
    n.links := n.links[..MINDEGREE + 1];
    n.parent := q;
    r.parent := q;
    assert forall i :: 0 <= i < |r.links| ==> r.links[i] == old(n.links)[MINDEGREE + 1 + i];
    Adopt(r.links, r, nodes - {n, q});
  }

  /** The root case: n and its new right sibling below a new root. */
  method GrowRoot(n: BPNode, ghost nodes: set<BPNode>) returns (r: BPNode, p: BPNode, ghost hm: Heap)
    requires n in nodes && |n.links| > MAXDEGREE
    requires forall i :: 0 <= i < |n.links| && n.links[i].ToNode? ==> n.links[i].child in nodes - {n}
    modifies nodes
    ensures fresh(r) && fresh(p) && r != p
    ensures Raised(old(Snap(nodes)), hm, n, p)
    ensures SplitAt(hm, Snap(nodes + {r, p}), n, r, p, 0)
  {
    hide SplitAt, KeptAt, Raised, Halved, Snap;
    ghost var h := Snap(nodes);
    SnapAt(nodes, n);
    p := new BPNode(n.key, [], n.lo, n.level + 1);
    r := Halve(n, p, nodes);
    ghost var h1 := Snap(nodes + {r});
    SnapAt(nodes + {r}, n);
    SnapAt(nodes + {r}, r);
    p.links := [ToNode(n.key, n), ToNode(r.key, r)];
    ghost var h2 := Snap(nodes + {r, p});
    SnapWith(nodes + {r}, p);
    SnapAt(nodes + {r, p}, p);
    assert nodes + {r} + {p} == nodes + {r, p} && h2 == h1[p := h2[p]];
    hm := h[n := h[n].(parent := p)][p := NodeState(h[n].key, null, [ToNode(h[n].key, n)], h[n].lo, h[n].level + 1)];
    RaisedIs(h, hm, n, p);
    GrownSplit(h, h1, hm, h2, n, r, p);
  }

  lemma RaisedIs(h: Heap, hm: Heap, n: BPNode, p: BPNode)
    requires n in h && p !in h
    requires hm == h[n := h[n].(parent := p)][p := NodeState(h[n].key, null, [ToNode(h[n].key, n)], h[n].lo,
             h[n].level + 1)]
    ensures Raised(h, hm, n, p)
  {
  }

  lemma GrownSplit(h: Heap, h1: Heap, hm: Heap, h2: Heap, n: BPNode, r: BPNode, p: BPNode)
    requires Halved(h, h1, n, r, p) && p !in h1 && Raised(h, hm, n, p)
    requires p in h2 && h2 == h1[p := h2[p]]
    requires h2[p] == NodeState(h[n].key, null, [ToNode(h1[n].key, n), ToNode(h1[r].key, r)], h[n].lo, h[n].level + 1)
    ensures SplitAt(hm, h2, n, r, p, 0)
  {
    forall x | x in hm && x != n && x != p ensures KeptAt(hm, h2, r, x) {
      assert KeptAt(h, h1, r, x);
    }
  }

  /** The other case: a new link for n in front of the one that now leads to the right sibling. */
  method SplitBelow(n: BPNode, q: BPNode, ghost nodes: set<BPNode>, ghost i: nat) returns (r: BPNode)
    requires n in nodes && q in nodes && n != q && n.parent == q && |n.links| > MAXDEGREE
    requires forall k :: 0 <= k < |n.links| && n.links[k].ToNode? ==> n.links[k].child in nodes - {n, q}
    requires i < |q.links| && q.links[i] == ToNode(n.key, n)
    requires NodeOK(Snap(nodes)[n]) && NodeOK(Snap(nodes)[q]) && Downs(Snap(nodes), NoSeam)
    modifies nodes
    ensures fresh(r)
    ensures SplitAt(old(Snap(nodes)), Snap(nodes + {r}), n, r, q, i)
  {
    hide SplitAt, KeptAt, Halved, Downs;
    ghost var h := Snap(nodes);
    SortedLe(n.links, 0, MINDEGREE);
    SortedLe(n.links, MINDEGREE, |n.links| - 1);
    SortedLe(q.links, i, |q.links| - 1);
    r := Halve(n, q, nodes);
    ghost var h1 := Snap(nodes + {r});
    var j := FindLink(q, n.key);
    SplitPlace(h, n, q, j, i, n.key);
    Relink(q, q.links[..j] + [ToNode(n.key, n), ToNode(q.links[j].key, r)] + q.links[j + 1..], q.key, nodes + {r});
    ghost var h2 := Snap(nodes + {r});
    BelowSplit(h, h1, h2, n, r, q, i);
  }

  lemma BelowSplit(h: Heap, h1: Heap, h2: Heap, n: BPNode, r: BPNode, q: BPNode, j: nat)
    requires Halved(h, h1, n, r, q) && q in h && q in h2 && h2 == h1[q := h2[q]]
    requires h[n].parent == q && j < |h[q].links| && h[q].links[j] == ToNode(h[n].key, n)
    requires h2[q] == h[q].(links := h[q].links[..j] + [ToNode(h1[n].key, n), ToNode(h[n].key, r)]
             + h[q].links[j + 1..])
    requires forall i :: 0 <= i < |h1[r].links| && h1[r].links[i].ToNode? ==> h1[r].links[i].child != q
    ensures SplitAt(h, h2, n, r, q, j)
  {
    forall x | x in h && x != n && x != q ensures KeptAt(h, h2, r, x) {
      assert KeptAt(h, h1, r, x);
    }
  }

  /** n may be over 8 links, and its parent one link short that the split of n will give back. */
  ghost predicate SplitReady(h: Heap, root: BPNode, n: BPNode) {
    && n in h && root in h
    && |h[n].links| <= MAXDEGREE + 3
    && (n != root ==> MINDEGREE <= |h[n].links|)
    && (n == root && h[n].level > 0 ==> 2 <= |h[n].links|)
    && (n == root ==> Degrees(h, root, {n}))
    && (n != root ==> h[n].parent != null && h[n].parent in h && Degrees(h, root, {n, h[n].parent})
                      && Giving(h, root, h[n].parent, if |h[n].links| > MAXDEGREE then 1 else 0))
  }

  ghost predicate Giving(h: Heap, root: BPNode, q: BPNode, back: nat)
    requires q in h
  {
    && |h[q].links| <= MAXDEGREE
    && (q != root ==> MINDEGREE <= |h[q].links| + back)
    && (q == root && h[q].level > 0 ==> 2 <= |h[q].links| + back)
  }

  /** Splits n when it has more than 8 links, and then its ancestors as far as needed. */
  method Split(t: BPTree, n: BPNode)
    requires t.Shaped() && SplitReady(Snap(t.nodes), t.root, n)
    modifies t`root, t`nodes, t.nodes
    ensures t.Shaped() && t.Balanced({})
    ensures old(t.nodes) <= t.nodes && fresh(t.nodes - old(t.nodes))
    decreases t.root.level - n.level
  {
    if |n.links| <= MAXDEGREE {
      NothingToSplit(Snap(t.nodes), t.root, n);
      return;
    }
    assert UpOK(Snap(t.nodes), t.root, n, NoSeam);
    if n.parent == null {
      SplitTop(t, n);
    } else {
      var q := n.parent;
      SplitUnder(t, n, q);
      Split(t, q);
    }
  }

  lemma NothingToSplit(h: Heap, root: BPNode, n: BPNode)
    requires SplitReady(h, root, n) && |h[n].links| <= MAXDEGREE
    ensures Degrees(h, root, {})
  {
    forall x | x in h ensures DegreeOK(h, root, x) {
    }
  }

  method SplitTop(t: BPTree, n: BPNode)
    requires t.Shaped() && t.Balanced({n}) && n == t.root && MAXDEGREE < |n.links| <= MAXDEGREE + 3
    modifies t`root, t`nodes, t.nodes
    ensures t.Shaped() && t.Balanced({})
    ensures old(t.nodes) <= t.nodes && fresh(t.nodes - old(t.nodes))
  {
    hide Nodes, Leaves, Ups, Downs, Keyed, Raised, SplitAt, Degrees;
    ghost var h, m := Snap(t.nodes), t.index;
    ChildrenIn(h, n);
    var r, p;
    ghost var hm;
    r, p, hm := GrowRoot(n, t.nodes);
    t.nodes := t.nodes + {r, p};
    t.root := p;
    RaiseShape(h, hm, n, p, m);
    SplitShape(hm, Snap(t.nodes), p, m, n, r, p, 0);
    TopDegrees(h, hm, Snap(t.nodes), n, r, p);
  }

  lemma TopDegrees(h: Heap, hm: Heap, h': Heap, n: BPNode, r: BPNode, p: BPNode)
    requires Raised(h, hm, n, p) && SplitAt(hm, h', n, r, p, 0)
    requires Degrees(h, n, {n}) && |h[n].links| <= MAXDEGREE + 3
    ensures Degrees(h', p, {})
  {
    forall x | x in h' ensures DegreeOK(h', p, x) {
      if x in h && x != n {
        assert DegreeOK(h, n, x) && KeptAt(hm, h', r, x);
      }
    }
  }

  method SplitUnder(t: BPTree, n: BPNode, q: BPNode)
    requires t.Shaped() && SplitReady(Snap(t.nodes), t.root, n) && n != t.root && n.parent == q
    requires MAXDEGREE < |n.links|
    modifies t`nodes, t.nodes
    ensures t.Shaped() && SplitReady(Snap(t.nodes), t.root, q)
    ensures old(t.nodes) <= t.nodes && fresh(t.nodes - old(t.nodes))
    ensures t.root.level == old(t.root.level) && q.level == old(n.level) + 1
  {
    hide Nodes, Leaves, Ups, Downs, Keyed, SplitAt, Degrees, Giving, NodeOK;
    ghost var h, m, root := Snap(t.nodes), t.index, t.root;
    ghost var i := UnderFacts(h, root, n, q);
    var r := SplitBelow(n, q, t.nodes, i);
    t.nodes := t.nodes + {r};
    UnderSplit(h, Snap(t.nodes), root, m, n, r, q, i);
  }

  lemma UnderFacts(h: Heap, root: BPNode, n: BPNode, q: BPNode) returns (i: nat)
    requires root in h && n in h && n != root && Nodes(h) && Ups(h, root, NoSeam) && Downs(h, NoSeam)
             && h[n].parent == q
    ensures q in h && NodeOK(h[n]) && NodeOK(h[q]) && h[q].level == h[n].level + 1
    ensures i < |h[q].links| && h[q].links[i] == ToNode(h[n].key, n)
    ensures forall k :: 0 <= k < |h[n].links| && h[n].links[k].ToNode? ==> h[n].links[k].child in h.Keys - {n, q}
  {
    assert UpOK(h, root, n, NoSeam) && NodeOK(h[n]) && NodeOK(h[q]);
    i :| 0 <= i < |h[q].links| && h[q].links[i] == ToNode(h[n].key, n);
    assert ChildOK(h, q, i, NoSeam);
    forall k | 0 <= k < |h[n].links| && h[n].links[k].ToNode? ensures h[n].links[k].child in h.Keys - {n, q} {
      assert ChildOK(h, n, k, NoSeam);
    }
  }

  lemma UnderSplit(h: Heap, h': Heap, root: BPNode, m: Index, n: BPNode, r: BPNode, q: BPNode, i: nat)
    requires Shape(h, root, m, NoSeam) && SplitReady(h, root, n) && n != root && MAXDEGREE < |h[n].links|
    requires SplitAt(h, h', n, r, q, i)
    ensures Shape(h', root, m, NoSeam) && SplitReady(h', root, q)
    ensures h'[root].level == h[root].level && h'[q].level == h[n].level + 1
  {
    SplitShape(h, h', root, m, n, r, q, i);
    assert ChildOK(h, q, i, NoSeam);
    SplitDegrees(h, h', root, n, r, q, i);
    if root != q { assert KeptAt(h, h', r, root); }
    assert UpOK(h', root, q, NoSeam);
    UnderReady(h', root, q);
  }

  lemma UnderReady(h: Heap, root: BPNode, q: BPNode)
    requires root in h && q in h && Degrees(h, root, {q}) && UpOK(h, root, q, NoSeam) && Downs(h, NoSeam)
    requires |h[q].links| <= MAXDEGREE + 1
    requires q != root ==> MINDEGREE <= |h[q].links|
    requires q == root && h[q].level > 0 ==> 2 <= |h[q].links|
    ensures SplitReady(h, root, q)
  {
    if q != root {
      var y := h[q].parent;
      var i :| 0 <= i < |h[y].links| && h[y].links[i] == ToNode(h[q].key, q);
      assert ChildOK(h, y, i, NoSeam);
      assert DegreeOK(h, root, y);
    }
  }
}
