/** Inserting into the B+ tree: _bpinsert and bpinsert of bplus.c. */
module BPlusInsert {
  import opened Tunnels
  import opened BPlusTree
  import opened BPlusChain
  import opened BPlusSplit
  import opened BPlusLookup

  ghost predicate LeafPlace(h: Heap, m: Index, n: BPNode, i: nat, k: nat) {
    && n in h && h[n].level == 0 && InSpan(h[n], k) && k !in m
    && i < |h[n].links| && k < h[n].links[i].key && forall j :: 0 <= j < i ==> h[n].links[j].key < k
  }

  ghost predicate Grown(a: NodeState, b: NodeState, i: nat, v: BPValue) {
    && a.level == 0 && a.lo < v.key
    && i <= |a.links| && (i < |a.links| ==> v.key < a.links[i].key)
    && (forall j :: 0 <= j < i ==> a.links[j].key < v.key)
    && b == a.(key := if i < |a.links| then a.key else v.key,
               links := a.links[..i] + [ToValue(v.key, v)] + a.links[i..])
  }

  lemma LeafGrown(a: NodeState, b: NodeState, m: Index, i: nat, v: BPValue)
    requires NodeOK(a) && LeafOK(a, m) && Grown(a, b, i, v) && v.key !in m
    requires i == |a.links| ==> forall k :: k in m ==> k <= a.key
    ensures NodeOK(b) && LeafOK(b, m[v.key := v])
  {
    LeafSorted(a, b, i, v);
    LeafLists(a, b, m, i, v);
    LeafFinds(a, b, m, i, v);
  }

  lemma LeafFinds(a: NodeState, b: NodeState, m: Index, i: nat, v: BPValue)
    requires Grown(a, b, i, v) && v.key !in m
    requires forall k :: k in m && a.lo < k <= a.key ==> ToValue(k, m[k]) in a.links
    requires i == |a.links| ==> forall k :: k in m ==> k <= a.key
    ensures var m' := m[v.key := v]; forall k :: k in m' && b.lo < k <= b.key ==> ToValue(k, m'[k]) in b.links
  {
    var m' := m[v.key := v];
    forall k | k in m' && b.lo < k <= b.key ensures ToValue(k, m'[k]) in b.links {
      if k == v.key {
        assert b.links[i] == ToValue(v.key, v);
      } else {
        var j :| 0 <= j < |a.links| && a.links[j] == ToValue(k, m[k]);
        assert b.links[if j < i then j else j + 1] == a.links[j];
      }
    }
  }

  lemma LeafLists(a: NodeState, b: NodeState, m: Index, i: nat, v: BPValue)
    requires NodeOK(a) && LeafOK(a, m) && Grown(a, b, i, v) && v.key !in m
    ensures forall j :: 0 <= j < |b.links| ==> b.links[j].ToValue? && b.links[j].key in m[v.key := v]
                                               && m[v.key := v][b.links[j].key] == b.links[j].value
  {
    hide Sorted;
    forall j | 0 <= j < |b.links|
      ensures b.links[j].ToValue? && b.links[j].key in m[v.key := v]
              && m[v.key := v][b.links[j].key] == b.links[j].value
    {
      var l := b.links[j];
      assert l == if j < i then a.links[j] else if j == i then ToValue(v.key, v) else a.links[j - 1];
    }
  }

  lemma LeafSorted(a: NodeState, b: NodeState, i: nat, v: BPValue)
    requires Sorted(a.links)
    requires i <= |a.links| && (i < |a.links| ==> v.key < a.links[i].key)
    requires forall j :: 0 <= j < i ==> a.links[j].key < v.key
    requires b.links == a.links[..i] + [ToValue(v.key, v)] + a.links[i..]
    ensures Sorted(b.links)
  {
    forall j | i <= j < |a.links| ensures v.key < a.links[j].key {
      SortedLe(a.links, i, j);
    }
  }

  /** A new value in the leaf that spans its key. */
  lemma InsideShape(h: Heap, h': Heap, root: BPNode, m: Index, n: BPNode, i: nat, v: BPValue)
    requires Shape(h, root, m, NoSeam) && LeafPlace(h, m, n, i, v.key)
    requires h' == WithLink(h, n, i, v)
    ensures Shape(h', root, m[v.key := v], NoSeam)
  {
    var m' := m[v.key := v];
    InsideLeaves(h, h', root, m, n, i, v);
    SpanClimb(h, root, m, n, v.key);
    assert NodeOK(h[n]);
    InsideLinks(h, h', root, n, i, v);
  }

  lemma InsideLeaves(h: Heap, h': Heap, root: BPNode, m: Index, n: BPNode, i: nat, v: BPValue)
    requires Shape(h, root, m, NoSeam) && LeafPlace(h, m, n, i, v.key)
    requires h' == WithLink(h, n, i, v)
    ensures Nodes(h') && Leaves(h', m[v.key := v])
  {
    var m' := m[v.key := v];
    assert NodeOK(h[n]) && LeafOK(h[n], m);
    LeafGrown(h[n], h'[n], m, i, v);
    forall x | x in h' ensures NodeOK(h'[x]) && LeafOK(h'[x], m') {
      assert NodeOK(h[x]) && LeafOK(h[x], m);
      if x != n && h[x].level == 0 && InSpan(h[x], v.key) {
        SpanUnique(h, root, m, x, n, v.key);
      }
    }
  }

  lemma InsideLinks(h: Heap, h': Heap, root: BPNode, n: BPNode, i: nat, v: BPValue)
    requires root in h && Ups(h, root, NoSeam) && Downs(h, NoSeam) && n in h && h[n].level == 0 && i <= |h[n].links|
    requires h' == WithLink(h, n, i, v)
    requires forall j :: 0 <= j < |h[n].links| ==> h[n].links[j].ToValue?
    ensures Ups(h', root, NoSeam) && Downs(h', NoSeam)
  {
    forall x | x in h' ensures UpOK(h', root, x, NoSeam) {
      assert UpOK(h, root, x, NoSeam);
      if x != root {
        var y := h[x].parent;
        var j :| 0 <= j < |h[y].links| && h[y].links[j] == ToNode(h[x].key, x);
      }
    }
    forall x, j | x in h' && 0 <= j < |h'[x].links| ensures ChildOK(h', x, j, NoSeam) {
      if x == n {
        assert h'[n].links[j].ToValue?;
      } else {
        assert ChildOK(h, x, j, NoSeam);
      }
    }
  }

  /** No indexed key lies between the neighbours of the new link. */
  lemma LeafGap(h: Heap, m: Index, n: BPNode, i: nat, k: nat, l: nat)
    requires LeafPlace(h, m, n, i, k) && NodeOK(h[n]) && LeafOK(h[n], m) && l in m
    ensures !(LinkLow(h[n], i) < l < h[n].links[i].key)
  {
    SortedLe(h[n].links, i, |h[n].links| - 1);
    SortedLe(h[n].links, 0, i - 1);
    if InSpan(h[n], l) {
      var j :| 0 <= j < |h[n].links| && h[n].links[j] == ToValue(l, m[l]);
      SortedLe(h[n].links, i, j);
      SortedLe(h[n].links, j, i - 1);
    }
  }

  lemma LeafLinkValue(n: NodeState, m: Index, i: nat)
    requires NodeOK(n) && LeafOK(n, m) && n.level == 0 && i < |n.links|
    ensures n.links[i].key in m && n.links[i] == ToValue(n.links[i].key, m[n.links[i].key])
  {
  }

  /** The value at place i of the leaf follows the new one in the chain. */
  lemma FrontPosition(h: Heap, c: seq<BPValue>, m: Index, n: BPNode, i: nat, k: nat) returns (j: nat)
    requires LeafPlace(h, m, n, i, k) && NodeOK(h[n]) && LeafOK(h[n], m) && Listing(c, m) && i == 0
    ensures j < |c| && h[n].links[i] == ToValue(c[j].key, c[j]) && k < c[j].key && (j > 0 ==> c[j - 1].key < k)
  {
    LeafLinkValue(h[n], m, i);
    j := Position(c, m, h[n].links[i].key);
    if j > 0 {
      assert Before(c, j - 1, j) && ListedAt(c, m, j - 1);
      LeafGap(h, m, n, i, k, c[j - 1].key);
    }
  }

  /** The value before place i of the leaf precedes the new one in the chain, which does not end there. */
  lemma BackPosition(h: Heap, c: seq<BPValue>, m: Index, n: BPNode, i: nat, k: nat) returns (j: nat)
    requires LeafPlace(h, m, n, i, k) && NodeOK(h[n]) && LeafOK(h[n], m) && Listing(c, m) && i > 0
    ensures j + 1 < |c| && h[n].links[i - 1] == ToValue(c[j].key, c[j]) && c[j].key < k < c[j + 1].key
  {
    LeafLinkValue(h[n], m, i - 1);
    LeafLinkValue(h[n], m, i);
    j := Position(c, m, h[n].links[i - 1].key);
    var above := Position(c, m, h[n].links[i].key);
    assert above < j ==> Before(c, above, j);
    assert Before(c, j, j + 1) && ListedAt(c, m, j + 1);
    assert j + 1 < above ==> Before(c, j + 1, above);
    LeafGap(h, m, n, i, k, c[j + 1].key);
  }

  ghost predicate ReadyLeaf(t: BPTree, n: BPNode, i: nat, k: nat)
    reads t, t.nodes, t.values
  {
    && t.Listed() && n in t.nodes && NodeOK(Snap(t.nodes)[n]) && LeafOK(Snap(t.nodes)[n], t.index)
    && LeafPlace(Snap(t.nodes), t.index, n, i, k)
  }

  /** The chain takes the value that the leaf gets at place i. */
  method Splice(t: BPTree, n: BPNode, i: nat, v: BPValue)
    requires ReadyLeaf(t, n, i, v.key)
    modifies t`header, t`chain, t`index, t`values, t.values, v
    ensures Added(t, v)
  {
    var before := n.links[if i == 0 then |n.links| - 1 else i - 1];
    assert before.key > v.key <==> i == 0 by {
      SortedLe(n.links, 0, |n.links| - 1);
    }
    if before.key > v.key {
      ghost var j := FrontPosition(Snap(t.nodes), t.chain, t.index, n, i, v.key);
      AddBefore(t, v, n.links[i].value, j);
    } else {
      ghost var j := BackPosition(Snap(t.nodes), t.chain, t.index, n, i, v.key);
      AddAfter(t, v, before.value, j);
    }
  }

  /** A key above all others: each node on the way down the last links takes it. */
  ghost predicate RaisedTo(h: Heap, h': Heap, n: BPNode, k: nat) {
    && n in h && NodeOK(h[n]) && h[n].level > 0 && h[n].key < k
    && var last := |h[n].links| - 1;
       h' == h[n := h[n].(key := k, links := h[n].links[last := Rekey(h[n].links[last], k)])]
  }

  lemma RaiseShapes(h: Heap, h': Heap, root: BPNode, m: Index, n: BPNode, k: nat) returns (c: BPNode)
    requires RaisedTo(h, h', n, k) && Shape(h, root, m, Seam(n, k, null, 0))
    ensures h[n].links[|h[n].links| - 1] == ToNode(h[n].key, c) && c in h && c != n && h[c].level + 1 == h[n].level
    ensures h[c].key == h[n].key && Shape(h', root, m, Seam(c, k, null, 0))
  {
    var last := |h[n].links| - 1;
    c := h[n].links[last].child;
    assert ChildOK(h, n, last, Seam(n, k, null, 0)) && UpOK(h, root, n, Seam(n, k, null, 0));
    forall x | x in h' ensures NodeOK(h'[x]) && LeafOK(h'[x], m) {
      assert NodeOK(h[x]) && LeafOK(h[x], m);
    }
    RaisedUps(h, h', root, n, c, k);
    RaisedDowns(h, h', n, c, k);
  }

  lemma RaisedUps(h: Heap, h': Heap, root: BPNode, n: BPNode, c: BPNode, k: nat)
    requires RaisedTo(h, h', n, k) && root in h && Ups(h, root, Seam(n, k, null, 0)) && Downs(h, Seam(n, k, null, 0))
    requires h[n].links[|h[n].links| - 1] == ToNode(h[n].key, c)
    ensures Ups(h', root, Seam(c, k, null, 0))
  {
    var s, s' := Seam(n, k, null, 0), Seam(c, k, null, 0);
    assert ChildOK(h, n, |h[n].links| - 1, s);
    forall x | x in h' ensures UpOK(h', root, x, s') {
      assert UpOK(h, root, x, s);
      if x != root {
        var y := h[x].parent;
        var j :| 0 <= j < |h[y].links| && h[y].links[j] == ToNode(LinkKey(h, x, s), x);
        assert ChildOK(h, y, j, s);
        if y == n {
          assert h'[n].links[j] == ToNode(LinkKey(h', x, s'), x);
        }
      }
    }
  }

  lemma RaisedDowns(h: Heap, h': Heap, n: BPNode, c: BPNode, k: nat)
    requires RaisedTo(h, h', n, k) && Downs(h, Seam(n, k, null, 0))
    requires h[n].links[|h[n].links| - 1] == ToNode(h[n].key, c)
    ensures Downs(h', Seam(c, k, null, 0))
  {
    var s, s' := Seam(n, k, null, 0), Seam(c, k, null, 0);
    assert ChildOK(h, n, |h[n].links| - 1, s);
    forall x, j | x in h' && 0 <= j < |h'[x].links| ensures ChildOK(h', x, j, s') {
      assert ChildOK(h, x, j, s);
      if x == n {
        SortedLe(h[n].links, j, |h[n].links| - 1);
      }
    }
  }

  /** The nodes not yet raised are below k. */
  ghost predicate Below(h: Heap, level: nat, k: nat) {
    forall x :: x in h && h[x].level <= level ==> h[x].key < k
  }

  ghost predicate SameDegrees(h: Heap, h': Heap) {
    h'.Keys == h.Keys && forall x :: x in h ==> |h'[x].links| == |h[x].links| && h'[x].level == h[x].level
  }

  ghost predicate Raising(h: Heap, root: BPNode, m: Index, n: BPNode, k: nat) {
    && n in h && NodeOK(h[n]) && Shape(h, root, m, Seam(n, k, null, 0)) && Below(h, h[n].level, k)
    && (n != root ==> h[root].key == k)
  }

  method RaiseKey(t: BPTree, n: BPNode, k: nat) returns (c: BPNode)
    requires t.root != null && Raising(Snap(t.nodes), t.root, t.index, n, k) && n.links[0].ToNode?
    modifies t.nodes
    ensures Raising(Snap(t.nodes), t.root, t.index, c, k)
    ensures SameDegrees(old(Snap(t.nodes)), Snap(t.nodes)) && c.level < n.level && c.key == old(n.key)
  {
    hide Leaves, Ups, Downs, Keyed, Sorted;
    ghost var h := Snap(t.nodes);
    var last := |n.links| - 1;
    var link := n.links[last];
    Relink(n, n.links[last := Rekey(link, k)], k, t.nodes);
    ghost var child := RaiseShapes(h, Snap(t.nodes), t.root, t.index, n, k);
    c := link.child;
    assert NodeOK(h[c]) by {
      assert NodeOK(Snap(t.nodes)[c]);
    }
  }

  /** Raises the keys on the way down the last links, all but the leaf's. */
  method RaiseKeys(t: BPTree, k: nat) returns (n: BPNode)
    requires t.Shaped() && t.root.key < k
    modifies t.nodes
    ensures Raising(Snap(t.nodes), t.root, t.index, n, k) && n.level == 0
    ensures SameDegrees(old(Snap(t.nodes)), Snap(t.nodes)) && n.key == old(t.root.key)
  {
    n := t.root;
    StartRaise(Snap(t.nodes), t.root, t.index, k);
    while n.links[0].ToNode?
      invariant Raising(Snap(t.nodes), t.root, t.index, n, k) && n.key == old(t.root.key)
      invariant SameDegrees(old(Snap(t.nodes)), Snap(t.nodes))
      decreases n.level
    {
      n := RaiseKey(t, n, k);
    }
  }

  lemma StartRaise(h: Heap, root: BPNode, m: Index, k: nat)
    requires Shape(h, root, m, NoSeam) && h[root].key < k
    ensures Raising(h, root, m, root, k)
  {
    assert NodeOK(h[root]) && UpOK(h, root, root, NoSeam);
    forall x | x in h ensures UpOK(h, root, x, Seam(root, k, null, 0)) && h[x].key < k {
      assert UpOK(h, root, x, NoSeam);
      KeyBelowRoot(h, root, m, x);
    }
    forall x, i | x in h && 0 <= i < |h[x].links| ensures ChildOK(h, x, i, Seam(root, k, null, 0)) {
      assert ChildOK(h, x, i, NoSeam);
    }
  }

  /** The last leaf takes the new value and closes the seam. */
  lemma LastShape(h: Heap, h': Heap, root: BPNode, m: Index, n: BPNode, v: BPValue)
    requires Raising(h, root, m, n, v.key) && h[n].level == 0 && v.key !in m
    requires forall k :: k in m ==> k <= h[n].key
    requires h' == WithLast(h, n, v)
    ensures Shape(h', root, m[v.key := v], NoSeam)
  {
    LastNodes(h, h', m, n, v);
    LastLinks(h, h', root, n, v);
  }

  lemma LastNodes(h: Heap, h': Heap, m: Index, n: BPNode, v: BPValue)
    requires n in h && h[n].level == 0 && v.key !in m && Nodes(h) && Leaves(h, m) && Below(h, 0, v.key)
    requires forall k :: k in m ==> k <= h[n].key
    requires h' == WithLast(h, n, v)
    ensures Nodes(h') && Leaves(h', m[v.key := v])
  {
    hide NodeOK, LeafOK;
    var m' := m[v.key := v];
    assert NodeOK(h[n]) && LeafOK(h[n], m);
    LastGrown(h[n], h'[n], v);
    LeafGrown(h[n], h'[n], m, |h[n].links|, v);
    forall x | x in h' ensures NodeOK(h'[x]) && LeafOK(h'[x], m') {
      assert NodeOK(h[x]) && LeafOK(h[x], m);
      if x != n {
        OtherLeaf(h[x], m, v);
      }
    }
  }

  /** A link behind all others of a leaf. */
  lemma LastGrown(a: NodeState, b: NodeState, v: BPValue)
    requires NodeOK(a) && a.level == 0 && a.key < v.key
    requires b == a.(key := v.key, links := a.links + [ToValue(v.key, v)])
    ensures Grown(a, b, |a.links|, v)
  {
    var last := |a.links|;
    assert a.links[..last] + [ToValue(v.key, v)] + a.links[last..] == b.links;
    forall j | 0 <= j < last ensures a.links[j].key < v.key {
      SortedLe(a.links, j, last - 1);
    }
  }

  /** A leaf below the new key is not affected. */
  lemma OtherLeaf(a: NodeState, m: Index, v: BPValue)
    requires LeafOK(a, m) && v.key !in m && (a.level == 0 ==> a.key < v.key)
    ensures LeafOK(a, m[v.key := v])
  {
  }

  lemma LastLinks(h: Heap, h': Heap, root: BPNode, n: BPNode, v: BPValue)
    requires n in h && NodeOK(h[n]) && h[n].level == 0 && root in h
    requires Ups(h, root, Seam(n, v.key, null, 0)) && Downs(h, Seam(n, v.key, null, 0))
    requires h' == WithLast(h, n, v)
    ensures Ups(h', root, NoSeam) && Downs(h', NoSeam)
  {
    var s := Seam(n, v.key, null, 0);
    forall x | x in h' ensures UpOK(h', root, x, NoSeam) {
      assert UpOK(h, root, x, s);
      if x != root {
        var y := h[x].parent;
        var j :| 0 <= j < |h[y].links| && h[y].links[j] == ToNode(LinkKey(h, x, s), x);
        assert ChildOK(h, y, j, s);
      }
    }
    forall x, j | x in h' && 0 <= j < |h'[x].links| ensures ChildOK(h', x, j, NoSeam) {
      if x != n {
        assert ChildOK(h, x, j, s);
      }
    }
  }

  lemma GrownReady(h: Heap, h': Heap, root: BPNode, m: Index, n: BPNode)
    requires Degrees(h, root, {}) && n in h && h'.Keys == h.Keys && h[n].level == 0 && root in h
    requires forall x :: x in h ==> h'[x].level == h[x].level && |h'[x].links| == |h[x].links| + if x == n then 1 else 0
    requires Shape(h', root, m, NoSeam)
    ensures SplitReady(h', root, n)
  {
    assert DegreeOK(h, root, n) && UpOK(h', root, n, NoSeam);
    forall x | x in h' && x != n ensures DegreeOK(h', root, x) {
      assert DegreeOK(h, root, x);
    }
    if n != root {
      var y := h'[n].parent;
      var j :| 0 <= j < |h'[y].links| && h'[y].links[j] == ToNode(h'[n].key, n);
      assert ChildOK(h', y, j, NoSeam);
      assert DegreeOK(h, root, y);
    }
  }

  /** The case of an empty tree. */
  method InsertFirst(t: BPTree, v: BPValue)
    requires t.Valid() && t.root == null
    modifies t, v
    ensures t.Valid() && fresh(t.nodes) && t.index == map[v.key := v] && t.values == old(t.values) + {v}
  {
    var n := new BPNode(v.key, [ToValue(v.key, v)], -1, 0);
    v.prev, v.next := null, null;
    t.header := v;
    t.root := n;
    EmptyList(t.chain, t.index);
    t.size := t.size + 1;
    t.nodes, t.index, t.chain, t.values := {n}, map[v.key := v], [v], t.values + {v};
    FirstShape(Snap(t.nodes), n, v);
    FirstListing(v);
    assert LinkedAt([v], 0);
  }

  lemma EmptyList(c: seq<BPValue>, m: Index)
    requires Listing(c, m) && m == map[]
    ensures c == []
  {
    ListedIndex(c, m, 0);
  }

  lemma FirstListing(v: BPValue)
    ensures Listing([v], map[v.key := v])
  {
    assert [v][0] == v;
  }

  lemma FirstShape(h: Heap, n: BPNode, v: BPValue)
    requires h == map[n := NodeState(v.key, null, [ToValue(v.key, v)], -1, 0)]
    ensures Shape(h, n, map[v.key := v], NoSeam) && Degrees(h, n, {})
  {
    assert h[n].links[0] == ToValue(v.key, v);
  }

  lemma LastPosition(h: Heap, c: seq<BPValue>, m: Index, n: BPNode)
    requires n in h && NodeOK(h[n]) && LeafOK(h[n], m) && h[n].level == 0 && Listing(c, m)
    requires forall k :: k in m ==> k <= h[n].key
    ensures |c| > 0 && h[n].links[|h[n].links| - 1] == ToValue(h[n].key, c[|c| - 1])
  {
    LeafLinkValue(h[n], m, |h[n].links| - 1);
    var j := Position(c, m, h[n].key);
    assert ListedAt(c, m, |c| - 1);
    assert j < |c| - 1 ==> Before(c, j, |c| - 1);
  }

  ghost function WithLink(h: Heap, n: BPNode, i: nat, v: BPValue): Heap
    requires n in h && i <= |h[n].links|
  {
    h[n := h[n].(links := h[n].links[..i] + [ToValue(v.key, v)] + h[n].links[i..])]
  }

  ghost function WithLast(h: Heap, n: BPNode, v: BPValue): Heap
    requires n in h
  {
    h[n := h[n].(key := v.key, links := h[n].links + [ToValue(v.key, v)])]
  }

  method SplitAndCount(t: BPTree, n: BPNode)
    requires t.Shaped() && SplitReady(Snap(t.nodes), t.root, n)
    requires t.Listed() && t.size + 1 == |t.chain| <= MAXBPSIZE
    modifies t`root, t`nodes, t`size, t.nodes
    ensures t.Valid() && old(t.nodes) <= t.nodes && fresh(t.nodes - old(t.nodes))
  {
    Split(t, n);
    t.size := t.size + 1;
  }

  method AppendToLeaf(t: BPTree, n: BPNode, v: BPValue)
    requires n in t.nodes && NodeOK(Snap(t.nodes)[n]) && LeafOK(Snap(t.nodes)[n], t.index) && n.level == 0
    requires t.Listed() && v.key !in t.index && n.key < v.key && forall k :: k in t.index ==> k <= n.key
    modifies t`chain, t`index, t`values, t.nodes, t.values, v
    ensures Added(t, v) && Snap(t.nodes) == WithLast(old(Snap(t.nodes)), n, v)
  {
    LastPosition(Snap(t.nodes), t.chain, t.index, n);
    ListedIndex(t.chain, t.index, |t.chain| - 1);
    AddLast(t, v, n.links[|n.links| - 1].value);
    Relink(n, n.links + [ToValue(v.key, v)], v.key, t.nodes);
  }

  lemma LastReady(h0: Heap, h: Heap, h': Heap, root: BPNode, m: Index, m': Index, n: BPNode, v: BPValue)
    requires Degrees(h0, root, {}) && SameDegrees(h0, h) && Raising(h, root, m, n, v.key) && h[n].level == 0
    requires v.key !in m && forall k :: k in m ==> k <= h[n].key
    requires h' == WithLast(h, n, v) && m' == m[v.key := v]
    ensures Shape(h', root, m', NoSeam) && SplitReady(h', root, n)
  {
    LastShape(h, h', root, m, n, v);
    GrownReady(h0, h', root, m', n);
  }

  method PlaceLast(t: BPTree, v: BPValue) returns (n: BPNode)
    requires t.Shaped() && t.Balanced({}) && t.Listed() && v.key > t.root.key
    modifies t`chain, t`index, t`values, t.nodes, t.values, v
    ensures Added(t, v) && t.Shaped() && SplitReady(Snap(t.nodes), t.root, n)
  {
    ghost var h0, m := Snap(t.nodes), t.index;
    n := RaiseKeys(t, v.key);
    ghost var h := Snap(t.nodes);
    assert NodeOK(h[n]) && LeafOK(h[n], m);
    AppendToLeaf(t, n, v);
    LastReady(h0, h, Snap(t.nodes), t.root, m, t.index, n, v);
  }

  /** The case of a key above all others. */
  method InsertLast(t: BPTree, v: BPValue)
    requires t.Valid() && t.root != null && v.key > t.root.key && t.size < MAXBPSIZE
    modifies t, t.nodes, t.values, v
    ensures t.Valid() && old(t.nodes) <= t.nodes && fresh(t.nodes - old(t.nodes))
    ensures t.index == old(t.index)[v.key := v]
    ensures old(t.values) <= t.values <= old(t.values) + {v}
  {
    var n := PlaceLast(t, v);
    SplitAndCount(t, n);
  }

  /** A duplicate stops the search at the first link that has the key, on any level. */
  method FindPlace(t: BPTree, k: nat) returns (n: BPNode, i: nat, dup: bool)
    requires t.Shaped() && k <= t.root.key
    ensures dup <==> k in t.index
    ensures !dup ==> LeafPlace(Snap(t.nodes), t.index, n, i, k)
  {
    ghost var h, m := Snap(t.nodes), t.index;
    n := t.root;
    assert NodeOK(h[n]);
    while n.links[0].ToNode?
      invariant n in t.nodes && NodeOK(h[n]) && InSpan(h[n], k)
      decreases n.level
    {
      i := FindLink(n, k);
      ChildSpans(h, n, i, k);
      if n.links[i].key == k {
        KeyIndexed(h, t.root, m, n.links[i].child);
        assert ChildOK(h, n, i, NoSeam);
        dup := true;
        return;
      }
      n := n.links[i].child;
      assert NodeOK(h[n]);
    }
    i := FindLink(n, k);
    assert LeafOK(h[n], m);
    LeafLink(h[n], m, i, k);
    dup := n.links[i].key == k;
  }

  lemma LeafReady(t: BPTree, n: BPNode, i: nat, k: nat)
    requires ReadyLeaf(t, n, i, k)
    ensures n in t.nodes && i < |n.links|
  {
  }

  method PutInLeaf(t: BPTree, n: BPNode, i: nat, v: BPValue)
    requires ReadyLeaf(t, n, i, v.key)
    modifies t`header, t`chain, t`index, t`values, t.nodes, t.values, v
    ensures Added(t, v) && Snap(t.nodes) == WithLink(old(Snap(t.nodes)), n, i, v)
  {
    hide NodeOK, LeafOK, LeafPlace, BPTree.Listed, Sorted;
    LeafReady(t, n, i, v.key);
    Splice(t, n, i, v);
    Relink(n, n.links[..i] + [ToValue(v.key, v)] + n.links[i..], n.key, t.nodes);
  }

  lemma InsideReady(h: Heap, h': Heap, root: BPNode, m: Index, m': Index, n: BPNode, i: nat, v: BPValue)
    requires Shape(h, root, m, NoSeam) && Degrees(h, root, {}) && LeafPlace(h, m, n, i, v.key)
    requires h' == WithLink(h, n, i, v) && m' == m[v.key := v]
    ensures Shape(h', root, m', NoSeam) && SplitReady(h', root, n)
  {
    InsideShape(h, h', root, m, n, i, v);
    GrownReady(h, h', root, m', n);
  }

  method PlaceInside(t: BPTree, n: BPNode, i: nat, v: BPValue)
    requires t.Shaped() && t.Balanced({}) && t.Listed() && LeafPlace(Snap(t.nodes), t.index, n, i, v.key)
    modifies t`header, t`chain, t`index, t`values, t.nodes, t.values, v
    ensures Added(t, v) && t.Shaped() && SplitReady(Snap(t.nodes), t.root, n)
  {
    ghost var h, m := Snap(t.nodes), t.index;
    assert NodeOK(h[n]) && LeafOK(h[n], m);
    PutInLeaf(t, n, i, v);
    InsideReady(h, Snap(t.nodes), t.root, m, t.index, n, i, v);
  }

  /** The other cases: a key not above the largest, indexed already or not. */
  method InsertInside(t: BPTree, v: BPValue)
    requires t.Valid() && t.root != null && v.key <= t.root.key && t.size < MAXBPSIZE
    modifies t, t.nodes, t.values, v
    ensures t.Valid() && fresh(t.nodes - old(t.nodes))
    ensures t.index == if v.key in old(t.index) then old(t.index) else old(t.index)[v.key := v]
    ensures old(t.values) <= t.values <= old(t.values) + {v}
  {
    var n, i, dup := FindPlace(t, v.key);
    if !dup {
      PlaceInside(t, n, i, v);
      SplitAndCount(t, n);
    }
  }

  /** _bpinsert: -1 and no change when the tree is full; otherwise 0, and v is indexed unless its
      key already was. */
  method InsertValue(t: BPTree, v: BPValue) returns (ret: int)
    requires t.Valid()
    modifies t, t.nodes, t.values, v
    ensures t.Valid() && fresh(t.nodes - old(t.nodes))
    ensures ret == if old(t.size) == MAXBPSIZE then -1 else 0
    ensures t.index == if ret == -1 || v.key in old(t.index) then old(t.index) else old(t.index)[v.key := v]
    ensures old(t.values) <= t.values <= old(t.values) + {v}
  {
    if t.size == MAXBPSIZE {
      return -1;
    }
    if t.root == null {
      InsertFirst(t, v);
    } else if v.key > t.root.key {
      InsertLast(t, v);
    } else {
      InsertInside(t, v);
    }
    return 0;
  }

  /** bpinsert. */
  method Insert(t: BPTree, k: nat, record: Tunnel) returns (ret: int)
    requires t.Valid()
    modifies t, t.nodes, t.values
    ensures t.Valid() && fresh(t.nodes - old(t.nodes))
    ensures old(t.values) <= t.values && fresh(t.values - old(t.values))
    ensures ret == if old(t.size) == MAXBPSIZE then -1 else 0
    ensures ret == -1 || k in old(t.index) ==> t.index == old(t.index)
    ensures ret != -1 && k !in old(t.index) ==>
              k in t.index && t.index == old(t.index)[k := t.index[k]] && t.index[k].record == record
  {
    var v := new BPValue(k, record);
    ret := InsertValue(t, v);
  }
}
