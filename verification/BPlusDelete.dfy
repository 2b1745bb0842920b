/** Deleting from the B+ tree: _bpdelete and bpdelete of bplus.c. */
module BPlusDelete {
  import opened Tunnels
  import opened BPlusTree
  import opened BPlusChain
  import opened BPlusMerge
  import opened BPlusLookup
  import opened BPlusInsert

  ghost predicate Shrunk(a: NodeState, b: NodeState, i: nat) {
    && a.level == 0 && i < |a.links| && 1 < |a.links|
    && b == a.(links := a.links[..i] + a.links[i + 1..],
               key := if i == |a.links| - 1 then a.links[i - 1].key else a.key)
  }

  lemma LeafShrunk(a: NodeState, b: NodeState, m: Index, i: nat)
    requires NodeOK(a) && LeafOK(a, m) && Shrunk(a, b, i)
    ensures NodeOK(b) && LeafOK(b, m - {a.links[i].key})
  {
    ShrunkNode(a, b, i);
    ShrunkLists(a, b, m, i);
    ShrunkFinds(a, b, m, i);
  }

  lemma ShrunkLists(a: NodeState, b: NodeState, m: Index, i: nat)
    requires NodeOK(a) && LeafOK(a, m) && Shrunk(a, b, i)
    ensures var m' := m - {a.links[i].key};
      forall j :: 0 <= j < |b.links| ==>
        b.links[j].ToValue? && b.links[j].key in m' && m'[b.links[j].key] == b.links[j].value
  {
    forall j | 0 <= j < |b.links|
      ensures b.links[j].ToValue? && b.links[j].key in m && b.links[j].key != a.links[i].key
      ensures m[b.links[j].key] == b.links[j].value
    {
      var l := if j < i then j else j + 1;
      assert b.links[j] == a.links[l];
      SortedApart(a.links, i, l);
    }
  }

  lemma ShrunkFinds(a: NodeState, b: NodeState, m: Index, i: nat)
    requires NodeOK(a) && LeafOK(a, m) && Shrunk(a, b, i)
    ensures var m' := m - {a.links[i].key}; forall k :: k in m' && b.lo < k <= b.key ==> ToValue(k, m'[k]) in b.links
  {
    SortedLe(a.links, i - 1, |a.links| - 1);
    hide Sorted, NodeOK;
    forall k | k in m && k != a.links[i].key && b.lo < k <= b.key ensures ToValue(k, m[k]) in b.links {
      StillLinked(a.links, b.links, i, ToValue(k, m[k]));
    }
  }

  lemma StillLinked(xs: seq<Link>, ys: seq<Link>, i: nat, l: Link)
    requires i < |xs| && ys == xs[..i] + xs[i + 1..] && l in xs && l != xs[i]
    ensures l in ys
  {
    var j :| 0 <= j < |xs| && xs[j] == l;
    assert ys[if j < i then j else j - 1] == l;
  }

  lemma ShrunkNode(a: NodeState, b: NodeState, i: nat)
    requires NodeOK(a) && Shrunk(a, b, i)
    ensures NodeOK(b)
  {
    SortedLe(a.links, 0, 1);
  }

  /** n loses link i. */
  ghost predicate Dropped(h: Heap, h': Heap, m: Index, n: BPNode, i: nat, k: nat) {
    && n in h && h'.Keys == h.Keys && Shrunk(h[n], h'[n], i) && h[n].links[i].key == k && k in m
    && h' == h[n := h'[n]]
  }

  lemma DroppedNodes(h: Heap, h': Heap, root: BPNode, m: Index, n: BPNode, i: nat, k: nat)
    requires Shape(h, root, m, NoSeam) && Dropped(h, h', m, n, i, k)
    ensures Nodes(h') && Leaves(h', m - {k})
  {
    assert NodeOK(h[n]) && LeafOK(h[n], m);
    LeafShrunk(h[n], h'[n], m, i);
    SpanOf(h[n], i);
    forall x | x in h' ensures NodeOK(h'[x]) && LeafOK(h'[x], m - {k}) {
      assert NodeOK(h[x]) && LeafOK(h[x], m);
      if x != n && h[x].level == 0 {
        DroppedElsewhere(h, root, m, n, x, k);
      }
    }
  }

  lemma SpanOf(n: NodeState, i: nat)
    requires NodeOK(n) && i < |n.links|
    ensures InSpan(n, n.links[i].key)
  {
    SortedLe(n.links, 0, i);
    SortedLe(n.links, i, |n.links| - 1);
  }

  lemma DroppedElsewhere(h: Heap, root: BPNode, m: Index, n: BPNode, x: BPNode, k: nat)
    requires Shape(h, root, m, NoSeam) && n in h && x in h && x != n && h[n].level == h[x].level == 0
    requires InSpan(h[n], k) && NodeOK(h[x]) && LeafOK(h[x], m)
    ensures LeafOK(h[x], m - {k})
  {
    forall j | 0 <= j < |h[x].links| ensures h[x].links[j].key != k {
      SpanOf(h[x], j);
      if h[x].links[j].key == k {
        SpanUnique(h, root, m, n, x, k);
      }
    }
  }

  lemma DroppedLinks(h: Heap, h': Heap, root: BPNode, m: Index, n: BPNode, i: nat, k: nat, s: Seam)
    requires Dropped(h, h', m, n, i, k) && NodeOK(h[n]) && NodeOK(h'[n]) && root in h && Ups(h, root, NoSeam)
             && Downs(h, NoSeam)
    requires s == if i == |h[n].links| - 1 then Seam(n, k, null, 0) else NoSeam
    ensures Ups(h', root, s) && Downs(h', s)
  {
    forall x | x in h' ensures UpOK(h', root, x, s) {
      assert UpOK(h, root, x, NoSeam);
      if x != root {
        var y := h[x].parent;
        var j :| 0 <= j < |h[y].links| && h[y].links[j] == ToNode(h[x].key, x);
        assert ChildOK(h, y, j, NoSeam);
      }
    }
    forall x, j | x in h' && 0 <= j < |h'[x].links| ensures ChildOK(h', x, j, s) {
      if x == n {
        assert h'[n].links[j].ToValue?;
      } else {
        assert ChildOK(h, x, j, NoSeam);
      }
    }
  }

  /** A leaf without link i: its parent's link is out of date when that was the last one. */
  lemma DroppedShape(h: Heap, h': Heap, root: BPNode, m: Index, n: BPNode, i: nat, k: nat)
    requires Shape(h, root, m, NoSeam) && Dropped(h, h', m, n, i, k)
    ensures i < |h[n].links| - 1 ==> Shape(h', root, m - {k}, NoSeam)
    ensures i == |h[n].links| - 1 ==> Shape(h', root, m - {k}, Seam(n, k, null, 0)) && h'[n].key < k
    ensures i == |h[n].links| - 1 ==> forall l :: l in m - {k} ==> !(h'[n].key < l <= k)
  {
    var s := if i == |h[n].links| - 1 then Seam(n, k, null, 0) else NoSeam;
    DroppedNodes(h, h', root, m, n, i, k);
    DroppedFacts(h, h', root, m, n, i, k);
    DroppedLinks(h, h', root, m, n, i, k, s);
    DroppedKeyed(h, h', root, m, n, i, k);
  }

  lemma DroppedFacts(h: Heap, h': Heap, root: BPNode, m: Index, n: BPNode, i: nat, k: nat)
    requires Nodes(h) && Leaves(h, m) && Nodes(h') && Dropped(h, h', m, n, i, k)
    ensures NodeOK(h[n]) && NodeOK(h'[n])
    ensures i == |h[n].links| - 1 ==> h'[n].key < k && forall l :: l in m - {k} ==> !(h'[n].key < l <= k)
  {
    assert NodeOK(h[n]) && LeafOK(h[n], m) && NodeOK(h'[n]);
    if i == |h[n].links| - 1 {
      DroppedGap(h[n], h'[n], m, i);
    }
  }

  lemma DroppedKeyed(h: Heap, h': Heap, root: BPNode, m: Index, n: BPNode, i: nat, k: nat)
    requires Dropped(h, h', m, n, i, k) && root in h && Keyed(m, h[root].key) && NodeOK(h[n])
    requires i == |h[n].links| - 1 ==> h'[n].key < k && forall l :: l in m - {k} ==> !(h'[n].key < l <= k)
    ensures Keyed(m - {k}, h'[root].key)
  {
    forall l | l in (m - {k}).Keys ensures l <= h'[root].key && (m - {k})[l].key == l {
      assert m[l].key == l;
    }
  }

  lemma DroppedGap(a: NodeState, b: NodeState, m: Index, i: nat)
    requires NodeOK(a) && LeafOK(a, m) && Shrunk(a, b, i) && i == |a.links| - 1 && NodeOK(b)
    ensures b.key < a.key
    ensures forall l :: l in m ==> !(b.key < l < a.key)
  {
    SortedLe(a.links, 0, i - 1);
    forall l | l in m && b.lo < l < a.key ensures l <= b.key {
      var j :| 0 <= j < |a.links| && a.links[j] == ToValue(l, m[l]);
      SortedLe(a.links, j, i - 1);
    }
  }

  /** The state of the walk up from a leaf that lost its largest key k: c has its new key, the
      link above c still has k. */
  ghost predicate Lowering(h: Heap, root: BPNode, m: Index, c: BPNode, k: nat) {
    && c in h && Shape(h, root, m, Seam(c, k, null, 0)) && h[c].key < k
    && Gap(m, h[c].key, k)
  }

  ghost predicate Gap(m: Index, lo: int, k: nat) {
    forall l :: l in m ==> !(lo < l <= k)
  }

  lemma ParentLink(h: Heap, root: BPNode, m: Index, c: BPNode, k: nat) returns (p: BPNode, j: nat)
    requires Lowering(h, root, m, c, k) && h[c].parent != null
    ensures h[c].parent == p && p in h && p != c && NodeOK(h[p]) && NodeOK(h[c])
    ensures j < |h[p].links| && h[p].links[j] == ToNode(k, c) && h[p].level == h[c].level + 1
    ensures (if j == 0 then h[p].lo else h[p].links[j - 1].key) == h[c].lo < h[c].key
    ensures h[p].key == k <==> j == |h[p].links| - 1
  {
    var s := Seam(c, k, null, 0);
    assert UpOK(h, root, c, s);
    p := h[c].parent;
    j :| 0 <= j < |h[p].links| && h[p].links[j] == ToNode(k, c);
    assert ChildOK(h, p, j, s) && NodeOK(h[p]) && NodeOK(h[c]);
    SortedLe(h[c].links, 0, |h[c].links| - 1);
  }

  /** p gets key k' at link j, and as its own when that is the last. */
  ghost function Rekeyed(h: Heap, p: BPNode, j: nat, k: nat): Heap
    requires p in h && j < |h[p].links|
  {
    h[p := h[p].(links := h[p].links[j := Rekey(h[p].links[j], k)],
                 key := if j == |h[p].links| - 1 then k else h[p].key)]
  }

  lemma RekeyedNode(a: NodeState, b: NodeState, j: nat, k: nat)
    requires NodeOK(a) && j < |a.links| && (if j == 0 then a.lo else a.links[j - 1].key) < k < a.links[j].key
    requires b == a.(links := a.links[j := Rekey(a.links[j], k)], key := if j == |a.links| - 1 then k else a.key)
    ensures NodeOK(b)
  {
    forall x, y | 0 <= x < y < |b.links| ensures b.links[x].key < b.links[y].key {
      SortedLe(a.links, x, j - 1);
      SortedLe(a.links, j, y);
    }
  }

  lemma RekeyedNodes(h: Heap, h': Heap, root: BPNode, m: Index, c: BPNode, p: BPNode, j: nat, k: nat)
    requires Lowering(h, root, m, c, k) && h[c].parent == p && p in h
    requires j < |h[p].links| && h[p].links[j] == ToNode(k, c) && h' == Rekeyed(h, p, j, h[c].key)
    requires (if j == 0 then h[p].lo else h[p].links[j - 1].key) < h[c].key && h[p].level > 0
    ensures Nodes(h') && Leaves(h', m)
  {
    assert NodeOK(h[p]);
    RekeyedNode(h[p], h'[p], j, h[c].key);
    forall x | x in h' ensures NodeOK(h'[x]) && LeafOK(h'[x], m) {
      assert NodeOK(h[x]) && LeafOK(h[x], m);
    }
  }

  lemma RekeyedUps(h: Heap, h': Heap, root: BPNode, c: BPNode, p: BPNode, j: nat, k: nat, s': Seam)
    requires c in h && p in h && p != c && root in h && Ups(h, root, Seam(c, k, null, 0))
             && Downs(h, Seam(c, k, null, 0))
    requires j < |h[p].links| && h[p].links[j] == ToNode(k, c) && h' == Rekeyed(h, p, j, h[c].key)
    requires j == |h[p].links| - 1 ==> h[p].key == k && s' == Seam(p, k, null, 0)
    requires j < |h[p].links| - 1 ==> s'.kb == null
    requires Sorted(h[p].links)
    ensures Ups(h', root, s')
  {
    var s := Seam(c, k, null, 0);
    assert ChildOK(h, p, j, s);
    forall x | x in h' ensures UpOK(h', root, x, s') {
      assert UpOK(h, root, x, s);
      if x != root {
        var y := h[x].parent;
        var i :| 0 <= i < |h[y].links| && h[y].links[i] == ToNode(LinkKey(h, x, s), x);
        assert ChildOK(h, y, i, s);
        if y == p {
          SortedApart(h[p].links, i, j);
          assert h'[p].links[i] == ToNode(LinkKey(h', x, s'), x);
        }
      }
    }
  }

  lemma LowerUp(h: Heap, h': Heap, root: BPNode, m: Index, c: BPNode, p: BPNode, j: nat, k: nat)
    requires Lowering(h, root, m, c, k) && h[c].parent == p && p in h && h[p].key == k
    requires j < |h[p].links| && h[p].links[j].key == k && h' == Rekeyed(h, p, j, h[c].key)
    ensures Lowering(h', root, m, p, k)
  {
    var q, i := ParentLink(h, root, m, c, k);
    SortedApart(h[p].links, i, j);
    RekeyedNodes(h, h', root, m, c, p, j, k);
    RekeyedUps(h, h', root, c, p, j, k, Seam(p, k, null, 0));
    LowerUpDowns(h, h', c, p, j, k);
    assert UpOK(h, root, p, Seam(c, k, null, 0));
  }

  lemma LowerUpDowns(h: Heap, h': Heap, c: BPNode, p: BPNode, j: nat, k: nat)
    requires c in h && p in h && p != c && Downs(h, Seam(c, k, null, 0))
    requires j == |h[p].links| - 1 && h[p].links[j] == ToNode(k, c) && h[p].key == k && h' == Rekeyed(h, p, j, h[c].key)
    requires Sorted(h[p].links)
    ensures Downs(h', Seam(p, k, null, 0))
  {
    var s, s' := Seam(c, k, null, 0), Seam(p, k, null, 0);
    assert ChildOK(h, p, j, s);
    forall x, i | x in h' && 0 <= i < |h'[x].links| ensures ChildOK(h', x, i, s') {
      assert ChildOK(h, x, i, s);
      if x == p {
        SortedApart(h[p].links, i, j);
      }
    }
  }

  /** The walk ends at the first ancestor with a larger key: only its link changes, and with it
      the lower bound of the subtree to the right. */
  lemma LowerTurn(h: Heap, h': Heap, root: BPNode, m: Index, c: BPNode, p: BPNode, j: nat, k: nat) returns (d: BPNode)
    requires Lowering(h, root, m, c, k) && h[c].parent == p && p in h && h[p].key != k
    requires j < |h[p].links| && h[p].links[j].key == k && h' == Rekeyed(h, p, j, h[c].key)
    ensures j + 1 < |h[p].links| && d in h && h[d].lo == k && d != root && h[d].level < h[p].level
    ensures Shape(h', root, m, Seam(null, 0, d, h[c].key)) && h'[d] == h[d]
  {
    var q, i := ParentLink(h, root, m, c, k);
    SortedApart(h[p].links, i, j);
    assert ChildOK(h, p, j + 1, Seam(c, k, null, 0)) && ChildOK(h, p, j, Seam(c, k, null, 0));
    SortedApart(h[p].links, j, j + 1);
    d := h[p].links[j + 1].child;
    assert UpOK(h, root, d, Seam(c, k, null, 0)) && UpOK(h, root, p, Seam(c, k, null, 0));
    RekeyedNodes(h, h', root, m, c, p, j, k);
    RekeyedUps(h, h', root, c, p, j, k, Seam(null, 0, d, h[c].key));
    LowerTurnDowns(h, h', c, d, p, j, k);
  }

  lemma LowerTurnDowns(h: Heap, h': Heap, c: BPNode, d: BPNode, p: BPNode, j: nat, k: nat)
    requires c in h && p in h && p != c && Downs(h, Seam(c, k, null, 0))
    requires j + 1 < |h[p].links| && h[p].links[j] == ToNode(k, c) && h' == Rekeyed(h, p, j, h[c].key)
    requires h[p].links[j + 1].ToNode? && h[p].links[j + 1].child == d
    requires Sorted(h[p].links)
    ensures Downs(h', Seam(null, 0, d, h[c].key))
  {
    var s, s' := Seam(c, k, null, 0), Seam(null, 0, d, h[c].key);
    assert ChildOK(h, p, j, s) && ChildOK(h, p, j + 1, s);
    forall x, i | x in h' && 0 <= i < |h'[x].links| ensures ChildOK(h', x, i, s') {
      assert ChildOK(h, x, i, s);
      if x == p {
        SortedApart(h[p].links, i, j);
        SortedApart(h[p].links, i, j + 1);
      }
    }
  }

  /** One step of lowering the bound of the first subtrees of d. */
  lemma LowerBound(h: Heap, h': Heap, root: BPNode, m: Index, d: BPNode, lo: int, k: nat) returns (e: BPNode)
    requires d in h && d != root && lo < k && h[d].lo == k && Gap(m, lo, k)
    requires Shape(h, root, m, Seam(null, 0, d, lo)) && h' == h[d := h[d].(lo := lo)]
    ensures h[d].level == 0 ==> Shape(h', root, m, NoSeam)
    ensures h[d].level > 0 ==> |h[d].links| > 0 && h[d].links[0].ToNode? && h[d].links[0].child == e && e in h
    ensures h[d].level > 0 ==>
              h[e].level < h[d].level && e != root && h'[e].lo == k && Shape(h', root, m, Seam(null, 0, e, lo))
  {
    var s := Seam(null, 0, d, lo);
    assert NodeOK(h[d]) && LeafOK(h[d], m) && ChildOK(h, d, 0, s) && UpOK(h, root, d, s);
    forall x | x in h' ensures NodeOK(h'[x]) && LeafOK(h'[x], m) {
      assert NodeOK(h[x]) && LeafOK(h[x], m);
    }
    e := d;
    if h[d].level > 0 {
      e := h[d].links[0].child;
      assert UpOK(h, root, e, s);
    }
    BoundLinks(h, h', root, d, lo, if h[d].level == 0 then NoSeam else Seam(null, 0, e, lo));
  }

  lemma BoundLinks(h: Heap, h': Heap, root: BPNode, d: BPNode, lo: int, s': Seam)
    requires root in h && d in h && Ups(h, root, Seam(null, 0, d, lo)) && Downs(h, Seam(null, 0, d, lo)) && NodeOK(h[d])
    requires h' == h[d := h[d].(lo := lo)]
    requires s' == if h[d].level == 0 then NoSeam else Seam(null, 0, h[d].links[0].child, lo)
    ensures Ups(h', root, s') && Downs(h', s')
  {
    var s := Seam(null, 0, d, lo);
    forall x | x in h' ensures UpOK(h', root, x, s') {
      assert UpOK(h, root, x, s);
    }
    assert ChildOK(h, d, 0, s);
    forall x, i | x in h' && 0 <= i < |h'[x].links| ensures ChildOK(h', x, i, s') {
      assert ChildOK(h, x, i, s);
      if x == d {
        SortedApart(h[d].links, i, 0);
      }
    }
  }

  lemma SeamAtRoot(h: Heap, root: BPNode, m: Index, k: nat)
    requires Shape(h, root, m, Seam(root, k, null, 0))
    ensures Shape(h, root, m, NoSeam)
  {
    var s := Seam(root, k, null, 0);
    assert UpOK(h, root, root, s);
    forall x | x in h ensures UpOK(h, root, x, NoSeam) {
      assert UpOK(h, root, x, s);
    }
    forall x, i | x in h && 0 <= i < |h[x].links| ensures ChildOK(h, x, i, NoSeam) {
      assert ChildOK(h, x, i, s);
    }
  }

  /** Lowers the ghost bounds down the first subtrees of d. */
  ghost method LowerBounds(t: BPTree, d: BPNode, lo: int, k: nat)
    requires t.root != null && d in t.nodes && d != t.root && lo < k && d.lo == k && Gap(t.index, lo, k)
    requires Shape(Snap(t.nodes), t.root, t.index, Seam(null, 0, d, lo))
    modifies t.nodes`lo
    ensures t.Shaped() && SameDegrees(old(Snap(t.nodes)), Snap(t.nodes))
    decreases d.level
  {
    var h := Snap(t.nodes);
    d.lo := lo;
    assert Snap(t.nodes) == h[d := h[d].(lo := lo)];
    var e := LowerBound(h, Snap(t.nodes), t.root, t.index, d, lo, k);
    if d.level > 0 {
      LowerBounds(t, e, lo, k);
    }
  }

  method FindKey(n: BPNode, k: nat) returns (i: nat)
    requires exists j :: 0 <= j < |n.links| && n.links[j].key == k
    ensures i < |n.links| && n.links[i].key == k
  {
    i := 0;
    while n.links[i].key != k
      invariant exists j :: i <= j < |n.links| && n.links[j].key == k
      decreases |n.links| - i
    {
      i := i + 1;
    }
  }

  /** One ancestor p of the walk up whose own key is the old one. */
  method LowerPast(t: BPTree, c: BPNode, p: BPNode, k: nat, newKey: nat)
    requires t.root != null && Lowering(Snap(t.nodes), t.root, t.index, c, k) && c.parent == p && newKey == c.key
             && p.key == k
    modifies t.nodes
    ensures Lowering(Snap(t.nodes), t.root, t.index, p, k) && p.key == newKey
    ensures SameDegrees(old(Snap(t.nodes)), Snap(t.nodes)) && p.level == old(c.level) + 1
  {
    hide Nodes, Leaves, Ups, Downs, Keyed, Gap;
    ghost var h := Snap(t.nodes);
    ghost var q, j := ParentLink(h, t.root, t.index, c, k);
    var last := |p.links| - 1;
    Relink(p, p.links[last := Rekey(p.links[last], newKey)], newKey, t.nodes);
    LowerUp(h, Snap(t.nodes), t.root, t.index, c, p, last, k);
  }

  /** The ancestor where the walk ends. */
  method LowerAt(t: BPTree, c: BPNode, p: BPNode, k: nat, newKey: nat)
    requires t.root != null && Lowering(Snap(t.nodes), t.root, t.index, c, k) && c.parent == p && newKey == c.key
             && p.key != k
    modifies t.nodes
    ensures t.Shaped()
    ensures SameDegrees(old(Snap(t.nodes)), Snap(t.nodes)) && p.level == old(c.level) + 1
  {
    hide Nodes, Leaves, Ups, Downs, Keyed, Gap;
    ghost var h := Snap(t.nodes);
    ghost var q, j := ParentLink(h, t.root, t.index, c, k);
    var i := FindKey(p, k);
    SortedApart(p.links, i, j);
    Relink(p, p.links[i := Rekey(p.links[i], newKey)], p.key, t.nodes);
    ghost var d := LowerTurn(h, Snap(t.nodes), t.root, t.index, c, p, i, k);
    LowerBounds(t, d, newKey, k);
  }

  /** One ancestor p of the walk up; top when its own key is another one and the walk ends. */
  method LowerKey(t: BPTree, c: BPNode, p: BPNode, k: nat, newKey: nat) returns (top: bool)
    requires t.root != null && Lowering(Snap(t.nodes), t.root, t.index, c, k) && c.parent == p && newKey == c.key
    modifies t.nodes
    ensures top ==> t.Shaped()
    ensures !top ==> Lowering(Snap(t.nodes), t.root, t.index, p, k) && p.key == newKey
    ensures SameDegrees(old(Snap(t.nodes)), Snap(t.nodes)) && p.level == old(c.level) + 1
  {
    hide Lowering, SameDegrees;
    top := p.key != k;
    if !top {
      LowerPast(t, c, p, k, newKey);
    } else {
      LowerAt(t, c, p, k, newKey);
    }
  }

  /** Takes the new largest key of the leaf n up through the ancestors that had the old one, k. */
  method LowerKeys(t: BPTree, n: BPNode, k: nat)
    requires t.root != null && Lowering(Snap(t.nodes), t.root, t.index, n, k)
    modifies t.nodes
    ensures t.Shaped() && SameDegrees(old(Snap(t.nodes)), Snap(t.nodes))
  {
    var newKey := n.key;
    var c: BPNode := n;
    var cur := n.parent;
    while cur != null
      invariant Lowering(Snap(t.nodes), t.root, t.index, c, k) && cur == c.parent && c.key == newKey
      invariant SameDegrees(old(Snap(t.nodes)), Snap(t.nodes))
      decreases t.root.level - c.level
    {
      assert UpOK(Snap(t.nodes), t.root, c, Seam(c, k, null, 0));
      var top := LowerKey(t, c, cur, k, newKey);
      if top {
        return;
      }
      c, cur := cur, cur.parent;
    }
    assert UpOK(Snap(t.nodes), t.root, c, Seam(c, k, null, 0));
    SeamAtRoot(Snap(t.nodes), t.root, t.index, k);
  }

  /** Two links of a leaf are two values of the chain. */
  lemma ChainLong(n: NodeState, c: seq<BPValue>, m: Index)
    requires NodeOK(n) && LeafOK(n, m) && n.level == 0 && |n.links| > 1 && Listing(c, m)
    ensures |c| > 1
  {
    LeafLinkValue(n, m, 0);
    LeafLinkValue(n, m, 1);
    var i := Position(c, m, n.links[0].key);
    var j := Position(c, m, n.links[1].key);
    SortedApart(n.links, 0, 1);
  }

  /** What taking the value under k out of the chain and the index comes to. */
  twostate predicate TakenOut(t: BPTree, new v: BPValue, j: nat)
    reads t, t.values
  {
    && t.Listed() && v.key in old(t.index) && v == old(t.index)[v.key] && t.index == old(t.index) - {v.key}
    && j < |old(t.chain)| && old(t.chain)[j] == v && t.chain == Removed(old(t.chain), j)
  }

  /** Unlinks the value at place i of a leaf that has others. */
  method CutLeaf(t: BPTree, n: BPNode, i: nat) returns (v: BPValue, ghost j: nat)
    requires t.Listed() && n in t.nodes && NodeOK(Snap(t.nodes)[n]) && LeafOK(Snap(t.nodes)[n], t.index)
    requires n.level == 0 && i < |n.links| && |n.links| > 1
    modifies t`header, t`chain, t`index, t.nodes, t.values
    ensures TakenOut(t, v, j) && v.key == old(n.links)[i].key && t.chain != []
    ensures Dropped(old(Snap(t.nodes)), Snap(t.nodes), old(t.index), n, i, v.key)
  {
    hide Listing, Chained, Sorted;
    LeafLinkValue(Snap(t.nodes)[n], t.index, i);
    ChainLong(Snap(t.nodes)[n], t.chain, t.index);
    v := n.links[i].value;
    j := Position(t.chain, t.index, n.links[i].key);
    Relink(n, n.links[..i] + n.links[i + 1..], if i == |n.links| - 1 then n.links[i - 1].key else n.key, t.nodes);
    j := TakeOut(t, v);
  }

  lemma CutReady(h: Heap, h1: Heap, h2: Heap, root: BPNode, m: Index, n: BPNode, i: nat, k: nat)
    requires Degrees(h, root, {}) && Dropped(h, h1, m, n, i, k) && SameDegrees(h1, h2) && root in h
    ensures MergeReady(h2, root, n)
  {
    assert DegreeOK(h, root, n);
    forall x | x in h2 && x != n ensures DegreeOK(h2, root, x) {
      assert DegreeOK(h, root, x);
    }
  }

  /** Unlinks a value and repairs the keys above its leaf. */
  method Cut(t: BPTree, n: BPNode, i: nat) returns (v: BPValue, ghost j: nat)
    requires t.Shaped() && t.Balanced({}) && t.Listed() && n in t.nodes
    requires n.level == 0 && i < |n.links| && |n.links| > 1
    modifies t`header, t`chain, t`index, t.nodes, t.values
    ensures TakenOut(t, v, j) && v.key == old(n.links)[i].key && t.chain != []
    ensures t.Shaped() && MergeReady(Snap(t.nodes), t.root, n)
  {
    ghost var h, m := Snap(t.nodes), t.index;
    assert NodeOK(h[n]) && LeafOK(h[n], m);
    var last := i == |n.links| - 1;
    v, j := CutLeaf(t, n, i);
    ghost var h1 := Snap(t.nodes);
    DroppedShape(h, h1, t.root, m, n, i, v.key);
    if last {
      LowerKeys(t, n, v.key);
    }
    CutReady(h, h1, Snap(t.nodes), t.root, m, n, i, v.key);
  }

  /** The state of an index and of its chain without the value under k. */
  twostate predicate Without(t: BPTree, k: nat, new v: BPValue?, j: nat)
    reads t, t.values
  {
    && v == (if k in old(t.index) then old(t.index)[k] else null)
    && t.index == old(t.index) - {k}
    && (k in old(t.index) ==> j < |old(t.chain)| && old(t.chain)[j] == v && t.chain == Removed(old(t.chain), j))
    && (k !in old(t.index) ==> t.chain == old(t.chain))
    && t.values == old(t.values)
  }

  /** Deletes the only value of the tree. */
  method DeleteOnly(t: BPTree, n: BPNode) returns (v: BPValue)
    requires t.Valid() && n == t.root && n.level == 0 && |n.links| == 1
    modifies t
    ensures t.Valid() && t.nodes == {} && n.key in old(t.index) && Without(t, n.key, v, 0)
  {
    ghost var h := Snap(t.nodes);
    assert NodeOK(h[n]) && LeafOK(h[n], t.index);
    LeafLinkValue(h[n], t.index, 0);
    OnlyOne(h, n, t.index, t.chain);
    v := n.links[0].value;
    t.root := null;
    t.header := null;
    t.size := 0;
    t.nodes, t.index, t.chain := {}, map[], [];
  }

  lemma OnlyOne(h: Heap, n: BPNode, m: Index, c: seq<BPValue>)
    requires Shape(h, n, m, NoSeam) && h[n].level == 0 && |h[n].links| == 1 && Listing(c, m)
    ensures h[n].links[0].ToValue? && m == map[h[n].key := h[n].links[0].value] && |c| == 1
            && c[0] == h[n].links[0].value
  {
    assert NodeOK(h[n]) && LeafOK(h[n], m);
    LeafLinkValue(h[n], m, 0);
    forall k | k in m.Keys ensures k == h[n].key {
      assert m[k].key == k;
    }
    var j := Position(c, m, h[n].key);
    ListingSize(c, m);
    assert m.Keys == {h[n].key};
  }

  /** Deletes a value that shares its leaf with others. */
  method DeleteAmong(t: BPTree, n: BPNode, i: nat) returns (v: BPValue, ghost j: nat)
    requires t.Valid() && t.root != null && n in t.nodes && n.level == 0 && i < |n.links| && |n.links| > 1
    modifies t, t.nodes, t.values
    ensures t.Valid() && fresh(t.nodes - old(t.nodes)) && v.key == old(n.links)[i].key && v.key in old(t.index)
    ensures Without(t, v.key, v, j)
  {
    v, j := Cut(t, n, i);
    MergeAndCount(t, n);
  }

  method MergeAndCount(t: BPTree, n: BPNode)
    requires t.Shaped() && MergeReady(Snap(t.nodes), t.root, n)
    requires t.Listed() && t.size == |t.chain| + 1 && |t.chain| > 0 && t.size <= MAXBPSIZE
    modifies t`root, t`nodes, t`size, t.nodes
    ensures t.Valid() && fresh(t.nodes - old(t.nodes))
  {
    Merge(t, n);
    t.size := t.size - 1;
  }

  lemma ShapeNode(h: Heap, root: BPNode, m: Index, n: BPNode)
    requires Shape(h, root, m, NoSeam) && n in h
    ensures NodeOK(h[n]) && LeafOK(h[n], m)
  {
  }

  lemma DegreesNode(h: Heap, root: BPNode, n: BPNode)
    requires Degrees(h, root, {}) && n in h
    ensures n != root ==> MINDEGREE <= |h[n].links|
  {
    assert DegreeOK(h, root, n);
  }

  /** _bpdelete: the value under k, unlinked, or null. */
  method DeleteValue(t: BPTree, k: nat) returns (v: BPValue?, ghost j: nat)
    requires t.Valid()
    modifies t, t.nodes, t.values
    ensures t.Valid() && fresh(t.nodes - old(t.nodes)) && Without(t, k, v, j)
  {
    hide Listing, Chained, Shape, LeafOK, Degrees, Sorted, Snap;
    v, j := null, 0;
    if t.root == null || t.header == null || k > t.root.key {
      AboveAll(t, k);
      return;
    }
    var n := FindLeaf(t, k);
    ghost var h := Snap(t.nodes);
    ShapeNode(h, t.root, t.index, n);
    SnapAt(t.nodes, n);
    var i := FindLink(n, k);
    LeafLink(h[n], t.index, i, k);
    if n == t.root && |n.links| == 1 {
      if n.key == k {
        v := DeleteOnly(t, n);
      }
    } else if n.links[i].key == k {
      DegreesNode(h, t.root, n);
      v, j := DeleteAmong(t, n, i);
    }
  }

  lemma AboveAll(t: BPTree, k: nat)
    requires t.Valid() && (t.root == null || k > t.root.key)
    ensures k !in t.index
  {
  }

  /** bpdelete: the record under k, or null. */
  method Delete(t: BPTree, k: nat) returns (record: Tunnel?, ghost j: nat)
    requires t.Valid()
    modifies t, t.nodes, t.values
    ensures t.Valid() && fresh(t.nodes - old(t.nodes))
    ensures record == (if k in old(t.index) then old(t.index)[k].record else null)
    ensures Without(t, k, if k in old(t.index) then old(t.index)[k] else null, j)
  {
    var v;
    v, j := DeleteValue(t, k);
    record := if v == null then null else v.record;
  }
}