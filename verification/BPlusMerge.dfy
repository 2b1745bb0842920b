/** Node merging: bpmerge of bplus.c. */
module BPlusMerge {
  import opened BPlusTree
  import opened BPlusSplit

  ghost predicate AbsorbedAt(h: Heap, h': Heap, a: BPNode, b: BPNode, x: BPNode)
    requires a in h && x in h && x in h'
  {
    h'[x] == h[x].(parent := if IsBelow(h[a].links, x) then b else h[x].parent)
  }

  /** b takes over the links of its left neighbour a, which disappears with link i of their parent q. */
  ghost predicate Absorbed(h: Heap, h': Heap, a: BPNode, b: BPNode, q: BPNode, i: nat) {
    && a in h && b in h && q in h && a != b && a != q && b != q
    && h'.Keys == h.Keys - {a}
    && i + 1 < |h[q].links| && h[q].links[i] == ToNode(h[a].key, a) && h[q].links[i + 1] == ToNode(h[b].key, b)
    && h'[b] == h[b].(links := h[a].links + h[b].links, lo := h[a].lo)
    && h'[q] == h[q].(links := h[q].links[..i] + h[q].links[i + 1..])
    && (forall x {:trigger AbsorbedAt(h, h', a, b, x)} :: x in h' && x != b && x != q ==> AbsorbedAt(h, h', a, b, x))
  }

  lemma JoinNodes(a: NodeState, b: NodeState, c: NodeState, m: Index)
    requires NodeOK(a) && NodeOK(b) && LeafOK(a, m) && LeafOK(b, m)
    requires b.lo == a.key && a.level == b.level
    requires c == b.(links := a.links + b.links, lo := a.lo)
    ensures NodeOK(c) && LeafOK(c, m)
  {
    forall i, j | 0 <= i < j < |c.links| ensures c.links[i].key < c.links[j].key {
      SortedLe(a.links, i, |a.links| - 1);
      SortedLe(b.links, 0, j - |a.links|);
    }
  }

  lemma DropLink(a: NodeState, b: NodeState, i: nat)
    requires NodeOK(a) && i + 1 < |a.links|
    requires b == a.(links := a.links[..i] + a.links[i + 1..])
    ensures NodeOK(b)
  {
    SortedLe(a.links, 0, i + 1);
  }

  lemma AbsorbNodes(h: Heap, h': Heap, m: Index, a: BPNode, b: BPNode, q: BPNode, i: nat)
    requires Nodes(h) && Leaves(h, m) && Downs(h, NoSeam) && Absorbed(h, h', a, b, q, i)
    ensures Nodes(h') && Leaves(h', m)
  {
    assert NodeOK(h[a]) && LeafOK(h[a], m) && NodeOK(h[b]) && LeafOK(h[b], m) && NodeOK(h[q]);
    assert ChildOK(h, q, i, NoSeam) && ChildOK(h, q, i + 1, NoSeam);
    JoinNodes(h[a], h[b], h'[b], m);
    DropLink(h[q], h'[q], i);
    forall x | x in h' ensures NodeOK(h'[x]) && LeafOK(h'[x], m) {
      if x != b && x != q {
        assert NodeOK(h[x]) && LeafOK(h[x], m) && AbsorbedAt(h, h', a, b, x);
      }
    }
  }

  /** The children of a move to b, other nodes stay where they are. */
  lemma AbsorbedChild(h: Heap, h': Heap, a: BPNode, b: BPNode, q: BPNode, i: nat, x: BPNode)
    requires Absorbed(h, h', a, b, q, i) && Downs(h, NoSeam) && x in h' && x != b && x != q
    ensures h[x].parent != a ==> h'[x] == h[x]
    ensures IsBelow(h[a].links, x) ==> h'[x] == h[x].(parent := b)
  {
    assert AbsorbedAt(h, h', a, b, x);
    if IsBelow(h[a].links, x) {
      var k :| 0 <= k < |h[a].links| && h[a].links[k].ToNode? && h[a].links[k].child == x;
      assert ChildOK(h, a, k, NoSeam);
    }
  }

  lemma AbsorbUps(h: Heap, h': Heap, root: BPNode, a: BPNode, b: BPNode, q: BPNode, i: nat)
    requires Absorbed(h, h', a, b, q, i) && root in h && Ups(h, root, NoSeam) && Downs(h, NoSeam)
    ensures root in h' && Ups(h', root, NoSeam)
  {
    assert ChildOK(h, q, i, NoSeam) && ChildOK(h, q, i + 1, NoSeam);
    assert UpOK(h, root, a, NoSeam) && UpOK(h, root, q, NoSeam) && UpOK(h, root, root, NoSeam);
    assert h'[root].level == h[root].level && h'[root].parent == h[root].parent by {
      if root != q { AbsorbedChild(h, h', a, b, q, i, root); }
    }
    forall x | x in h' ensures UpOK(h', root, x, NoSeam) {
      AbsorbUp(h, h', root, a, b, q, i, x);
    }
  }

  lemma AbsorbUp(h: Heap, h': Heap, root: BPNode, a: BPNode, b: BPNode, q: BPNode, i: nat, x: BPNode)
    requires Absorbed(h, h', a, b, q, i) && root in h' && Ups(h, root, NoSeam) && Downs(h, NoSeam)
    requires h'[root].level == h[root].level && h'[root].parent == h[root].parent && b != root && x in h'
    requires h[a].parent == q && h[b].parent == q && h[a].level == h[b].level < h[q].level
    ensures UpOK(h', root, x, NoSeam)
  {
    assert UpOK(h, root, x, NoSeam);
    if x == b {
      assert h'[q].links[i] == h[q].links[i + 1];
    } else if x != root {
      var y := h[x].parent;
      var k :| 0 <= k < |h[y].links| && h[y].links[k] == ToNode(h[x].key, x);
      assert ChildOK(h, y, k, NoSeam);
      if x != q { AbsorbedChild(h, h', a, b, q, i, x); }
      if y == a {
        assert x != q;
        assert h'[b].links[k] == h[a].links[k];
      } else if y == b {
        assert h'[b].links[|h[a].links| + k] == h[b].links[k];
      } else if y == q {
        assert h'[q].links[if k < i then k else k - 1] == h[q].links[k];
      } else {
        assert AbsorbedAt(h, h', a, b, y);
      }
    }
  }

  lemma AbsorbDowns(h: Heap, h': Heap, a: BPNode, b: BPNode, q: BPNode, i: nat)
    requires Absorbed(h, h', a, b, q, i) && Downs(h, NoSeam) && NodeOK(h[a]) && NodeOK(h[q])
    ensures Downs(h', NoSeam)
  {
    assert ChildOK(h, q, i, NoSeam) && ChildOK(h, q, i + 1, NoSeam);
    forall x, k | x in h' && 0 <= k < |h'[x].links| ensures ChildOK(h', x, k, NoSeam) {
      if x == b {
        AbsorbDownTaker(h, h', a, b, q, i, k);
      } else if x == q {
        AbsorbDownParent(h, h', a, b, q, i, k);
      } else {
        assert AbsorbedAt(h, h', a, b, x) && ChildOK(h, x, k, NoSeam);
        if h[x].links[k].ToNode? && h[x].links[k].child != q {
          AbsorbedChild(h, h', a, b, q, i, h[x].links[k].child);
        }
      }
    }
  }

  lemma AbsorbDownTaker(h: Heap, h': Heap, a: BPNode, b: BPNode, q: BPNode, i: nat, k: nat)
    requires Absorbed(h, h', a, b, q, i) && Downs(h, NoSeam) && NodeOK(h[a]) && k < |h'[b].links|
    ensures ChildOK(h', b, k, NoSeam)
  {
    assert ChildOK(h, q, i, NoSeam) && ChildOK(h, q, i + 1, NoSeam);
    var l := |h[a].links|;
    if k < l {
      assert h'[b].links[k] == h[a].links[k];
      assert ChildOK(h, a, k, NoSeam);
      if h[a].links[k].ToNode? {
        AbsorbedChild(h, h', a, b, q, i, h[a].links[k].child);
      }
    } else {
      assert h'[b].links[k] == h[b].links[k - l];
      assert ChildOK(h, b, k - l, NoSeam);
      if h[b].links[k - l].ToNode? {
        AbsorbedChild(h, h', a, b, q, i, h[b].links[k - l].child);
      }
    }
  }

  lemma AbsorbDownParent(h: Heap, h': Heap, a: BPNode, b: BPNode, q: BPNode, i: nat, k: nat)
    requires Absorbed(h, h', a, b, q, i) && Downs(h, NoSeam) && NodeOK(h[a]) && NodeOK(h[q]) && k < |h'[q].links|
    ensures ChildOK(h', q, k, NoSeam)
  {
    assert ChildOK(h, q, i, NoSeam) && ChildOK(h, q, i + 1, NoSeam);
    var l := if k < i then k else k + 1;
    assert h'[q].links[k] == h[q].links[l];
    assert ChildOK(h, q, l, NoSeam);
    if l != i + 1 && h[q].links[l].ToNode? {
      var c := h[q].links[l].child;
      assert h[q].links[l].key != h[q].links[i].key && h[q].links[l].key != h[q].links[i + 1].key;
      AbsorbedChild(h, h', a, b, q, i, c);
    }
  }

  /** A merge keeps the search tree and what it indexes. */
  lemma AbsorbShape(h: Heap, h': Heap, root: BPNode, m: Index, a: BPNode, b: BPNode, q: BPNode, i: nat)
    requires Shape(h, root, m, NoSeam) && Absorbed(h, h', a, b, q, i)
    ensures Shape(h', root, m, NoSeam)
  {
    assert NodeOK(h[a]) && NodeOK(h[q]) && ChildOK(h, q, i, NoSeam) && ChildOK(h, q, i + 1, NoSeam);
    assert UpOK(h, root, b, NoSeam) && UpOK(h, root, q, NoSeam);
    AbsorbNodes(h, h', m, a, b, q, i);
    AbsorbUps(h, h', root, a, b, q, i);
    AbsorbDowns(h, h', a, b, q, i);
    assert UpOK(h, root, root, NoSeam);
    if root != q { AbsorbedChild(h, h', a, b, q, i, root); }
  }

  ghost predicate Collapsed(h: Heap, h': Heap, q: BPNode, b: BPNode) {
    && q in h && b in h && q != b
    && h[q].links == [ToNode(h[b].key, b)]
    && h' == (h - {q})[b := h[b].(parent := null)]
  }

  /** A root with one child gives way to the child. */
  lemma CollapseShape(h: Heap, h': Heap, q: BPNode, b: BPNode, m: Index)
    requires Shape(h, q, m, NoSeam) && Collapsed(h, h', q, b)
    ensures Shape(h', b, m, NoSeam)
  {
    assert NodeOK(h[q]) && ChildOK(h, q, 0, NoSeam);
    CollapseNodes(h, h', q, b, m);
    CollapseLinks(h, h', q, b);
  }

  lemma CollapseNodes(h: Heap, h': Heap, q: BPNode, b: BPNode, m: Index)
    requires Collapsed(h, h', q, b) && Nodes(h) && Leaves(h, m)
    ensures Nodes(h') && Leaves(h', m)
  {
    forall x | x in h' ensures NodeOK(h'[x]) && LeafOK(h'[x], m) {
      assert NodeOK(h[x]) && LeafOK(h[x], m);
    }
  }

  lemma CollapseLinks(h: Heap, h': Heap, q: BPNode, b: BPNode)
    requires Collapsed(h, h', q, b) && Ups(h, q, NoSeam) && Downs(h, NoSeam)
    ensures Ups(h', b, NoSeam) && Downs(h', NoSeam)
  {
    assert ChildOK(h, q, 0, NoSeam) && UpOK(h, q, q, NoSeam);
    forall x | x in h' ensures UpOK(h', b, x, NoSeam) {
      assert UpOK(h, q, x, NoSeam);
      if x != b {
        var y := h[x].parent;
        var k :| 0 <= k < |h[y].links| && h[y].links[k] == ToNode(h[x].key, x);
        assert ChildOK(h, y, k, NoSeam);
        assert UpOK(h, q, y, NoSeam);
      }
    }
    forall x, i | x in h' && 0 <= i < |h'[x].links| ensures ChildOK(h', x, i, NoSeam) {
      assert ChildOK(h, x, i, NoSeam);
      if h[x].links[i].ToNode? {
        assert UpOK(h, q, x, NoSeam);
      }
    }
  }

  /** n may be one link short. */
  ghost predicate MergeReady(h: Heap, root: BPNode, n: BPNode) {
    && n in h && root in h
    && Degrees(h, root, {n})
    && (n == root ==> DegreeOK(h, root, n))
    && (n != root ==> MINDEGREE - 1 <= |h[n].links| <= MAXDEGREE)
  }

  /** The merged node may be overfull, its parent one link short. */
  ghost predicate Merged(h: Heap, root: BPNode, b: BPNode, q: BPNode) {
    && b in h && q in h && root in h && b != root && b != q && h[b].parent == q
    && Degrees(h, root, {b, q})
    && 2 * MINDEGREE - 1 <= |h[b].links| <= MAXDEGREE + 3
    && (if q == root then 1 else MINDEGREE - 1) <= |h[q].links| < MAXDEGREE
    && h[q].level > 0
  }

  lemma AbsorbDegrees(h: Heap, h': Heap, root: BPNode, a: BPNode, b: BPNode, q: BPNode, i: nat)
    requires root in h && Downs(h, NoSeam) && Ups(h, root, NoSeam) && Absorbed(h, h', a, b, q, i)
    requires exists n :: (n == a || n == b) && Degrees(h, root, {n}) && |h[n].links| == MINDEGREE - 1
    ensures Merged(h', root, b, q)
  {
    assert ChildOK(h, q, i, NoSeam) && ChildOK(h, q, i + 1, NoSeam);
    assert UpOK(h, root, a, NoSeam) && UpOK(h, root, b, NoSeam) && UpOK(h, root, q, NoSeam);
    var n :| (n == a || n == b) && Degrees(h, root, {n}) && |h[n].links| == MINDEGREE - 1;
    assert DegreeOK(h, root, q) && (n == a ==> DegreeOK(h, root, b)) && (n == b ==> DegreeOK(h, root, a));
    forall x | x in h' && x !in {b, q} ensures DegreeOK(h', root, x) {
      assert DegreeOK(h, root, x) && AbsorbedAt(h, h', a, b, x);
    }
  }

  /** Joins the left sibling's links to the front of n's. */
  method MergeLeft(n: BPNode, q: BPNode, i: nat, ghost nodes: set<BPNode>) returns (left: BPNode)
    requires n in nodes && q in nodes && 0 < i < |q.links| && q.links[i] == ToNode(n.key, n) && q.links[i - 1].ToNode?
    requires var l := q.links[i - 1].child;
      && l in nodes && l != n && l != q && n != q && l.key == q.links[i - 1].key
      && forall k :: 0 <= k < |l.links| && l.links[k].ToNode? ==> l.links[k].child in nodes - {l, n, q}
    modifies nodes
    ensures left in nodes && left != n && Absorbed(old(Snap(nodes)), Snap(nodes - {left}), left, n, q, i - 1)
  {
    left := q.links[i - 1].child;
    Adopt(left.links, n, nodes - {left, n, q});
    n.links := left.links + n.links;
    n.lo := left.lo;
    q.links := q.links[..i - 1] + q.links[i..];
  }

  /** Joins the links of n, the first child, to the front of its right sibling's. */
  method MergeRight(n: BPNode, q: BPNode, ghost nodes: set<BPNode>) returns (right: BPNode)
    requires n in nodes && q in nodes && 1 < |q.links| && q.links[0] == ToNode(n.key, n) && q.links[1].ToNode?
    requires var r := q.links[1].child;
      && r in nodes && r != n && r != q && n != q && r.key == q.links[1].key
      && forall k :: 0 <= k < |n.links| && n.links[k].ToNode? ==> n.links[k].child in nodes - {r, n, q}
    modifies nodes
    ensures right in nodes && Absorbed(old(Snap(nodes)), Snap(nodes - {n}), n, right, q, 0)
  {
    right := q.links[1].child;
    Adopt(n.links, right, nodes - {right, n, q});
    right.links := n.links + right.links;
    right.lo := n.lo;
    q.links := q.links[1..];
  }

  /** The position of n among the links of q. */
  method Locate(q: BPNode, n: BPNode) returns (i: nat)
    requires exists k :: 0 <= k < |q.links| && q.links[k].ToNode? && q.links[k].child == n
    ensures i < |q.links| && q.links[i].ToNode? && q.links[i].child == n
  {
    i := 0;
    while !(q.links[i].ToNode? && q.links[i].child == n)
      invariant exists k :: i <= k < |q.links| && q.links[k].ToNode? && q.links[k].child == n
      decreases |q.links| - i
    {
      i := i + 1;
    }
  }

  lemma SiblingFacts(h: Heap, q: BPNode, a: BPNode, b: BPNode, i: nat)
    requires q in h && NodeOK(h[q]) && Downs(h, NoSeam) && i + 1 < |h[q].links|
    requires h[q].links[i].ToNode? && h[q].links[i].child == a
    requires h[q].links[i + 1].ToNode? && h[q].links[i + 1].child == b
    ensures a in h && b in h && a != b && a != q && b != q
    ensures h[q].links[i] == ToNode(h[a].key, a) && h[q].links[i + 1] == ToNode(h[b].key, b)
    ensures h[q].level == h[a].level + 1 == h[b].level + 1
    ensures forall k :: 0 <= k < |h[a].links| && h[a].links[k].ToNode? ==> h[a].links[k].child in h.Keys - {a, b, q}
  {
    assert ChildOK(h, q, i, NoSeam) && ChildOK(h, q, i + 1, NoSeam);
    forall k | 0 <= k < |h[a].links| && h[a].links[k].ToNode? ensures h[a].links[k].child in h.Keys - {a, b, q} {
      assert ChildOK(h, a, k, NoSeam);
    }
  }

  ghost predicate Short(t: BPTree, n: BPNode, q: BPNode)
    reads t, t.nodes
  {
    && t.Shaped() && n in t.nodes && q in t.nodes && n != q && t.Balanced({n}) && |n.links| == MINDEGREE - 1
    && n.parent == q && q.level == n.level + 1 && 1 < |q.links|
  }

  method JoinLeft(t: BPTree, n: BPNode, q: BPNode, i: nat)
    requires Short(t, n, q) && 0 < i < |q.links| && q.links[i].ToNode? && q.links[i].child == n
    modifies t`nodes, t.nodes
    ensures t.Shaped() && Merged(Snap(t.nodes), t.root, n, q)
    ensures t.nodes <= old(t.nodes) && q.level == old(q.level) && t.root.level == old(t.root.level)
  {
    ghost var h, root := Snap(t.nodes), t.root;
    SiblingKind(h, q, i - 1);
    SiblingFacts(h, q, q.links[i - 1].child, n, i - 1);
    var left := MergeLeft(n, q, i, t.nodes);
    t.nodes := t.nodes - {left};
    StepFacts(h, Snap(t.nodes), root, t.index, left, n, q, i - 1);
  }

  method JoinRight(t: BPTree, n: BPNode, q: BPNode) returns (b: BPNode)
    requires Short(t, n, q) && q.links[0].ToNode? && q.links[0].child == n
    modifies t`nodes, t.nodes
    ensures t.Shaped() && Merged(Snap(t.nodes), t.root, b, q)
    ensures t.nodes <= old(t.nodes) && q.level == old(q.level) && t.root.level == old(t.root.level)
  {
    ghost var h, root := Snap(t.nodes), t.root;
    SiblingKind(h, q, 1);
    SiblingFacts(h, q, n, q.links[1].child, 0);
    b := MergeRight(n, q, t.nodes);
    t.nodes := t.nodes - {n};
    StepFacts(h, Snap(t.nodes), root, t.index, n, b, q, 0);
  }

  lemma ShortFacts(h: Heap, root: BPNode, m: Index, n: BPNode, q: BPNode)
    requires Shape(h, root, m, NoSeam) && MergeReady(h, root, n) && n != root && h[n].parent == q
    ensures q in h && q != n && h[q].level == h[n].level + 1 && 1 < |h[q].links|
    ensures exists i :: 0 <= i < |h[q].links| && h[q].links[i].ToNode? && h[q].links[i].child == n
  {
    var j := UnderFacts(h, root, n, q);
    assert DegreeOK(h, root, q);
  }

  lemma SiblingKind(h: Heap, q: BPNode, i: nat)
    requires q in h && NodeOK(h[q]) && i < |h[q].links| && h[q].level > 0
    ensures h[q].links[i].ToNode?
  {
  }

  lemma StepFacts(h: Heap, h': Heap, root: BPNode, m: Index, a: BPNode, b: BPNode, q: BPNode, i: nat)
    requires Shape(h, root, m, NoSeam) && Absorbed(h, h', a, b, q, i)
    requires exists n :: (n == a || n == b) && Degrees(h, root, {n}) && |h[n].links| == MINDEGREE - 1
    ensures Shape(h', root, m, NoSeam) && Merged(h', root, b, q)
    ensures h'[q].level == h[q].level && h'[root].level == h[root].level
  {
    AbsorbDegrees(h, h', root, a, b, q, i);
    AbsorbShape(h, h', root, m, a, b, q, i);
    assert root == q || root == b || AbsorbedAt(h, h', a, b, root);
  }

  /** The tree after a join, and after a root left with one child has given way to it. */
  ghost predicate Joined(h: Heap, root: BPNode, b: BPNode, q: BPNode) {
    && b in h && root in h
    && 2 * MINDEGREE - 1 <= |h[b].links| <= MAXDEGREE + 3
    && (b == root ==> Degrees(h, root, {b}) && h[b].parent == null)
    && (b != root ==> Merged(h, root, b, q) && (q == root ==> 2 <= |h[q].links|))
  }

  /** Drops a root that has b as its only child. */
  method Collapse(t: BPTree, q: BPNode, b: BPNode)
    requires t.Shaped() && Merged(Snap(t.nodes), t.root, b, q)
    modifies t`root, t`nodes, t.nodes
    ensures t.Shaped() && Joined(Snap(t.nodes), t.root, b, q)
    ensures t.nodes <= old(t.nodes)
    ensures t.root == old(t.root) ==> t.root.level == old(t.root.level) && q.level == old(q.level) && q != b
    ensures t.root != old(t.root) ==> t.root == b
  {
    ghost var h := Snap(t.nodes);
    if q == t.root && |q.links| == 1 {
      RootChild(h, t.root, b, q);
      t.root := b;
      b.parent := null;
      t.nodes := t.nodes - {q};
      assert Snap(t.nodes) == (h - {q})[b := h[b].(parent := null)];
      CollapseShape(h, Snap(t.nodes), q, b, t.index);
      CollapseDegrees(h, Snap(t.nodes), q, b);
    }
  }

  lemma RootChild(h: Heap, root: BPNode, b: BPNode, q: BPNode)
    requires Merged(h, root, b, q) && Ups(h, root, NoSeam) && |h[q].links| == 1
    ensures h[q].links == [ToNode(h[b].key, b)]
  {
    assert UpOK(h, root, b, NoSeam);
  }

  lemma CollapseDegrees(h: Heap, h': Heap, q: BPNode, b: BPNode)
    requires Merged(h, q, b, q) && Collapsed(h, h', q, b)
    ensures Joined(h', b, b, q)
  {
    forall x | x in h' && x != b ensures DegreeOK(h', b, x) {
      assert DegreeOK(h, q, x);
    }
  }

  lemma JoinedSplit(h: Heap, root: BPNode, b: BPNode, q: BPNode)
    requires Joined(h, root, b, q) && |h[b].links| > MAXDEGREE
    ensures SplitReady(h, root, b)
  {
  }

  lemma JoinedMerge(h: Heap, root: BPNode, b: BPNode, q: BPNode)
    requires Joined(h, root, b, q) && |h[b].links| <= MAXDEGREE
    ensures b == root ==> Degrees(h, root, {})
    ensures b != root ==> h[b].parent == q && MergeReady(h, root, q)
  {
    if b == root {
      forall x | x in h ensures DegreeOK(h, root, x) {
      }
    } else {
      forall x | x in h && x != q ensures DegreeOK(h, root, x) {
      }
    }
  }

  lemma NothingToMerge(h: Heap, root: BPNode, n: BPNode)
    requires MergeReady(h, root, n) && (|h[n].links| >= MINDEGREE || n == root)
    ensures Degrees(h, root, {})
  {
    forall x | x in h ensures DegreeOK(h, root, x) {
    }
  }

  method Join(t: BPTree, n: BPNode, q: BPNode) returns (b: BPNode)
    requires t.Shaped() && MergeReady(Snap(t.nodes), t.root, n) && n != t.root && n.parent == q && |n.links| < MINDEGREE
    modifies t`nodes, t.nodes
    ensures t.Shaped() && Merged(Snap(t.nodes), t.root, b, q)
    ensures t.nodes <= old(t.nodes) && q.level == old(n.level) + 1 && t.root.level == old(t.root.level)
  {
    ShortFacts(Snap(t.nodes), t.root, t.index, n, q);
    var i := Locate(q, n);
    if i > 0 {
      JoinLeft(t, n, q, i);
      b := n;
    } else {
      b := JoinRight(t, n, q);
    }
  }

  /** bpmerge: joins n, when it is short of links, with a sibling and lets the split of what
      results, or the merge of its parent, travel upwards. */
  method Merge(t: BPTree, n: BPNode)
    requires t.Shaped() && MergeReady(Snap(t.nodes), t.root, n)
    modifies t`root, t`nodes, t.nodes
    ensures t.Shaped() && t.Balanced({})
    ensures fresh(t.nodes - old(t.nodes))
    decreases t.root.level - n.level
  {
    assert UpOK(Snap(t.nodes), t.root, n, NoSeam);
    if |n.links| >= MINDEGREE || n.parent == null {
      NothingToMerge(Snap(t.nodes), t.root, n);
      return;
    }
    var q := n.parent;
    var b := Join(t, n, q);
    Collapse(t, q, b);
    if |b.links| > MAXDEGREE {
      JoinedSplit(Snap(t.nodes), t.root, b, q);
      Split(t, b);
    } else {
      JoinedMerge(Snap(t.nodes), t.root, b, q);
      if b.parent != null {
        Merge(t, q);
      }
    }
  }
}
