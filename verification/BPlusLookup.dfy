/** Searching the B+ tree, its height and what the height says about its size: _bpsearch and
    bpheight of bplus.c. */
module BPlusLookup {
  import opened Tunnels
  import opened Arith
  import opened BPlusTree
  import opened BPlusChain

  /** The child that a search for k goes to spans k. */
  lemma ChildSpans(h: Heap, n: BPNode, i: nat, k: nat)
    requires n in h && NodeOK(h[n]) && Downs(h, NoSeam) && InSpan(h[n], k) && h[n].level > 0
    requires i < |h[n].links| && k <= h[n].links[i].key && forall j :: 0 <= j < i ==> h[n].links[j].key < k
    ensures h[n].links[i].ToNode? && h[n].links[i].child in h
    ensures InSpan(h[h[n].links[i].child], k) && h[h[n].links[i].child].level + 1 == h[n].level
  {
    assert ChildOK(h, n, i, NoSeam);
  }

  /** The leaf whose span has k. */
  method FindLeaf(t: BPTree, k: nat) returns (n: BPNode)
    requires t.Shaped() && k <= t.root.key
    ensures n in t.nodes && n.level == 0 && InSpan(Snap(t.nodes)[n], k)
  {
    ghost var h := Snap(t.nodes);
    n := t.root;
    assert NodeOK(h[n]);
    while n.links[0].ToNode?
      invariant n in t.nodes && NodeOK(h[n]) && InSpan(h[n], k)
      decreases n.level
    {
      var i := FindLink(n, k);
      ChildSpans(h, n, i, k);
      n := n.links[i].child;
      assert NodeOK(h[n]);
    }
  }

  /** A leaf that spans k links k exactly when k is indexed, at the first link not below k. */
  lemma LeafLink(n: NodeState, m: Index, i: nat, k: nat)
    requires NodeOK(n) && LeafOK(n, m) && n.level == 0 && InSpan(n, k)
    requires i < |n.links| && k <= n.links[i].key && forall j :: 0 <= j < i ==> n.links[j].key < k
    ensures n.links[i].ToValue?
    ensures k in m <==> n.links[i].key == k
    ensures k in m ==> n.links[i].value == m[k]
  {
    if k in m {
      var j :| 0 <= j < |n.links| && n.links[j] == ToValue(k, m[k]);
      SortedLe(n.links, i, j);
    }
  }

  /** bpsearch: the record indexed under k, if any. */
  method Search(t: BPTree, k: nat) returns (record: Tunnel?)
    requires t.Valid()
    ensures record == if k in t.index then t.index[k].record else null
  {
    if t.root == null || t.header == null {
      return null;
    }
    if k > t.root.key {
      return null;
    }
    ghost var h := Snap(t.nodes);
    var n := FindLeaf(t, k);
    assert NodeOK(h[n]) && LeafOK(h[n], t.index);
    var i := FindLink(n, k);
    LeafLink(h[n], t.index, i, k);
    if n.links[i].key == k {
      return n.links[i].value.record;
    }
    return null;
  }

  /** The key of every node is the key of a value. */
  lemma {:induction false} KeyIndexed(h: Heap, root: BPNode, m: Index, x: BPNode)
    requires Shape(h, root, m, NoSeam) && x in h
    ensures h[x].key in m
    decreases h[x].level
  {
    var last := |h[x].links| - 1;
    assert NodeOK(h[x]) && LeafOK(h[x], m) && ChildOK(h, x, last, NoSeam);
    if h[x].level > 0 {
      KeyIndexed(h, root, m, h[x].links[last].child);
    }
  }

  /** No node has a key above the root's. */
  lemma {:induction false} KeyBelowRoot(h: Heap, root: BPNode, m: Index, x: BPNode)
    requires Shape(h, root, m, NoSeam) && x in h
    ensures InSpan(h[root], h[x].key)
    decreases h[root].level - h[x].level
  {
    SpanClimb(h, root, m, x, h[x].key);
  }

  lemma {:induction false} SpanClimb(h: Heap, root: BPNode, m: Index, x: BPNode, k: int)
    requires Shape(h, root, m, NoSeam) && x in h
    requires InSpan(h[x], k) || (k == h[x].key && NodeOK(h[x]))
    ensures InSpan(h[root], k)
    decreases h[root].level - h[x].level
  {
    assert UpOK(h, root, x, NoSeam) && NodeOK(h[x]);
    SortedLe(h[x].links, 0, |h[x].links| - 1);
    if x != root {
      var p := h[x].parent;
      var i :| 0 <= i < |h[p].links| && h[p].links[i] == ToNode(h[x].key, x);
      assert NodeOK(h[p]) && ChildOK(h, p, i, NoSeam) && UpOK(h, root, p, NoSeam);
      ChildSpan(h, p, i, k);
      SpanClimb(h, root, m, p, k);
    }
  }

  /** bpheight: the number of levels. */
  method Height(t: BPTree) returns (i: nat)
    requires t.Valid()
    ensures i == if t.root == null then 0 else t.root.level + 1
    ensures i > 0 ==> |t.index| >= 1
    ensures i > 1 ==> |t.index| >= 2 * Pow4(i - 1)
    ensures i <= 10
  {
    i := 0;
    if t.root == null || t.header == null {
      return;
    }
    ghost var h := Snap(t.nodes);
    var cur := t.root;
    assert NodeOK(h[cur]);
    while true
      invariant cur in t.nodes && NodeOK(h[cur]) && i + cur.level == t.root.level
      decreases cur.level
    {
      i := i + 1;
      if cur.links[0].ToValue? {
        break;
      }
      assert ChildOK(h, cur, 0, NoSeam);
      cur := cur.links[0].child;
      assert NodeOK(h[cur]);
    }
    RootCount(h, t.root, t.index);
    ListingSize(t.chain, t.index);
    if i > 10 {
      Pow4Grows(10, i - 1);
    }
  }

  function Pow4(n: nat): (r: nat)
    ensures r >= 1
  {
    if n == 0 then 1 else 4 * Pow4(n - 1)
  }

  lemma {:induction false} Pow4Grows(a: nat, b: nat)
    requires a <= b
    ensures Pow4(a) <= Pow4(b)
    decreases b - a
  {
    if a < b { Pow4Grows(a, b - 1); }
  }

  ghost function KeysIn(m: Index, lo: int, hi: int): set<nat> {
    set k | k in m && lo < k <= hi
  }

  lemma KeysSplit(m: Index, lo: int, mid: int, hi: int)
    requires lo <= mid <= hi
    ensures |KeysIn(m, lo, hi)| == |KeysIn(m, lo, mid)| + |KeysIn(m, mid, hi)|
  {
    assert KeysIn(m, lo, hi) == KeysIn(m, lo, mid) + KeysIn(m, mid, hi);
    assert KeysIn(m, lo, mid) !! KeysIn(m, mid, hi);
  }

  /** The part of the span of n that its link j covers starts here. */
  ghost function LinkLow(n: NodeState, j: nat): int
    requires j < |n.links|
  {
    if j == 0 then n.lo else n.links[j - 1].key
  }

  /** The first j subtrees of n hold at least j times what each of them must hold. */
  lemma {:induction false} CountPrefix(h: Heap, root: BPNode, m: Index, n: BPNode, j: nat)
    requires Shape(h, root, m, NoSeam) && Degrees(h, root, {}) && n in h && 1 <= j <= |h[n].links|
    ensures |KeysIn(m, h[n].lo, h[n].links[j - 1].key)| >= j * Pow4(h[n].level)
    ensures h[n].lo <= h[n].links[j - 1].key
    decreases h[n].level, 1, j
  {
    assert NodeOK(h[n]);
    var lo, hi := LinkLow(h[n], j - 1), h[n].links[j - 1].key;
    CountLink(h, root, m, n, j - 1);
    if j > 1 {
      CountPrefix(h, root, m, n, j - 1);
      KeysSplit(m, h[n].lo, lo, hi);
      assert j * Pow4(h[n].level) == (j - 1) * Pow4(h[n].level) + Pow4(h[n].level);
    }
  }

  lemma {:induction false} CountLink(h: Heap, root: BPNode, m: Index, n: BPNode, j: nat)
    requires Shape(h, root, m, NoSeam) && Degrees(h, root, {}) && n in h && j < |h[n].links|
    ensures |KeysIn(m, LinkLow(h[n], j), h[n].links[j].key)| >= Pow4(h[n].level)
    ensures LinkLow(h[n], j) < h[n].links[j].key
    decreases h[n].level, 0
  {
    assert NodeOK(h[n]) && LeafOK(h[n], m) && ChildOK(h, n, j, NoSeam) && UpOK(h, root, n, NoSeam);
    var lo, hi := LinkLow(h[n], j), h[n].links[j].key;
    SortedLe(h[n].links, j - 1, j);
    if h[n].level == 0 {
      Subset({hi}, KeysIn(m, lo, hi));
    } else {
      CountNode(h, root, m, h[n].links[j].child);
    }
  }

  lemma {:induction false} CountNode(h: Heap, root: BPNode, m: Index, n: BPNode)
    requires Shape(h, root, m, NoSeam) && Degrees(h, root, {}) && n in h && n != root
    ensures |KeysIn(m, h[n].lo, h[n].key)| >= Pow4(h[n].level + 1)
    decreases h[n].level, 2
  {
    assert NodeOK(h[n]) && DegreeOK(h, root, n);
    CountPrefix(h, root, m, n, |h[n].links|);
  }

  /** A tree of more than one level has at least 2 * 4^(levels - 1) values. */
  lemma RootCount(h: Heap, root: BPNode, m: Index)
    requires Shape(h, root, m, NoSeam) && Degrees(h, root, {})
    ensures |m| >= 1
    ensures h[root].level > 0 ==> |m| >= 2 * Pow4(h[root].level)
  {
    assert NodeOK(h[root]) && DegreeOK(h, root, root);
    var d, p := |h[root].links|, Pow4(h[root].level);
    CountPrefix(h, root, m, root, d);
    Subset(KeysIn(m, -1, h[root].key), m.Keys);
    assert d * p >= (if h[root].level > 0 then 2 else 1) * p;
  }
}
