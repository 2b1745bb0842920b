/** The B+ tree of bplus.c: nodes, values, the tree object and what makes them a search tree.

    The circular list of links inside a node is the sequence `links`; its length is the node's
    pointer count and its last element the header's predecessor; LinkRing has the ring itself.
    Every node also carries, as ghost state, its height above the leaves and the key just below its
    subtree: the subtree of n holds exactly the keys in the interval (n.lo, n.key]. */
module BPlusTree {
  import opened Tunnels

  const MINDEGREE := 4
  const MAXDEGREE := 8
  const MAXBPSIZE := 600000

  class BPValue {
    const key: nat
    const record: Tunnel
    var next: BPValue?
    var prev: BPValue?

    constructor (key: nat, record: Tunnel)
      ensures this.key == key && this.record == record && next == null && prev == null
    {
      this.key, this.record, next, prev := key, record, null, null;
    }
  }

  datatype Link = ToNode(key: nat, child: BPNode) | ToValue(key: nat, value: BPValue)

  function Rekey(l: Link, k: nat): Link {
    match l
    case ToNode(_, c) => ToNode(k, c)
    case ToValue(_, v) => ToValue(k, v)
  }

  class BPNode {
    var key: nat
    var parent: BPNode?
    var links: seq<Link>
    ghost var lo: int
    ghost var level: nat

    constructor (key: nat, links: seq<Link>, ghost lo: int, ghost level: nat)
      ensures this.key == key && this.links == links && parent == null
      ensures this.lo == lo && this.level == level
    {
      this.key, this.links, parent := key, links, null;
      this.lo, this.level := lo, level;
    }
  }

  /** The state of the nodes as a value, so that one step is a relation between two values. */
  datatype NodeState = NodeState(key: nat, parent: BPNode?, links: seq<Link>, lo: int, level: nat)

  const NO_STATE := NodeState(0, null, [], 0, 0)

  type Heap = map<BPNode, NodeState>
  type Index = map<nat, BPValue>

  ghost function Snap(nodes: set<BPNode>): (h: Heap)
    reads nodes
    ensures h.Keys == nodes
  {
    // Equal comprehensions have bodies that agree on every node: the guard makes the body a constant outside.
    map n | n in nodes ::
      if n in nodes then NodeState(n.key, n.parent, n.links, n.lo, n.level) else NO_STATE
  }

  lemma SnapAt(nodes: set<BPNode>, p: BPNode)
    requires p in nodes
    ensures Snap(nodes)[p] == NodeState(p.key, p.parent, p.links, p.lo, p.level)
  {
  }

  lemma SnapWith(nodes: set<BPNode>, p: BPNode)
    ensures Snap(nodes + {p}) == Snap(nodes)[p := Snap(nodes + {p})[p]]
  {
  }

  /** A half-finished change of a subtree boundary: the link above `kb` still says kv, and
      `lb`, whose lower bound should be lv, still has its own. */
  datatype Seam = Seam(kb: BPNode?, kv: nat, lb: BPNode?, lv: int)

  const NoSeam := Seam(null, 0, null, 0)

  ghost function LinkKey(h: Heap, c: BPNode, s: Seam): nat
    requires c in h
  {
    if c == s.kb then s.kv else h[c].key
  }

  ghost function Low(h: Heap, c: BPNode, s: Seam): int
    requires c in h
  {
    if c == s.lb then s.lv else h[c].lo
  }

  ghost predicate Sorted(ls: seq<Link>) {
    forall i, j :: 0 <= i < j < |ls| ==> ls[i].key < ls[j].key
  }

  lemma SortedLe(ls: seq<Link>, i: int, j: int)
    requires Sorted(ls)
    ensures 0 <= i <= j < |ls| ==> ls[i].key <= ls[j].key
  {
  }

  lemma SortedApart(ls: seq<Link>, i: int, j: int)
    requires Sorted(ls)
    ensures 0 <= i < |ls| && 0 <= j < |ls| && i != j ==> ls[i].key != ls[j].key
  {
  }

  ghost predicate NodeOK(n: NodeState) {
    && |n.links| >= 1
    && n.lo < n.links[0].key
    && n.key == n.links[|n.links| - 1].key
    && Sorted(n.links)
    && forall i :: 0 <= i < |n.links| ==> (n.links[i].ToValue? <==> n.level == 0)
  }

  /** A leaf links exactly the indexed values of its interval. */
  ghost predicate LeafOK(n: NodeState, m: Index) {
    n.level == 0 ==>
      && (forall i :: 0 <= i < |n.links| && n.links[i].ToValue? ==>
            n.links[i].key in m && m[n.links[i].key] == n.links[i].value)
      && (forall k :: k in m && n.lo < k <= n.key ==> ToValue(k, m[k]) in n.links)
  }

  ghost predicate ChildOK(h: Heap, n: BPNode, i: nat, s: Seam)
    requires n in h && i < |h[n].links|
  {
    h[n].links[i].ToNode? ==>
      var c := h[n].links[i].child;
      && c in h
      && h[c].parent == n
      && h[c].level + 1 == h[n].level
      && LinkKey(h, c, s) == h[n].links[i].key
      && Low(h, c, s) == if i == 0 then h[n].lo else h[n].links[i - 1].key
  }

  ghost predicate UpOK(h: Heap, root: BPNode, n: BPNode, s: Seam)
    requires root in h && n in h
  {
    && h[n].level <= h[root].level
    && (h[n].level == h[root].level ==> n == root)
    && (n == root ==> h[n].parent == null)
    && (n != root ==>
          && h[n].parent != null
          && h[n].parent in h
          && ToNode(LinkKey(h, n, s), n) in h[h[n].parent].links)
  }

  ghost predicate Nodes(h: Heap) {
    forall n {:trigger NodeOK(h[n])} :: n in h ==> NodeOK(h[n])
  }

  ghost predicate Leaves(h: Heap, m: Index) {
    forall n {:trigger LeafOK(h[n], m)} :: n in h ==> LeafOK(h[n], m)
  }

  ghost predicate Ups(h: Heap, root: BPNode, s: Seam)
    requires root in h
  {
    forall n {:trigger UpOK(h, root, n, s)} :: n in h ==> UpOK(h, root, n, s)
  }

  ghost predicate Downs(h: Heap, s: Seam) {
    forall n, i {:trigger ChildOK(h, n, i, s)} :: n in h && 0 <= i < |h[n].links| ==> ChildOK(h, n, i, s)
  }

  ghost predicate Keyed(m: Index, top: nat) {
    forall k {:trigger m[k]} :: k in m ==> k <= top && m[k].key == k
  }

  /** The nodes of h form a search tree below root that indexes m. */
  ghost predicate Shape(h: Heap, root: BPNode, m: Index, s: Seam) {
    && root in h
    && h[root].lo == -1
    && Nodes(h)
    && Leaves(h, m)
    && Ups(h, root, s)
    && Downs(h, s)
    && Keyed(m, h[root].key)
  }

  /** 4 to 8 links in every node, except that an internal root needs only 2 and a leaf root 1;
      the nodes of `ex` may be out of range. */
  ghost predicate Degrees(h: Heap, root: BPNode, ex: set<BPNode>) {
    forall n {:trigger DegreeOK(h, root, n)} :: n in h && n !in ex ==> DegreeOK(h, root, n)
  }

  ghost predicate DegreeOK(h: Heap, root: BPNode, n: BPNode)
    requires n in h
  {
    && |h[n].links| <= MAXDEGREE
    && (n != root ==> MINDEGREE <= |h[n].links|)
    && (n == root && h[n].level > 0 ==> 2 <= |h[n].links|)
  }

  ghost predicate Ascending(chain: seq<BPValue>) {
    forall i, j {:trigger Before(chain, i, j)} :: 0 <= i < j < |chain| ==> Before(chain, i, j)
  }

  ghost predicate Before(chain: seq<BPValue>, i: int, j: int) {
    0 <= i < |chain| && 0 <= j < |chain| && chain[i].key < chain[j].key
  }

  ghost predicate ListedAt(chain: seq<BPValue>, m: Index, i: nat)
    requires i < |chain|
  {
    chain[i].key in m && m[chain[i].key] == chain[i]
  }

  ghost predicate FoundIn(chain: seq<BPValue>, m: Index, k: nat)
    requires k in m
  {
    m[k] in chain && m[k].key == k
  }

  /** The chain is in key order and has exactly the indexed values. */
  ghost predicate Listing(chain: seq<BPValue>, m: Index) {
    && Ascending(chain)
    && (forall i {:trigger ListedAt(chain, m, i)} :: 0 <= i < |chain| ==> ListedAt(chain, m, i))
    && (forall k {:trigger FoundIn(chain, m, k)} :: k in m ==> FoundIn(chain, m, k))
  }

  ghost predicate Chained(header: BPValue?, chain: seq<BPValue>)
    reads chain
  {
    && header == (if chain == [] then null else chain[0])
    && (forall i {:trigger LinkedAt(chain, i)} :: 0 <= i < |chain| ==> LinkedAt(chain, i))
  }

  ghost predicate LinkedAt(chain: seq<BPValue>, i: nat)
    requires i < |chain|
    reads chain[i]
  {
    && chain[i].next == (if i + 1 < |chain| then chain[i + 1] else null)
    && chain[i].prev == (if 0 < i then chain[i - 1] else null)
  }

  class BPTree {
    var root: BPNode?
    var header: BPValue?
    var size: nat
    ghost var nodes: set<BPNode>
    ghost var index: Index
    ghost var chain: seq<BPValue>
    ghost var values: set<BPValue>

    ghost predicate Shaped()
      reads this, nodes
    {
      root != null && Shape(Snap(nodes), root, index, NoSeam)
    }

    ghost predicate Balanced(ex: set<BPNode>)
      reads this, nodes
    {
      root != null && Degrees(Snap(nodes), root, ex)
    }

    /** The chain lists the index; its values are among `values`. */
    ghost predicate Listed()
      reads this, values
    {
      && (forall i :: 0 <= i < |chain| ==> chain[i] in values)
      && Listing(chain, index)
      && Chained(header, chain)
    }

    ghost predicate Valid()
      reads this, nodes, values
    {
      && Listed()
      && size == |chain| <= MAXBPSIZE
      && (if root == null then nodes == {} && index == map[] else Shaped() && Balanced({}) && header != null)
    }

    /** An empty tree. */
    constructor ()
      ensures Valid() && index == map[] && nodes == {} && values == {}
    {
      root, header, size := null, null, 0;
      nodes, index, chain, values := {}, map[], [], {};
    }
  }

  ghost predicate InSpan(n: NodeState, k: int) {
    n.lo < k <= n.key
  }

  /** The spans of the children of n tile the span of n. */
  lemma ChildSpan(h: Heap, n: BPNode, i: nat, k: int)
    requires n in h && NodeOK(h[n]) && Downs(h, NoSeam)
    requires i < |h[n].links| && h[n].links[i].ToNode?
    requires h[n].links[i].child in h && InSpan(h[h[n].links[i].child], k)
    ensures InSpan(h[n], k)
  {
    assert ChildOK(h, n, i, NoSeam);
    SortedLe(h[n].links, i, |h[n].links| - 1);
    SortedLe(h[n].links, 0, i - 1);
  }

  /** The link by which a node hangs below its parent, whose span holds the node's. */
  lemma UpLink(h: Heap, root: BPNode, m: Index, x: BPNode, k: int) returns (i: nat)
    requires Shape(h, root, m, NoSeam) && x in h && h[x].level != h[root].level && InSpan(h[x], k)
    ensures var p := h[x].parent; p in h && h[p].level == h[x].level + 1 && h[p].level <= h[root].level
    ensures var p := h[x].parent; i < |h[p].links| && h[p].links[i] == ToNode(h[x].key, x) && InSpan(h[p], k)
  {
    assert UpOK(h, root, x, NoSeam) && UpOK(h, root, root, NoSeam);
    var p := h[x].parent;
    i :| 0 <= i < |h[p].links| && h[p].links[i] == ToNode(h[x].key, x);
    assert ChildOK(h, p, i, NoSeam) && NodeOK(h[p]) && UpOK(h, root, p, NoSeam);
    ChildSpan(h, p, i, k);
  }

  lemma OneChildSpans(h: Heap, p: BPNode, i: nat, j: nat, x: BPNode, y: BPNode, k: int)
    requires p in h && x in h && y in h && Downs(h, NoSeam) && Sorted(h[p].links)
    requires i < |h[p].links| && h[p].links[i] == ToNode(h[x].key, x) && InSpan(h[x], k)
    requires j < |h[p].links| && h[p].links[j] == ToNode(h[y].key, y) && InSpan(h[y], k)
    ensures x == y
  {
    assert ChildOK(h, p, i, NoSeam) && ChildOK(h, p, j, NoSeam);
    SortedLe(h[p].links, i, j - 1);
    SortedLe(h[p].links, j, i - 1);
  }

  /** At most one node of each level spans a key. */
  lemma {:induction false} SpanUnique(h: Heap, root: BPNode, m: Index, x: BPNode, y: BPNode, k: int)
    requires Shape(h, root, m, NoSeam)
    requires x in h && y in h && h[x].level == h[y].level
    requires InSpan(h[x], k) && InSpan(h[y], k)
    ensures x == y
    decreases h[root].level - h[x].level
  {
    if h[x].level == h[root].level {
      assert UpOK(h, root, x, NoSeam) && UpOK(h, root, y, NoSeam);
    } else {
      var i := UpLink(h, root, m, x, k);
      var j := UpLink(h, root, m, y, k);
      var p, q := h[x].parent, h[y].parent;
      SpanUnique(h, root, m, p, q, k);
      assert NodeOK(h[p]);
      OneChildSpans(h, p, i, j, x, y, k);
    }
  }

  lemma ChildrenIn(h: Heap, n: BPNode)
    requires n in h && Downs(h, NoSeam)
    ensures forall i :: 0 <= i < |h[n].links| && h[n].links[i].ToNode? ==> h[n].links[i].child in h.Keys - {n}
  {
    forall i | 0 <= i < |h[n].links| && h[n].links[i].ToNode? ensures h[n].links[i].child in h.Keys - {n} {
      assert ChildOK(h, n, i, NoSeam);
    }
  }

  /** Sets the parent of every child on the list ls to p. */
  method Adopt(ls: seq<Link>, p: BPNode, ghost nodes: set<BPNode>)
    requires forall i :: 0 <= i < |ls| && ls[i].ToNode? ==> ls[i].child in nodes
    modifies nodes`parent
    ensures forall n :: n in nodes ==> n.parent == if IsBelow(ls, n) then p else old(n.parent)
  {
    for i := 0 to |ls|
      invariant forall n :: n in nodes ==> n.parent == if IsBelow(ls[..i], n) then p else old(n.parent)
    {
      assert ls[..i + 1] == ls[..i] + [ls[i]];
      match ls[i]
      case ToNode(_, c) =>
        c.parent := p;
        assert ls[..i + 1][i].child == c;
      case ToValue(_, _) =>
    }
    assert ls[..|ls|] == ls;
  }

  /** Writes the links and the key of n. */
  method Relink(n: BPNode, links: seq<Link>, key: nat, ghost nodes: set<BPNode>)
    requires n in nodes
    modifies n`links, n`key
    ensures Snap(nodes) == old(Snap(nodes))[n := old(Snap(nodes)[n]).(links := links, key := key)]
  {
    n.links := links;
    n.key := key;
  }

  ghost predicate IsBelow(ls: seq<Link>, n: BPNode) {
    exists i :: 0 <= i < |ls| && ls[i].ToNode? && ls[i].child == n
  }

  /** The first link of n whose key is not below k. */
  method FindLink(n: BPNode, k: nat) returns (i: nat)
    requires |n.links| >= 1 && k <= n.links[|n.links| - 1].key
    ensures i < |n.links| && k <= n.links[i].key
    ensures forall j :: 0 <= j < i ==> n.links[j].key < k
  {
    i := 0;
    while n.links[i].key < k
      invariant i < |n.links|
      invariant forall j :: 0 <= j < i ==> n.links[j].key < k
      decreases |n.links| - i
    {
      i := i + 1;
    }
  }
}
