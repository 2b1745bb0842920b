/** The circular list of links inside a node of the B+ tree: BPInternalLinkNode of bplus.c with the ring
    surgery of bpsplit, bpmerge, _bpinsert and _bpdelete.  The links of a ring, in order, are the
    sequence that a node of BPlusTree has as `links`; each operation here is proved to change it to
    the slices that the tree's own operations assign. */
module LinkRing {
  import opened BPlusTree

  class RingNode {
    var link: Link
    var next: RingNode
    var prev: RingNode

    constructor (link: Link)
      ensures this.link == link && next == this && prev == this
    {
      this.link, next, prev := link, this, this;
    }
  }

  function Succ(i: nat, n: nat): (j: nat)
    requires i < n
    ensures j < n
  {
    if i + 1 < n then i + 1 else 0
  }

  ghost predicate RingAt(ns: seq<RingNode>, i: nat)
    requires i < |ns|
    reads ns[i]
  {
    ns[i].next == ns[Succ(i, |ns|)] && ns[i].prev == ns[Pred(i, |ns|)]
  }

  ghost predicate AllDistinct(ns: seq<RingNode>) {
    forall i, j :: 0 <= i < j < |ns| ==> ns[i] != ns[j]
  }

  /** Nodes at different positions are different objects. */
  lemma Apart(ns: seq<RingNode>, i: int, j: int)
    requires AllDistinct(ns)
    ensures 0 <= i < |ns| && 0 <= j < |ns| && i != j ==> ns[i] != ns[j]
  {
  }

  lemma DistinctParts(ns: seq<RingNode>, n: nat)
    requires AllDistinct(ns) && n <= |ns|
    ensures AllDistinct(ns[..n]) && AllDistinct(ns[n..])
  {
  }

  /** No node is in both lists. */
  ghost predicate Disjoint(a: seq<RingNode>, b: seq<RingNode>) {
    forall i, j :: 0 <= i < |a| && 0 <= j < |b| ==> a[i] != b[j]
  }

  lemma DistinctJoin(a: seq<RingNode>, b: seq<RingNode>)
    requires AllDistinct(a) && AllDistinct(b) && Disjoint(a, b)
    ensures AllDistinct(a + b)
  {
  }

  lemma ApartIn(a: seq<RingNode>, b: seq<RingNode>, i: int, j: int)
    requires Disjoint(a, b)
    ensures 0 <= i < |a| && 0 <= j < |b| ==> a[i] != b[j]
  {
  }

  ghost function Inserted(ns: seq<RingNode>, i: nat, p: RingNode): seq<RingNode>
    requires i <= |ns|
  {
    seq(|ns| + 1, j requires 0 <= j <= |ns| => if j < i then ns[j] else if j == i then p else ns[j - 1])
  }

  lemma InsertedIs(ns: seq<RingNode>, i: nat, p: RingNode)
    requires i <= |ns| && AllDistinct(ns) && p !in ns
    ensures var ms := Inserted(ns, i, p); |ms| == |ns| + 1 && ms[i] == p && AllDistinct(ms)
    ensures forall j :: 0 <= j < i ==> Inserted(ns, i, p)[j] == ns[j]
    ensures forall j :: i < j <= |ns| ==> Inserted(ns, i, p)[j] == ns[j - 1]
  {
  }

  function Pred(i: nat, n: nat): (j: nat)
    requires i < n
    ensures j < n
  {
    if i == 0 then n - 1 else i - 1
  }

  lemma Neighbours(i: nat, n: nat)
    requires i < n
    ensures 1 < n ==> Succ(i, n) != i && Pred(i, n) != i
  {
  }

  /** Next and prev lead round ns, both ways. */
  ghost predicate Ring(ns: seq<RingNode>)
    reads ns
  {
    AllDistinct(ns) && forall i {:trigger RingAt(ns, i)} :: 0 <= i < |ns| ==> RingAt(ns, i)
  }

  ghost function LinksOf(ns: seq<RingNode>): (ls: seq<Link>)
    reads ns
    ensures |ls| == |ns| && forall i :: 0 <= i < |ns| ==> ls[i] == ns[i].link
  {
    seq(|ns|, i requires 0 <= i < |ns| reads ns => ns[i].link)
  }

  lemma Ends(ns: seq<RingNode>)
    requires ns != [] && Ring(ns)
    ensures ns[0].prev == ns[|ns| - 1]
  {
    assert RingAt(ns, 0);
  }

  /** The position that a new node at i comes in front of. */
  function Place(i: nat, n: nat): (j: nat)
    requires i <= n && 0 < n
    ensures j < n
  {
    if i < n then i else 0
  }

  ghost predicate LinkedButAt(ns: seq<RingNode>, a: int, x: RingNode, b: int, y: RingNode, l: nat)
    requires l < |ns|
    reads ns[l]
  {
    && ns[l].next == (if l == a then x else ns[Succ(l, |ns|)])
    && ns[l].prev == (if l == b then y else ns[Pred(l, |ns|)])
  }

  /** Next and prev of the nodes of ns, except that next of node a and prev of node b lead to x and y. */
  ghost predicate LinkedBut(ns: seq<RingNode>, a: int, x: RingNode, b: int, y: RingNode)
    reads ns
  {
    forall l {:trigger LinkedButAt(ns, a, x, b, y, l)} :: 0 <= l < |ns| ==> LinkedButAt(ns, a, x, b, y, l)
  }

  lemma SplicedAt(ns: seq<RingNode>, i: nat, p: RingNode, j: nat)
    requires ns != [] && i <= |ns| && AllDistinct(ns) && p !in ns && j <= |ns|
    requires LinkedBut(ns, Pred(Place(i, |ns|), |ns|), p, Place(i, |ns|), p)
    requires p.next == ns[Place(i, |ns|)] && p.prev == ns[Pred(Place(i, |ns|), |ns|)]
    ensures RingAt(Inserted(ns, i, p), j)
  {
    hide AllDistinct, Inserted;
    InsertedIs(ns, i, p);
    var k := Place(i, |ns|);
    assert j != i ==> LinkedButAt(ns, Pred(k, |ns|), p, k, p, if j < i then j else j - 1);
  }

  ghost function Removed(ns: seq<RingNode>, i: nat): seq<RingNode>
    requires i < |ns|
  {
    seq(|ns| - 1, j requires 0 <= j < |ns| - 1 => if j < i then ns[j] else ns[j + 1])
  }

  lemma RemovedIs(ns: seq<RingNode>, i: nat)
    requires i < |ns| && AllDistinct(ns)
    ensures var ms := Removed(ns, i); |ms| == |ns| - 1 && AllDistinct(ms)
    ensures forall j :: 0 <= j < i ==> Removed(ns, i)[j] == ns[j]
    ensures forall j :: i <= j < |ns| - 1 ==> Removed(ns, i)[j] == ns[j + 1]
  {
  }

  lemma UnlinkedAt(ns: seq<RingNode>, i: nat, j: nat)
    requires 1 < |ns| && i < |ns| && AllDistinct(ns) && j < |ns| - 1
    requires LinkedBut(ns, Pred(i, |ns|), ns[Succ(i, |ns|)], Succ(i, |ns|), ns[Pred(i, |ns|)])
    ensures RingAt(Removed(ns, i), j)
  {
    hide AllDistinct, Removed;
    RemovedIs(ns, i);
    var k := if j < i then j else j + 1;
    assert LinkedButAt(ns, Pred(i, |ns|), ns[Succ(i, |ns|)], Succ(i, |ns|), ns[Pred(i, |ns|)], k);
  }

  ghost predicate CutPlace(ns: seq<RingNode>, n: nat, l: nat)
    requires 0 < n < |ns| && l < |ns|
    reads ns[l]
  {
    && ns[l].next == (if l == n - 1 then ns[0] else if l == |ns| - 1 then ns[n] else ns[l + 1])
    && ns[l].prev == (if l == 0 then ns[n - 1] else if l == n then ns[|ns| - 1] else ns[l - 1])
  }

  /** The first n nodes lead round among themselves, and so do the others. */
  ghost predicate CutAt(ns: seq<RingNode>, n: nat)
    requires 0 < n < |ns|
    reads ns
  {
    forall l {:trigger CutPlace(ns, n, l)} :: 0 <= l < |ns| ==> CutPlace(ns, n, l)
  }

  lemma CutRings(ns: seq<RingNode>, n: nat)
    requires 0 < n < |ns| && AllDistinct(ns) && CutAt(ns, n)
    ensures Ring(ns[..n]) && Ring(ns[n..])
  {
    DistinctParts(ns, n);
    hide AllDistinct;
    forall j: nat | j < n ensures RingAt(ns[..n], j) {
      assert CutPlace(ns, n, j);
    }
    forall j: nat | j < |ns| - n ensures RingAt(ns[n..], j) {
      assert CutPlace(ns, n, n + j);
    }
  }

  ghost predicate JoinedAt(a: seq<RingNode>, before: RingNode, after: RingNode, l: nat)
    requires l < |a|
    reads a[l]
  {
    && a[l].next == (if l == |a| - 1 then after else a[l + 1])
    && a[l].prev == (if l == 0 then before else a[l - 1])
  }

  /** Next and prev of the nodes of a, as part of a larger ring. */
  ghost predicate JoinedTo(a: seq<RingNode>, before: RingNode, after: RingNode)
    reads a
  {
    forall l {:trigger JoinedAt(a, before, after, l)} :: 0 <= l < |a| ==> JoinedAt(a, before, after, l)
  }

  lemma JoinRing(a: seq<RingNode>, b: seq<RingNode>)
    requires a != [] && b != [] && AllDistinct(a) && AllDistinct(b) && Disjoint(a, b)
    requires JoinedTo(a, b[|b| - 1], b[0]) && JoinedTo(b, a[|a| - 1], a[0])
    ensures Ring(a + b)
  {
    DistinctJoin(a, b);
    hide AllDistinct, Disjoint;
    forall j: nat | j < |a + b| ensures RingAt(a + b, j) {
      assert j < |a| ==> JoinedAt(a, b[|b| - 1], b[0], j);
      assert j >= |a| ==> JoinedAt(b, a[|a| - 1], a[0], j - |a|);
    }
  }

  /** The fields interLinkHeader and pointerNum of a node. */
  class LinkList {
    var header: RingNode
    var pointerNum: int
    ghost var nodes: seq<RingNode>

    ghost predicate Valid()
      reads this, nodes
    {
      nodes != [] && header == nodes[0] && pointerNum == |nodes| && Ring(nodes)
    }

    ghost function Links(): seq<Link>
      reads this, nodes
    {
      LinksOf(nodes)
    }

    /** The only link of a first leaf. */
    constructor (link: Link)
      ensures Valid() && Links() == [link] && fresh(nodes)
    {
      var p := new RingNode(link);
      header, pointerNum, nodes := p, 1, [p];
      new;
      assert RingAt([p], 0);
    }

    /** The two links of a new root. */
    constructor Pair(first: Link, second: Link)
      ensures Valid() && Links() == [first, second] && fresh(nodes)
    {
      header := new RingNode(first);
      var other := new RingNode(second);
      pointerNum, nodes := 2, [header, other];
      new;
      header.next, header.prev, other.prev, other.next := other, other, header, header;
      assert RingAt(nodes, 0) && RingAt(nodes, 1);
    }

    /** The part that bpsplit cuts off. */
    constructor Half(header: RingNode, pointerNum: nat, ghost nodes: seq<RingNode>)
      ensures this.header == header && this.pointerNum == pointerNum && this.nodes == nodes
    {
      this.header, this.pointerNum, this.nodes := header, pointerNum, nodes;
    }

    /** The first link whose key is not below k: the walk of search, insert, delete and split. */
    method Find(k: nat) returns (p: RingNode, ghost i: nat)
      requires Valid() && exists j :: 0 <= j < |nodes| && nodes[j].link.key >= k
      ensures i < |nodes| && p == nodes[i] && p.link.key >= k && forall j :: 0 <= j < i ==> nodes[j].link.key < k
    {
      p, i := header, 0;
      ghost var j :| 0 <= j < |nodes| && nodes[j].link.key >= k;
      while p.link.key < k
        invariant i <= j && p == nodes[i] && forall l :: 0 <= l < i ==> nodes[l].link.key < k
        decreases |nodes| - i
      {
        assert RingAt(nodes, i);
        p := p.next;
        i := i + 1;
      }
    }

    /** The four assignments that put p in front of q. */
    method PutBefore(q: RingNode, p: RingNode, ghost k: nat)
      requires Ring(nodes) && k < |nodes| && q == nodes[k] && p !in nodes
      modifies nodes`next, nodes`prev, p`next, p`prev
      ensures LinkedBut(nodes, Pred(k, |nodes|), p, k, p) && p.next == nodes[k] && p.prev == nodes[Pred(k, |nodes|)]
    {
      hide AllDistinct;
      assert RingAt(nodes, k) && RingAt(nodes, Pred(k, |nodes|));
      p.next := q.prev.next;
      p.prev := q.prev;
      q.prev.next := p;
      q.prev := p;
      forall l: nat | l < |nodes| ensures LinkedButAt(nodes, Pred(k, |nodes|), p, k, p, l) {
        assert old(RingAt(nodes, l));
        Apart(nodes, l, k);
        Apart(nodes, l, Pred(k, |nodes|));
      }
    }

    /** A new link in front of the i-th; with i == |nodes| behind all others, which is in front of the header
        without moving it. */
    method Splice(q: RingNode, link: Link, ghost i: nat) returns (p: RingNode)
      requires Valid() && i <= |nodes| && q == nodes[Place(i, |nodes|)]
      modifies this`pointerNum, this`nodes, nodes`next, nodes`prev
      ensures nodes == Inserted(old(nodes), i, p) && Ring(nodes) && pointerNum == |nodes| && fresh(p) && p.link == link
    {
      hide AllDistinct, Inserted, LinkedBut;
      ghost var was := nodes;
      p := new RingNode(link);
      PutBefore(q, p, Place(i, |nodes|));
      pointerNum := pointerNum + 1;
      nodes := Inserted(was, i, p);
      InsertedIs(was, i, p);
      forall j: nat | j < |nodes| ensures RingAt(nodes, j) {
        SplicedAt(was, i, p, j);
      }
    }

    lemma InsertedLinks(was: seq<RingNode>, before: seq<Link>, i: nat, p: RingNode)
      requires i <= |was| && nodes == Inserted(was, i, p) && |before| == |was|
      requires forall l :: 0 <= l < |was| ==> was[l].link == before[l]
      ensures Links() == before[..i] + [p.link] + before[i..]
    {
      forall j | 0 <= j < |nodes| ensures Links()[j] == (before[..i] + [p.link] + before[i..])[j] {
        assert nodes[j] == if j < i then was[j] else if j == i then p else was[j - 1];
      }
    }

    /** The new link of a key above all others. */
    method Append(link: Link)
      requires Valid()
      modifies this`pointerNum, this`nodes, nodes`next, nodes`prev
      ensures Valid() && Links() == old(Links()) + [link]
    {
      hide Inserted, Ring, LinksOf;
      ghost var was, before := nodes, Links();
      var p := Splice(header, link, |nodes|);
      InsertedAt(was, |was|, p);
      LinksAre(was, before);
      InsertedLinks(was, before, |was|, p);
      assert before[..|was|] + [link] + before[|was|..] == before + [link];
    }

    /** The new link of a key or of a node that was split, in front of the i-th. */
    method InsertBefore(q: RingNode, link: Link, ghost i: nat)
      requires Valid() && i < |nodes| && q == nodes[i]
      modifies this, nodes`next, nodes`prev
      ensures Valid() && Links() == old(Links())[..i] + [link] + old(Links())[i..]
      ensures |nodes| == |old(nodes)| + 1 && nodes[i + 1] == q
      ensures forall j :: 0 <= j < |nodes| && j != i ==> nodes[j] in old(nodes)
      ensures fresh(nodes[i])
    {
      hide Inserted, Ring, LinksOf;
      ghost var was, before := nodes, Links();
      HeaderIs(i);
      var isFirst := q == header;
      var p := Splice(q, link, i);
      if isFirst {
        header := p;
      }
      InsertedAt(was, i, p);
      LinksAre(was, before);
      InsertedLinks(was, before, i, p);
    }

    /** bpsplit in the parent: a link to the first half comes in front of the i-th, which then leads to the
        second half. */
    method SplitLink(q: RingNode, first: Link, second: BPNode, ghost i: nat)
      requires Valid() && i < |nodes| && q == nodes[i] && q.link.ToNode?
      modifies this, nodes
      ensures Valid()
      ensures Links() == old(Links())[..i] + [first, ToNode(old(Links())[i].key, second)] + old(Links())[i + 1..]
    {
      hide Ring, LinksOf, RingAt, AllDistinct;
      ghost var was, before := nodes, Links();
      LinksAre(was, before);
      InsertBefore(q, first, i);
      SetLink(q, ToNode(q.link.key, second), i + 1);
      InsertThenSet(before, i, first, ToNode(before[i].key, second));
    }

    lemma InsertThenSet(s: seq<Link>, i: nat, a: Link, b: Link)
      requires i < |s|
      ensures (s[..i] + [a] + s[i..])[i + 1 := b] == s[..i] + [a, b] + s[i + 1..]
    {
    }

    /** Another child or another key in the i-th link. */
    method SetLink(q: RingNode, link: Link, ghost i: nat)
      requires Valid() && i < |nodes| && q == nodes[i]
      modifies q`link
      ensures Valid() && Links() == old(Links())[i := link]
    {
      hide AllDistinct;
      ghost var before := Links();
      q.link := link;
      forall j: nat | j < |nodes| ensures RingAt(nodes, j) {
        assert old(RingAt(nodes, j));
      }
      forall j | 0 <= j < |nodes| ensures Links()[j] == before[i := link][j] {
        Apart(nodes, i, j);
      }
    }

    lemma HeaderIs(i: nat)
      requires Valid() && i < |nodes|
      ensures nodes[i] == header <==> i == 0
    {
    }

    lemma LinksAre(was: seq<RingNode>, before: seq<Link>)
      requires before == LinksOf(was)
      ensures |before| == |was| && forall l :: 0 <= l < |was| ==> was[l].link == before[l]
    {
    }

    lemma InsertedAt(was: seq<RingNode>, i: nat, p: RingNode)
      requires was != [] && i <= |was|
      ensures |Inserted(was, i, p)| == |was| + 1 && Inserted(was, i, p)[0] == if i == 0 then p else was[0]
      ensures Inserted(was, i, p)[i] == p && (i < |was| ==> Inserted(was, i, p)[i + 1] == was[i])
      ensures forall j :: 0 <= j <= |was| && j != i ==> Inserted(was, i, p)[j] in was
    {
    }

    /** The two assignments that take the i-th node out. */
    method Unlink(p: RingNode, ghost i: nat)
      requires Ring(nodes) && 1 < |nodes| && i < |nodes| && p == nodes[i]
      modifies nodes`next, nodes`prev
      ensures LinkedBut(nodes, Pred(i, |nodes|), nodes[Succ(i, |nodes|)], Succ(i, |nodes|), nodes[Pred(i, |nodes|)])
    {
      hide AllDistinct;
      Neighbours(i, |nodes|);
      ghost var before, after := Pred(i, |nodes|), Succ(i, |nodes|);
      assert RingAt(nodes, i);
      Apart(nodes, i, before);
      Apart(nodes, i, after);
      ghost var x, y := nodes[before], nodes[after];
      assert p.prev == x && p.next == y && x != p && y != p;
      p.prev.next := p.next;
      assert p.next == y && p.prev == x;
      p.next.prev := p.prev;
      assert x.next == y && y.prev == x;
      forall l: nat | l < |nodes| ensures LinkedButAt(nodes, before, y, after, x, l) {
        assert old(RingAt(nodes, l));
        Apart(nodes, l, before);
        Apart(nodes, l, after);
      }
    }

    /** The link of a deleted key or of a node that was merged. */
    method Remove(p: RingNode, ghost i: nat)
      requires Valid() && i < |nodes| && p == nodes[i] && 1 < |nodes|
      modifies this, nodes`next, nodes`prev
      ensures Valid() && Links() == old(Links())[..i] + old(Links())[i + 1..]
    {
      hide AllDistinct, Removed, LinkedBut, LinksOf;
      ghost var was, before := nodes, Links();
      HeaderIs(i);
      LinksAre(was, before);
      assert RingAt(was, i);
      if p == header {
        header := p.next;
      }
      Unlink(p, i);
      pointerNum := pointerNum - 1;
      nodes := Removed(was, i);
      RemovedIs(was, i);
      forall j: nat | j < |nodes| ensures RingAt(nodes, j) {
        UnlinkedAt(was, i, j);
      }
      RemovedLinks(was, before, i);
    }

    lemma RemovedLinks(was: seq<RingNode>, before: seq<Link>, i: nat)
      requires i < |was| && nodes == Removed(was, i) && |before| == |was|
      requires forall l :: 0 <= l < |was| ==> was[l].link == before[l]
      ensures Links() == before[..i] + before[i + 1..]
    {
      forall j | 0 <= j < |nodes| ensures Links()[j] == (before[..i] + before[i + 1..])[j] {
        assert nodes[j] == if j < i then was[j] else was[j + 1];
      }
    }

    /** bpsplit: the first n links stay. */
    method CutBehind(n: nat) returns (rest: LinkList)
      requires Valid() && 0 < n < |nodes|
      modifies this, nodes`next, nodes`prev
      ensures Valid() && Links() == old(Links())[..n] && nodes == old(nodes)[..n]
      ensures rest.Valid() && rest.Links() == old(Links())[n..] && rest.nodes == old(nodes)[n..] && fresh(rest)
    {
      hide AllDistinct, Ring, CutAt, LinksOf;
      ghost var was, before := nodes, Links();
      LinksAre(was, before);
      var p := Last(n);
      RestHeader(n);
      rest := new LinkList.Half(p.next, pointerNum - n, was[n..]);
      SeparateAt(p, rest.header, n);
      pointerNum := n;
      nodes := was[..n];
      CutRings(was, n);
      PartLinks(was, before, n);
    }

    lemma PartLinks(was: seq<RingNode>, before: seq<Link>, n: nat)
      requires n <= |was| == |before| && forall l :: 0 <= l < |was| ==> was[l].link == before[l]
      ensures LinksOf(was[..n]) == before[..n] && LinksOf(was[n..]) == before[n..]
    {
    }

    /** The n-th link from the header on. */
    method Last(n: nat) returns (p: RingNode)
      requires Valid() && 0 < n <= |nodes|
      ensures p == nodes[n - 1]
    {
      p := header;
      for i := 1 to n
        invariant p == nodes[i - 1]
      {
        assert RingAt(nodes, i - 1);
        p := p.next;
      }
    }

    lemma RestHeader(n: nat)
      requires Valid() && 0 < n < |nodes|
      ensures nodes[n - 1].next == nodes[n]
    {
      assert RingAt(nodes, n - 1);
    }

    /** The four assignments that make two rings of one. */
    method SeparateAt(p: RingNode, rest: RingNode, ghost n: nat)
      requires Valid() && 0 < n < |nodes| && p == nodes[n - 1] && rest == nodes[n]
      modifies nodes`next, nodes`prev
      ensures CutAt(nodes, n) && AllDistinct(nodes)
    {
      hide AllDistinct;
      ghost var m := |nodes|;
      assert RingAt(nodes, 0);
      Apart(nodes, 0, n);
      Apart(nodes, m - 1, n - 1);
      rest.prev := header.prev;
      rest.prev.next := rest;
      p.next := header;
      header.prev := p;
      forall l: nat | l < m ensures CutPlace(nodes, n, l) {
        assert old(RingAt(nodes, l));
        Apart(nodes, l, 0);
        Apart(nodes, l, n - 1);
        Apart(nodes, l, n);
        Apart(nodes, l, m - 1);
      }
    }

    /** The assignments of bpmerge for a left neighbour, whose ring begins with first. */
    static method CrossLeft(first: RingNode, second: RingNode, ghost lastA: RingNode, ghost lastB: RingNode)
      requires first.prev == lastA && second.prev == lastB
      requires first != second && first != lastB && lastA != second && lastA != lastB
      modifies first`prev, second`prev, lastA`next, lastB`next
      ensures lastA.next == second && second.prev == lastA && lastB.next == first && first.prev == lastB
    {
      var last := second.prev;
      last.next := first;
      first.prev.next := second;
      second.prev := first.prev;
      first.prev := last;
    }

    /** The assignments of bpmerge for a right neighbour, whose ring begins with second. */
    static method CrossRight(first: RingNode, second: RingNode, ghost lastA: RingNode, ghost lastB: RingNode)
      requires first.prev == lastA && second.prev == lastB
      requires first != second && first != lastB && lastA != second && lastA != lastB
      modifies first`prev, second`prev, lastA`next, lastB`next
      ensures lastA.next == second && second.prev == lastA && lastB.next == first && first.prev == lastB
    {
      var last := second.prev;
      second.prev.next := first;
      second.prev := first.prev;
      first.prev.next := second;
      first.prev := last;
    }

    /** Two rings become one, whose first node is first. */
    static method Join(first: RingNode, second: RingNode, atLeft: bool, ghost a: seq<RingNode>, ghost b: seq<RingNode>)
      requires a != [] && b != [] && Ring(a) && Ring(b) && Disjoint(a, b) && first == a[0] && second == b[0]
      modifies a`next, a`prev, b`next, b`prev
      ensures JoinedTo(a, b[|b| - 1], b[0]) && JoinedTo(b, a[|a| - 1], a[0])
    {
      hide AllDistinct, Disjoint;
      Ends(a);
      Ends(b);
      ghost var lastA, lastB := a[|a| - 1], b[|b| - 1];
      ApartIn(a, b, 0, 0);
      ApartIn(a, b, |a| - 1, 0);
      ApartIn(a, b, 0, |b| - 1);
      ApartIn(a, b, |a| - 1, |b| - 1);
      if atLeft {
        CrossLeft(first, second, lastA, lastB);
      } else {
        CrossRight(first, second, lastA, lastB);
      }
      forall l: nat | l < |a| ensures JoinedAt(a, lastB, second, l) {
        assert old(RingAt(a, l));
        Apart(a, l, 0);
        Apart(a, l, |a| - 1);
        ApartIn(a, b, l, 0);
        ApartIn(a, b, l, |b| - 1);
      }
      forall l: nat | l < |b| ensures JoinedAt(b, lastA, first, l) {
        assert old(RingAt(b, l));
        Apart(b, l, 0);
        Apart(b, l, |b| - 1);
        ApartIn(a, b, 0, l);
        ApartIn(a, b, |a| - 1, l);
      }
    }

    /** bpmerge: the links of the left neighbour come in front. */
    method TakeLeft(left: LinkList)
      requires Valid() && left.Valid() && left != this && Disjoint(left.nodes, nodes)
      modifies this, nodes`next, nodes`prev, left.nodes`next, left.nodes`prev
      ensures Valid() && nodes == left.nodes + old(nodes) && left.nodes == old(left.nodes)
      ensures Links() == old(left.Links()) + old(Links())
    {
      hide Disjoint, JoinedTo, AllDistinct;
      ghost var a, b, before, behind := left.nodes, nodes, left.Links(), Links();
      Join(left.header, header, true, a, b);
      pointerNum := pointerNum + left.pointerNum;
      header := left.header;
      nodes := a + b;
      JoinRing(a, b);
      assert Links() == before + behind;
    }

    /** bpmerge: all links go in front of those of the right neighbour. */
    method GiveRight(right: LinkList)
      requires Valid() && right.Valid() && right != this && Disjoint(nodes, right.nodes)
      modifies right, nodes`next, nodes`prev, right.nodes`next, right.nodes`prev
      ensures right.Valid() && right.nodes == nodes + old(right.nodes) && nodes == old(nodes)
      ensures right.Links() == old(Links()) + old(right.Links())
    {
      hide Disjoint, JoinedTo, AllDistinct;
      ghost var a, b, before, behind := nodes, right.nodes, Links(), right.Links();
      Join(header, right.header, false, a, b);
      right.header := header;
      right.pointerNum := right.pointerNum + pointerNum;
      right.nodes := a + b;
      JoinRing(a, b);
      assert right.Links() == before + behind;
    }
  }
}
