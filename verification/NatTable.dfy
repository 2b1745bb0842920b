/** The session table of the translator: dbkeyhash.c, whose records are found under either of two keys,
    with the expiry of timerproc.c. */
module NatTable {
  import opened SessionSweep
  import opened SessionWalk

  datatype Kind = PktUp | PktDown

  /** compare_session. */
  predicate Matches(k: Key, s: Session, kind: Kind) {
    match kind
    case PktUp => s.up == k
    case PktDown => s.down == k
  }

  /** The first session with this key. */
  function FirstOf(c: seq<Session>, k: Key, kind: Kind): (r: Session?)
    ensures r == null || r in c
  {
    if c == [] then null else if Matches(k, c[0], kind) then c[0] else FirstOf(c[1..], k, kind)
  }

  lemma {:induction false} FirstIs(c: seq<Session>, i: nat, k: Key, kind: Kind)
    requires i <= |c| && (forall j :: 0 <= j < i ==> !Matches(k, c[j], kind)) && (i < |c| ==> Matches(k, c[i], kind))
    ensures FirstOf(c, k, kind) == if i < |c| then c[i] else null
  {
    if i > 0 {
      FirstIs(c[1..], i - 1, k, kind);
    }
  }

  class LinkNode {
    const data: Session
    var next: LinkNode?
    var other: LinkNode?
    var otherIndex: nat

    constructor (data: Session)
      ensures this.data == data && next == null && other == null && otherIndex == 0
    {
      this.data, next, other, otherIndex := data, null, null, 0;
    }
  }

  type Chains = seq<seq<LinkNode>>
  type Index = map<Session, LinkNode>

  /** The sessions of the nodes of a bucket. */
  function Data(ns: seq<LinkNode>): (c: seq<Session>)
    ensures |c| == |ns| && forall i :: 0 <= i < |ns| ==> c[i] == ns[i].data
  {
    seq(|ns|, i requires 0 <= i < |ns| => ns[i].data)
  }

  /** The sessions of the nodes of all buckets. */
  function Datas(chains: Chains): (cs: seq<seq<Session>>)
    ensures |cs| == |chains| && forall h :: 0 <= h < |chains| ==> cs[h] == Data(chains[h])
  {
    seq(|chains|, h requires 0 <= h < |chains| => Data(chains[h]))
  }

  ghost function TimesOf(rs: set<Session>): (t: Times)
    reads rs`timeOut
    ensures t.Keys == rs && forall r :: r in rs ==> t[r] == r.timeOut
  {
    // The guard keeps the body a constant outside the set, where it may not depend on the state.
    map r | r in rs :: if r in rs then r.timeOut else 0
  }

  ghost predicate NextAt(s: seq<LinkNode>, i: nat)
    requires i < |s|
    reads {s[i]}`next
  {
    s[i].next == if i + 1 < |s| then s[i + 1] else null
  }

  /** The nodes are linked in this order, none twice. */
  ghost predicate Chain(first: LinkNode?, s: seq<LinkNode>)
    reads (set n | n in s)`next
  {
    && first == (if s == [] then null else s[0])
    && (forall i, j :: 0 <= i < j < |s| ==> s[i] != s[j])
    && forall i {:trigger NextAt(s, i)} :: 0 <= i < |s| ==> NextAt(s, i)
  }

  /** A chain whose i-th node has been bridged is the chain without it. */
  lemma CutChain(first: LinkNode?, s: seq<LinkNode>, i: nat)
    requires i < |s| && forall j, k :: 0 <= j < k < |s| ==> s[j] != s[k]
    requires first == if i > 0 then s[0] else if |s| > 1 then s[1] else null
    requires forall j {:trigger NextAt(s, j)} :: 0 <= j < |s| && j + 1 != i ==> NextAt(s, j)
    requires i > 0 ==> s[i - 1].next == if i + 1 < |s| then s[i + 1] else null
    ensures Chain(first, Cut(s, i))
  {
    var cut := Cut(s, i);
    forall j | 0 <= j < |cut| ensures NextAt(cut, j) {
      assert j + 1 < i || i <= j ==> NextAt(s, if j < i then j else j + 1);
    }
  }

  ghost predicate Disjoint(chains: Chains) {
    forall g, h, n :: 0 <= g < |chains| && 0 <= h < |chains| && g != h && n in chains[g] ==> n !in chains[h]
  }

  ghost predicate Unique(chains: Chains) {
    forall h, i, j :: 0 <= h < |chains| && 0 <= i < j < |chains[h]| ==> chains[h][i] != chains[h][j]
  }

  /** The two nodes of a session point at each other, and the index in each names the bucket of the other:
      the first is in the bucket of the upstream key, the second in that of the downstream key. */
  ghost predicate PairAt(chains: Chains, index: Index, slot: Key -> nat, r: Session)
    requires r in index && index[r].other != null
    reads {index[r], index[r].other}`other, {index[r], index[r].other}`otherIndex
  {
    var a, b := index[r], index[r].other;
    && a != b && b.other == a && a.data == b.data == r
    && b.otherIndex == slot(r.up) < |chains| && a.otherIndex == slot(r.down) < |chains|
    && a in chains[slot(r.up)] && b in chains[slot(r.down)]
  }

  /** A node in a bucket is one of the two of its session. */
  ghost predicate NodeAt(chains: Chains, index: Index, slot: Key -> nat, h: nat, n: LinkNode)
    requires h < |chains|
    reads index.Values`other
  {
    && n.data in index
    && ((n == index[n.data] && h == slot(n.data.up)) || (n == index[n.data].other && h == slot(n.data.down)))
  }

  ghost predicate Paired(chains: Chains, index: Index, slot: Key -> nat, nodes: set<LinkNode>)
    reads nodes`other, nodes`otherIndex
  {
    && (forall r :: r in index ==> index[r] in nodes && index[r].other != null && index[r].other in nodes)
    && (forall r {:trigger PairAt(chains, index, slot, r)} :: r in index ==> PairAt(chains, index, slot, r))
    && (forall h, n {:trigger NodeAt(chains, index, slot, h, n)} ::
          0 <= h < |chains| && n in chains[h] ==> NodeAt(chains, index, slot, h, n))
  }

  /** Without the two nodes of a session, everything else is as before. */
  lemma PairedWithout(chains: Chains, chains': Chains, index: Index, slot: Key -> nat, nodes: set<LinkNode>, r: Session)
    requires Paired(chains, index, slot, nodes) && r in index && |chains'| == |chains|
    requires forall h, n :: 0 <= h < |chains| ==>
               (n in chains'[h] <==> n in chains[h] && n != index[r] && n != index[r].other)
    ensures Paired(chains', index - {r}, slot, nodes)
  {
    var index' := index - {r};
    assert PairAt(chains, index, slot, r);
    forall t | t in index' ensures PairAt(chains', index', slot, t) {
      assert PairAt(chains, index, slot, t);
    }
    forall h: nat, n | h < |chains'| && n in chains'[h] ensures NodeAt(chains', index', slot, h, n) {
      assert NodeAt(chains, index, slot, h, n);
    }
  }

  /** With two new nodes for a new session. */
  lemma PairedWith(chains: Chains, chains': Chains, index: Index, slot: Key -> nat, nodes: set<LinkNode>, r: Session,
      a: LinkNode)
    requires Paired(chains, index, slot, nodes) && r !in index && |chains'| == |chains| && a !in nodes
    requires slot(r.up) < |chains| && slot(r.down) < |chains|
    requires a.other != null && a.other != a && a.other.other == a && a.data == a.other.data == r
    requires a.otherIndex == slot(r.down) && a.other.otherIndex == slot(r.up)
    requires forall h, n :: 0 <= h < |chains| ==>
      (n in chains'[h] <==> n in chains[h] || (n == a && h == slot(r.up)) || (n == a.other && h == slot(r.down)))
    ensures Paired(chains', index[r := a], slot, nodes + {a, a.other})
  {
    var index' := index[r := a];
    forall t | t in index' ensures PairAt(chains', index', slot, t) {
      assert t != r ==> PairAt(chains, index, slot, t);
    }
    forall h: nat, n | h < |chains'| && n in chains'[h] ensures NodeAt(chains', index', slot, h, n) {
      assert n in chains[h] ==> NodeAt(chains, index, slot, h, n);
    }
  }

  class DBKeyHashTable {
    const heads: array<LinkNode?>
    const hash: Key -> nat
    ghost var chains: Chains
    ghost var index: Index
    ghost var nodes: set<LinkNode>

    function Slot(k: Key): nat
      requires heads.Length > 0
    {
      hash(k) % heads.Length
    }

    ghost function SlotOf(): Key -> nat {
      (k: Key) => if heads.Length > 0 then hash(k) % heads.Length else 0
    }

    ghost predicate ChainAt(h: nat)
      requires h < |chains| == heads.Length
      reads `chains, `nodes, heads, nodes`next
    {
      (forall n :: n in chains[h] ==> n in nodes) && Chain(heads[h], chains[h])
    }

    ghost predicate Linked()
      reads `chains, `nodes, heads, nodes`next
    {
      && heads.Length > 0 && |chains| == heads.Length && Disjoint(chains)
      && forall h {:trigger ChainAt(h)} :: 0 <= h < |chains| ==> ChainAt(h)
    }

    ghost predicate Valid()
      reads this, heads, nodes
    {
      Linked() && Paired(chains, index, SlotOf(), nodes)
    }

    /** DBKeyHashTableCreate. */
    constructor (bucketCnt: nat, hash: Key -> nat)
      requires bucketCnt > 0
      ensures Valid() && index == map[] && fresh(heads) && nodes == {} && chains == seq(bucketCnt, _ => [])
      ensures this.hash == hash && heads.Length == bucketCnt
    {
      heads := new LinkNode?[bucketCnt](_ => null);
      this.hash := hash;
      chains, index, nodes := seq(bucketCnt, _ => []), map[], {};
    }

    /** single_link_head_insert. */
    method HeadInsert(h: nat, data: Session) returns (n: LinkNode)
      requires Linked() && h < |chains|
      modifies `chains, `nodes, heads
      ensures Linked() && fresh(n) && n.data == data && nodes == old(nodes) + {n}
      ensures chains == old(chains)[h := [n] + old(chains)[h]]
    {
      ghost var was := chains;
      assert ChainAt(h);
      n := new LinkNode(data);
      n.next := heads[h];
      heads[h] := n;
      chains, nodes := was[h := [n] + was[h]], nodes + {n};
      forall g: nat | g < |chains| ensures ChainAt(g) {
        assert old(ChainAt(g));
        if g == h {
          forall i: nat | i < |chains[h]| ensures NextAt(chains[h], i) {
            assert i > 0 ==> old(NextAt(was[h], i - 1));
          }
        } else {
          forall i: nat | i < |chains[g]| ensures NextAt(chains[g], i) {
            assert old(NextAt(was[g], i));
          }
        }
      }
    }

    /** What a new session puts in front of bucket h. */
    function NewNodes(data: Session, h: nat): seq<Session>
      requires heads.Length > 0
    {
      (if Slot(data.down) == h then [data] else []) + if Slot(data.up) == h then [data] else []
    }

    /** DBKeyHashTableInsert: one node in the bucket of each key. */
    method Insert(data: Session)
      requires Valid() && data !in index
      modifies `chains, `nodes, `index, heads
      ensures Valid() && fresh(nodes - old(nodes)) && data in index && index == old(index)[data := index[data]]
      ensures |chains| == |old(chains)| == heads.Length > 0
      ensures forall h :: 0 <= h < |chains| ==> Data(chains[h]) == NewNodes(data, h) + Data(old(chains)[h])
    {
      hide Chain, DBKeyHashTable.Linked, Paired, Data, NewNodes;
      LinkedSize();
      var h1, h2 := Slot(data.up), Slot(data.down);
      ghost var was, members := chains, nodes;
      var n1 := HeadInsert(h1, data);
      var n2 := HeadInsert(h2, data);
      n1.otherIndex := h2;
      n1.other := n2;
      n2.other := n1;
      n2.otherIndex := h1;
      assert nodes == members + {n1, n2};
      PairedWith(was, chains, index, SlotOf(), members, data, n1);
      index := index[data := n1];
      InsertedData(was, chains, h1, h2, n1, n2, data);
    }

    /** A session that has just been inserted is found under either of its keys, and does not change what is
        found under others. */
    lemma InsertedFound(data: Session, k: Key, c: seq<Session>)
      requires heads.Length > 0
      ensures var now := NewNodes(data, Slot(k)) + c;
        && FirstOf(now, k, PktUp) == (if data.up == k then data else FirstOf(c, k, PktUp))
        && FirstOf(now, k, PktDown) == if data.down == k then data else FirstOf(c, k, PktDown)
    {
      var now := NewNodes(data, Slot(k)) + c;
      if |now| > |c| + 1 {
        assert now[1..] == [data] + c && now[1..][1..] == c;
      } else if |now| > |c| {
        assert now[1..] == c;
      } else {
        assert now == c;
      }
    }

    lemma InsertedData(was: Chains, now: Chains, h1: nat, h2: nat, n1: LinkNode, n2: LinkNode, data: Session)
      requires heads.Length > 0 && h1 == Slot(data.up) < |was| && h2 == Slot(data.down) < |was|
               && n1.data == n2.data == data
      requires var mid := was[h1 := [n1] + was[h1]]; now == mid[h2 := [n2] + mid[h2]]
      ensures forall h :: 0 <= h < |now| ==> Data(now[h]) == NewNodes(data, h) + Data(was[h])
    {
    }

    lemma LinkedSize()
      requires Linked()
      ensures heads.Length > 0 && |chains| == heads.Length
    {
    }

    /** DBKeyHashTableFind: a session with this key, if there is one, and of several the one that was
        inserted last. */
    method Find(k: Key, kind: Kind) returns (found: Session?)
      requires Valid()
      ensures found == null ==> forall r :: r in index ==> (if kind.PktUp? then r.up else r.down) != k
      ensures found != null ==> found in index && (if kind.PktUp? then found.up else found.down) == k
      ensures heads.Length > 0 && Slot(k) < |chains| && found == FirstOf(Data(chains[Slot(k)]), k, kind)
    {
      hide Paired, Chain;
      LinkedSize();
      var h := Slot(k);
      var p, prev, i := FindNode(h, k, kind);
      FirstIs(Data(chains[h]), i, k, kind);
      if p != null {
        NodeIn(h, i);
        return p.data;
      }
      Absent(h, k, kind);
      return null;
    }

    /** The first node of a bucket with this key, and the node before it. */
    method FindNode(h: nat, k: Key, kind: Kind) returns (p: LinkNode?, prev: LinkNode?, ghost i: nat)
      requires Linked() && h < |chains|
      ensures i <= |chains[h]| && p == (if i < |chains[h]| then chains[h][i] else null)
      ensures prev == if i > 0 then chains[h][i - 1] else null
      ensures p != null ==> Matches(k, p.data, kind)
      ensures forall j :: 0 <= j < i ==> !Matches(k, chains[h][j].data, kind)
    {
      assert ChainAt(h);
      p, prev, i := heads[h], null, 0;
      while p != null
        invariant i <= |chains[h]| && p == if i < |chains[h]| then chains[h][i] else null
        invariant prev == if i > 0 then chains[h][i - 1] else null
        invariant forall j :: 0 <= j < i ==> !Matches(k, chains[h][j].data, kind)
        decreases |chains[h]| - i
      {
        assert NextAt(chains[h], i);
        if Matches(k, p.data, kind) {
          return;
        }
        prev, p := p, p.next;
        i := i + 1;
      }
    }

    lemma NodeIn(h: nat, i: nat)
      requires Valid() && h < |chains| && i < |chains[h]|
      ensures chains[h][i].data in index && chains[h][i] in nodes && NodeAt(chains, index, SlotOf(), h, chains[h][i])
    {
      assert ChainAt(h) && NodeAt(chains, index, SlotOf(), h, chains[h][i]);
    }

    /** A session with this key has a node in the bucket of the key. */
    lemma Absent(h: nat, k: Key, kind: Kind)
      requires Valid() && heads.Length > 0 && h == Slot(k) < |chains|
      requires forall j :: 0 <= j < |chains[h]| ==> !Matches(k, chains[h][j].data, kind)
      ensures forall r :: r in index ==> !Matches(k, r, kind)
    {
      forall r | r in index ensures !Matches(k, r, kind) {
        assert PairAt(chains, index, SlotOf(), r);
      }
    }

    /** Takes a node out of its chain. */
    method Unlink(h: nat, prev: LinkNode?, p: LinkNode, ghost i: nat)
      requires Linked() && h < |chains| && i < |chains[h]| && p == chains[h][i]
      requires prev == if i > 0 then chains[h][i - 1] else null
      modifies `chains, heads, nodes`next
      ensures Linked() && chains == old(chains)[h := Cut(old(chains)[h], i)]
    {
      ghost var was := chains;
      assert ChainAt(h) && NextAt(was[h], i);
      if prev == null {
        heads[h] := p.next;
      } else {
        prev.next := p.next;
      }
      chains := was[h := Cut(was[h], i)];
      forall j: nat | j < |was[h]| && j + 1 != i ensures NextAt(was[h], j) {
        assert old(NextAt(was[h], j));
      }
      CutChain(heads[h], was[h], i);
      hide Cut, Chain;
      forall g: nat | g < |chains| ensures ChainAt(g) {
        assert old(ChainAt(g)) && (prev != null ==> prev in was[h]);
      }
    }

    /** Takes both nodes of the session of p out: p itself, the i-th of bucket h, and then its partner,
        which is looked for in the bucket that p names. */
    method DropPair(h: nat, prev: LinkNode?, p: LinkNode, ghost i: nat) returns (ghost rest: Chains)
      requires Valid() && h < |chains| && i < |chains[h]| && p == chains[h][i]
      requires prev == if i > 0 then chains[h][i - 1] else null
      modifies `chains, `index, heads, nodes`next
      ensures Valid() && p.data in old(index) && index == old(index) - {p.data}
      ensures |rest| == |chains| && rest == old(chains)[h := Cut(old(chains)[h], i)]
      ensures p.other != null && p.otherIndex < |chains|
      ensures exists j :: 0 <= j < |rest[p.otherIndex]| && rest[p.otherIndex][j] == p.other
                && chains == rest[p.otherIndex := Cut(rest[p.otherIndex], j)]
    {
      hide Chain, NextAt, Paired;
      ghost var was := chains;
      NodeIn(h, i);
      OnePair(h, p);
      LinkedUnique();
      Unlink(h, prev, p, i);
      rest := chains;
      var g := p.otherIndex;
      CutHas(was, h, i, p.other, g);
      ghost var j := UnlinkPartner(g, p.other);
      DropHas(was, rest, chains, h, i, g, j, p);
      PairedWithout(was, chains, index, SlotOf(), nodes, p.data);
      index := index - {p.data};
    }

    lemma LinkedUnique()
      requires Linked()
      ensures Unique(chains) && Disjoint(chains)
    {
      forall h: nat | h < |chains| ensures forall i, j :: 0 <= i < j < |chains[h]| ==> chains[h][i] != chains[h][j] {
        assert ChainAt(h);
      }
    }

    lemma OnePair(h: nat, p: LinkNode)
      requires Valid() && h < |chains| && p in chains[h]
      ensures p.data in index && p.other != null && p.other != p && p.other in nodes && p.otherIndex < |chains|
              && p.other in chains[p.otherIndex]
      ensures {index[p.data], index[p.data].other} == {p, p.other} && p.other.data == p.data
    {
      assert NodeAt(chains, index, SlotOf(), h, p);
      assert PairAt(chains, index, SlotOf(), p.data);
    }

    lemma CutHas(was: Chains, h: nat, i: nat, n: LinkNode, g: nat)
      requires h < |was| && i < |was[h]| && n != was[h][i] && g < |was| && n in was[g]
      ensures n in was[h := Cut(was[h], i)][g]
    {
      if g == h {
        var j :| 0 <= j < |was[h]| && was[h][j] == n;
        assert Cut(was[h], i)[if j < i then j else j - 1] == n;
      }
    }

    /** The search for the partner, and its removal. */
    method UnlinkPartner(g: nat, o: LinkNode) returns (ghost j: nat)
      requires Linked() && g < |chains| && o in chains[g]
      modifies `chains, heads, nodes`next
      ensures Linked() && j < |old(chains)[g]| && old(chains)[g][j] == o
      ensures chains == old(chains)[g := Cut(old(chains)[g], j)]
    {
      assert ChainAt(g);
      var t: LinkNode?, s: LinkNode? := heads[g], null;
      j := 0;
      while t != o
        invariant j <= |chains[g]| && t == if j < |chains[g]| then chains[g][j] else null
        invariant s == if j > 0 then chains[g][j - 1] else null
        invariant forall k :: 0 <= k < j ==> chains[g][k] != o
        decreases |chains[g]| - j
      {
        assert NextAt(chains[g], j);
        s, t := t, t.next;
        j := j + 1;
      }
      Unlink(g, s, t, j);
    }

    lemma DropHas(was: Chains, rest: Chains, now: Chains, h: nat, i: nat, g: nat, j: nat, p: LinkNode)
      requires h < |was| && i < |was[h]| && was[h][i] == p && rest == was[h := Cut(was[h], i)]
      requires g < |rest| && j < |rest[g]| && rest[g][j] == p.other && now == rest[g := Cut(rest[g], j)]
      requires Disjoint(was) && Unique(was)
      ensures forall m, n :: 0 <= m < |was| ==> (n in now[m] <==> n in was[m] && n != p && n != p.other)
    {
      forall m: nat, n | m < |was| ensures n in now[m] <==> n in was[m] && n != p && n != p.other {
        CutMember(was[h], i, n);
        CutMember(rest[g], j, n);
      }
    }

    /** DBKeyHashTableDelete: the session found under the key goes, with both its nodes. */
    method Delete(k: Key, kind: Kind) returns (gone: Session?)
      requires Valid()
      modifies `chains, `index, heads, nodes`next
      ensures Valid()
      ensures gone == null ==>
                index == old(index) && forall r :: r in index ==> (if kind.PktUp? then r.up else r.down) != k
      ensures gone != null ==> gone in old(index) && (if kind.PktUp? then gone.up else gone.down) == k
      ensures gone != null ==> index == old(index) - {gone}
    {
      hide Paired, Chain;
      LinkedSize();
      var h := Slot(k);
      var p, prev, i := FindNode(h, k, kind);
      if p == null {
        Absent(h, k, kind);
        return null;
      }
      ghost var rest := DropPair(h, prev, p, i);
      return p.data;
    }

    /** How many nodes of a session are in bucket h. */
    ghost function NodesIn(r: Session, h: nat): nat
      requires heads.Length > 0
    {
      (if Slot(r.up) == h then 1 else 0) + if Slot(r.down) == h then 1 else 0
    }

    /** The walk over bucket h stands before its i-th node; it is on its way to goal. */
    ghost predicate Walk(h: nat, i: nat, idx0: Index, released: seq<Session>, goal: Result)
      reads this, heads, nodes, idx0.Keys`timeOut
    {
      && Valid() && h < |chains| == heads.Length && i <= |chains[h]|
      && index == idx0 - Members(released) && (forall r :: r in Data(chains[h]) ==> r in idx0)
      && WalkOn(Data(chains[h]), i, TimesOf(idx0.Keys), released) == goal
    }

    /** The other nodes of bucket h that belong to the session of its i-th one: its partner, if that is there. */
    lemma PartnerPlace(h: nat, i: nat)
      requires Valid() && h < |chains| && i < |chains[h]|
      ensures var p, rest := chains[h][i], Cut(chains[h], i);
        && (forall j :: 0 <= j < |rest| && rest[j].data == p.data ==> rest[j] == p.other && p.otherIndex == h)
        && p.other != null && p.other.data == p.data && forall j, k :: 0 <= j < k < |rest| ==> rest[j] != rest[k]
    {
      var p, rest := chains[h][i], Cut(chains[h], i);
      OnePair(h, p);
      LinkedUnique();
      forall j | 0 <= j < |rest| && rest[j].data == p.data ensures rest[j] == p.other && p.otherIndex == h {
        assert rest[j] in chains[h];
        OnePair(h, rest[j]);
      }
    }

    /** The session of the i-th node goes with both its nodes, and the walk goes on behind the node before it,
        or starts again if both were in this bucket. */
    method TakeOut(h: nat, q: LinkNode?, p: LinkNode, ghost i: nat, ghost rs: set<Session>)
      returns (q': LinkNode?, p': LinkNode?, ghost i': nat)
      requires Valid() && h < |chains| && i < |chains[h]| && p == chains[h][i]
      requires q == if i > 0 then chains[h][i - 1] else null
      modifies `chains, `index, heads, nodes`next
      ensures Valid() && p.data in old(index) && index == old(index) - {p.data} && |chains| == |old(chains)|
      ensures var c := Cut(Data(old(chains)[h]), i);
        if p.data in c then Data(chains[h]) == Cut(c, IndexOf(c, p.data)) && i' == 0
        else Data(chains[h]) == c && i' == i
      ensures forall m :: 0 <= m < |chains| && m != h ==> Data(chains[m]) == Minus(Data(old(chains)[m]), {p.data})
      ensures TimesOf(rs) == old(TimesOf(rs))
      ensures i' <= |chains[h]| && p' == (if i' < |chains[h]| then chains[h][i'] else null)
      ensures q' == if i' > 0 then chains[h][i' - 1] else null
    {
      hide Paired, Linked, Chain, Data, Minus;
      PartnerPlace(h, i);
      ghost var before, was, g, partner := chains, chains[h], p.otherIndex, p.other;
      ghost var rest := DropPair(h, q, p, i);
      DropData(was, i, rest[h], partner, g == h, chains[h]);
      DropOthers(before, rest, h, g, p.data, partner);
      LinkedSize();
      if p.otherIndex == h {
        q', i' := null, 0;
        p' := heads[h];
      } else {
        q', i' := q, i;
        p' := if q == null then heads[h] else q.next;
      }
      PlaceIs(h, i');
    }

    /** The other buckets have lost what is gone, and only that. */
    lemma DropOthers(was: Chains, rest: Chains, h: nat, g: nat, r: Session, partner: LinkNode)
      requires Valid() && r !in index && |was| == |rest| == |chains| && h < |was| && g < |rest|
      requires forall m :: 0 <= m < |was| && m != h ==> rest[m] == was[m]
      requires partner.data == r
      requires exists j :: 0 <= j < |rest[g]| && rest[g][j] == partner && chains == rest[g := Cut(rest[g], j)]
      ensures forall m :: 0 <= m < |chains| && m != h ==> Data(chains[m]) == Minus(Data(was[m]), {r})
    {
      hide DBKeyHashTable.Valid;
      var j :| 0 <= j < |rest[g]| && rest[g][j] == partner && chains == rest[g := Cut(rest[g], j)];
      forall m: nat | m < |chains| && m != h ensures Data(chains[m]) == Minus(Data(was[m]), {r}) {
        NotIn(m, r);
        if m == g {
          assert Cut(Data(was[m]), j) == Data(chains[m]);
          MinusCut(Data(was[m]), j, r);
        } else {
          MinusKeeps(Data(was[m]), {r});
        }
      }
    }

    lemma NotIn(m: nat, r: Session)
      requires Valid() && r !in index && m < |chains|
      ensures r !in Data(chains[m])
    {
      if r in Data(chains[m]) {
        var i :| 0 <= i < |chains[m]| && Data(chains[m])[i] == r;
        NodeIn(m, i);
      }
    }

    /** All buckets but h are those of cs without what is gone. */
    ghost predicate Others(h: nat, cs: seq<seq<Session>>, gone: seq<Session>)
      reads `chains
    {
      |cs| == |chains| && forall m :: 0 <= m < |cs| && m != h ==> Data(chains[m]) == Minus(cs[m], Members(gone))
    }

    lemma OthersMore(h: nat, cs: seq<seq<Session>>, was: Chains, gone: seq<Session>, r: Session)
      requires |cs| == |was| == |chains|
      requires forall m :: 0 <= m < |cs| && m != h ==>
                 Data(was[m]) == Minus(cs[m], Members(gone)) && Data(chains[m]) == Minus(Data(was[m]), {r})
      ensures Others(h, cs, gone + [r])
    {
      assert Members(gone + [r]) == Members(gone) + {r};
      forall m | 0 <= m < |cs| && m != h ensures Data(chains[m]) == Minus(cs[m], Members(gone + [r])) {
        MinusMore(cs[m], Members(gone), {r});
      }
    }

    /** A turn of the walk in which a session goes; t has the lifetimes before it. */
    method Release(h: nat, q: LinkNode?, p: LinkNode, ghost i: nat, ghost idx0: Index, ghost released: seq<Session>,
        ghost t: Times, ghost cs: seq<seq<Session>>)
      returns (q': LinkNode?, p': LinkNode?, ghost i': nat)
      requires Valid() && h < |chains| == heads.Length && i < |chains[h]| && p == chains[h][i]
      requires q == if i > 0 then chains[h][i - 1] else null
      requires index == idx0 - Members(released) && t.Keys == idx0.Keys
      requires forall r :: r in Data(chains[h]) ==> r in idx0
      requires p.data in t && 0 < t[p.data] <= MINI_TIMER_VALUE
      requires TimesOf(idx0.Keys) == t[p.data := t[p.data] - MINI_TIMER_VALUE] && Others(h, cs, released)
      modifies `chains, `index, heads, nodes`next
      ensures Others(h, cs, released + [p.data])
      ensures Walk(h, i', idx0, released + [p.data], WalkOn(Data(old(chains)[h]), i, t, released))
      ensures |chains| == |old(chains)| && h < |chains| && i' <= |chains[h]| < |old(chains)[h]|
      ensures p' == if i' < |chains[h]| then chains[h][i'] else null
      ensures q' == if i' > 0 then chains[h][i' - 1] else null
    {
      hide DBKeyHashTable.Valid, DBKeyHashTable.Walk, WalkOn, Members, TimesOf, Data, Cut, IndexOf;
      ghost var was, c, t' := chains, Data(chains[h]), TimesOf(idx0.Keys);
      q', p', i' := TakeOut(h, q, p, i, idx0.Keys);
      OthersMore(h, cs, was, released, p.data);
      MembersMore(idx0, released, p.data);
      Led(c, i, t, released, true, Data(chains[h]), i', t');
      WalkIs(h, i', idx0, released + [p.data], WalkOn(c, i, t, released));
    }

    /** One turn of the walk: the next node ages its session, which stays or goes. */
    method Visit(h: nat, q: LinkNode?, p: LinkNode, ghost i: nat, ghost idx0: Index, released: seq<Session>,
        ghost goal: Result, ghost cs: seq<seq<Session>>)
      returns (q': LinkNode?, p': LinkNode?, ghost i': nat, released': seq<Session>, ghost stays: bool)
      requires Walk(h, i, idx0, released, goal) && i < |chains[h]| && p == chains[h][i]
      requires q == (if i > 0 then chains[h][i - 1] else null) && Others(h, cs, released)
      modifies `chains, `index, heads, nodes`next, p.data`timeOut
      ensures Walk(h, i', idx0, released', goal) && |chains| == |old(chains)| && Others(h, cs, released')
      ensures p' == if i' < |chains[h]| then chains[h][i'] else null
      ensures q' == if i' > 0 then chains[h][i' - 1] else null
      ensures if stays then chains == old(chains) && i' == i + 1 else |chains[h]| < |old(chains)[h]|
    {
      hide DBKeyHashTable.Valid, DBKeyHashTable.Walk, DBKeyHashTable.Others, WalkOn, Members, TimesOf, Data, Cut;
      hide IndexOf;
      WalkHere(h, i, idx0, released, goal);
      ghost var c, t := Data(chains[h]), TimesOf(idx0.Keys);
      NextIs(h, i);
      var ret := Age(p, idx0.Keys);
      stays := ret >= 0;
      if ret < 0 {
        q', p', i' := Release(h, q, p, i, idx0, released, t, cs);
        released' := released + [p.data];
      } else {
        q', p', i', released' := p, p.next, i + 1, released;
        Led(c, i, t, released, false, c, i', TimesOf(idx0.Keys));
        WalkIs(h, i', idx0, released, goal);
      }
    }

    /** The session of a node ages. */
    method Age(p: LinkNode, ghost rs: set<Session>) returns (ret: int)
      requires Valid() && p.data in rs
      modifies p.data`timeOut
      ensures Valid()
      ensures var t := old(TimesOf(rs));
        && TimesOf(rs) == (if t[p.data] <= 0 then t else t[p.data := t[p.data] - MINI_TIMER_VALUE])
        && (ret < 0 <==> 0 < t[p.data] <= MINI_TIMER_VALUE)
    {
      hide DBKeyHashTable.Valid;
      ghost var t := TimesOf(rs);
      ret := SessionDatProc(p.data);
      assert TimesOf(rs) == if t[p.data] <= 0 then t else t[p.data := t[p.data] - MINI_TIMER_VALUE];
    }

    lemma WalkIs(h: nat, i: nat, idx0: Index, released: seq<Session>, goal: Result)
      requires Valid() && h < |chains| == heads.Length && i <= |chains[h]|
      requires index == idx0 - Members(released) && (forall r :: r in Data(chains[h]) ==> r in idx0)
      requires WalkOn(Data(chains[h]), i, TimesOf(idx0.Keys), released) == goal
      ensures Walk(h, i, idx0, released, goal)
    {
    }

    lemma NextIs(h: nat, i: nat)
      requires Valid() && h < |chains| && i < |chains[h]|
      ensures chains[h][i].next == if i + 1 < |chains[h]| then chains[h][i + 1] else null
    {
      PlaceIs(h, i + 1);
    }

    lemma PlaceIs(h: nat, i: nat)
      requires Linked() && h < |chains| && i <= |chains[h]|
      ensures (if i == 0 then heads[h] else chains[h][i - 1].next) == if i < |chains[h]| then chains[h][i] else null
    {
      assert ChainAt(h);
      assert i > 0 ==> NextAt(chains[h], i - 1);
    }

    /** A bucket has as many nodes of a session as of its keys. */
    lemma BucketCounts(h: nat, r: Session)
      requires Valid() && h < |chains|
      ensures heads.Length > 0 && Count(Data(chains[h]), r) == if r in index then NodesIn(r, h) else 0
    {
      LinkedUnique();
      if r in index {
        assert PairAt(chains, index, SlotOf(), r);
        var a, b := index[r], index[r].other;
        forall n | n in chains[h] ensures n.data == r ==> n == a || n == b {
          assert NodeAt(chains, index, SlotOf(), h, n);
        }
        assert NodeAt(chains, index, SlotOf(), Slot(r.up), a) && NodeAt(chains, index, SlotOf(), Slot(r.down), b);
        CountNodes(chains[h], a, b, r);
      } else {
        CountIn(Data(chains[h]), r);
        if r in Data(chains[h]) {
          var i :| 0 <= i < |chains[h]| && Data(chains[h])[i] == r;
          NodeIn(h, i);
        }
      }
    }

    /** Every session has two keys, and between them two nodes in all buckets below. */
    ghost function NodesBelow(r: Session, k: nat): nat
      requires heads.Length > 0
    {
      (if Slot(r.up) < k then 1 else 0) + if Slot(r.down) < k then 1 else 0
    }

    /** What a walk over bucket h does to each session. */
    ghost predicate Settled(h: nat, was: Times, now: Times, released: seq<Session>)
    {
      && heads.Length > 0 && now.Keys == was.Keys && NoneTwice(released) && (forall r :: r in released ==> r in was)
      && forall r :: r in was ==>
           && Fate(was[r], now[r], NodesIn(r, h), r in released)
           && (NodesIn(r, h) == 0 ==> now[r] == was[r] && r !in released)
    }

    /** No session with both nodes in bucket h runs out. */
    ghost predicate Quiet(h: nat, was: Times) {
      heads.Length > 0 && forall r :: r in was && NodesIn(r, h) == 2 ==> !(0 < was[r] <= 2 * MINI_TIMER_VALUE)
    }

    ghost predicate SettledCalmly(h: nat, was: Times, now: Times, released: seq<Session>) {
      heads.Length > 0 && now.Keys == was.Keys && forall r :: r in was ==>
        CalmFate(was[r], now[r], NodesIn(r, h), r in released)
    }

    /** Exactly how many ticks each survivor has lost: one for each node in bucket h, unless a new start took
        the walk over the sessions c back to the front of one of them. */
    ghost predicate SettledExactly(h: nat, c: seq<Session>, was: Times, now: Times, released: seq<Session>)
      requires forall r :: r in c ==> r in was
    {
      heads.Length > 0 && now.Keys == was.Keys && forall r :: r in was && r !in released && was[r] > 0 ==>
        TicksOf(was[r], now[r], NodesIn(r, h), PassedAgain(c, 0, was, r))
    }

    lemma TableSize()
      requires Valid()
      ensures heads.Length > 0
    {
    }

    lemma BucketFates(h: nat)
      requires Valid() && h < |chains| && forall r :: r in Data(chains[h]) ==> r in index
      ensures var was := TimesOf(index.Keys); var w := WalkOn(Data(chains[h]), 0, was, []);
        && Settled(h, was, w.times, w.gone)
        && (Quiet(h, was) ==> SettledCalmly(h, was, w.times, w.gone))
        && SettledExactly(h, Data(chains[h]), was, w.times, w.gone)
    {
      hide DBKeyHashTable.Valid, WalkOn, Count, PassedAgain;
      var c, was := Data(chains[h]), TimesOf(index.Keys);
      TableSize();
      assert c[0..] == c;
      forall r: Session ensures heads.Length > 0 && Count(c, r) == (if r in index then NodesIn(r, h) else 0)
        && (Count(c, r) > 0 <==> r in c) {
        BucketCounts(h, r);
        CountIn(c, r);
      }
      WalkFates(c, 0, was, []);
      var w := WalkOn(c, 0, was, []);
      assert w.gone[0..] == w.gone;
      forall r | r in was
        ensures Fate(was[r], w.times[r], NodesIn(r, h), r in w.gone)
        ensures NodesIn(r, h) == 0 ==> w.times[r] == was[r] && r !in w.gone
      {
        assert Fares(c, 0, was, w, w.gone[0..], r);
      }
      GoneKnown(c, was, w);
      forall r | r in was && r !in w.gone && was[r] > 0
        ensures TicksOf(was[r], w.times[r], NodesIn(r, h), PassedAgain(c, 0, was, r))
      {
        TicksExact(c, 0, was, [], r);
      }
      if Quiet(h, was) {
        CalmWalk(c, 0, was, []);
      }
    }

    /** single_link_loop_delete over one bucket with sessiondatproc: after a session whose nodes are both in
        this bucket is gone, the walk starts again, and its survivors age again. */
    method LoopDelete(h: nat) returns (released: seq<Session>)
      requires Valid() && h < |chains|
      modifies `chains, `index, heads, nodes`next, index.Keys`timeOut
      ensures Valid() && |chains| == |old(chains)| == heads.Length && nodes == old(nodes)
              && index == old(index) - Members(released)
      ensures forall r :: r in Data(old(chains)[h]) ==> r in old(index)
      ensures WalkOn(Data(old(chains)[h]), 0, old(TimesOf(index.Keys)), [])
              == Result(TimesOf(old(index).Keys), released)
      ensures Settled(h, old(TimesOf(index.Keys)), TimesOf(old(index).Keys), released)
      ensures old(Quiet(h, TimesOf(index.Keys))) ==>
                SettledCalmly(h, old(TimesOf(index.Keys)), TimesOf(old(index).Keys), released)
      ensures SettledExactly(h, Data(old(chains)[h]), old(TimesOf(index.Keys)), TimesOf(old(index).Keys), released)
      ensures Others(h, Datas(old(chains)), released)
    {
      hide DBKeyHashTable.Valid, DBKeyHashTable.Walk, WalkOn, DBKeyHashTable.Settled, DBKeyHashTable.SettledCalmly;
      hide DBKeyHashTable.SettledExactly, DBKeyHashTable.Quiet, DBKeyHashTable.Others, Data, Datas;
      released := [];
      ghost var idx0, i: nat, cs := index, 0, Datas(chains);
      StartOthers(h);
      StartWalk(h);
      BucketFates(h);
      ghost var goal := WalkOn(Data(chains[h]), 0, TimesOf(idx0.Keys), []);
      var q: LinkNode?, p: LinkNode? := null, heads[h];
      while p != null
        invariant |chains| == |old(chains)| && h < |chains| && i <= |chains[h]| && nodes == old(nodes)
        invariant Walk(h, i, idx0, released, goal) && Others(h, cs, released)
        invariant p == if i < |chains[h]| then chains[h][i] else null
        invariant q == if i > 0 then chains[h][i - 1] else null
        decreases |chains[h]|, |chains[h]| - i
      {
        WalkHere(h, i, idx0, released, goal);
        ghost var stays: bool;
        q, p, i, released, stays := Visit(h, q, p, i, idx0, released, goal, cs);
        WalkWithin(h, i, idx0, released, goal);
      }
      EndWalk(h, idx0, released, goal);
    }

    lemma StartOthers(h: nat)
      ensures Others(h, Datas(chains), [])
    {
      forall m | 0 <= m < |chains| ensures Data(chains[m]) == Minus(Datas(chains)[m], Members([])) {
        MinusKeeps(Data(chains[m]), Members([]));
      }
    }

    /** What the walks over all buckets below k have done to each session. */
    ghost predicate Swept(k: nat, was: Times, now: Times, released: seq<Session>) {
      && heads.Length > 0 && now.Keys == was.Keys && NoneTwice(released) && (forall r :: r in released ==> r in was)
      && forall r :: r in was ==> Fate(was[r], now[r], NodesBelow(r, k), r in released)
    }

    /** The ticks of a session that goes in a sweep without a new start. */
    function FinalTicks(was: int): nat {
      if was <= MINI_TIMER_VALUE then 1 else 2
    }

    ghost predicate SweptCalmly(k: nat, was: Times, now: Times, released: seq<Session>) {
      && heads.Length > 0 && now.Keys == was.Keys
      && forall r :: r in was ==>
           && (r in released <==> 0 < was[r] <= MINI_TIMER_VALUE * NodesBelow(r, k))
           && (r in released ==> now[r] == was[r] - MINI_TIMER_VALUE * FinalTicks(was[r]))
           && (r !in released ==> now[r] == if was[r] > 0 then was[r] - MINI_TIMER_VALUE * NodesBelow(r, k) else was[r])
    }

    /** No session that has both its nodes in one bucket runs out. */
    ghost predicate AllQuiet(was: Times) {
      heads.Length > 0 && forall r :: r in was && Slot(r.up) == Slot(r.down) ==> !(0 < was[r] <= 2 * MINI_TIMER_VALUE)
    }

    /** The lifetimes of the sessions that are left. */
    ghost predicate Left(part: Times, now: Times, released: seq<Session>) {
      part.Keys == now.Keys - Members(released) && forall r :: r in part ==> part[r] == now[r]
    }

    /** The sessions of one more bucket. */
    ghost predicate Follows(was: Times, mid: Times, released: seq<Session>, part: Times, part': Times, now: Times) {
      && Left(part, mid, released) && now.Keys == was.Keys == mid.Keys && part'.Keys == part.Keys
      && forall r :: r in was ==> now[r] == if r in part then part'[r] else mid[r]
    }

    lemma StepOf(k: nat, was: Times, mid: Times, released: seq<Session>, part: Times, part': Times, more: seq<Session>,
        now: Times, r: Session)
      requires Follows(was, mid, released, part, part', now) && r in was && heads.Length > 0
      requires forall x :: x in more ==> x in part
      ensures r in released + more <==> r in released || r in more
      ensures r in released ==> r !in part && r !in more && now[r] == mid[r]
      ensures r !in released ==> r in part && part[r] == mid[r] && now[r] == part'[r]
      ensures NodesBelow(r, k + 1) == NodesBelow(r, k) + NodesIn(r, k)
    {
      assert r in Members(released) <==> r in released;
    }

    lemma SweptMore(k: nat, was: Times, mid: Times, released: seq<Session>, part: Times, part': Times,
        more: seq<Session>, now: Times)
      requires Swept(k, was, mid, released) && Settled(k, part, part', more)
               && Follows(was, mid, released, part, part', now)
      ensures Swept(k + 1, was, now, released + more)
    {
      hide DBKeyHashTable.Follows, DBKeyHashTable.NodesIn, DBKeyHashTable.NodesBelow, NoneTwice;
      FollowKeys(was, mid, released, part, part', now);
      forall r | r in was ensures Fate(was[r], now[r], NodesBelow(r, k + 1), r in released + more) {
        StepOf(k, was, mid, released, part, part', more, now, r);
      }
      NoneTwiceMore(released, more);
    }

    lemma FollowKeys(was: Times, mid: Times, released: seq<Session>, part: Times, part': Times, now: Times)
      requires Follows(was, mid, released, part, part', now)
      ensures now.Keys == was.Keys && part.Keys <= was.Keys && forall r :: r in released ==> r !in part
    {
      forall r | r in released ensures r !in part {
        assert r in Members(released);
      }
    }

    lemma SweptMoreCalmly(k: nat, was: Times, mid: Times, released: seq<Session>, part: Times, part': Times,
        more: seq<Session>, now: Times)
      requires SweptCalmly(k, was, mid, released) && SettledCalmly(k, part, part', more)
               && Follows(was, mid, released, part, part', now)
      requires Quiet(k, part) && forall x :: x in more ==> x in part
      ensures SweptCalmly(k + 1, was, now, released + more)
    {
      hide DBKeyHashTable.Follows, DBKeyHashTable.NodesIn, DBKeyHashTable.NodesBelow;
      FollowKeys(was, mid, released, part, part', now);
      forall r | r in was
        ensures r in released + more <==> 0 < was[r] <= MINI_TIMER_VALUE * NodesBelow(r, k + 1)
        ensures r in released + more ==> now[r] == was[r] - MINI_TIMER_VALUE * FinalTicks(was[r])
        ensures r !in released + more ==> now[r] == if was[r] > 0 then was[r] - MINI_TIMER_VALUE * NodesBelow(r, k + 1)
                else was[r]
      {
        StepOf(k, was, mid, released, part, part', more, now, r);
        FewNodes(r, k);
      }
    }

    lemma FewNodes(r: Session, k: nat)
      requires heads.Length > 0
      ensures NodesIn(r, k) <= 2 && NodesBelow(r, k) <= 2 && (NodesIn(r, k) == 2 ==> NodesBelow(r, k) == 0)
      ensures NodesIn(r, k) + NodesBelow(r, k) <= 2
    {
    }

    lemma StillQuiet(k: nat, was: Times, mid: Times, released: seq<Session>, part: Times)
      requires AllQuiet(was) && SweptCalmly(k, was, mid, released) && Left(part, mid, released)
      ensures Quiet(k, part)
    {
      forall r | r in part && NodesIn(r, k) == 2 ensures !(0 < part[r] <= 2 * MINI_TIMER_VALUE) {
        assert r in was && NodesBelow(r, k) == 0 && Slot(r.up) == Slot(r.down);
        assert r in Members(released) <==> r in released;
      }
    }

    lemma SweepEnds(was: Times, now: Times, released: seq<Session>)
      requires Swept(heads.Length, was, now, released)
      ensures NoneTwice(released) && forall r :: r in released ==> r in was
      ensures forall r :: r in was ==> Fate(was[r], now[r], 2, r in released)
      ensures SweptCalmly(heads.Length, was, now, released) ==>
        forall r :: r in was ==>
          && (r in released <==> 0 < was[r] <= 2 * MINI_TIMER_VALUE)
          && (r in released ==> now[r] == was[r] - MINI_TIMER_VALUE * FinalTicks(was[r]))
          && (r !in released ==> now[r] == if was[r] > 0 then was[r] - 2 * MINI_TIMER_VALUE else was[r])
    {
      forall r | r in was ensures NodesBelow(r, heads.Length) == 2 {
      }
    }

    /** The sweep stands before bucket k; it is on its way to goal. */
    ghost predicate Sweeping(k: nat, cs: seq<seq<Session>>, released: seq<Session>, goal: Result)
      reads `chains, `index, index.Keys`timeOut
    {
      && k <= |cs| == |chains| && Known(cs, TimesOf(index.Keys), released)
      && (forall g :: k <= g < |cs| ==> Data(chains[g]) == Minus(cs[g], Members(released)))
      && SweepOn(cs, k, TimesOf(index.Keys), released) == goal
    }

    lemma SweepingOn(k: nat, cs: seq<seq<Session>>, was: Chains, before: Index, released: seq<Session>,
        more: seq<Session>, t: Times, goal: Result)
      requires k < |cs| == |was| == |chains| && Known(cs, t, released) && SweepOn(cs, k, t, released) == goal
      requires forall g :: k <= g < |cs| ==> Data(was[g]) == Minus(cs[g], Members(released))
      requires forall r :: r in Data(was[k]) ==> r in t
      requires WalkOn(Data(was[k]), 0, t, []) == Result(TimesOf(before.Keys), more)
      requires index == before - Members(more) && Others(k, Datas(was), more)
      ensures Sweeping(k + 1, cs, released + more, goal)
    {
      hide WalkOn, Data, Minus;
      assert TimesOf(index.Keys) == TimesOf(before.Keys) - Members(more);
      assert Bucket(cs, k, t, released) == Result(TimesOf(before.Keys), more);
      assert Members(released + more) == Members(released) + Members(more);
      forall g | k + 1 <= g < |cs| ensures Data(chains[g]) == Minus(cs[g], Members(released + more)) {
        MinusMore(cs[g], Members(released), Members(more));
      }
    }

    lemma StartSweeping()
      requires Valid()
      ensures |chains| == heads.Length && Known(Datas(chains), TimesOf(index.Keys), [])
      ensures Sweeping(0, Datas(chains), [], SweepOn(Datas(chains), 0, TimesOf(index.Keys), []))
    {
      var cs, t := Datas(chains), TimesOf(index.Keys);
      forall k, r | 0 <= k < |cs| && r in cs[k] ensures r in t {
        if r !in index {
          NotIn(k, r);
        }
      }
      StartOthers(|chains|);
    }

    /** Every session has its two nodes somewhere, and never more in one bucket. */
    lemma NodesCounted(r: Session)
      requires Valid() && r in index
      ensures CountAll(Datas(chains), 0, r) == 2
    {
      NodesFrom(0, r);
    }

    lemma {:induction false} NodesFrom(k: nat, r: Session)
      requires Valid() && r in index && k <= |chains| == heads.Length
      ensures CountAll(Datas(chains), k, r) == 2 - NodesBelow(r, k)
      decreases |chains| - k
    {
      hide DBKeyHashTable.Valid, Count;
      if k < |chains| {
        BucketCounts(k, r);
        NodesFrom(k + 1, r);
        assert CountAll(Datas(chains), k, r) == Count(Data(chains[k]), r) + CountAll(Datas(chains), k + 1, r);
      } else {
        TableSize();
        assert NodesBelow(r, k) == 2;
      }
    }

    lemma FewInBucket(k: nat)
      requires Valid() && k < |chains|
      ensures AtMostTwo(Data(chains[k]))
    {
      hide DBKeyHashTable.Valid, Count;
      forall r ensures Count(Data(chains[k]), r) <= 2 {
        BucketCounts(k, r);
      }
    }

    lemma Counted()
      requires Valid()
      ensures forall r :: r in index ==> CountAll(Datas(chains), 0, r) == 2
      ensures forall k :: 0 <= k < |chains| ==> AtMostTwo(Datas(chains)[k])
    {
      hide DBKeyHashTable.Valid, CountAll, AtMostTwo;
      forall r | r in index ensures CountAll(Datas(chains), 0, r) == 2 {
        NodesCounted(r);
      }
      forall k | 0 <= k < |chains| ensures AtMostTwo(Datas(chains)[k]) {
        FewInBucket(k);
      }
    }

    /** The sweep has come to its end. */
    lemma SweepTicks(cs: seq<seq<Session>>, was: Times, released: seq<Session>)
      requires Known(cs, was, []) && Sweeping(|cs|, cs, released, SweepOn(cs, 0, was, []))
      requires forall k :: 0 <= k < |cs| ==> AtMostTwo(cs[k])
      ensures SweepOn(cs, 0, was, []) == Result(TimesOf(index.Keys), released)
      ensures forall r :: r in was && r !in released && was[r] > 0 ==>
                r in index && TicksOf(was[r], r.timeOut, CountAll(cs, 0, r), AgainIn(cs, 0, was, [], r))
    {
      hide AtMostTwo, TicksOf, CountAll, AgainIn;
      assert SweepOn(cs, |cs|, TimesOf(index.Keys), released) == Result(TimesOf(index.Keys), released);
      hide SweepOn;
      forall r | r in was && r !in released && was[r] > 0
        ensures r in index && TicksOf(was[r], r.timeOut, CountAll(cs, 0, r), AgainIn(cs, 0, was, [], r))
      {
        SweepExact(cs, 0, was, [], r);
      }
    }

    /** sessiontmrhandle: the walks over all buckets.  Each session goes at most once, and exactly if its time
        runs out; one that stays has lost two ticks at least, and exactly two unless a session with both its
        nodes in one bucket ran out and made a walk start again. */
    method Sweep() returns (released: seq<Session>)
      requires Valid()
      modifies `chains, `index, heads, nodes`next, index.Keys`timeOut
      ensures Valid() && index == old(index) - Members(released) && NoneTwice(released)
      ensures forall r :: r in released ==> r in old(index)
      ensures forall r :: r in old(index) ==> Fate(old(r.timeOut), r.timeOut, 2, r in released)
      ensures old(AllQuiet(TimesOf(index.Keys))) ==> forall r :: r in old(index) ==>
                && (r in released <==> 0 < old(r.timeOut) <= 2 * MINI_TIMER_VALUE)
                && (r in released ==> r.timeOut == old(r.timeOut) - MINI_TIMER_VALUE * FinalTicks(old(r.timeOut)))
                && (r !in released ==> r.timeOut == if old(r.timeOut) > 0 then old(r.timeOut) - 2 * MINI_TIMER_VALUE
                   else old(r.timeOut))
      ensures Known(Datas(old(chains)), old(TimesOf(index.Keys)), [])
      ensures SweepOn(Datas(old(chains)), 0, old(TimesOf(index.Keys)), []) == Result(TimesOf(index.Keys), released)
      ensures forall r :: r in old(index) && r !in released && old(r.timeOut) > 0 ==>
                TicksOf(old(r.timeOut), r.timeOut, 2, AgainIn(Datas(old(chains)), 0, old(TimesOf(index.Keys)), [], r))
    {
      hide DBKeyHashTable.Valid, DBKeyHashTable.Swept, DBKeyHashTable.SweptCalmly, DBKeyHashTable.AllQuiet, Members;
      hide DBKeyHashTable.Sweeping, SweepOn, AgainIn, CountAll, Datas, TicksOf, AtMostTwo;
      ghost var idx0, was, cs := index, TimesOf(index.Keys), Datas(chains);
      released := [];
      SweepStarts(idx0, was);
      StartSweeping();
      Counted();
      ghost var goal := SweepOn(cs, 0, was, []);
      for k := 0 to heads.Length
        invariant Valid() && |chains| == heads.Length && nodes == old(nodes) && index == idx0 - Members(released)
                  && was.Keys == idx0.Keys
        invariant Swept(k, was, TimesOf(idx0.Keys), released)
        invariant AllQuiet(was) ==> SweptCalmly(k, was, TimesOf(idx0.Keys), released)
        invariant Sweeping(k, cs, released, goal)
      {
        released := SweepBucket(k, idx0, was, released, cs, goal);
      }
      SweepEnds(was, TimesOf(idx0.Keys), released);
      SweepTicks(cs, was, released);
    }

    /** The walk over one bucket, after those over the buckets below. */
    method SweepBucket(k: nat, ghost idx0: Index, ghost was: Times, released: seq<Session>,
        ghost cs: seq<seq<Session>>, ghost goal: Result)
      returns (released': seq<Session>)
      requires Valid() && k < |chains| == heads.Length && index == idx0 - Members(released) && was.Keys == idx0.Keys
      requires Swept(k, was, TimesOf(idx0.Keys), released)
      requires AllQuiet(was) ==> SweptCalmly(k, was, TimesOf(idx0.Keys), released)
      requires Sweeping(k, cs, released, goal)
      modifies `chains, `index, heads, nodes`next, index.Keys`timeOut
      ensures Valid() && |chains| == heads.Length && nodes == old(nodes) && index == idx0 - Members(released')
      ensures Swept(k + 1, was, TimesOf(idx0.Keys), released')
      ensures AllQuiet(was) ==> SweptCalmly(k + 1, was, TimesOf(idx0.Keys), released')
      ensures Sweeping(k + 1, cs, released', goal)
    {
      hide DBKeyHashTable.Valid, DBKeyHashTable.Settled, DBKeyHashTable.SettledCalmly, DBKeyHashTable.Quiet, WalkOn;
      hide DBKeyHashTable.Swept, DBKeyHashTable.SweptCalmly, DBKeyHashTable.AllQuiet, DBKeyHashTable.Left, Members;
      hide TimesOf, SweepOn, Known, Data, Datas, Minus, DBKeyHashTable.Others;
      ghost var mid, part, left, before := TimesOf(idx0.Keys), TimesOf(index.Keys), index, chains;
      ghost var others := TimesOf(idx0.Keys - left.Keys);
      LeftIs(idx0, left, released, part, mid);
      if AllQuiet(was) {
        StillQuiet(k, was, mid, released, part);
      }
      var more := WalkBucket(k, idx0.Keys);
      SweepStep(k, idx0, left, was, mid, released, part, others, more);
      SweepingOn(k, cs, before, left, released, more, part, goal);
      released' := released + more;
    }

    /** The walk over one bucket touches no session that is not in the table. */
    method WalkBucket(k: nat, ghost all: set<Session>) returns (more: seq<Session>)
      requires Valid() && k < |chains|
      modifies `chains, `index, heads, nodes`next, index.Keys`timeOut
      ensures Valid() && |chains| == heads.Length && nodes == old(nodes) && index == old(index) - Members(more)
      ensures Settled(k, old(TimesOf(index.Keys)), TimesOf(old(index).Keys), more)
      ensures old(Quiet(k, TimesOf(index.Keys))) ==>
                SettledCalmly(k, old(TimesOf(index.Keys)), TimesOf(old(index).Keys), more)
      ensures TimesOf(all - old(index).Keys) == old(TimesOf(all - index.Keys))
      ensures forall r :: r in Data(old(chains)[k]) ==> r in old(index)
      ensures WalkOn(Data(old(chains)[k]), 0, old(TimesOf(index.Keys)), []) == Result(TimesOf(old(index).Keys), more)
      ensures Others(k, Datas(old(chains)), more)
    {
      hide DBKeyHashTable.Valid, DBKeyHashTable.Others, DBKeyHashTable.Settled, DBKeyHashTable.SettledCalmly;
      hide DBKeyHashTable.SettledExactly, DBKeyHashTable.Quiet, Data, Datas, WalkOn, Members;
      more := LoopDelete(k);
    }

    lemma SweepStep(k: nat, idx0: Index, left: Index, was: Times, mid: Times, released: seq<Session>, part: Times,
        others: Times, more: seq<Session>)
      requires left == idx0 - Members(released) && index == left - Members(more) && left.Keys == part.Keys
      requires mid.Keys == was.Keys == idx0.Keys && others == TimesOf(idx0.Keys - left.Keys)
      requires forall r :: r in others ==> others[r] == mid[r]
      requires Swept(k, was, mid, released) && (AllQuiet(was) ==> SweptCalmly(k, was, mid, released))
      requires Left(part, mid, released) && Settled(k, part, TimesOf(left.Keys), more)
      requires AllQuiet(was) ==> Quiet(k, part) && SettledCalmly(k, part, TimesOf(left.Keys), more)
      ensures index == idx0 - Members(released + more) && Swept(k + 1, was, TimesOf(idx0.Keys), released + more)
      ensures AllQuiet(was) ==> SweptCalmly(k + 1, was, TimesOf(idx0.Keys), released + more)
    {
      hide DBKeyHashTable.Settled, DBKeyHashTable.SettledCalmly, DBKeyHashTable.Swept, DBKeyHashTable.SweptCalmly;
      hide DBKeyHashTable.AllQuiet, DBKeyHashTable.Quiet, DBKeyHashTable.Left, DBKeyHashTable.Follows, Members, TimesOf;
      var part', now := TimesOf(left.Keys), TimesOf(idx0.Keys);
      NowFollows(idx0, left, was, mid, released, part, others);
      SweptMore(k, was, mid, released, part, part', more, now);
      if AllQuiet(was) {
        SettledKeys(k, part, part', more);
        SweptMoreCalmly(k, was, mid, released, part, part', more, now);
      }
      MembersBoth(idx0, released, more);
    }

    lemma SettledKeys(k: nat, part: Times, part': Times, more: seq<Session>)
      requires Settled(k, part, part', more)
      ensures forall x :: x in more ==> x in part
    {
    }

    lemma NowFollows(idx0: Index, left: Index, was: Times, mid: Times, released: seq<Session>, part: Times,
        others: Times)
      requires Left(part, mid, released) && mid.Keys == was.Keys == idx0.Keys && part.Keys == left.Keys
               && left.Keys <= idx0.Keys
      requires others == TimesOf(idx0.Keys - left.Keys) && forall r :: r in others ==> others[r] == mid[r]
      ensures Follows(was, mid, released, part, TimesOf(left.Keys), TimesOf(idx0.Keys))
    {
      forall r | r in was ensures TimesOf(idx0.Keys)[r] == if r in part then TimesOf(left.Keys)[r] else mid[r] {
        if r !in part {
          assert r in others;
        }
      }
    }

    lemma SweepStarts(idx0: Index, was: Times)
      requires Valid() && was == TimesOf(idx0.Keys) && index == idx0
      ensures |chains| == heads.Length && index == idx0 - Members([]) && Swept(0, was, was, [])
              && SweptCalmly(0, was, was, [])
    {
      assert Members([]) == {};
    }

    lemma LeftIs(idx0: Index, left: Index, released: seq<Session>, part: Times, mid: Times)
      requires left == idx0 - Members(released) && part.Keys == left.Keys && mid.Keys == idx0.Keys
      requires forall r :: r in part ==> r in mid && part[r] == mid[r]
      ensures Left(part, mid, released)
    {
    }

    lemma WalkWithin(h: nat, i: nat, idx0: Index, released: seq<Session>, goal: Result)
      requires Walk(h, i, idx0, released, goal)
      ensures h < |chains| == heads.Length && i <= |chains[h]|
    {
    }

    lemma WalkHere(h: nat, i: nat, idx0: Index, released: seq<Session>, goal: Result)
      requires Walk(h, i, idx0, released, goal)
      ensures Valid() && h < |chains| == heads.Length && i <= |chains[h]|
      ensures index == idx0 - Members(released) && (forall r :: r in Data(chains[h]) ==> r in idx0)
      ensures WalkOn(Data(chains[h]), i, TimesOf(idx0.Keys), released) == goal
      ensures i < |chains[h]| ==> chains[h][i].data in idx0
    {
      assert i < |chains[h]| ==> Data(chains[h])[i] == chains[h][i].data;
    }

    lemma EndWalk(h: nat, idx0: Index, released: seq<Session>, goal: Result)
      requires h < |chains| && Walk(h, |chains[h]|, idx0, released, goal)
      ensures Valid() && |chains| == heads.Length && index == idx0 - Members(released)
      ensures goal == Result(TimesOf(idx0.Keys), released)
    {
      WalkEnds(Data(chains[h]), TimesOf(idx0.Keys), released);
    }

    lemma StartWalk(h: nat)
      requires Valid() && h < |chains|
      ensures |chains| == heads.Length && forall r :: r in Data(chains[h]) ==> r in index
      ensures Walk(h, 0, index, [], WalkOn(Data(chains[h]), 0, TimesOf(index.Keys), []))
      ensures heads[h] == if chains[h] == [] then null else chains[h][0]
    {
      hide WalkOn;
      assert index - Members([]) == index;
      forall r | r in Data(chains[h]) ensures r in index {
        var i :| 0 <= i < |chains[h]| && Data(chains[h])[i] == r;
        NodeIn(h, i);
      }
      PlaceIs(h, 0);
    }
  }

  lemma MembersBoth(idx: Index, rs: seq<Session>, more: seq<Session>)
    ensures idx - Members(rs) - Members(more) == idx - Members(rs + more)
  {
    assert Members(rs + more) == Members(rs) + Members(more);
  }

  /** Of one bucket, the nodes of one session. */
  lemma {:induction false} CountNodes(ns: seq<LinkNode>, a: LinkNode, b: LinkNode, r: Session)
    requires a != b && a.data == b.data == r && forall n :: n in ns && n.data == r ==> n == a || n == b
    requires forall i, j :: 0 <= i < j < |ns| ==> ns[i] != ns[j]
    ensures Count(Data(ns), r) == (if a in ns then 1 else 0) + if b in ns then 1 else 0
  {
    if ns != [] {
      CountNodes(ns[1..], a, b, r);
      assert Data(ns)[1..] == Data(ns[1..]) && ns[0] in ns;
      assert forall n :: n in ns <==> n == ns[0] || n in ns[1..];
      assert ns[0] !in ns[1..];
    }
  }

  lemma MembersMore(idx: Index, rs: seq<Session>, r: Session)
    ensures idx - Members(rs) - {r} == idx - Members(rs + [r])
  {
    assert Members(rs + [r]) == Members(rs) + {r};
  }

  /** One turn, on values. */
  lemma Led(c: seq<Session>, i: nat, t: Times, gone: seq<Session>, goes: bool, c': seq<Session>, i': nat, t': Times)
    requires i < |c| && (forall r :: r in c ==> r in t)
    requires t' == (if t[c[i]] <= 0 then t else t[c[i] := t[c[i]] - MINI_TIMER_VALUE])
             && (goes <==> 0 < t[c[i]] <= MINI_TIMER_VALUE)
    requires if !goes then c' == c && i' == i + 1
             else var rest := Cut(c, i); if c[i] in rest then c' == Cut(rest, IndexOf(rest, c[i])) && i' == 0
               else c' == rest && i' == i
    ensures i' <= |c'| && (forall r :: r in c' ==> r in t') && (goes ==> |c'| < |c|)
    ensures WalkOn(c', i', t', if goes then gone + [c[i]] else gone) == WalkOn(c, i, t, gone)
  {
    hide WalkOn;
    if goes {
      RunsOut(c, i, t, gone);
    } else {
      Onward(c, i, t, gone);
    }
  }

  /** The sessions of a bucket after node i, and perhaps its partner, are gone. */
  lemma DropData(ns: seq<LinkNode>, i: nat, rest: seq<LinkNode>, partner: LinkNode?, both: bool, now: seq<LinkNode>)
    requires i < |ns| && rest == Cut(ns, i)
    requires forall j :: 0 <= j < |rest| && rest[j].data == ns[i].data ==> rest[j] == partner && both
    requires forall j, k :: 0 <= j < k < |rest| ==> rest[j] != rest[k]
    requires if both then exists j :: 0 <= j < |rest| && rest[j] == partner && now == Cut(rest, j) else now == rest
    requires partner != null && partner.data == ns[i].data
    ensures var c, r := Cut(Data(ns), i), ns[i].data;
      Data(now) == if r in c then Cut(c, IndexOf(c, r)) else c
    ensures both <==> ns[i].data in Cut(Data(ns), i)
  {
    hide IndexOf;
    var c, r := Cut(Data(ns), i), ns[i].data;
    assert c == Data(rest);
    if r in c {
      assert rest[IndexOf(c, r)].data == r;
    }
    if both {
      var j :| 0 <= j < |rest| && rest[j] == partner && now == Cut(rest, j);
      assert c[j] == r;
      assert Data(now) == Cut(c, j);
    }
  }

  /** sessiondatproc. */
  method SessionDatProc(s: Session) returns (ret: int)
    modifies s`timeOut
    ensures s.timeOut == if old(s.timeOut) > 0 then old(s.timeOut) - 5 else old(s.timeOut)
    ensures ret == if old(s.timeOut) > 0 >= s.timeOut then -1 else 1
  {
    if s.timeOut > 0 {
      s.timeOut := s.timeOut - MINI_TIMER_VALUE;
      if s.timeOut <= 0 {
        return -1;
      }
    }
    return 1;
  }

  lemma CutMember(s: seq<LinkNode>, i: nat, n: LinkNode)
    requires i < |s| && forall k, l :: 0 <= k < l < |s| ==> s[k] != s[l]
    ensures n in Cut(s, i) <==> n in s && n != s[i]
  {
    if n in s && n != s[i] {
      var j :| 0 <= j < |s| && s[j] == n;
      assert Cut(s, i)[if j < i then j else j - 1] == n;
    }
  }

  /** A restart takes more than two ticks: two new sessions with 25 and 5 seconds left, in the order in which
      they are inserted here into a table of one bucket, lose four ticks and go. */
  method RestartTakesMore(hash: Key -> nat)
      returns (table: DBKeyHashTable, a: Session, b: Session, released: seq<Session>)
    ensures table.Valid() && table.index.Keys == {a} && released == [b] && a != b
    ensures a.timeOut == 25 - 4 * MINI_TIMER_VALUE
  {
    hide DBKeyHashTable.Valid, WalkOn, DBKeyHashTable.Settled, DBKeyHashTable.SettledCalmly,
         DBKeyHashTable.SettledExactly;
    hide DBKeyHashTable.Quiet, Members, TimesOf;
    table, a, b := TwoSessions(hash);
    ghost var was := TimesOf(table.index.Keys);
    released := table.LoopDelete(0);
    RestartTicks(a, b, was);
    OneLeft(a, b);
  }

  lemma OneLeft(a: Session, b: Session)
    requires a != b
    ensures forall idx: Index :: idx.Keys == {a, b} ==> (idx - Members([b])).Keys == {a}
  {
    assert Members([b]) == {b};
  }

  method TwoSessions(hash: Key -> nat) returns (table: DBKeyHashTable, a: Session, b: Session)
    ensures fresh(table) && fresh(table.heads) && fresh(table.nodes) && fresh(a) && fresh(b) && a != b
    ensures table.Valid() && table.index.Keys == {a, b} && a.timeOut == 25 && b.timeOut == 5
    ensures |table.chains| == 1 && Data(table.chains[0]) == [a, a, b, b]
  {
    hide DBKeyHashTable.Valid, DBKeyHashTable.NewNodes;
    table := new DBKeyHashTable(1, hash);
    b := new Session(1, 2, 5);
    a := new Session(3, 4, 25);
    assert Data(table.chains[0]) == [];
    table.Insert(b);
    table.Insert(a);
    OneBucket(table, a, b);
  }

  lemma OneBucket(table: DBKeyHashTable, a: Session, b: Session)
    requires table.heads.Length == 1
    ensures table.NewNodes(a, 0) + (table.NewNodes(b, 0) + Data([])) == [a, a, b, b]
  {
  }
}
