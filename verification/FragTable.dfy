/** The table of partial datagrams: hash.c and shash.c, and the functions of defrag6.c and fragment.c
    that work on it. */
module FragTable {
  import opened Tunnels
  import opened Keys
  import opened Fragments
  import opened Reassembly

  class FragNode {
    const data: Piece
    ghost const owner: BucketNode
    var front: FragNode?
    var next: FragNode?

    constructor (data: Piece, ghost owner: BucketNode)
      ensures this.data == data && this.owner == owner && front == null && next == null
    {
      this.data, this.owner, front, next := data, owner, null, null;
    }
  }

  ghost function Datas(frags: seq<FragNode>): (list: seq<Piece>)
    ensures |list| == |frags|
  {
    seq(|frags|, i requires 0 <= i < |frags| => frags[i].data)
  }

  lemma DatasTail(frags: seq<FragNode>)
    requires frags != []
    ensures Datas(frags) != [] && Datas(frags)[0] == frags[0].data && Datas(frags)[1..] == Datas(frags[1..])
  {
  }

  /** The first piece of a list is written and counted before the others. */
  lemma DrainStep(buf: seq<Byte>, list: seq<Piece>)
    requires list != [] && forall p :: p in list ==> p.End() <= |buf|
    ensures Sum(list) == |list[0].data| + Sum(list[1..])
    ensures list[0].End() <= |buf| && list[0].off <= list[0].End()
    ensures var next := buf[..list[0].off] + list[0].data + buf[list[0].End()..];
      |next| == |buf| && (forall p :: p in list[1..] ==> p.End() <= |buf|)
        && Written(buf, list) == Written(next, list[1..])
  {
    assert list[0] in list;
  }

  lemma DrainEnds(buf: seq<Byte>, frags: seq<FragNode>)
    requires frags == []
    ensures Datas(frags) == [] && Sum(Datas(frags)) == 0 && Written(buf, Datas(frags)) == buf
  {
  }

  ghost predicate FragAt(b: BucketNode, frags: seq<FragNode>, i: nat)
    requires i < |frags|
    reads frags[i]
  {
    && frags[i].owner == b
    && frags[i].next == (if i + 1 < |frags| then frags[i + 1] else null)
    && frags[i].front == (if 0 < i then frags[i - 1] else null)
  }

  /** The nodes are linked both ways from first on; the head itself, as a front, is null. */
  ghost predicate FragChain(b: BucketNode, first: FragNode?, frags: seq<FragNode>)
    reads frags
  {
    && first == (if frags == [] then null else frags[0])
    && (forall i, j :: 0 <= i < j < |frags| ==> frags[i] != frags[j])
    && forall i {:trigger FragAt(b, frags, i)} :: 0 <= i < |frags| ==> FragAt(b, frags, i)
  }

  /** A bucket with its tuple and the head of its fragment list. */
  class BucketNode {
    const key: Key
    var next: BucketNode?
    var first: FragNode?
    var len: UInt32
    var length: UInt32
    var flag: bool
    var timeOut: int
    var cnt: nat
    ghost var frags: seq<FragNode>

    /** createfragtuple, and the new bucket node of ShashInsert. */
    constructor (key: Key, timeOut: int)
      ensures this.key == key && next == null && this.timeOut == timeOut
      ensures Valid() && View() == EMPTY && frags == []
    {
      this.key, next, first := key, null, null;
      len, length, flag, cnt, this.timeOut, frags := 0, 0, false, 0, timeOut, [];
    }

    ghost predicate Valid()
      reads `first, `frags, frags
    {
      FragChain(this, first, frags)
    }

    ghost function View(): Entry
      reads `frags, `len, `length, `flag, `cnt
    {
      Entry(Datas(frags), len, length, flag, cnt)
    }

    /** updatelength. */
    method UpdateLength(p: Piece) returns (ret: int)
      requires p.End() < 0x1_0000_0000
      modifies `len, `length, `flag
      ensures View() == old(Counted(View(), p)) && (ret == 1 || ret == -1) && (ret == 1 <==> Complete(View()))
    {
      len := Add32(len, |p.data|);
      if !p.more {
        length := Add32(p.off, |p.data|);
        flag := true;
      }
      if flag {
        if len == length {
          return 1;
        }
      }
      return -1;
    }

    /** Links a node between two neighbours of the list; before the first, the head is the front. */
    method LinkAt(node: FragNode, front: FragNode?, after: FragNode?, ghost j: nat)
      requires Valid() && j <= |frags| && node !in frags && node.owner == this
      requires front == (if 0 < j then frags[j - 1] else null) && after == if j < |frags| then frags[j] else null
      modifies `first, `frags, frags, node
      ensures Valid() && frags == old(frags)[..j] + [node] + old(frags)[j..]
    {
      ghost var was := frags;
      node.next := after;
      node.front := front;
      if front == null {
        first := node;
      } else {
        front.next := node;
      }
      if after != null {
        after.front := node;
      }
      frags := was[..j] + [node] + was[j..];
      forall i: nat | i < |frags| ensures FragAt(this, frags, i) {
        assert i < j ==> old(FragAt(this, was, i));
        assert i > j ==> old(FragAt(this, was, i - 1));
      }
    }

    lemma Neighbours(j: nat)
      requires Valid() && j < |frags|
      ensures frags[j].next == if j + 1 < |frags| then frags[j + 1] else null
      ensures frags[j].front == if 0 < j then frags[j - 1] else null
      ensures first == frags[0]
    {
      assert FragAt(this, frags, j);
    }

    /** The new node at place j is what Inserted asks for. */
    lemma LinkedIs(was: seq<FragNode>, node: FragNode, list: seq<Piece>, j: nat)
      requires j <= |was| && frags == was[..j] + [node] + was[j..] && list == Datas(was)
      requires forall i :: 0 <= i < j ==> was[i].data.off < node.data.off
      requires j < |was| ==> node.data.off < was[j].data.off
      ensures Datas(frags) == Inserted(list, node.data)
      ensures forall i :: 0 <= i < |frags| ==> frags[i] in was || frags[i] == node
    {
      InsertedAt(list, node.data, j);
      assert Datas(frags) == list[..j] + [node.data] + list[j..];
    }

    lemma DroppedIs(p: Piece, j: nat)
      requires j < |frags| && frags[j].data.off == p.off
      requires forall i :: 0 <= i < j ==> frags[i].data.off < p.off
      ensures Datas(frags) == Inserted(Datas(frags), p)
    {
      InsertedAt(Datas(frags), p, j);
    }

    /** ShashFragInsert: a fragment goes before the first with a bigger offset, and is dropped at an
        equal one. */
    method FragInsert(p: Piece)
      requires Valid()
      modifies `first, `frags, frags
      ensures Valid() && View() == old(View()).(list := Inserted(old(View().list), p))
      ensures forall i :: 0 <= i < |frags| ==> frags[i] in old(frags) || fresh(frags[i])
    {
      hide Inserted, BucketNode.Valid, Datas;
      ghost var was, list := frags, Datas(frags);
      var newNode := new FragNode(p, this);
      if first == null {
        EmptyList();
        LinkAt(newNode, null, null, 0);
        LinkedIs(was, newNode, list, 0);
        return;
      }
      FirstIs();
      var node := first;
      ghost var j := 0;
      while true
        invariant Valid() && frags == was && j < |frags| && node == frags[j]
        invariant first == old(first) && forall i :: 0 <= i < j ==> frags[i].data.off < p.off
        decreases |frags| - j
      {
        Neighbours(j);
        if node.data.off == p.off {
          DroppedIs(p, j);
          return;
        }
        if node.data.off > p.off {
          LinkAt(newNode, node.front, node, j);
          LinkedIs(was, newNode, list, j);
          return;
        }
        if node.next == null || node.next.data.off > p.off {
          LinkAt(newNode, node, node.next, j + 1);
          LinkedIs(was, newNode, list, j + 1);
          return;
        }
        node := node.next;
        j := j + 1;
      }
    }

    lemma EmptyList()
      requires Valid() && first == null
      ensures frags == []
    {
    }

    lemma FirstIs()
      requires Valid() && first != null
      ensures frags != [] && first == frags[0]
    {
    }

    /** fragprocess: the pieces are copied to the buffer in list order and unlinked one by one. */
    method Drain(buf: array<Byte>) returns (pktlen: nat)
      requires Valid() && forall p :: p in View().list ==> p.End() <= buf.Length
      modifies `first, `frags, frags, buf
      ensures Valid() && frags == [] && View() == old(View()).(list := [])
      ensures pktlen == Sum(old(View().list)) && buf[..] == Written(old(buf[..]), old(View().list))
    {
      hide Written, Sum, Datas;
      ghost var list, k := View().list, 0;
      pktlen := 0;
      while first != null
        invariant Valid() && View() == old(View()).(list := Datas(frags))
        invariant k <= |old(frags)| && frags == old(frags)[k..]
        invariant forall p :: p in Datas(frags) ==> p.End() <= buf.Length
        invariant pktlen + Sum(Datas(frags)) == Sum(list)
        invariant Written(buf[..], Datas(frags)) == Written(old(buf[..]), list)
        decreases |frags|
      {
        FirstIs();
        DatasTail(frags);
        DrainStep(buf[..], Datas(frags));
        Copy(buf, first.data);
        pktlen := pktlen + |first.data.data|;
        Unlink();
        k := k + 1;
      }
      EmptyList();
      DrainEnds(buf[..], frags);
    }

    /** ShashFragDel: the list is walked to its end and dropped. */
    method FragDel() returns (ret: int)
      requires Valid()
      modifies `first, `frags
      ensures Valid() && frags == [] && ret == if old(frags) == [] then -1 else 1
    {
      if first == null {
        return -1;
      }
      var node: FragNode? := first;
      ghost var j := 0;
      while node != null
        invariant j <= |frags| && node == if j < |frags| then frags[j] else null
        decreases |frags| - j
      {
        assert FragAt(this, frags, j);
        node := node.next;
        j := j + 1;
      }
      first, frags := null, [];
      return 1;
    }

    /** memcpy of one piece. */
    static method Copy(buf: array<Byte>, p: Piece)
      requires p.End() <= buf.Length
      modifies buf
      ensures buf[..] == old(buf[..p.off]) + p.data + old(buf[p.End()..])
    {
      forall i | 0 <= i < |p.data| {
        buf[p.off + i] := p.data[i];
      }
    }

    method Unlink()
      requires Valid() && first != null
      modifies `first, `frags, frags
      ensures Valid() && frags == old(frags)[1..]
    {
      ghost var was := frags;
      assert FragAt(this, was, 0);
      var next := first.next;
      first := next;
      if next != null {
        assert FragAt(this, was, 1);
        next.front := null;
      }
      frags := was[1..];
      forall i: nat | i < |frags| ensures FragAt(this, frags, i) {
        assert old(FragAt(this, was, i + 1));
      }
    }
  }

  lemma InsertedStep(list: seq<Piece>, p: Piece)
    requires list != [] && list[0].off < p.off
    ensures Inserted(list, p) == [list[0]] + Inserted(list[1..], p)
  {
  }

  lemma InsertedHere(list: seq<Piece>, p: Piece)
    ensures list == [] || p.off < list[0].off ==> Inserted(list, p) == [p] + list
    ensures list != [] && p.off == list[0].off ==> Inserted(list, p) == list
  {
  }

  lemma ConsSplit(list: seq<Piece>, p: Piece, j: nat)
    requires 0 < j <= |list|
    ensures [list[0]] + (list[1..][..j - 1] + [p] + list[1..][j - 1..]) == list[..j] + [p] + list[j..]
    ensures [list[0]] + list[1..] == list
  {
    assert list[1..][j - 1..] == list[j..] && [list[0]] + list[1..][..j - 1] == list[..j];
  }

  /** Inserted, by position. */
  lemma {:induction false} InsertedAt(list: seq<Piece>, p: Piece, j: nat)
    requires j <= |list| && forall i :: 0 <= i < j ==> list[i].off < p.off
    ensures j == |list| || p.off < list[j].off ==> Inserted(list, p) == list[..j] + [p] + list[j..]
    ensures j < |list| && p.off == list[j].off ==> Inserted(list, p) == list
    decreases j
  {
    hide Inserted;
    if 0 < j {
      InsertedStep(list, p);
      InsertedAt(list[1..], p, j - 1);
      ConsSplit(list, p, j);
    } else {
      InsertedHere(list, p);
      assert list[..0] + [p] + list[0..] == [p] + list;
    }
  }

  const BUFSIZE := 66000

  ghost predicate Fits(list: seq<Piece>) {
    forall p :: p in list ==> p.End() <= BUFSIZE
  }

  /** The hash table: one chain of buckets for each value of the hash. */
  class ShashCb {
    const table: array<BucketNode?>
    const hash: Key -> nat
    ghost var chains: seq<seq<BucketNode>>
    ghost var index: map<Key, BucketNode>
    ghost var frags: set<FragNode>

    function Slot(k: Key): nat
      requires table.Length > 0
    {
      hash(k) % table.Length
    }

    ghost predicate Shape()
      reads `chains
    {
      table.Length > 0 && |chains| == table.Length
    }

    ghost predicate BucketOK(k: Key)
      requires Shape() && k in index
      reads this, {index[k]}`first, {index[k]}`frags, frags
    {
      var b := index[k];
      && b.key == k && b in chains[Slot(k)] && (forall n :: n in b.frags ==> n in frags)
      && b.Valid() && Fits(Datas(b.frags))
    }

    ghost predicate LinkOK(h: nat, i: nat)
      requires Shape() && h < |chains| && i < |chains[h]|
      reads `chains, `index, {chains[h][i]}`next
    {
      var b := chains[h][i];
      && b.key in index && index[b.key] == b && Slot(b.key) == h
      && b.next == if i + 1 < |chains[h]| then chains[h][i + 1] else null
    }

    ghost predicate HeadOK(h: nat)
      requires Shape() && h < |chains|
      reads `chains, table
    {
      && table[h] == (if chains[h] == [] then null else chains[h][0])
      && forall i, j :: 0 <= i < j < |chains[h]| ==> chains[h][i] != chains[h][j]
    }

    ghost predicate Known(h: nat, i: nat)
      requires Shape() && h < |chains| && i < |chains[h]|
      reads `chains, `index
    {
      chains[h][i] in index.Values
    }

    /** The chains hold the indexed buckets, each in the chain of its hash. */
    ghost predicate Linked()
      requires Shape()
      reads `chains, `index, table, index.Values`next
    {
      && (forall h {:trigger HeadOK(h)} :: 0 <= h < |chains| ==> HeadOK(h))
      && (forall h, i {:trigger LinkOK(h, i)} :: 0 <= h < |chains| && 0 <= i < |chains[h]| ==>
            Known(h, i) && LinkOK(h, i))
    }

    ghost predicate Stored()
      requires Shape()
      reads this, index.Values`first, index.Values`frags, frags
    {
      forall k {:trigger BucketOK(k)} :: k in index ==> BucketOK(k)
    }

    ghost predicate Valid()
      reads this, table, index.Values, frags
    {
      Shape() && Stored() && Linked()
    }

    ghost function View(): Table
      reads this, index.Values
    {
      // The guard keeps the body a constant outside the index, where it may not depend on the state.
      map k | k in index :: if k in index then index[k].View() else EMPTY
    }

    /** ShashCreate. */
    constructor (size: nat, hash: Key -> nat)
      requires size > 0
      ensures Valid() && View() == map[] && fresh(table)
    {
      table := new BucketNode?[size](_ => null);
      this.hash := hash;
      chains, index, frags := seq(size, _ => []), map[], {};
    }

    /** ShashBucketFind. */
    method BucketFind(k: Key) returns (b: BucketNode?)
      requires Valid()
      ensures b == (if k in index then index[k] else null) && (b != null ==> b.key == k)
    {
      var h := Slot(k);
      assert HeadOK(h);
      b := table[h];
      ghost var i := 0;
      while b != null
        invariant i <= |chains[h]| && b == if i < |chains[h]| then chains[h][i] else null
        invariant forall j :: 0 <= j < i ==> chains[h][j].key != k
        decreases |chains[h]| - i
      {
        assert LinkOK(h, i);
        if b.key == k {
          return;
        }
        b := b.next;
        i := i + 1;
      }
      assert k in index ==> BucketOK(k);
    }

    /** ShashInsert of a new bucket, at the head of its chain. */
    method BucketInsert(k: Key, timeOut: int) returns (b: BucketNode)
      requires Valid() && k !in index
      modifies `chains, `index, table
      ensures Valid() && fresh(b) && b.key == k && index == old(index)[k := b] && frags == old(frags)
      ensures b.View() == EMPTY && b.timeOut == timeOut
    {
      NothingFits();
      hide FragChain, Datas, Fits, ShashCb.Linked;
      b := new BucketNode(k, timeOut);
      PutFirst(b);
      forall l | l in index ensures BucketOK(l) {
        if l != k {
          assert old(BucketOK(l));
        }
      }
    }

    /** The new bucket becomes the first of its chain. */
    method PutFirst(b: BucketNode)
      requires Shape() && Linked() && b.key !in index && b.next == null
      modifies `chains, `index, table, b`next
      ensures Shape() && Linked() && index == old(index)[b.key := b]
      ensures chains == old(chains)[Slot(b.key) := [b] + old(chains)[Slot(b.key)]]
    {
      var h := Slot(b.key);
      assert HeadOK(h);
      ghost var was := chains;
      if table[h] != null {
        b.next := table[h];
      }
      table[h] := b;
      chains, index := was[h := [b] + was[h]], index[b.key := b];
      forall g: nat, i: nat | g < |chains| && i < |chains[g]| ensures Known(g, i) && LinkOK(g, i) {
        if g != h {
          assert old(LinkOK(g, i));
        } else if i > 0 {
          assert old(LinkOK(h, i - 1)) && chains[h][i] == was[h][i - 1];
        }
        assert chains[g][i].key in index;
      }
      forall g: nat | g < |chains| ensures HeadOK(g) {
        assert old(HeadOK(g));
        forall i | 0 <= i < |was[h]| ensures was[h][i] != b {
          assert old(LinkOK(h, i));
        }
      }
    }

    lemma NothingFits()
      ensures Datas([]) == [] && Fits([])
    {
    }

    lemma OwnerOf(b: BucketNode)
      requires b.Valid()
      ensures forall n :: n in b.frags ==> n.owner == b
    {
      forall n | n in b.frags ensures n.owner == b {
        var i :| 0 <= i < |b.frags| && b.frags[i] == n;
        assert FragAt(b, b.frags, i);
      }
    }

    /** Two buckets have no fragment in common. */
    lemma Sharing(b: BucketNode)
      requires Valid() && b.key in index && index[b.key] == b
      ensures forall k, i :: k in index && k != b.key && 0 <= i < |index[k].frags| ==> index[k].frags[i] !in b.frags
      ensures forall k :: k in index && k != b.key ==> index[k] != b
    {
      assert BucketOK(b.key);
      OwnerOf(b);
      forall k | k in index && k != b.key
        ensures forall i :: 0 <= i < |index[k].frags| ==> index[k].frags[i] !in b.frags
      {
        assert BucketOK(k);
        OwnerOf(index[k]);
      }
      forall k | k in index && k != b.key ensures index[k] != b {
        assert BucketOK(k);
      }
    }

    /** fragnodeinsert for a bucket that is there, and fragprocess when it completes. */
    method Take(b: BucketNode, p: Piece, max: nat, timeOut: int, buf: array<Byte>) returns (done: bool, pktlen: nat)
      requires Valid() && b.key in index && index[b.key] == b && p.End() <= BUFSIZE <= buf.Length
      modifies b`cnt, b`timeOut, b`first, b`len, b`length, b`flag, b`frags, b.frags, `frags, buf
      ensures Valid() && b.View() == Received(old(b.View()), p, max) && done == Fires(old(b.View()), p, max)
      ensures done ==> var list := Arrived(old(b.View()), p, max).list;
        pktlen == Sum(list) && Fits(list) && buf[..] == Written(old(buf[..]), list)
      ensures !done ==> buf[..] == old(buf[..])
      ensures b.timeOut == if old(b.cnt) + 1 > max then old(b.timeOut) else timeOut
      ensures forall k :: k in index && k != b.key ==>
                index[k].View() == old(index[k].View()) && index[k].timeOut == old(index[k].timeOut)
    {
      hide BucketNode.Valid, BucketNode.View, Datas, Fits, Received, Fires, Arrived, Written, Sum, ShashCb.Linked;
      ghost var cs := index.Values - {b};
      Sharing(b);
      Goodness();
      done, pktlen := TakeAmong(b, p, max, timeOut, buf, cs);
      frags := frags + set n | n in b.frags;
      forall k | k in index ensures BucketOK(k) {
        assert old(BucketOK(k));
        ViewIs(index[k]);
      }
    }

    /** Unlinks the i-th bucket of a chain. */
    method CutBucket(h: nat, prev: BucketNode?, b: BucketNode, ghost i: nat)
      requires Shape() && Linked() && h < |chains| && i < |chains[h]| && b == chains[h][i]
      requires prev == if i > 0 then chains[h][i - 1] else null
      modifies `chains, `index, table, index.Values`next
      ensures Shape() && Linked() && b.key in old(index) && old(index)[b.key] == b && index == old(index) - {b.key}
      ensures chains == old(chains)[h := old(chains)[h][..i] + old(chains)[h][i + 1..]]
    {
      ghost var was, idx := chains, index;
      assert HeadOK(h) && LinkOK(h, i);
      if prev == null {
        table[h] := b.next;
      } else {
        assert LinkOK(h, i - 1);
        prev.next := b.next;
      }
      index, chains := index - {b.key}, was[h := was[h][..i] + was[h][i + 1..]];
      forall g: nat, j: nat | g < |chains| && j < |chains[g]| ensures Known(g, j) && LinkOK(g, j) {
        var k := if g == h && j >= i then j + 1 else j;
        assert old(LinkOK(g, k)) && chains[g][j] == was[g][k];
        assert g == h ==> was[h][k] != was[h][i];
        assert g != h ==> Slot(was[g][k].key) != Slot(b.key);
        assert chains[g][j].key in index;
      }
      forall g: nat | g < |chains| ensures HeadOK(g) {
        assert old(HeadOK(g));
      }
    }

    /** The same, with the bucket's fragments. */
    method DropBucket(h: nat, prev: BucketNode?, b: BucketNode, ghost i: nat)
      requires Valid() && h < |chains| && i < |chains[h]| && b == chains[h][i]
      requires prev == if i > 0 then chains[h][i - 1] else null
      modifies `chains, `index, table, index.Values`next
      ensures Valid() && b.key in old(index) && old(index)[b.key] == b && index == old(index) - {b.key}
      ensures chains == old(chains)[h := old(chains)[h][..i] + old(chains)[h][i + 1..]]
    {
      hide FragChain, Datas, Fits, ShashCb.Linked;
      ghost var was, idx := chains, index;
      CutBucket(h, prev, b, i);
      forall k | k in index ensures BucketOK(k) {
        assert old(BucketOK(k));
        StillIn(was[h], i, index[k]);
      }
    }

    lemma StillIn(s: seq<BucketNode>, i: nat, b: BucketNode)
      requires i < |s|
      ensures b in s && b != s[i] ==> b in s[..i] + s[i + 1..]
    {
      if b in s && b != s[i] {
        var j :| 0 <= j < |s| && s[j] == b;
        assert (s[..i] + s[i + 1..])[if j < i then j else j - 1] == b;
      }
    }

    /** The sweep so far: the buckets of `done` have aged by one tick, and those that ran out are gone. */
    ghost predicate Aged(was: map<Key, int>, v0: Table, tick: int, done: set<Key>)
      reads this, index.Values
    {
      && was.Keys == v0.Keys
      && (forall k :: k in index ==> k in was && BucketAged(index[k], was[k], v0[k], tick, k in done))
      && (forall k :: k in was && k !in index ==> k in done && was[k] <= tick)
    }

    /** The keys whose buckets the sweep has passed, when it stands before the i-th bucket of chain h. */
    ghost predicate DoneAt(h: nat, i: nat, was: map<Key, int>, done: set<Key>)
      requires Shape() && h < |chains| && i <= |chains[h]|
      reads `chains
    {
      && (forall k :: k in was && Slot(k) < h ==> k in done)
      && (forall k :: k in done ==> Slot(k) <= h)
      && DoneIn(chains[h], i, done)
    }

    ghost predicate Sweeping(h: nat, i: nat, was: map<Key, int>, v0: Table, tick: int, done: set<Key>)
      reads this, table, index.Values, frags
    {
      Valid() && h < |chains| && i <= |chains[h]| && Aged(was, v0, tick, done) && DoneAt(h, i, was, done)
    }

    /** A bucket that stays. */
    method Keep(h: nat, b: BucketNode, tick: int, ghost i: nat, ghost was: map<Key, int>, ghost v0: Table,
        ghost done: set<Key>)
      requires Sweeping(h, i, was, v0, tick, done) && i < |chains[h]| && b == chains[h][i] && b.timeOut > tick
      modifies b`timeOut
      ensures Sweeping(h, i + 1, was, v0, tick, done + {b.key})
      ensures b.timeOut == old(b.timeOut) - tick
    {
      hide FragChain, Datas, Fits, ShashCb.Linked, ShashCb.Stored;
      hide DoneIn;
      AtPlace(h, i);
      ChainKeys(h);
      DoneNext(chains[h], i, done);
      b.timeOut := b.timeOut - tick;
    }

    /** A bucket that has run out. */
    method Expire(h: nat, prev: BucketNode?, b: BucketNode, tick: int, ghost i: nat, ghost was: map<Key, int>,
        ghost v0: Table, ghost done: set<Key>)
      requires Sweeping(h, i, was, v0, tick, done) && i < |chains[h]| && b == chains[h][i] && b.timeOut <= tick
      requires prev == if i > 0 then chains[h][i - 1] else null
      modifies `chains, `index, table, index.Values`next, b`timeOut, b`first, b`frags
      ensures Sweeping(h, i, was, v0, tick, done + {b.key}) && index == old(index) - {b.key}
      ensures chains == old(chains)[h := old(chains)[h][..i] + old(chains)[h][i + 1..]]
    {
      hide FragChain, Datas, Fits, ShashCb.Linked, ShashCb.Stored, BucketNode.Valid, BucketNode.View, DoneIn, Shape;
      AtPlace(h, i);
      ChainKeys(h);
      DoneNext(chains[h], i, done);
      b.timeOut := b.timeOut - tick;
      EmptyBucket(b);
      DropBucket(h, prev, b, i);
    }

    /** The fragments of a bucket of the table are dropped. */
    method EmptyBucket(b: BucketNode)
      requires Valid() && b.key in index && index[b.key] == b
      modifies b`first, b`frags
      ensures Valid()
    {
      hide FragChain, Datas, Fits, ShashCb.Linked;
      NothingFits();
      assert BucketOK(b.key);
      var ret := b.FragDel();
      forall k | k in index ensures BucketOK(k) {
        assert old(BucketOK(k));
      }
    }

    /** One turn of the inner loop of fragtimeouthandle. */
    method SweepOne(h: nat, prev: BucketNode?, b: BucketNode, tick: int, ghost i: nat, ghost was: map<Key, int>,
        ghost v0: Table, ghost done: set<Key>)
      returns (prev': BucketNode?, next: BucketNode?, ghost i': nat)
      requires Sweeping(h, i, was, v0, tick, done) && i < |chains[h]| && b == chains[h][i]
      requires prev == if i > 0 then chains[h][i - 1] else null
      modifies `chains, `index, table, index.Values`next, b`timeOut, b`first, b`frags
      ensures Sweeping(h, i', was, v0, tick, done + {b.key}) && index.Values <= old(index.Values)
      ensures i' <= |chains[h]| && next == if i' < |chains[h]| then chains[h][i'] else null
      ensures prev' == if i' > 0 then chains[h][i' - 1] else null
      ensures |chains[h]| - i' < old(|chains[h]|) - i
    {
      hide ShashCb.Stored, ShashCb.Linked, ShashCb.Aged, ShashCb.DoneAt;
      if b.timeOut - tick <= 0 {
        Expire(h, prev, b, tick, i, was, v0, done);
        i', prev' := i, prev;
        next := if prev == null then table[h] else prev.next;
      } else {
        Keep(h, b, tick, i, was, v0, done);
        i', prev' := i + 1, b;
        next := b.next;
      }
      PlaceIs(h, i');
    }

    lemma PlaceIs(h: nat, i: nat)
      requires Valid() && h < |chains| && i <= |chains[h]|
      ensures (if i == 0 then table[h] else chains[h][i - 1].next) == if i < |chains[h]| then chains[h][i] else null
    {
      assert HeadOK(h);
      assert i > 0 ==> LinkOK(h, i - 1);
    }

    /** fragtimeouthandle: every bucket loses one tick, and exactly those with no time left are gone, with
        their fragments. */
    method Sweep(tick: int)
      requires Valid()
      modifies this, table, index.Values
      ensures Valid() && index.Keys == set k | k in old(index) && old(index[k].timeOut) > tick
      ensures forall k :: k in index ==> k in old(index) && index[k].timeOut == old(index[k].timeOut) - tick
      ensures forall k :: k in index ==> index[k].View() == old(index[k].View())
    {
      hide ShashCb.Stored, ShashCb.Linked, ShashCb.Aged, ShashCb.DoneAt;
      ghost var was, v0, done: set<Key> := map k | k in index :: index[k].timeOut, View(), {};
      StartSweep(was, v0, tick);
      var h: nat := 0;
      while h < table.Length
        invariant Valid() && h <= |chains| && Aged(was, v0, tick, done) && index.Values <= old(index.Values)
        invariant forall k :: k in was && Slot(k) < h ==> k in done
        invariant forall k :: k in done ==> Slot(k) < h
      {
        done := SweepChain(h, tick, was, v0, done);
        h := h + 1;
      }
      EndSweep(was, v0, tick, done);
    }

    /** The inner loop of fragtimeouthandle. */
    method SweepChain(h: nat, tick: int, ghost was: map<Key, int>, ghost v0: Table, ghost done: set<Key>)
        returns (ghost done': set<Key>)
      requires Valid() && h < |chains| && Aged(was, v0, tick, done)
      requires (forall k :: k in was && Slot(k) < h ==> k in done) && forall k :: k in done ==> Slot(k) < h
      modifies this, table, index.Values
      ensures Valid() && h < |chains| && Aged(was, v0, tick, done') && index.Values <= old(index.Values)
      ensures (forall k :: k in was && Slot(k) < h + 1 ==> k in done') && forall k :: k in done' ==> Slot(k) < h + 1
    {
      hide ShashCb.Stored, ShashCb.Linked, ShashCb.Aged, ShashCb.DoneAt;
      done' := done;
      StartChain(h, was, done);
      var prev: BucketNode?, b: BucketNode? := null, table[h];
      ghost var i: nat := 0;
      PlaceIs(h, 0);
      while b != null
        invariant Sweeping(h, i, was, v0, tick, done') && index.Values <= old(index.Values)
        invariant b == (if i < |chains[h]| then chains[h][i] else null) && prev == if i > 0 then chains[h][i - 1]
                  else null
        decreases |chains[h]| - i
      {
        ghost var k := b.key;
        AtPlace(h, i);
        prev, b, i := SweepOne(h, prev, b, tick, i, was, v0, done');
        done' := done' + {k};
      }
      EndChain(h, was, v0, tick, done');
    }

    lemma StartSweep(was: map<Key, int>, v0: Table, tick: int)
      requires Valid() && v0 == View() && was == map k | k in index :: index[k].timeOut
      ensures Aged(was, v0, tick, {})
    {
    }

    lemma StartChain(h: nat, was: map<Key, int>, done: set<Key>)
      requires Valid() && h < |chains|
      requires (forall k :: k in was && Slot(k) < h ==> k in done) && forall k :: k in done ==> Slot(k) < h
      ensures DoneAt(h, 0, was, done)
    {
      forall j: nat | j < |chains[h]| ensures chains[h][j].key !in done {
        AtPlace(h, j);
      }
    }

    lemma EndChain(h: nat, was: map<Key, int>, v0: Table, tick: int, done: set<Key>)
      requires Shape() && h < |chains| && Sweeping(h, |chains[h]|, was, v0, tick, done)
      ensures forall k :: k in was && Slot(k) < h + 1 ==> k in done
      ensures forall k :: k in done ==> Slot(k) < h + 1
    {
      forall k | k in was && Slot(k) == h ensures k in done {
        if k in index {
          assert BucketOK(k);
          var j :| 0 <= j < |chains[h]| && chains[h][j] == index[k];
          assert chains[h][j].key in done;
        }
      }
    }

    lemma EndSweep(was: map<Key, int>, v0: Table, tick: int, done: set<Key>)
      requires Valid() && Aged(was, v0, tick, done) && forall k :: k in was ==> k in done
      ensures index.Keys == (set k | k in was && was[k] > tick)
      ensures forall k :: k in index ==>
                k in was && k in v0 && index[k].View() == v0[k] && index[k].timeOut == was[k] - tick
    {
    }

    /** The keys of a chain are distinct. */
    lemma ChainKeys(h: nat)
      requires Valid() && h < |chains|
      ensures forall i, j :: 0 <= i < j < |chains[h]| ==> chains[h][i].key != chains[h][j].key
      ensures forall k :: k in index ==> index[k].key == k
    {
      forall i: nat, j: nat | i < j < |chains[h]| ensures chains[h][i].key != chains[h][j].key {
        assert HeadOK(h) && LinkOK(h, i) && LinkOK(h, j);
      }
      forall k | k in index ensures index[k].key == k {
        assert BucketOK(k);
      }
    }

    lemma AtPlace(h: nat, i: nat)
      requires Valid() && h < |chains| && i < |chains[h]|
      ensures chains[h][i].key in index && index[chains[h][i].key] == chains[h][i]
      ensures Slot(chains[h][i].key) == h && chains[h][i].Valid()
      ensures chains[h][i].next == if i + 1 < |chains[h]| then chains[h][i + 1] else null
    {
      assert LinkOK(h, i);
      assert BucketOK(chains[h][i].key);
    }

    lemma FragsOf(b: BucketNode)
      requires Valid() && b.key in index && index[b.key] == b
      ensures forall n :: n in b.frags ==> n in frags
    {
      assert BucketOK(b.key);
    }

    /** A fragment comes: fragnodeinsert finds or makes its bucket, and fragprocess empties a completed one
        into the buffer. */
    method Receive(k: Key, p: Piece, max: nat, timeOut: int, buf: array<Byte>) returns (done: bool, pktlen: nat)
      requires Valid() && p.End() <= BUFSIZE <= buf.Length && max > 0
      modifies this, table, index.Values, frags, buf
      ensures Valid() && View() == Put(old(View()), Arriving(k, p), max)
      ensures done == Fires(EntryOf(old(View()), k), p, max)
      ensures done ==> var list := Arrived(EntryOf(old(View()), k), p, max).list;
        pktlen == Sum(list) && Fits(list) && buf[..] == Written(old(buf[..]), list)
      ensures !done ==> buf[..] == old(buf[..])
      ensures index.Keys == old(index.Keys) + {k} && Counts(EntryOf(old(View()), k), index[k].View(), p, max, done)
      ensures index[k].timeOut == if k in old(index) && old(index[k].cnt) >= max then old(index[k].timeOut) else timeOut
      ensures forall l :: l in old(index) && l != k ==> index[l].timeOut == old(index[l].timeOut)
    {
      hide BucketNode.Valid, BucketNode.View, Datas, Fits, Received, Fires, Arrived, Written, Sum, ShashCb.Linked,
           ShashCb.Stored, ShashCb.View, EntryOf, Counts;
      ghost var was := View();
      EntryIs();
      var b := BucketFor(k, timeOut);
      done, pktlen := Take(b, p, max, timeOut, buf);
      PutIs(was, k, p, max);
      ReceivedCounts(EntryOf(was, k), p, max);
    }

    /** The time every bucket has left. */
    ghost function Timers(): map<Key, int>
      reads this, index.Values
    {
      // Guarded like View.
      map k | k in index :: if k in index then index[k].timeOut else 0
    }

    lemma TimesAre()
      ensures Timers().Keys == index.Keys && forall l :: l in index ==> Timers()[l] == index[l].timeOut
    {
    }

    lemma EntryIs()
      ensures View().Keys == index.Keys && forall l :: l in index ==> View()[l] == index[l].View()
    {
    }

    lemma PutIs(was: Table, k: Key, p: Piece, max: nat)
      requires index.Keys == was.Keys + {k} && index[k].View() == Received(EntryOf(was, k), p, max)
      requires forall l :: l in was && l != k ==> index[l].View() == was[l]
      ensures View() == Put(was, Arriving(k, p), max)
    {
      hide Received, EntryOf, BucketNode.View;
    }

    /** The bucket of a key, found or made. */
    method BucketFor(k: Key, timeOut: int) returns (b: BucketNode)
      requires Valid()
      modifies `chains, `index, table
      ensures Valid() && b.key == k && index == old(index)[k := b] && b.View() == EntryOf(old(View()), k)
              && frags == old(frags)
      ensures k in old(index) ==>
                b == old(index)[k] && b.cnt == old(index[k].cnt) && b.timeOut == old(index[k].timeOut)
      ensures k !in old(index) ==> fresh(b) && b.cnt == 0 && b.timeOut == timeOut
      ensures forall l :: l in old(index) ==>
                index[l] == old(index)[l] && index[l].View() == old(index[l].View())
                && index[l].timeOut == old(index[l].timeOut)
      ensures forall n :: n in b.frags ==> n in frags
    {
      hide BucketNode.Valid, BucketNode.View, Datas, Fits, ShashCb.Linked, ShashCb.Stored;
      var found := BucketFind(k);
      if found == null {
        b := BucketInsert(k, timeOut);
        ViewIs(b);
      } else {
        b := found;
      }
      FragsOf(b);
    }

    lemma Goodness()
      requires Valid()
      ensures forall k :: k in index ==> index[k].Valid() && index[k].key == k && Fits(index[k].View().list)
    {
      forall k | k in index ensures index[k].Valid() && index[k].key == k && Fits(index[k].View().list) {
        assert BucketOK(k);
      }
    }
  }

  ghost predicate DoneIn(c: seq<BucketNode>, i: nat, done: set<Key>) {
    && (forall j :: 0 <= j < i && j < |c| ==> c[j].key in done)
    && (forall j :: i <= j < |c| ==> c[j].key !in done)
  }

  lemma DoneNext(c: seq<BucketNode>, i: nat, done: set<Key>)
    requires i < |c| && DoneIn(c, i, done) && forall j, k :: 0 <= j < k < |c| ==> c[j].key != c[k].key
    ensures c[i].key !in done && DoneIn(c, i + 1, done + {c[i].key})
            && DoneIn(c[..i] + c[i + 1..], i, done + {c[i].key})
  {
  }

  ghost predicate BucketAged(b: BucketNode, was: int, view: Entry, tick: int, done: bool)
    reads b
  {
    b.View() == view && b.timeOut == (if done then was - tick else was) && (done ==> was > tick)
  }

  /** What a fragment does to the numbers of its bucket: past the limit it is only counted.  Otherwise its
      bytes are added to those counted, a last fragment tells the length, and the bucket is emptied once the
      two agree. */
  ghost predicate Counts(e: Entry, e': Entry, p: Piece, max: nat, done: bool) {
    && e'.cnt == e.cnt + 1
    && (e.cnt >= max ==> !done && e'.len == e.len && e'.length == e.length && e'.flag == e.flag && e'.list == e.list)
    && (e.cnt < max ==>
          && e'.len == (e.len + |p.data|) % 0x1_0000_0000 && (e'.flag <==> e.flag || !p.more)
          && e'.length == (if p.more then e.length else (p.off + |p.data|) % 0x1_0000_0000)
          && (done <==> e'.flag && e'.len == e'.length)
          && e'.list == if done then [] else Inserted(e.list, p))
  }

  lemma ReceivedCounts(e: Entry, p: Piece, max: nat)
    ensures Counts(e, Received(e, p, max), p, max, Fires(e, p, max))
  {
    hide Inserted;
  }

  lemma ViewIs(b: BucketNode)
    ensures b.View().list == Datas(b.frags) && b.View().cnt == b.cnt
  {
  }

  /** fragnodeinsert and fragprocess on one bucket. */
  method TakeIn(b: BucketNode, p: Piece, max: nat, timeOut: int, buf: array<Byte>) returns (done: bool, pktlen: nat)
    requires b.Valid() && Fits(b.View().list) && p.End() <= BUFSIZE <= buf.Length
    modifies b`cnt, b`timeOut, b`first, b`len, b`length, b`flag, b`frags, b.frags, buf
    ensures b.Valid() && Fits(b.View().list)
    ensures forall i :: 0 <= i < |b.frags| ==> b.frags[i] in old(b.frags) || fresh(b.frags[i])
    ensures b.View() == Received(old(b.View()), p, max) && done == Fires(old(b.View()), p, max)
    ensures done ==> var list := Arrived(old(b.View()), p, max).list;
      pktlen == Sum(list) && Fits(list) && buf[..] == Written(old(buf[..]), list)
    ensures !done ==> buf[..] == old(buf[..])
    ensures b.timeOut == if old(b.cnt) + 1 > max then old(b.timeOut) else timeOut
  {
    hide FragChain, Inserted, Written, Datas;
    done, pktlen := false, 0;
    ghost var e := b.View();
    b.cnt := b.cnt + 1;
    if b.cnt > max {
      return;
    }
    b.timeOut := timeOut;
    b.FragInsert(p);
    InsertedFits(e.list, p);
    var ret := b.UpdateLength(p);
    if ret > 0 {
      pktlen := b.Drain(buf);
      done := true;
    }
  }

  /** The same among other buckets, which stay as they are. */
  method TakeAmong(b: BucketNode, p: Piece, max: nat, timeOut: int, buf: array<Byte>, ghost cs: set<BucketNode>)
    returns (done: bool, pktlen: nat)
    requires b.Valid() && Fits(b.View().list) && p.End() <= BUFSIZE <= buf.Length
    requires forall c :: c in cs ==> c.Valid() && c != b && forall i :: 0 <= i < |c.frags| ==> c.frags[i] !in b.frags
    modifies b`cnt, b`timeOut, b`first, b`len, b`length, b`flag, b`frags, b.frags, buf
    ensures b.Valid() && Fits(b.View().list)
    ensures forall i :: 0 <= i < |b.frags| ==> b.frags[i] in old(b.frags) || fresh(b.frags[i])
    ensures b.View() == Received(old(b.View()), p, max) && done == Fires(old(b.View()), p, max)
    ensures done ==> var list := Arrived(old(b.View()), p, max).list;
      pktlen == Sum(list) && Fits(list) && buf[..] == Written(old(buf[..]), list)
    ensures !done ==> buf[..] == old(buf[..])
    ensures b.timeOut == if old(b.cnt) + 1 > max then old(b.timeOut) else timeOut
    ensures forall c :: c in cs ==>
              c.Valid() && c.frags == old(c.frags) && c.View() == old(c.View()) && c.timeOut == old(c.timeOut)
  {
    hide FragChain, Fits, Datas, Received, Fires, Arrived, Written, Sum;
    done, pktlen := TakeIn(b, p, max, timeOut, buf);
  }

  lemma {:induction false} InsertedFits(list: seq<Piece>, p: Piece)
    requires Fits(list) && p.End() <= BUFSIZE
    ensures Fits(Inserted(list, p))
  {
    if list != [] && list[0].off < p.off {
      InsertedFits(list[1..], p);
    }
  }
}
