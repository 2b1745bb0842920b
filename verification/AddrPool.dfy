/** The pool of public addresses: addrpoolentity.c. */
module AddrPool {
  import opened Arith
  import opened Tunnels
  import opened PortMap
  import opened PoolScan

  const MINI_RANGE_VALUE := 1024

  class PoolNode {
    const ip: UInt32
    const bitmap: array<bv8>
    var validbit: nat
    var next: PoolNode?

    /** AllocAddrPoolNode. */
    constructor (ip: UInt32)
      ensures this.ip == ip && validbit == 0 && next == null
      ensures fresh(bitmap) && bitmap.Length == 8 && Used(bitmap[..]) == {}
    {
      this.ip, validbit, next := ip, 0, null;
      bitmap := new bv8[8](_ => 0);
    }
  }

  /** C's division, towards zero. */
  function TruncDiv(x: int, d: nat): int
    requires d > 0
  {
    if x < 0 then -(-x / d) else x / d
  }

  function Wrap16(x: nat): UInt16 {
    x % 0x1_0000
  }

  /** The first and the last port of a block, as 16-bit numbers. */
  function StartOf(b: nat): UInt16 {
    Wrap16(b * MINI_RANGE_VALUE + MINI_RANGE_VALUE)
  }

  function StopOf(b: nat, r: nat): UInt16
    requires r > 0
  {
    Wrap16(StartOf(b) + MINI_RANGE_VALUE - 1 + (r - 1) * MINI_RANGE_VALUE)
  }

  /** The check of the port boundary fails exactly for the last place of a range of more than one slot. */
  lemma BoundaryCheck(b: nat, r: nat)
    requires Range(r) && Place(b, r)
    ensures StopOf(b, r) < StartOf(b) <==> !Usable(b, r)
    ensures Usable(b, r) && b < 63 ==> StartOf(b) == 1024 * b + 1024 && StopOf(b, r) == StartOf(b) + 1024 * r - 1
  {
    hide Wrap16;
    PlaceFits(b, r);
    Wraps(1024 * b + 1024);
    Wraps(StartOf(b) + 1023 + (r - 1) * 1024);
  }

  lemma Wraps(x: nat)
    requires x < 0x2_0000
    ensures Wrap16(x) == if x < 0x1_0000 then x else x - 0x1_0000
  {
  }

  lemma PlaceFits(b: nat, r: nat)
    requires Range(r) && Place(b, r)
    ensures b + r == SLOTS || b + 2 * r <= SLOTS
  {
    NextMultiple(b, r);
    assert SLOTS % r == 0;
    if b + r < SLOTS {
      Multiples(b + r, SLOTS, r);
    }
  }

  ghost predicate NodeAt(ring: seq<PoolNode>, j: nat)
    requires j < |ring|
    reads ring[j]
  {
    && ring[j].bitmap.Length == 8
    && ring[j].next == ring[if j + 1 < |ring| then j + 1 else 0]
    && ring[j].ip == ring[0].ip + j
  }

  ghost predicate Blank(node: PoolNode, ip: int)
    reads node, node.bitmap
  {
    node.ip == ip && node.validbit == 0 && node.bitmap.Length == 8 && Used(node.bitmap[..]) == {}
  }

  ghost predicate Distinct(ring: seq<PoolNode>) {
    forall i, j :: 0 <= i < j < |ring| ==> ring[i] != ring[j] && ring[i].bitmap != ring[j].bitmap
  }

  ghost function Maps(ring: seq<PoolNode>): seq<array<bv8>> {
    seq(|ring|, j requires 0 <= j < |ring| => ring[j].bitmap)
  }

  class AddrPoolList {
    var header: PoolNode?
    var curnode: PoolNode?
    var length: nat
    ghost var ring: seq<PoolNode>

    /** The nodes form a ring from the header, for consecutive addresses. */
    ghost predicate Ring()
      reads this, ring
    {
      && length == |ring|
      && (ring == [] ==> header == null && curnode == null)
      && (ring != [] ==> header == ring[0])
      && Distinct(ring)
      && forall j {:trigger NodeAt(ring, j)} :: 0 <= j < |ring| ==> NodeAt(ring, j)
    }

    ghost predicate Valid()
      reads this, ring
    {
      Ring() && curnode == header
    }

    /** InitAddrPool: one node with nothing marked for each address from startIp to endIp. */
    constructor (startIp: UInt32, endIp: UInt32)
      requires endIp < 0xFFFF_FFFF
      ensures Valid() && |ring| == (if endIp < startIp then 0 else endIp - startIp + 1)
      ensures forall j :: 0 <= j < |ring| ==>
                ring[j].ip == startIp + j && State().marks[j] == {} && State().cursors[j] == 0
    {
      header, curnode, length, ring := null, null, 0, [];
      new;
      var idx: nat := startIp;
      while idx <= endIp
        invariant startIp <= idx && (idx <= endIp + 1 || idx == startIp)
        invariant Ring() && |ring| == idx - startIp && (ring != [] ==> curnode == ring[|ring| - 1])
        invariant fresh(ring) && forall j :: 0 <= j < |ring| ==> Blank(ring[j], startIp + j)
      {
        var node := new PoolNode(idx);
        Add(node);
        idx := idx + 1;
      }
      curnode := header;
      forall j: nat | j < |ring| ensures State().marks[j] == {} && State().cursors[j] == 0 {
        StateAt(j);
      }
    }

    /** AddAddrPoolNode. */
    method Add(node: PoolNode)
      requires Ring() && (ring != [] ==> curnode == ring[|ring| - 1] && node.ip == ring[0].ip + |ring|)
      requires node !in ring && node.bitmap !in Maps(ring) && node.bitmap.Length == 8
      modifies this, ring`next, node`next
      ensures Ring() && ring == old(ring) + [node] && curnode == node
    {
      ghost var was := ring;
      ring := ring + [node];
      if header == null {
        header := node;
        node.next := header;
        curnode := node;
      } else {
        curnode.next := node;
        node.next := header;
        curnode := node;
      }
      length := length + 1;
      forall i: nat, j: nat | i < j < |ring| ensures ring[i] != ring[j] && ring[i].bitmap != ring[j].bitmap {
        assert Maps(was)[i] == was[i].bitmap;
      }
      forall j: nat | j < |ring| ensures NodeAt(ring, j) {
        assert j < |was| ==> old(NodeAt(ring, j));
      }
    }

    ghost function State(): Pool
      requires Valid()
      reads this, ring, Maps(ring)
    {
      Pool(seq(|ring|, j requires 0 <= j < |ring| && Valid() reads this, ring, Maps(ring) => MarksAt(j)),
           seq(|ring|, j requires 0 <= j < |ring| reads this, ring => ring[j].validbit))
    }

    ghost function MarksAt(j: nat): set<nat>
      requires Valid() && j < |ring|
      reads this, ring, Maps(ring)
    {
      assert NodeAt(ring, j);
      assert Maps(ring)[j] == ring[j].bitmap;
      Used(ring[j].bitmap[..])
    }

    lemma StateAt(j: nat)
      requires Valid() && j < |ring|
      ensures |State().marks| == |State().cursors| == |ring| && State().marks[j] <= Block(0, SLOTS)
      ensures ring[j].bitmap.Length == 8 && State().marks[j] == Used(ring[j].bitmap[..])
              && State().cursors[j] == ring[j].validbit
      ensures ring[j].ip == ring[0].ip + j && ring[j].next == ring[if j + 1 < |ring| then j + 1 else 0]
    {
      assert NodeAt(ring, j);
      assert Maps(ring)[j] == ring[j].bitmap;
    }

    /** Test the place at the cursor of the k-th node and move the cursor on. */
    method Try(node: PoolNode, r: nat, ghost k: nat) returns (hit: bool, start: UInt16, stop: UInt16, addr: UInt32)
      requires Valid() && k < |ring| && node == ring[k] && Range(r) && node.validbit <= SLOTS && node.validbit % r == 0
      modifies node`validbit, node.bitmap
      ensures Valid()
      ensures var c := old(node.validbit); var was := old(State());
        && State().cursors == was.cursors[k := c + r]
        && State().marks == (if c < SLOTS && Free(was.marks[k], c, r) then was.marks[k := was.marks[k] + Block(c, r)]
           else was.marks)
        && hit == (c < SLOTS && Free(was.marks[k], c, r) && Usable(c, r))
        && (hit ==> start == StartOf(c) && stop == StopOf(c, r) && addr == node.ip)
    {
      hide Used, StartOf, StopOf, Usable, Free;
      ghost var was := State();
      forall j: nat | j < |ring|
        ensures ring[j].bitmap.Length == 8 && was.marks[j] == Used(ring[j].bitmap[..])
                && was.cursors[j] == ring[j].validbit
      {
        StateAt(j);
      }
      hit, start, stop := TryPlace(node, r);
      addr := node.ip;
      if old(node.validbit) < SLOTS {
        NextPlace(old(node.validbit), r);
        BoundaryCheck(old(node.validbit), r);
      }
      forall j: nat | j < |ring| ensures NodeAt(ring, j) {
        assert old(NodeAt(ring, j));
      }
      forall j: nat | j < |ring|
        ensures State().marks[j] == Used(ring[j].bitmap[..]) && State().cursors[j] == ring[j].validbit
      {
        StateAt(j);
      }
    }

    /** The cursor of the k-th node goes back to the first place and the search to the next node. */
    method Skip(node: PoolNode, ghost k: nat) returns (next: PoolNode)
      requires Valid() && k < |ring| && node == ring[k]
      modifies node`validbit
      ensures Valid() && next == ring[if k + 1 < |ring| then k + 1 else 0]
      ensures State() == old(State()).(cursors := old(State()).cursors[k := 0])
    {
      hide Used;
      ghost var was := State();
      forall j: nat | j < |ring|
        ensures ring[j].bitmap.Length == 8 && was.marks[j] == Used(ring[j].bitmap[..])
                && was.cursors[j] == ring[j].validbit
      {
        StateAt(j);
      }
      StateAt(k);
      node.validbit := 0;
      next := node.next;
      forall j: nat | j < |ring| ensures NodeAt(ring, j) {
        assert old(NodeAt(ring, j));
      }
      forall j: nat | j < |ring|
        ensures State().marks[j] == Used(ring[j].bitmap[..]) && State().cursors[j] == ring[j].validbit
      {
        StateAt(j);
      }
    }

    /** The search is at node k of the ring, whose cursor may have run past the end. */
    ghost predicate Searching(p0: Pool, r: nat, cur: PoolNode, k: nat, lap: bool)
      reads this, ring, Maps(ring)
    {
      && Valid() && k < |ring| && cur == ring[k]
      && Underway(p0, Clamp(State(), k), r, k, lap)
      && |p0.cursors| == |ring| && (cur.validbit <= SLOTS ==> cur.validbit % r == 0)
      && (lap ==> k == 0 && cur.validbit <= p0.cursors[0] <= SLOTS)
    }

    lemma Here(p0: Pool, r: nat, cur: PoolNode, k: nat, lap: bool)
      requires Valid() && Underway(p0, State(), r, k, lap) && k < |ring| && cur == ring[k]
      ensures Searching(p0, r, cur, k, lap)
    {
      hide Underway;
      StateAt(k);
      StateAt(0);
      UnderwayHere(p0, State(), r, k, lap);
      assert Clamp(State(), k) == State();
    }

    lemma Unclamped(p0: Pool, r: nat, cur: PoolNode, k: nat, lap: bool)
      requires Searching(p0, r, cur, k, lap) && cur.validbit <= SLOTS
      ensures Underway(p0, State(), r, k, lap) && State().cursors[k] == cur.validbit
    {
      hide Underway;
      StateAt(k);
      assert Clamp(State(), k) == State();
    }

    method SkipOn(cur: PoolNode, ghost p0: Pool, ghost r: nat, ghost k: nat)
      returns (next: PoolNode, ghost k': nat, ghost lap: bool)
      requires Searching(p0, r, cur, k, false) && cur.validbit >= SLOTS
      modifies cur`validbit
      ensures Searching(p0, r, next, k', lap)
      ensures k < |ring| && (if lap then k' == 0 && next.validbit == 0 else k < k' < |ring|) && next.validbit <= SLOTS
    {
      hide Underway, AddrPoolList.State;
      ghost var p := Clamp(State(), k);
      StateAt(k);
      StateAt(0);
      UnderwayHere(p0, p, r, k, false);
      next := Skip(cur, k);
      UnderwaySkip(p0, p, r, k);
      assert State() == Skipped(p, k);
      lap := k + 1 == |ring|;
      k' := if lap then 0 else k + 1;
      Here(p0, r, next, k', lap);
      StateAt(k');
      UnderwayHere(p0, State(), r, k', lap);
    }

    method TryOn(cur: PoolNode, ghost p0: Pool, r: nat, ghost k: nat, ghost lap: bool)
      returns (hit: bool, start: UInt16, stop: UInt16, addr: UInt32)
      requires Range(r) && Ready(p0, r) && Searching(p0, r, cur, k, lap) && cur.validbit <= SLOTS
      requires lap ==> cur.validbit != p0.cursors[0]
      modifies cur`validbit, cur.bitmap
      ensures Valid() && cur.validbit == old(cur.validbit) + r
      ensures !hit ==> Searching(p0, r, cur, k, lap)
      ensures hit ==> Alloc(p0, r) == Hit(State(), k, old(cur.validbit))
                      && start == StartOf(old(cur.validbit)) && stop == StopOf(old(cur.validbit), r)
                         && addr == ring[0].ip + k
    {
      hide Underway, AddrPoolList.State, Free, Usable, Alloc, StartOf, StopOf, Ready;
      ghost var p := State();
      StateAt(k);
      Unclamped(p0, r, cur, k, lap);
      hit, start, stop, addr := Try(cur, r, k);
      StateAt(k);
      StateAt(0);
      if p.cursors[k] < SLOTS {
        UnderwayTry(p0, p, r, k, lap);
        assert State() == Tried(p, r, k);
        if !hit {
          Here(p0, r, cur, k, lap);
        }
      } else {
        assert Clamp(State(), k) == p;
      }
    }

    /** AllocAddrPort: the search starts at the first address, whose node stays the current one. */
    method AllocAddrPort(r: nat) returns (ret: int, start: UInt16, stop: UInt16, addr: UInt32)
      requires Valid() && ring != [] && Range(r) && Ready(State(), r)
      modifies ring, Maps(ring)
      ensures Valid()
      ensures match Alloc(old(State()), r)
        case Hit(p, k, b) => ret == 1 && State() == p && start == StartOf(b) && stop == StopOf(b, r)
          && addr == ring[0].ip + k
        case Miss(p) => ret == -1 && State() == p
      ensures ret == 1 <==> exists j, c :: Candidate(old(State()), r, j, c)
    {
      hide Underway, Alloc, Candidate, StartOf, StopOf, AddrPoolList.State, Ready;
      ghost var p0, lap := State(), false;
      ghost var k: nat, b: nat := 0, 0;
      var begin, bit := curnode, curnode.validbit;
      var cur: PoolNode, hit := begin, false;
      StateAt(0);
      UnderwayStart(p0, r);
      AllocExact(p0, r);
      Here(p0, r, cur, 0, false);
      if cur.validbit >= SLOTS {
        cur, k, lap := SkipOn(cur, p0, r, 0);
      }
      b := cur.validbit;
      assert Maps(ring)[k] == cur.bitmap;
      hit, start, stop, addr := TryOn(cur, p0, r, k, lap);
      while !hit
        invariant Valid() && ring == old(ring) && begin == ring[0] && |p0.cursors| > 0 && bit == p0.cursors[0]
        invariant hit ==>
                    Alloc(p0, r) == Hit(State(), k, b) && start == StartOf(b) && stop == StopOf(b, r)
                    && addr == ring[0].ip + k
        invariant !hit ==> Searching(p0, r, cur, k, lap) && (lap || k > 0 || bit < cur.validbit)
        decreases !hit, if lap then 0 else |ring| - k, SLOTS - cur.validbit
      {
        if cur == begin && bit == cur.validbit {
          AtEnd(p0, r, cur, k, lap);
          ret := -1;
          return;
        }
        if cur.validbit >= SLOTS {
          cur, k, lap := SkipOn(cur, p0, r, k);
        } else {
          b := cur.validbit;
          assert Maps(ring)[k] == cur.bitmap;
          hit, start, stop, addr := TryOn(cur, p0, r, k, lap);
        }
      }
      ret := 1;
    }

    /** DeallocAddrPort.  A start port below 1024 frees from slot 0 on, except that port 0 is refused. */
    method DeallocAddrPort(r: nat, start: UInt16, addr: nat) returns (ret: int)
      requires Valid() && ring != []
      modifies Maps(ring)
      ensures Valid()
      ensures var bit := if start < 1024 then 0 else start / 1024 - 1;
        var k := addr - ring[0].ip;
        if start == 0 || k < 0 || k >= |ring| then ret == -1 && State() == old(State())
        else
          && ret == 1
          && State() == old(State()).(marks := old(State()).marks[k := old(State()).marks[k] - Block(bit, r)])
    {
      hide AddrPoolList.State, Block;
      var bit := TruncDiv(start - MINI_RANGE_VALUE, MINI_RANGE_VALUE);
      if bit < 0 || bit >= SLOTS {
        return -1;
      }
      StateAt(0);
      if header.ip == addr {
        assert Maps(ring)[0] == header.bitmap;
        Clear(header, bit, r, 0);
        return 1;
      }
      var node := header.next;
      ghost var k := if 1 < |ring| then 1 else 0;
      while node != header
        invariant Valid() && State() == old(State()) && k < |ring| && node == ring[k]
        invariant forall j :: 0 <= j < |ring| && (j < k || k == 0) ==> ring[j].ip != addr
        decreases if k == 0 then 0 else |ring| - k
      {
        StateAt(k);
        if node.ip == addr {
          assert Maps(ring)[k] == node.bitmap;
          Clear(node, bit, r, k);
          return 1;
        }
        node := node.next;
        k := if k + 1 < |ring| then k + 1 else 0;
      }
      if 0 <= addr - ring[0].ip < |ring| {
        StateAt(addr - ring[0].ip);
      }
      return -1;
    }

    /** Frees r slots of the k-th node. */
    method Clear(node: PoolNode, bit: nat, r: nat, ghost k: nat)
      requires Valid() && k < |ring| && node == ring[k]
      modifies node.bitmap
      ensures Valid()
      ensures State() == old(State()).(marks := old(State()).marks[k := old(State()).marks[k] - Block(bit, r)])
    {
      hide Used;
      ghost var was := State();
      StateAt(k);
      forall j: nat | j < |ring|
        ensures ring[j].bitmap.Length == 8 && was.marks[j] == Used(ring[j].bitmap[..])
                && was.cursors[j] == ring[j].validbit
      {
        StateAt(j);
      }
      RangeSet(node.bitmap, bit, bit + r - 1, 0);
      forall j: nat | j < |ring|
        ensures State().marks[j] == Used(ring[j].bitmap[..]) && State().cursors[j] == ring[j].validbit
      {
        StateAt(j);
      }
      assert was.marks[k] - Span(bit, bit + r) == was.marks[k] - Block(bit, r);
    }

    lemma AtEnd(p0: Pool, r: nat, cur: PoolNode, k: nat, lap: bool)
      requires Range(r) && Ready(p0, r) && Searching(p0, r, cur, k, lap) && cur == ring[0]
               && cur.validbit == p0.cursors[0]
      requires lap || k > 0 || p0.cursors[0] < cur.validbit
      ensures Alloc(p0, r) == Miss(State())
    {
      hide Underway;
      StateAt(k);
      StateAt(0);
      assert k == 0;
      UnderwayHere(p0, Clamp(State(), k), r, k, lap);
      Unclamped(p0, r, cur, k, lap);
      UnderwayEnd(p0, State(), r);
    }
  }

  /** The state while the k-th cursor may be past the end. */
  ghost function Clamp(p: Pool, k: nat): (q: Pool) {
    if k < |p.cursors| && p.cursors[k] > SLOTS then p.(cursors := p.cursors[k := SLOTS]) else p
  }

  /** The test and the marking of the place at the cursor of one node. */
  method TryPlace(node: PoolNode, r: nat) returns (hit: bool, start: UInt16, stop: UInt16)
    requires node.bitmap.Length == 8 && r > 0
    modifies node`validbit, node.bitmap
    ensures node.validbit == old(node.validbit) + r
    ensures var c := old(node.validbit); var was := old(Used(node.bitmap[..]));
            var free := c + r <= SLOTS && Free(was, c, r);
      && Used(node.bitmap[..]) == (if free then was + Block(c, r) else was)
      && hit == (free && StartOf(c) <= StopOf(c, r))
      && (hit ==> start == StartOf(c) && stop == StopOf(c, r))
  {
    hide Used, StartOf, StopOf;
    hit, start, stop := false, 0, 0;
    if node.validbit + r - 1 >= SLOTS {
      node.validbit := node.validbit + r;
      return;
    }
    assert Block(node.validbit, r) == Span(node.validbit, node.validbit + r);
    var free := RangeTest(node.bitmap, node.validbit, node.validbit + r - 1);
    if free != 1 {
      node.validbit := node.validbit + r;
      return;
    }
    start, stop := StartOf(node.validbit), StopOf(node.validbit, r);
    RangeSet(node.bitmap, node.validbit, node.validbit + r - 1, 1);
    node.validbit := node.validbit + r;
    hit := !(stop < start);
  }
}
