/** Walking the IPv4 index with a callback that may take the record at hand out of both indexes:
    bptraverse of bplus.c under TunnelTimeOut of packet.c and DestroyStorage of storage.c. */
module TunnelExpiry {
  import opened Arith
  import opened Tunnels
  import opened BPlusTree
  import opened BPlusChain
  import opened Keys
  import opened TunnelStore

  ghost function Alive(r: Records): Records
    reads r.Values
  {
    map k | k in r && r[k].liveTime != 0 :: r[k]
  }

  ghost function InOrder(c: seq<BPValue>): (rs: seq<Tunnel>)
    ensures |rs| == |c|
  {
    seq(|c|, i requires 0 <= i < |c| => c[i].record)
  }

  /** The notices about the expired tunnels of rs, in the order of rs. */
  ghost function NoticesOf(rs: seq<Tunnel>): seq<Notice>
    reads rs
  {
    if rs == [] then []
    else
      var t := rs[|rs| - 1];
      NoticesOf(rs[..|rs| - 1]) + if t.liveTime == 0 then [Notice(t.client, t.extIP, t.startPort)] else []
  }

  /** Notice n is about tunnel t. */
  ghost predicate About(n: Notice, t: Tunnel) {
    n.client == t.client && n.extIP == t.extIP && n.startPort == t.startPort
  }

  /** The tunnel that the i-th notice is about. */
  lemma {:induction false} SourceOf(rs: seq<Tunnel>, i: nat) returns (j: nat)
    requires i < |NoticesOf(rs)|
    ensures j < |rs| && rs[j].liveTime == 0 && About(NoticesOf(rs)[i], rs[j])
  {
    var prefix := rs[..|rs| - 1];
    if i < |NoticesOf(prefix)| {
      j := SourceOf(prefix, i);
    } else {
      j := |rs| - 1;
    }
  }

  /** The notice about the j-th tunnel. */
  lemma {:induction false} NoticeAbout(rs: seq<Tunnel>, j: nat) returns (i: nat)
    requires j < |rs| && rs[j].liveTime == 0
    ensures i < |NoticesOf(rs)| && About(NoticesOf(rs)[i], rs[j])
  {
    var prefix := rs[..|rs| - 1];
    if j < |prefix| {
      i := NoticeAbout(prefix, j);
    } else {
      i := |NoticesOf(prefix)|;
    }
  }

  /** Notices are in the order of their tunnels. */
  lemma {:induction false} NoticeOrder(rs: seq<Tunnel>, i: nat, i': nat) returns (j: nat, j': nat)
    requires i < i' < |NoticesOf(rs)|
    ensures j < j' < |rs| && About(NoticesOf(rs)[i], rs[j]) && About(NoticesOf(rs)[i'], rs[j'])
  {
    var prefix := rs[..|rs| - 1];
    if i' < |NoticesOf(prefix)| {
      j, j' := NoticeOrder(prefix, i, i');
    } else {
      j := SourceOf(prefix, i);
      j' := |rs| - 1;
    }
  }

  /** After some values before place i are gone, the chain still goes from c[i] straight to c[i + 1]. */
  lemma NextInOrder(now: seq<BPValue>, c: seq<BPValue>, m: Index, gone: set<nat>, i: nat) returns (p: nat)
    requires Listing(c, m) && Listing(now, m - gone) && i < |c|
    requires forall j :: i <= j < |c| ==> c[j].key !in gone
    ensures p < |now| && now[p] == c[i]
    ensures i + 1 < |c| ==> p + 1 < |now| && now[p + 1] == c[i + 1]
    ensures i + 1 == |c| ==> p + 1 == |now|
  {
    assert ListedAt(c, m, i);
    p := Position(now, m - gone, c[i].key);
    if p + 1 < |now| {
      assert Before(now, p, p + 1) && ListedAt(now, m - gone, p + 1);
      var q := Position(c, m, now[p + 1].key);
      assert q < i ==> Before(c, q, i);
      assert i + 1 < q ==> Before(c, i + 1, q);
    }
    if i + 1 < |c| {
      assert ListedAt(c, m, i + 1) && Before(c, i, i + 1);
      var r := Position(now, m - gone, c[i + 1].key);
      assert r < p ==> Before(now, r, p);
      assert p + 1 < r ==> Before(now, p + 1, r);
    }
  }

  /** The traversal so far: only values before place i are gone. */
  ghost predicate At(v4: BPTree, c: seq<BPValue>, m: Index, gone: set<nat>, i: nat)
    reads v4, v4.nodes, v4.values
  {
    && v4.Listed() && v4.index == m - gone && i <= |c|
    && (forall j :: i <= j < |c| ==> c[j].key !in gone)
    && (forall j :: 0 <= j < |c| ==> c[j] in v4.values)
  }

  lemma NextOf(v4: BPTree, c: seq<BPValue>, m: Index, gone: set<nat>, i: nat)
    requires Listing(c, m) && At(v4, c, m, gone, i) && i < |c|
    ensures c[i].next == if i + 1 < |c| then c[i + 1] else null
  {
    var p := NextInOrder(v4.chain, c, m, gone, i);
    assert LinkedAt(v4.chain, p);
  }

  lemma TakenPaired(m4: Index, m6: Index, t: Tunnel)
    requires Paired(RecordsOf(m4), RecordsOf(m6)) && KeyOf(t) in m4 && m4[KeyOf(t)].record == t
    ensures Paired(RecordsOf(m4 - {KeyOf(t)}), RecordsOf(m6 - {t.client}))
  {
    var r4, r6 := RecordsOf(m4), RecordsOf(m6);
    assert Known4(r4, r6, KeyOf(t));
    DestroyPaired(r4, r6, t.client);
    assert RecordsOf(m4 - {KeyOf(t)}) == r4 - {KeyOf(t)};
    assert RecordsOf(m6 - {t.client}) == r6 - {t.client};
  }

  /** Each record is under its own key, so no two places of the chain share one. */
  lemma OwnKey(c: seq<BPValue>, m4: Index, m6: Index, i: nat)
    requires Paired(RecordsOf(m4), RecordsOf(m6)) && Listing(c, m4) && i < |c|
    ensures KeyOf(c[i].record) == c[i].key && c[i].key in m4 && m4[c[i].key] == c[i]
    ensures c[i].record in RecordsOf(m4).Values
  {
    assert ListedAt(c, m4, i);
    assert RecordsOf(m4)[c[i].key] == c[i].record;
    assert Known4(RecordsOf(m4), RecordsOf(m6), c[i].key);
  }

  lemma Distinct(c: seq<BPValue>, m4: Index, m6: Index)
    requires Paired(RecordsOf(m4), RecordsOf(m6)) && Listing(c, m4)
    ensures forall i, j :: 0 <= i < j < |c| ==> c[i].record != c[j].record && c[i].key != c[j].key
  {
    forall i, j | 0 <= i < j < |c| ensures c[i].record != c[j].record && c[i].key != c[j].key {
      OwnKey(c, m4, m6, i);
      OwnKey(c, m4, m6, j);
      assert Before(c, i, j);
    }
  }

  lemma PairedAlive(r4: Records, r6: Records, s4: Records, s6: Records)
    requires Paired(r4, r6) && Paired(s4, s6) && s4 == Alive(r4)
    ensures s6 == Alive(r6)
  {
    forall c | c in s6 ensures c in r6 && s6[c] == r6[c] && s6[c].liveTime != 0 {
      assert Known6(s4, s6, c);
      assert Known4(r4, r6, KeyOf(s6[c]));
    }
    forall c | c in r6 && r6[c].liveTime != 0 ensures c in s6 {
      assert Known6(r4, r6, c);
      assert Known4(s4, s6, KeyOf(r6[c]));
    }
  }

  lemma IndexAlive(c: seq<BPValue>, m: Index, gone: set<nat>)
    requires Listing(c, m)
    requires forall j :: 0 <= j < |c| ==> (c[j].key in gone <==> c[j].record.liveTime == 0)
    ensures RecordsOf(m - gone) == Alive(RecordsOf(m))
  {
    forall k | k in m ensures k in gone <==> m[k].record.liveTime == 0 {
      var j := Position(c, m, k);
    }
  }

  /** The walk stands at place i of the chain c of the index m, of which the keys `gone` have left. */
  ghost predicate Walk(s: Storage, c: seq<BPValue>, m: Index, gone: set<nat>, i: nat)
    reads s.v4, s.v6, s.v4.nodes, s.v6.nodes, s.v4.values, s.v6.values
  {
    s.Valid() && Paired(s.R4(), s.R6()) && Listing(c, m) && At(s.v4, c, m, gone, i)
    && forall j :: 0 <= j < |c| ==> KeyOf(c[j].record) == c[j].key
  }

  lemma Start(s: Storage)
    requires s.Valid() && Paired(s.R4(), s.R6())
    ensures Walk(s, s.v4.chain, s.v4.index, {}, 0)
    ensures s.v4.header == if s.v4.chain == [] then null else s.v4.chain[0]
    ensures forall j :: 0 <= j < |s.v4.chain| ==> s.v4.chain[j].record in s.R4().Values
    ensures forall i, j :: 0 <= i < j < |s.v4.chain| ==>
      s.v4.chain[i].record != s.v4.chain[j].record && s.v4.chain[i].key != s.v4.chain[j].key
  {
    var c := s.v4.chain;
    Distinct(c, s.v4.index, s.v6.index);
    assert s.v4.index - {} == s.v4.index;
    forall j | 0 <= j < |c| ensures KeyOf(c[j].record) == c[j].key && c[j].record in s.R4().Values {
      OwnKey(c, s.v4.index, s.v6.index, j);
    }
  }

  /** One more value is gone, or none. */
  lemma StepOn(s: Storage, c: seq<BPValue>, m: Index, m4: Index, m6: Index, gone: set<nat>, i: nat, out: bool)
    requires s.Valid() && Listing(c, m) && m4 == m - gone && i < |c|
    requires forall j :: i <= j < |c| ==> c[j].key !in gone
    requires forall j :: 0 <= j < |c| ==> c[j] in s.v4.values && KeyOf(c[j].record) == c[j].key
    requires Paired(RecordsOf(m4), RecordsOf(m6))
    requires s.v4.index == if out then m4 - {c[i].key} else m4
    requires s.v6.index == if out then m6 - {c[i].record.client} else m6
    ensures Walk(s, c, m, if out then gone + {c[i].key} else gone, i + 1)
  {
    assert ListedAt(c, m, i);
    if out {
      TakenPaired(m4, m6, c[i].record);
      assert s.v4.index == m - (gone + {c[i].key});
    }
    forall j | i < j < |c| ensures c[j].key != c[i].key {
      assert Before(c, i, j);
    }
  }

  ghost function Times(rs: seq<Tunnel>): (ts: seq<UInt64>)
    reads rs
    ensures |ts| == |rs|
  {
    seq(|rs|, j requires 0 <= j < |rs| reads rs => rs[j].liveTime)
  }

  /** One turn of the loop of bptraverse with TunnelTimeCheck for its callback. */
  method Visit(s: Storage, cur: BPValue, tick: UInt32, ghost c: seq<BPValue>, ghost m: Index, ghost gone: set<nat>,
      ghost i: nat, ghost rs: seq<Tunnel>)
    returns (next: BPValue?, notice: seq<Notice>, ghost gone': set<nat>)
    requires Walk(s, c, m, gone, i) && i < |c| && cur == c[i]
    requires |rs| == |c| && rs[i] == cur.record && forall j, k :: 0 <= j < k < |rs| ==> rs[j] != rs[k]
    modifies s.v4, s.v6, s.v4.nodes, s.v6.nodes, s.v4.values, s.v6.values, cur.record`liveTime
    ensures Walk(s, c, m, gone', i + 1)
    ensures fresh(s.v4.nodes - old(s.v4.nodes)) && fresh(s.v6.nodes - old(s.v6.nodes))
    ensures s.v4.values == old(s.v4.values) && s.v6.values == old(s.v6.values)
    ensures next == if i + 1 < |c| then c[i + 1] else null
    ensures Times(rs) == old(Times(rs))[i := Less(old(Times(rs))[i], tick)]
    ensures gone' == if Times(rs)[i] == 0 then gone + {cur.key} else gone
    ensures notice == if cur.record.liveTime == 0
                      then [Notice(cur.record.client, cur.record.extIP, cur.record.startPort)] else []
  {
    hide BPTree.Valid, Listing, Paired, KeyOf, BPTree.Listed;
    NextOf(s.v4, c, m, gone, i);
    next := cur.next;
    ghost var m4, m6 := s.v4.index, s.v6.index;
    var ret;
    ret, notice := s.TimeCheck(cur.record, tick);
    gone' := if ret == -1 then gone + {cur.key} else gone;
    StepOn(s, c, m, m4, m6, gone, i, ret == -1);
  }

  /** The first i lifetimes have been reduced once, and exactly the expired among them are gone. */
  ghost predicate Ticked(c: seq<BPValue>, was: seq<UInt64>, now: seq<UInt64>, tick: UInt32, gone: set<nat>, i: nat) {
    && |now| == |was| == |c|
    && (forall j :: 0 <= j < |c| ==> now[j] == if j < i then Less(was[j], tick) else was[j])
    && (forall j :: 0 <= j < |c| ==> (c[j].key in gone <==> j < i && now[j] == 0))
  }

  method Sweep(s: Storage, tick: UInt32, ghost c: seq<BPValue>, ghost rs: seq<Tunnel>)
    returns (notices: seq<Notice>, ghost gone: set<nat>)
    requires Walk(s, c, s.v4.index, {}, 0) && s.v4.header == (if c == [] then null else c[0]) && rs == InOrder(c)
    requires forall i, j :: 0 <= i < j < |c| ==> rs[i] != rs[j] && c[i].key != c[j].key
    modifies s.v4, s.v6, s.v4.nodes, s.v6.nodes, s.v4.values, s.v6.values, rs`liveTime
    ensures Walk(s, c, old(s.v4.index), gone, |c|) && Ticked(c, old(Times(rs)), Times(rs), tick, gone, |c|)
    ensures notices == NoticesOf(rs)
  {
    hide *;
    notices, gone := [], {};
    ghost var m, i := s.v4.index, 0;
    var cur := s.v4.header;
    NoNotices(rs);
    NoneTicked(c, Times(rs), tick);
    while cur != null
      invariant Walk(s, c, m, gone, i) && i <= |c| && cur == if i < |c| then c[i] else null
      invariant fresh(s.v4.nodes - old(s.v4.nodes)) && fresh(s.v6.nodes - old(s.v6.nodes))
      invariant s.v4.values == old(s.v4.values) && s.v6.values == old(s.v6.values)
      invariant |rs| == |c| && Ticked(c, old(Times(rs)), Times(rs), tick, gone, i)
      invariant notices == NoticesOf(rs[..i])
      decreases |c| - i
    {
      ghost var now, before := Times(rs), gone;
      InOrderAt(c, i);
      var notice;
      cur, notice, gone := Visit(s, cur, tick, c, m, gone, i, rs);
      NextNotice(rs, i);
      NextTicked(c, old(Times(rs)), now, tick, before, gone, i);
      notices := notices + notice;
      i := i + 1;
    }
    assert rs[..|c|] == rs;
  }

  lemma NoneTicked(c: seq<BPValue>, now: seq<UInt64>, tick: UInt32)
    requires |now| == |c|
    ensures Ticked(c, now, now, tick, {}, 0)
  {
  }

  lemma NextTicked(c: seq<BPValue>, was: seq<UInt64>, now: seq<UInt64>, tick: UInt32, gone: set<nat>, gone': set<nat>,
      i: nat)
    requires Ticked(c, was, now, tick, gone, i) && i < |c|
    requires forall j, k :: 0 <= j < k < |c| ==> c[j].key != c[k].key
    requires gone' == if Less(now[i], tick) == 0 then gone + {c[i].key} else gone
    ensures Ticked(c, was, now[i := Less(now[i], tick)], tick, gone', i + 1)
  {
  }

  lemma InOrderAt(c: seq<BPValue>, i: nat)
    requires i < |c|
    ensures InOrder(c)[i] == c[i].record
  {
  }

  lemma NoNotices(rs: seq<Tunnel>)
    ensures NoticesOf(rs[..0]) == []
  {
  }

  lemma NextNotice(rs: seq<Tunnel>, i: nat)
    requires i < |rs|
    ensures NoticesOf(rs[..i + 1]) == NoticesOf(rs[..i])
                                      + if rs[i].liveTime == 0 then [Notice(rs[i].client, rs[i].extIP, rs[i].startPort)]
                                        else []
  {
    assert rs[..i + 1][..i] == rs[..i];
  }

  /** TunnelTimeOut: the tunnels whose lifetime reaches exactly 0 leave both indexes, all others
      stay, every lifetime is reduced once and the notices come in key order. */
  method TimeOut(s: Storage, tick: UInt32) returns (notices: seq<Notice>)
    requires s.Valid() && Paired(s.R4(), s.R6())
    modifies s.v4, s.v6, s.v4.nodes, s.v6.nodes, s.v4.values, s.v6.values, s.R4().Values`liveTime
    ensures s.Valid() && Paired(s.R4(), s.R6())
    ensures forall t :: t in old(s.R4().Values) ==> t.liveTime == Less(old(t.liveTime), tick)
    ensures s.R4() == Alive(old(s.R4())) && s.R6() == Alive(old(s.R6()))
    ensures forall i :: 0 <= i < |notices| ==> FromExpired(old(s.R4()), notices[i])
    ensures forall t :: t in old(s.R4().Values) && t.liveTime == 0 ==> Noticed(notices, t)
    ensures forall i, j :: 0 <= i < j < |notices| ==>
              KeyV4(notices[i].extIP, notices[i].startPort) < KeyV4(notices[j].extIP, notices[j].startPort)
  {
    hide Listing, Paired, KeyOf, KeyV4, At, NoticesOf, RecordsOf, Walk, Storage.Valid, FromExpired, Noticed;
    ghost var c, m, m6, r4 := s.v4.chain, s.v4.index, s.v6.index, s.R4();
    ghost var gone;
    Start(s);
    notices, gone := Sweep(s, tick, c, InOrder(c));
    Finish(s, c, m, m6, gone);
    NoticesListed(c, m, m6, r4, notices);
  }

  /** The notice is about a tunnel that has expired. */
  ghost predicate FromExpired(r4: Records, n: Notice)
    reads r4.Values
  {
    exists t :: t in r4.Values && t.liveTime == 0
                && n.client == t.client && n.extIP == t.extIP && n.startPort == t.startPort
  }

  ghost predicate Noticed(ns: seq<Notice>, t: Tunnel) {
    exists i :: 0 <= i < |ns| && ns[i].client == t.client && ns[i].extIP == t.extIP && ns[i].startPort == t.startPort
  }

  /** The notices about the values of the chain. */
  lemma NoticesListed(c: seq<BPValue>, m: Index, m6: Index, r4: Records, ns: seq<Notice>)
    requires Listing(c, m) && Paired(r4, RecordsOf(m6)) && r4 == RecordsOf(m) && ns == NoticesOf(InOrder(c))
    ensures forall i :: 0 <= i < |ns| ==> FromExpired(r4, ns[i])
    ensures forall t :: t in r4.Values && t.liveTime == 0 ==> Noticed(ns, t)
    ensures forall i, j :: 0 <= i < j < |ns| ==>
              KeyV4(ns[i].extIP, ns[i].startPort) < KeyV4(ns[j].extIP, ns[j].startPort)
  {
    hide KeyV4, NoticesOf, Listing, Paired, RecordsOf;
    var rs := InOrder(c);
    forall i | 0 <= i < |ns| ensures FromExpired(r4, ns[i]) {
      var j := SourceOf(rs, i);
      OwnKey(c, m, m6, j);
      var t := c[j].record;
      assert t in r4.Values && t.liveTime == 0 && About(ns[i], t);
    }
    forall t | t in r4.Values && t.liveTime == 0 ensures Noticed(ns, t) {
      var k := KeyIn(m, t);
      var j := Position(c, m, k);
      var i := NoticeAbout(rs, j);
      assert About(ns[i], t);
    }
    forall i, i' | 0 <= i < i' < |ns|
      ensures KeyV4(ns[i].extIP, ns[i].startPort) < KeyV4(ns[i'].extIP, ns[i'].startPort)
    {
      var j, j' := NoticeOrder(rs, i, i');
      OwnKey(c, m, m6, j);
      OwnKey(c, m, m6, j');
      Ascending(c, m, j, j');
    }
  }

  lemma KeyIn(m: Index, t: Tunnel) returns (k: nat)
    requires t in RecordsOf(m).Values
    ensures k in m && m[k].record == t
  {
    k :| k in m && m[k].record == t;
  }

  lemma Ascending(c: seq<BPValue>, m: Index, i: nat, j: nat)
    requires Listing(c, m) && i < j < |c|
    ensures c[i].key < c[j].key
  {
    assert Before(c, i, j);
  }

  lemma Finish(s: Storage, c: seq<BPValue>, m: Index, m6: Index, gone: set<nat>)
    requires Walk(s, c, m, gone, |c|) && Paired(RecordsOf(m), RecordsOf(m6))
    requires forall j :: 0 <= j < |c| ==> (c[j].key in gone <==> c[j].record.liveTime == 0)
    ensures s.Valid() && Paired(s.R4(), s.R6())
    ensures s.R4() == Alive(RecordsOf(m)) && s.R6() == Alive(RecordsOf(m6))
    ensures forall t :: t in RecordsOf(m).Values ==> exists j :: 0 <= j < |c| && t == c[j].record
  {
    IndexAlive(c, m, gone);
    PairedAlive(RecordsOf(m), RecordsOf(m6), s.R4(), s.R6());
    forall t | t in RecordsOf(m).Values ensures exists j :: 0 <= j < |c| && t == c[j].record {
      var k :| k in m && m[k].record == t;
      var j := Position(c, m, k);
    }
  }

  /** One turn of the loop of bptraverse with ClearStorage for its callback. */
  method Clear(s: Storage, cur: BPValue, ghost c: seq<BPValue>, ghost m: Index, ghost gone: set<nat>, ghost i: nat)
    returns (next: BPValue?)
    requires Walk(s, c, m, gone, i) && i < |c| && cur == c[i]
    modifies s.v4, s.v6, s.v4.nodes, s.v6.nodes, s.v4.values, s.v6.values
    ensures Walk(s, c, m, gone + {cur.key}, i + 1)
    ensures fresh(s.v4.nodes - old(s.v4.nodes)) && fresh(s.v6.nodes - old(s.v6.nodes))
    ensures s.v4.values == old(s.v4.values) && s.v6.values == old(s.v6.values)
    ensures next == if i + 1 < |c| then c[i + 1] else null
  {
    hide BPTree.Valid, Listing, Paired, KeyOf, BPTree.Listed;
    NextOf(s.v4, c, m, gone, i);
    next := cur.next;
    ghost var m4, m6 := s.v4.index, s.v6.index;
    s.Drop(cur.record);
    StepOn(s, c, m, m4, m6, gone, i, true);
  }

  /** DestroyStorage: both indexes end empty, although each step deletes the value it stands on. */
  method DestroyStorage(s: Storage) returns (ret: int)
    requires s.Valid() && Paired(s.R4(), s.R6())
    modifies s.v4, s.v6, s.v4.nodes, s.v6.nodes, s.v4.values, s.v6.values
    ensures s.Valid() && s.R4() == map[] && s.R6() == map[] && ret == 0
  {
    hide *;
    ghost var c, m := s.v4.chain, s.v4.index;
    ghost var gone: set<nat>, i := {}, 0;
    var cur := s.v4.header;
    Start(s);
    while cur != null
      invariant Walk(s, c, m, gone, i) && i <= |c| && cur == if i < |c| then c[i] else null
      invariant fresh(s.v4.nodes - old(s.v4.nodes)) && fresh(s.v6.nodes - old(s.v6.nodes))
      invariant s.v4.values == old(s.v4.values) && s.v6.values == old(s.v6.values)
      invariant forall j :: 0 <= j < i ==> c[j].key in gone
      decreases |c| - i
    {
      cur := Clear(s, cur, c, m, gone, i);
      gone := gone + {c[i].key};
      i := i + 1;
    }
    AllGone(s, c, m, gone);
    return 0;
  }

  lemma NoClients(r4: Records, r6: Records)
    requires Paired(r4, r6) && r4 == map[]
    ensures r6 == map[]
  {
    forall c | c in r6 ensures Known6(r4, r6, c) {
    }
    assert r6.Keys == {};
  }

  lemma AllGone(s: Storage, c: seq<BPValue>, m: Index, gone: set<nat>)
    requires Walk(s, c, m, gone, |c|) && forall j :: 0 <= j < |c| ==> c[j].key in gone
    ensures s.Valid() && s.R4() == map[] && s.R6() == map[]
  {
    forall k | k in m ensures k in gone {
      var j := Position(c, m, k);
    }
    assert s.v4.index == map[];
    NoClients(s.R4(), s.R6());
  }

  function TimesLess(time: UInt64, tick: UInt32, n: nat): UInt64 {
    if n == 0 then time else Less(TimesLess(time, tick, n - 1), tick)
  }

  lemma {:induction false} NoWrap(time: UInt64, tick: UInt32, n: nat)
    requires n * tick <= time
    ensures TimesLess(time, tick, n) == time - n * tick
  {
    if n > 0 {
      MulMono(n - 1, n, tick);
      NoWrap(time, tick, n - 1);
    }
  }

  /** A lifetime counts down without wrapping for time / tick ticks, and the tunnel is then dropped
      exactly when the tick divides the lifetime; otherwise the next tick wraps the unsigned lifetime
      round to a huge one. */
  lemma ExpiresOnTime(time: UInt64, tick: UInt32)
    requires tick > 0
    ensures var n := time / tick;
      && (forall i :: 0 <= i < n ==> TimesLess(time, tick, i) > 0)
      && (TimesLess(time, tick, n) == 0 <==> time % tick == 0)
      && (time % tick != 0 ==> TimesLess(time, tick, n + 1) > WRAP - tick)
  {
    var n := time / tick;
    DivMod(time, tick);
    forall i | 0 <= i < n ensures TimesLess(time, tick, i) > 0 {
      MulMono(i + 1, n, tick);
      NoWrap(time, tick, i);
    }
    NoWrap(time, tick, n);
  }
}
