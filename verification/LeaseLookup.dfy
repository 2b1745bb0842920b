/** The lease protocol and the tunnel store together: what a lookup on the way down to a client finds while
    the server and the kernel lease ports. */
module LeaseLookup {
  import opened Tunnels
  import opened Keys
  import BPlusTree
  import BPlusChain
  import opened TunnelStore
  import opened TunnelLookup
  import opened AddrPool
  import opened PoolScan
  import opened PoolRuns
  import opened Leases

  /** The IPv4 address of a block, in a pool whose first address is ip0. */
  function AddressOf(ip0: nat, b: Spot): nat {
    ip0 + b.k
  }

  function KeyOfSpot(ip0: nat, b: Spot): nat
    requires AddressOf(ip0, b) < 0x1_0000_0000
  {
    KeyV4(AddressOf(ip0, b), StartOf(b.b))
  }

  /** The store has the tunnel of a block, under the key that address and start port make. */
  ghost predicate RecordAt(s: State, ip0: nat, r4: Records, b: Spot)
    requires b in s.k4
  {
    && AddressOf(ip0, b) < 0x1_0000_0000 && KeyOfSpot(ip0, b) in r4
    && var t := r4[KeyOfSpot(ip0, b)];
       t.client == s.k4[b] && t.extIP == AddressOf(ip0, b) && t.startPort == StartOf(b.b)
  }

  ghost predicate SpotAt(s: State, ip0: nat, r4: Records, k: nat) {
    exists b :: b in s.k4 && AddressOf(ip0, b) < 0x1_0000_0000 && KeyOfSpot(ip0, b) == k
  }

  /** The store has the tunnels of the kernel's side of a lease state, and no others. */
  ghost predicate Holding(s: State, ip0: nat, r4: Records, r6: Records) {
    && Paired(r4, r6)
    && (forall b {:trigger RecordAt(s, ip0, r4, b)} :: b in s.k4 ==> RecordAt(s, ip0, r4, b))
    && (forall k {:trigger SpotAt(s, ip0, r4, k)} :: k in r4 ==> SpotAt(s, ip0, r4, k))
  }

  /** Client c leases the port at this address. */
  ghost predicate Leases4(s: State, ip0: nat, r: nat, c: Client, ip: nat, port: nat) {
    c in s.k6 && AddressOf(ip0, s.k6[c]) == ip && PortIn(port, s.k6[c].b, r)
  }

  /** What a run says about a block that is leased. */
  lemma LeasedBlock(ss: seq<State>, es: seq<Event>, r: nat, i: nat, b: Spot)
    requires 1 < r && Range(r) && Run(ss, es, r) && i < |ss| && b in ss[i].k4
    ensures StartOf(b.b) == 1024 * b.b + 1024 && Aligned(StartOf(b.b), 1024 * r)
    ensures ss[i].k4[b] in ss[i].k6 && ss[i].k6[ss[i].k4[b]] == b
  {
    hide Run, Holds, Aligned;
    var owners := RunOwners(ss, es, r, i);
    RunSafe(ss, es, r, i);
    LiveSpot(ss[i].pool, owners.Keys, r, b);
    BelowTop(b.b, r);
    BoundaryCheck(b.b, r);
    PoolAligned(b.b, r);
  }

  lemma StoreAligned(ss: seq<State>, es: seq<Event>, r: nat, i: nat, ip0: nat, r4: Records, r6: Records)
    requires 1 < r && Range(r) && Run(ss, es, r) && i < |ss| && Holding(ss[i], ip0, r4, r6)
    ensures LeasesAligned(r4, 1024 * r)
  {
    hide Run, Aligned, KeyV4, StartOf, Paired;
    forall k | k in r4 ensures Aligned(r4[k].startPort, 1024 * r) {
      assert SpotAt(ss[i], ip0, r4, k);
      var b :| b in ss[i].k4 && AddressOf(ip0, b) < 0x1_0000_0000 && KeyOfSpot(ip0, b) == k;
      assert RecordAt(ss[i], ip0, r4, b);
      LeasedBlock(ss, es, r, i, b);
    }
  }

  ghost predicate Exact(b: Spot) {
    StartOf(b.b) == 1024 * b.b + 1024
  }

  lemma SpotOfKey(ip0: nat, b: Spot, d: Spot)
    requires AddressOf(ip0, b) < 0x1_0000_0000 && AddressOf(ip0, d) < 0x1_0000_0000 && Exact(b) && Exact(d)
    ensures KeyOfSpot(ip0, b) == KeyOfSpot(ip0, d) ==> b == d
  {
    hide KeyV4, StartOf;
    if KeyOfSpot(ip0, b) == KeyOfSpot(ip0, d) {
      KeyV4Injective(AddressOf(ip0, b), StartOf(b.b), AddressOf(ip0, d), StartOf(d.b));
    }
  }

  /** The create step of a grant, when there is room, and CreateTunnel on the store come to the same. */
  lemma CreateHolding(s: State, c: Client, b: Spot, ip0: nat, r4: Records, r6: Records, t: Tunnel)
    requires Holding(s, ip0, r4, r6) && Room(s) && b !in s.k4 && c !in s.k6 && c !in r6 && Exact(b)
    requires forall d :: d in s.k4 ==> Exact(d)
    requires AddressOf(ip0, b) < 0x1_0000_0000
    requires t.client == c && t.extIP == AddressOf(ip0, b) && t.startPort == StartOf(b.b)
    ensures KeyOf(t) !in r4 && Holding(Created(s, c, b), ip0, r4[KeyOf(t) := t], r6[c := t])
  {
    hide KeyV4, StartOf, Paired, Room, Exact;
    var s', s4 := Created(s, c, b), r4[KeyOf(t) := t];
    NoKey(s, ip0, r4, r6, b);
    CreatePaired(r4, r6, t);
    forall d | d in s'.k4 ensures RecordAt(s', ip0, s4, d) {
      if d != b {
        assert RecordAt(s, ip0, r4, d);
        SpotOfKey(ip0, b, d);
      }
    }
    forall k | k in s4 ensures SpotAt(s', ip0, s4, k) {
      assert k in r4 ==> SpotAt(s, ip0, r4, k);
      assert k !in r4 ==> b in s'.k4 && KeyOfSpot(ip0, b) == k;
    }
  }

  /** The end of a tunnel, by a delete or at its time, and its removal from both indexes come to the same. */
  lemma DropHolding(s: State, c: Client, ip0: nat, r4: Records, r6: Records)
    requires Holding(s, ip0, r4, r6) && c in s.k6 && s.k6[c] in s.k4 && s.k4[s.k6[c]] == c
    requires forall d :: d in s.k4 ==> Exact(d)
    ensures c in r6 && Holding(Dropped(s, c), ip0, r4 - {KeyOf(r6[c])}, r6 - {c})
  {
    hide KeyV4, StartOf, Paired, Exact;
    var s', b := Dropped(s, c), s.k6[c];
    assert RecordAt(s, ip0, r4, b);
    var key := KeyOfSpot(ip0, b);
    PairedAt(r4, r6, key);
    DestroyPaired(r4, r6, c);
    var s4 := r4 - {key};
    forall d | d in s'.k4 ensures RecordAt(s', ip0, s4, d) {
      assert RecordAt(s, ip0, r4, d);
      SpotOfKey(ip0, b, d);
    }
    forall k | k in s4 ensures SpotAt(s', ip0, s4, k) {
      assert SpotAt(s, ip0, r4, k);
      var d :| d in s.k4 && AddressOf(ip0, d) < 0x1_0000_0000 && KeyOfSpot(ip0, d) == k;
      assert d in s'.k4;
    }
  }

  lemma PairedAt(r4: Records, r6: Records, k: nat)
    requires Paired(r4, r6) && k in r4
    ensures r4[k].client in r6 && r6[r4[k].client] == r4[k] && KeyOf(r4[k]) == k
  {
    assert Known4(r4, r6, k);
  }

  ghost predicate TunnelOf(t: Tunnel, c: Client, ip0: nat, b: Spot) {
    t.client == c && t.extIP == AddressOf(ip0, b) && t.startPort == StartOf(b.b)
  }

  /** What a step does to the store: a grant that finds room becomes a tunnel with the address and start port
      of its block, a delete or an expiry takes the client's tunnel away, and nothing else touches the store. */
  ghost predicate Stored(s: State, e: Event, ip0: nat, r4: Records, r6: Records, r4': Records, r6': Records) {
    match e
    case Create(c) =>
      if c in s.requests && s.requests[c].Granted? && Room(s) then
        && c in r6' && TunnelOf(r6'[c], c, ip0, s.requests[c].spot)
        && r4' == r4[KeyOf(r6'[c]) := r6'[c]] && r6' == r6[c := r6'[c]]
      else r4' == r4 && r6' == r6
    case Delete(c) => Removed(c, r4, r6, r4', r6')
    case Expire(c) => Removed(c, r4, r6, r4', r6')
    case _ => r4' == r4 && r6' == r6
  }

  ghost predicate Removed(c: Client, r4: Records, r6: Records, r4': Records, r6': Records) {
    if c in r6 then r4' == r4 - {KeyOf(r6[c])} && r6' == r6 - {c} else r4' == r4 && r6' == r6
  }

  /** The store beside a run: it starts empty, and the pool's addresses have 32 bits. */
  ghost predicate StoreRun(ss: seq<State>, es: seq<Event>, ip0: nat, r4s: seq<Records>, r6s: seq<Records>) {
    && |ss| == |es| + 1 == |r4s| == |r6s| && r4s[0] == map[] && r6s[0] == map[]
    && (forall i :: 0 <= i < |ss| ==> ip0 + |ss[i].pool.marks| <= 0x1_0000_0000)
    && (forall i {:trigger es[i]} :: 0 <= i < |es| ==>
          Stored(ss[i], es[i], ip0, r4s[i], r6s[i], r4s[i + 1], r6s[i + 1]))
  }

  lemma SameHolding(s: State, s': State, ip0: nat, r4: Records, r6: Records)
    requires Holding(s, ip0, r4, r6) && s'.k4 == s.k4
    ensures Holding(s', ip0, r4, r6)
  {
    hide KeyV4, StartOf, Paired;
    forall b | b in s'.k4 ensures RecordAt(s', ip0, r4, b) {
      assert RecordAt(s, ip0, r4, b);
    }
    forall k | k in r4 ensures SpotAt(s', ip0, r4, k) {
      assert SpotAt(s, ip0, r4, k);
    }
  }

  lemma StoredClient(s: State, ip0: nat, r4: Records, r6: Records, c: Client)
    requires Holding(s, ip0, r4, r6) && c in r6
    ensures exists b :: b in s.k4 && s.k4[b] == c
  {
    hide KeyV4, StartOf;
    assert Known6(r4, r6, c);
    var k := KeyOf(r6[c]);
    assert SpotAt(s, ip0, r4, k);
    var b :| b in s.k4 && AddressOf(ip0, b) < 0x1_0000_0000 && KeyOfSpot(ip0, b) == k;
    assert RecordAt(s, ip0, r4, b);
  }

  lemma AllExact(ss: seq<State>, es: seq<Event>, r: nat, i: nat)
    requires 1 < r && Range(r) && Run(ss, es, r) && i < |ss|
    ensures forall b :: b in ss[i].k4 ==> Exact(b)
  {
    hide Run, StartOf, Aligned;
    forall b | b in ss[i].k4 ensures Exact(b) {
      LeasedBlock(ss, es, r, i, b);
    }
  }

  /** What a run says about a block that is granted. */
  lemma GrantedBlock(ss: seq<State>, es: seq<Event>, r: nat, i: nat, c: Client)
    requires 1 < r && Range(r) && Run(ss, es, r) && i < |ss|
    requires c in ss[i].requests && ss[i].requests[c].Granted?
    ensures var b := ss[i].requests[c].spot;
      Exact(b) && b !in ss[i].k4 && c !in ss[i].k6 && b.k < |ss[i].pool.marks|
  {
    hide Run, Holds, Aligned;
    var owners := RunOwners(ss, es, r, i);
    var b := ss[i].requests[c].spot;
    assert RequestOK(ss[i], owners, c);
    LiveSpot(ss[i].pool, owners.Keys, r, b);
    BelowTop(b.b, r);
    BoundaryCheck(b.b, r);
  }

  lemma RunStep(ss: seq<State>, es: seq<Event>, r: nat, i: nat)
    requires 1 < r && Run(ss, es, r) && i < |es|
    ensures Next(ss[i], es[i], ss[i + 1], r)
  {
    assert es[i] == es[i];
  }

  /** A client's tunnel is removed from the store exactly when the lease state drops it. */
  lemma RemoveStep(s: State, s': State, c: Client, ip0: nat, r4: Records, r6: Records, r4': Records, r6': Records)
    requires Holding(s, ip0, r4, r6) && Removed(c, r4, r6, r4', r6')
    requires forall d :: d in s.k4 ==> Exact(d) && s.k4[d] in s.k6 && s.k6[s.k4[d]] == d
    requires forall d :: d in s.k6 ==> s.k6[d] in s.k4 && s.k4[s.k6[d]] == d
    requires s'.k4 == if c in s.k6 then Dropped(s, c).k4 else s.k4
    ensures Holding(s', ip0, r4', r6')
  {
    hide Holding, Exact, Dropped;
    if c in s.k6 {
      DropHolding(s, c, ip0, r4, r6);
      SameHolding(Dropped(s, c), s', ip0, r4', r6');
    } else {
      if c in r6 {
        StoredClient(s, ip0, r4, r6, c);
      }
      SameHolding(s, s', ip0, r4, r6);
    }
  }

  lemma CreateStep(s: State, s': State, c: Client, ip0: nat, r4: Records, r6: Records, r4': Records, r6': Records)
    requires Holding(s, ip0, r4, r6) && Stored(s, Create(c), ip0, r4, r6, r4', r6')
    requires c in s.requests && (s.requests[c].Renewing? || s.requests[c].Granted?)
    requires s.requests[c].Renewing? ==> Created(s, c, s.requests[c].spot).k4 == s.k4
    requires s.requests[c].Granted? ==>
               var b := s.requests[c].spot; Exact(b) && b !in s.k4 && c !in s.k6 && AddressOf(ip0, b) < 0x1_0000_0000
    requires forall d :: d in s.k4 ==> Exact(d) && s.k4[d] in s.k6 && s.k6[s.k4[d]] == d
    requires s'.k4 == Created(s, c, s.requests[c].spot).k4
    ensures Holding(s', ip0, r4', r6')
  {
    hide Holding, Exact;
    var b := s.requests[c].spot;
    if s.requests[c].Granted? && Room(s) {
      if c in r6 {
        StoredClient(s, ip0, r4, r6, c);
      }
      CreateHolding(s, c, b, ip0, r4, r6, r6'[c]);
      SameHolding(Created(s, c, b), s', ip0, r4', r6');
    } else {
      SameHolding(s, s', ip0, r4, r6);
    }
  }

  lemma RenewalKeeps(ss: seq<State>, es: seq<Event>, r: nat, i: nat, c: Client)
    requires 1 < r && Range(r) && Run(ss, es, r) && i < |ss|
    requires c in ss[i].requests && ss[i].requests[c].Renewing?
    ensures Created(ss[i], c, ss[i].requests[c].spot).k4 == ss[i].k4
  {
    hide Run, Holds;
    var owners := RunOwners(ss, es, r, i);
    RenewalIsIdle(ss[i], owners, c);
  }

  /** A step keeps lease state and store together. */
  lemma HoldingStep(ss: seq<State>, es: seq<Event>, r: nat, i: nat, ip0: nat, r4s: seq<Records>, r6s: seq<Records>)
    requires 1 < r && Range(r) && Run(ss, es, r) && i < |es| && StoreRun(ss, es, ip0, r4s, r6s)
    requires Holding(ss[i], ip0, r4s[i], r6s[i])
    ensures Holding(ss[i + 1], ip0, r4s[i + 1], r6s[i + 1])
  {
    hide Holding, Exact, Created, Removed, Run;
    var s, s', e, r4, r6 := ss[i], ss[i + 1], es[i], r4s[i], r6s[i];
    RunStep(ss, es, r, i);
    RunSafe(ss, es, r, i);
    AllExact(ss, es, r, i);
    match e
    case Create(c) =>
      if s.requests[c].Granted? {
        GrantedBlock(ss, es, r, i, c);
      } else {
        RenewalKeeps(ss, es, r, i, c);
      }
      CreateStep(s, s', c, ip0, r4, r6, r4s[i + 1], r6s[i + 1]);
    case Delete(c) => RemoveStep(s, s', c, ip0, r4, r6, r4s[i + 1], r6s[i + 1]);
    case Expire(c) => RemoveStep(s, s', c, ip0, r4, r6, r4s[i + 1], r6s[i + 1]);
    case _ => SameHolding(s, s', ip0, r4, r6);
  }

  /** In every state of every run the store has exactly the tunnels of the leases. */
  lemma {:induction false} RunHolding(ss: seq<State>, es: seq<Event>, r: nat, i: nat, ip0: nat, r4s: seq<Records>,
      r6s: seq<Records>)
    requires 1 < r && Range(r) && Run(ss, es, r) && i < |ss| && StoreRun(ss, es, ip0, r4s, r6s)
    ensures Holding(ss[i], ip0, r4s[i], r6s[i])
  {
    hide Next, Timely;
    if i > 0 {
      RunHolding(ss, es, r, i - 1, ip0, r4s, r6s);
      HoldingStep(ss, es, r, i - 1, ip0, r4s, r6s);
    }
  }

  /** Both indexes of a paired store have one size. */
  lemma {:induction false} PairedSize(r4: Records, r6: Records)
    requires Paired(r4, r6)
    ensures |r4| == |r6|
    decreases |r6|
  {
    if r6 == map[] {
      forall k | k in r4 ensures false {
        PairedAt(r4, r6, k);
      }
      assert r4 == map[];
    } else {
      var c :| c in r6;
      assert Known6(r4, r6, c);
      var k := KeyOf(r6[c]);
      DestroyPaired(r4, r6, c);
      assert r4.Keys == (r4 - {k}).Keys + {k} && r6.Keys == (r6 - {c}).Keys + {c};
      PairedSize(r4 - {k}, r6 - {c});
    }
  }

  lemma HoldingSize(s: State, ip0: nat, r4: Records, r6: Records)
    requires Holding(s, ip0, r4, r6) && Inverse(s.k4, s.k6) && forall d :: d in s.k4 ==> Exact(d)
    ensures |r4| == |s.k4| && |r6| == |s.k6|
  {
    hide Holding, Exact;
    forall c ensures c in r6 <==> c in s.k6 {
      if c in r6 {
        StoredClient(s, ip0, r4, r6, c);
      }
      if c in s.k6 {
        DropHolding(s, c, ip0, r4, r6);
      }
    }
    assert r6.Keys == s.k6.Keys;
    HoldingPaired(s, ip0, r4, r6);
    PairedSize(r4, r6);
    InverseSize(s.k4, s.k6);
  }

  lemma StoreSizes(s: Storage)
    requires s.Valid()
    ensures s.v4.size == |s.R4()| <= BPlusTree.MAXBPSIZE && s.v6.size == |s.R6()| <= BPlusTree.MAXBPSIZE
  {
    BPlusChain.ListingSize(s.v4.chain, s.v4.index);
    BPlusChain.ListingSize(s.v6.chain, s.v6.index);
    assert s.R4().Keys == s.v4.index.Keys && s.R6().Keys == s.v6.index.Keys;
  }

  /** The create step on the store itself: it succeeds exactly for a grant that finds room, and does what the
      protocol says. */
  method CreateLeased(s: Storage, t: Tunnel, ghost ss: seq<State>, ghost es: seq<Event>, ghost i: nat, ghost ip0: nat,
      ghost r4s: seq<Records>, ghost r6s: seq<Records>, ghost r: nat)
    returns (ret: int)
    requires 1 < r && Range(r) && Run(ss, es, r) && i < |ss| && StoreRun(ss, es, ip0, r4s, r6s)
    requires s.Valid() && s.R4() == r4s[i] && s.R6() == r6s[i]
    requires t.client in ss[i].requests
    requires var q := ss[i].requests[t.client];
      (q.Renewing? || q.Granted?) && TunnelOf(t, t.client, ip0, q.spot)
    modifies s.v4, s.v6, s.v4.nodes, s.v6.nodes, s.v4.values, s.v6.values
    ensures s.Valid() && ret == if ss[i].requests[t.client].Granted? && Room(ss[i]) then 1 else -1
    ensures Stored(ss[i], Create(t.client), ip0, r4s[i], r6s[i], s.R4(), s.R6())
  {
    hide Run, Storage.Valid, Storage.R4, Storage.R6, Holding, StoreRun;
    CreateFacts(ss, es, r, i, t, ip0, r4s, r6s);
    StoreSizes(s);
    ret := s.Create(t);
  }

  /** What the store's create depends on, in terms of the protocol. */
  lemma CreateFacts(ss: seq<State>, es: seq<Event>, r: nat, i: nat, t: Tunnel, ip0: nat, r4s: seq<Records>,
      r6s: seq<Records>)
    requires 1 < r && Range(r) && Run(ss, es, r) && i < |ss| && StoreRun(ss, es, ip0, r4s, r6s)
    requires t.client in ss[i].requests
    requires var q := ss[i].requests[t.client];
      (q.Renewing? || q.Granted?) && TunnelOf(t, t.client, ip0, q.spot)
    ensures Room(ss[i]) <==> |r4s[i]| < BPlusTree.MAXBPSIZE && |r6s[i]| < BPlusTree.MAXBPSIZE
    ensures KeyOf(t) in r4s[i] <==> ss[i].requests[t.client].Renewing?
    ensures ss[i].requests[t.client].Granted? ==> t.client !in r6s[i]
  {
    hide Run, Holding, Exact, KeyV4, StartOf;
    var s, c, r4, r6 := ss[i], t.client, r4s[i], r6s[i];
    RunHolding(ss, es, r, i, ip0, r4s, r6s);
    RunSafe(ss, es, r, i);
    AllExact(ss, es, r, i);
    HoldingSize(s, ip0, r4, r6);
    if s.requests[c].Granted? {
      GrantedBlock(ss, es, r, i, c);
      if c in r6 {
        StoredClient(s, ip0, r4, r6, c);
      }
      NoKey(s, ip0, r4, r6, s.requests[c].spot);
    } else {
      RenewedKey(ss, es, r, i, c, ip0, r4, r6);
    }
  }

  lemma NoKey(s: State, ip0: nat, r4: Records, r6: Records, b: Spot)
    requires Holding(s, ip0, r4, r6) && b !in s.k4 && Exact(b) && AddressOf(ip0, b) < 0x1_0000_0000
    requires forall d :: d in s.k4 ==> Exact(d)
    ensures KeyOfSpot(ip0, b) !in r4
  {
    hide Exact, KeyV4, StartOf, Paired;
    if KeyOfSpot(ip0, b) in r4 {
      assert SpotAt(s, ip0, r4, KeyOfSpot(ip0, b));
      var d :| d in s.k4 && AddressOf(ip0, d) < 0x1_0000_0000 && KeyOfSpot(ip0, d) == KeyOfSpot(ip0, b);
      SpotOfKey(ip0, b, d);
    }
  }

  lemma RenewedKey(ss: seq<State>, es: seq<Event>, r: nat, i: nat, c: Client, ip0: nat, r4: Records, r6: Records)
    requires 1 < r && Range(r) && Run(ss, es, r) && i < |ss| && Holding(ss[i], ip0, r4, r6)
    requires c in ss[i].requests && ss[i].requests[c].Renewing?
    requires AddressOf(ip0, ss[i].requests[c].spot) < 0x1_0000_0000
    ensures KeyOfSpot(ip0, ss[i].requests[c].spot) in r4
  {
    hide Run, KeyV4, StartOf, Paired, Holds;
    var owners := RunOwners(ss, es, r, i);
    assert RequestOK(ss[i], owners, c);
    RunSafe(ss, es, r, i);
    assert RecordAt(ss[i], ip0, r4, ss[i].requests[c].spot);
  }

  /** The store has the tunnel of a client exactly while the client leases a block, and it is the block's. */
  lemma LeasedTunnel(ss: seq<State>, es: seq<Event>, r: nat, i: nat, c: Client, ip0: nat, r4s: seq<Records>,
      r6s: seq<Records>)
    requires 1 < r && Range(r) && Run(ss, es, r) && i < |ss| && StoreRun(ss, es, ip0, r4s, r6s)
    ensures c in r6s[i] <==> c in ss[i].k6
    ensures c in r6s[i] ==> TunnelOf(r6s[i][c], c, ip0, ss[i].k6[c])
  {
    hide Run, Holding, Exact, KeyV4, StartOf;
    var s, r4, r6 := ss[i], r4s[i], r6s[i];
    RunHolding(ss, es, r, i, ip0, r4s, r6s);
    RunSafe(ss, es, r, i);
    AllExact(ss, es, r, i);
    if c in r6 {
      StoredClient(s, ip0, r4, r6, c);
    }
    if c in s.k6 {
      DropHolding(s, c, ip0, r4, r6);
      RecordOfClient(s, ip0, r4, r6, c);
    }
  }

  lemma RecordOfClient(s: State, ip0: nat, r4: Records, r6: Records, c: Client)
    requires Holding(s, ip0, r4, r6) && c in s.k6 && s.k6[c] in s.k4 && s.k4[s.k6[c]] == c && c in r6
    ensures TunnelOf(r6[c], c, ip0, s.k6[c])
  {
    hide KeyV4, StartOf;
    assert RecordAt(s, ip0, r4, s.k6[c]);
    PairedAt(r4, r6, KeyOfSpot(ip0, s.k6[c]));
  }

  /** The delete step on the store itself: it succeeds exactly for a client that leases a block, and tells the
      server the address and start port of that block. */
  method DeleteLeased(s: Storage, c: Client, ghost ss: seq<State>, ghost es: seq<Event>, ghost i: nat, ghost ip0: nat,
      ghost r4s: seq<Records>, ghost r6s: seq<Records>, ghost r: nat)
    returns (ret: int, port: nat, extIP: nat)
    requires 1 < r && Range(r) && Run(ss, es, r) && i < |ss| && StoreRun(ss, es, ip0, r4s, r6s)
    requires s.Valid() && s.R4() == r4s[i] && s.R6() == r6s[i]
    modifies s.v4, s.v6, s.v4.nodes, s.v6.nodes, s.v4.values, s.v6.values
    ensures s.Valid() && ret == if c in ss[i].k6 then 1 else -1
    ensures ret == 1 ==> extIP == AddressOf(ip0, ss[i].k6[c]) && port == StartOf(ss[i].k6[c].b)
    ensures Stored(ss[i], Delete(c), ip0, r4s[i], r6s[i], s.R4(), s.R6())
  {
    hide Run, Storage.Valid, Storage.R4, Storage.R6, StoreRun, KeyV4, StartOf;
    LeasedTunnel(ss, es, r, i, c, ip0, r4s, r6s);
    ret, port, extIP := s.Destroy(c);
  }

  /** One tick for a tunnel of the store: when its time is up, that is the protocol's expire step, whose notice
      names the block that the client leased; otherwise the store stays as it is. */
  method AgeLeased(s: Storage, t: Tunnel, tick: UInt32, ghost ss: seq<State>, ghost es: seq<Event>, ghost i: nat,
      ghost ip0: nat, ghost r4s: seq<Records>, ghost r6s: seq<Records>, ghost r: nat)
    returns (ret: int, notice: seq<TunnelStore.Notice>)
    requires 1 < r && Range(r) && Run(ss, es, r) && i < |ss| && StoreRun(ss, es, ip0, r4s, r6s)
    requires s.Valid() && s.R4() == r4s[i] && s.R6() == r6s[i]
    requires t.client in s.R6() && s.R6()[t.client] == t
    modifies s.v4, s.v6, s.v4.nodes, s.v6.nodes, s.v4.values, s.v6.values, t`liveTime
    ensures s.Valid() && t.liveTime == Less(old(t.liveTime), tick) && ret == if t.liveTime == 0 then -1 else 1
    ensures ret == -1 ==>
              && t.client in ss[i].k6 && Stored(ss[i], Expire(t.client), ip0, r4s[i], r6s[i], s.R4(), s.R6())
              && |notice| == 1 && notice[0].client == t.client
              && notice[0].extIP == AddressOf(ip0, ss[i].k6[t.client])
              && notice[0].startPort == StartOf(ss[i].k6[t.client].b)
    ensures ret == 1 ==> notice == [] && s.R4() == r4s[i] && s.R6() == r6s[i]
  {
    hide Run, Storage.Valid, StoreRun, KeyV4, StartOf;
    LeasedTunnel(ss, es, r, i, t.client, ip0, r4s, r6s);
    ghost var m4, m6 := s.v4.index, s.v6.index;
    ret, notice := s.TimeCheck(t, tick);
    RecordsWithout(m4, KeyOf(t));
    RecordsWithout(m6, t.client);
  }

  /** Owners hold what the pool marks, so a message with the address and the start port of an owned block frees
      exactly that block. */
  method FreeOwned(pool: AddrPoolList, start: UInt16, addr: nat, r: nat, ghost s: State, ghost owners: Owners,
      ghost b: Spot)
    returns (ret: int)
    requires 1 < r && Inv(s, owners, r) && b in owners && pool.Valid() && pool.State() == s.pool && pool.ring != []
    requires addr == AddressOf(pool.ring[0].ip, b) && start == StartOf(b.b)
    modifies Maps(pool.ring)
    ensures pool.Valid() && ret == 1 && pool.State() == Released(s.pool, b, r)
  {
    hide StartOf, Block, Holds, Owned, Released, AddrPoolList.Valid, AddrPoolList.State;
    MessageNamesBlock(s.pool, owners.Keys, r, b, b);
    PoolSize(pool);
    ret := pool.DeallocAddrPort(r, start, addr);
  }

  lemma PoolSize(pool: AddrPoolList)
    requires pool.Valid()
    ensures |pool.State().marks| == |pool.ring|
  {
  }

  /** The deliver step on the pool itself: the server frees the block that the oldest notice names. */
  method DeliverLeased(pool: AddrPoolList, n: TunnelStore.Notice, ghost ss: seq<State>, ghost es: seq<Event>,
      ghost i: nat, r: nat)
    returns (ret: int)
    requires 1 < r && Range(r) && Run(ss, es, r) && i < |ss| && ss[i].notices != []
    requires pool.Valid() && pool.State() == ss[i].pool && pool.ring != []
    requires n.extIP == AddressOf(pool.ring[0].ip, ss[i].notices[0]) && n.startPort == StartOf(ss[i].notices[0].b)
    modifies Maps(pool.ring)
    ensures pool.Valid() && ret == 1
    ensures Next(ss[i], Deliver, ss[i].(pool := pool.State(), notices := ss[i].notices[1..]), r)
  {
    hide Run, StartOf, Holds, Released, AddrPoolList.Valid, AddrPoolList.State;
    ghost var s := ss[i];
    ghost var owners := RunOwners(ss, es, r, i);
    assert NoticeOK(s, owners, 0);
    ret := FreeOwned(pool, n.startPort, n.extIP, r, s, owners, s.notices[0]);
  }

  /** The recycle step on the pool itself: the server frees the block that the answer to a delete names. */
  method RecycleLeased(pool: AddrPoolList, c: Client, start: UInt16, addr: nat, ghost ss: seq<State>,
      ghost es: seq<Event>, ghost i: nat, r: nat)
    returns (ret: int)
    requires 1 < r && Range(r) && Run(ss, es, r) && i < |ss| && c in ss[i].requests && ss[i].requests[c].Freed?
    requires pool.Valid() && pool.State() == ss[i].pool && pool.ring != []
    requires addr == AddressOf(pool.ring[0].ip, ss[i].requests[c].spot) && start == StartOf(ss[i].requests[c].spot.b)
    modifies Maps(pool.ring)
    ensures pool.Valid() && ret == 1
    ensures Next(ss[i], Recycle(c), ss[i].(pool := pool.State(), requests := ss[i].requests - {c}), r)
  {
    hide Run, StartOf, Holds, Released, AddrPoolList.Valid, AddrPoolList.State;
    ghost var s := ss[i];
    ghost var owners := RunOwners(ss, es, r, i);
    assert RequestOK(s, owners, c);
    ret := FreeOwned(pool, start, addr, r, s, owners, s.requests[c].spot);
  }

  /** The alloc step on the pool itself: the client is granted the block that the search finds, and told the
      address and the ports of exactly that block. */
  method AllocLeased(pool: AddrPoolList, c: Client, ghost ss: seq<State>, ghost es: seq<Event>, ghost i: nat, r: nat)
    returns (ret: int, start: UInt16, stop: UInt16, addr: UInt32, ghost b: Spot)
    requires 1 < r && Range(r) && Run(ss, es, r) && i < |ss| && c in ss[i].requests && ss[i].requests[c].Asking?
    requires pool.Valid() && pool.State() == ss[i].pool && pool.ring != []
    modifies pool.ring, Maps(pool.ring)
    ensures pool.Valid() && (ret == 1 || ret == -1)
    ensures ret == 1 ==>
              && addr == AddressOf(pool.ring[0].ip, b) && start == 1024 * b.b + 1024 && stop == start + 1024 * r - 1
              && Next(ss[i], Alloc(c), ss[i].(pool := pool.State(), requests := ss[i].requests[c := Granted(b)]), r)
    ensures ret == -1 ==>
              Next(ss[i], Alloc(c), ss[i].(pool := pool.State(), requests := ss[i].requests - {c}), r)
  {
    hide Run, StartOf, StopOf, Holds, PoolScan.Alloc, Ready, Found, Missed, Candidate;
    hide AddrPoolList.Valid, AddrPoolList.State;
    ghost var s := ss[i];
    ghost var owners := RunOwners(ss, es, r, i);
    HoldsReady(s.pool, owners.Keys, r);
    AllocOutcomes(s.pool, r);
    ghost var o := PoolScan.Alloc(s.pool, r);
    ret, start, stop, addr := pool.AllocAddrPort(r);
    b := Spot(0, 0);
    if ret == 1 {
      b := Spot(o.k, o.b);
      FoundPorts(s.pool, o.pool, r, o.k, o.b);
    }
  }

  lemma FoundPorts(p0: Pool, p: Pool, r: nat, k: nat, b: nat)
    requires 1 < r && Range(r) && Found(p0, p, r, k, b)
    ensures StartOf(b) == 1024 * b + 1024 && StopOf(b, r) == StartOf(b) + 1024 * r - 1
  {
    hide StartOf, StopOf;
    BelowTop(b, r);
    BoundaryCheck(b, r);
  }

  lemma RecordsWithout(m: BPlusTree.Index, k: nat)
    ensures RecordsOf(m - {k}) == RecordsOf(m) - {k}
  {
  }

  /** In every state of every run, the lookup of a port finds the client that leases it, and no tunnel
      exactly if nobody does. */
  method FindLeased(s: Storage, ghost ss: seq<State>, ghost es: seq<Event>, ghost i: nat, ghost ip0: nat,
      ghost r4s: seq<Records>, ghost r6s: seq<Records>, ip: UInt32, port: UInt16, r: nat)
    returns (t: Tunnel?)
    requires 1 < r && Range(r) && Run(ss, es, r) && i < |ss| && StoreRun(ss, es, ip0, r4s, r6s)
    requires s.Valid() && s.R4() == r4s[i] && s.R6() == r6s[i] && port >= START_PORT
    ensures t != null ==> Leases4(ss[i], ip0, r, t.client, ip, port)
    ensures forall c :: Leases4(ss[i], ip0, r, c, ip, port) ==> t != null && t.client == c
  {
    hide Run, Storage.Valid, Storage.R4, Storage.R6, Holding, Stored, LeasesAligned, Leases4;
    RunHolding(ss, es, r, i, ip0, r4s, r6s);
    StoreAligned(ss, es, r, i, ip0, s.R4(), s.R6());
    HoldingPaired(ss[i], ip0, s.R4(), s.R6());
    t := FindOwner(s, ip, port, 1024 * r);
    if t != null {
      FoundLeases(ss, es, r, i, ip0, s.R4(), s.R6(), t, ip, port);
    }
    forall c | Leases4(ss[i], ip0, r, c, ip, port) ensures t != null && t.client == c {
      var u := LeaserOwns(ss, es, r, i, ip0, s.R4(), s.R6(), c, ip, port);
    }
  }

  lemma HoldingPaired(s: State, ip0: nat, r4: Records, r6: Records)
    requires Holding(s, ip0, r4, r6)
    ensures Paired(r4, r6)
  {
  }

  /** A tunnel that owns the port is that of a client that leases it. */
  lemma FoundLeases(ss: seq<State>, es: seq<Event>, r: nat, i: nat, ip0: nat, r4: Records, r6: Records, t: Tunnel,
      ip: UInt32, port: UInt16)
    requires 1 < r && Range(r) && Run(ss, es, r) && i < |ss| && Holding(ss[i], ip0, r4, r6)
    requires t in r4.Values && Owns(t, ip, port, 1024 * r)
    ensures Leases4(ss[i], ip0, r, t.client, ip, port)
  {
    hide Run, KeyV4, StartOf, Paired;
    var k :| k in r4 && r4[k] == t;
    assert SpotAt(ss[i], ip0, r4, k);
    var b :| b in ss[i].k4 && AddressOf(ip0, b) < 0x1_0000_0000 && KeyOfSpot(ip0, b) == k;
    assert RecordAt(ss[i], ip0, r4, b);
    LeasedBlock(ss, es, r, i, b);
  }

  /** The tunnel of a client that leases the port owns it. */
  lemma LeaserOwns(ss: seq<State>, es: seq<Event>, r: nat, i: nat, ip0: nat, r4: Records, r6: Records, c: Client,
      ip: UInt32, port: UInt16)
    returns (t: Tunnel)
    requires 1 < r && Range(r) && Run(ss, es, r) && i < |ss| && Holding(ss[i], ip0, r4, r6)
    requires Leases4(ss[i], ip0, r, c, ip, port)
    ensures t in r4.Values && Owns(t, ip, port, 1024 * r) && t.client == c
  {
    hide Run, KeyV4, StartOf, Paired;
    RunSafe(ss, es, r, i);
    var b := ss[i].k6[c];
    LeasedBlock(ss, es, r, i, b);
    assert RecordAt(ss[i], ip0, r4, b);
    t := r4[KeyOfSpot(ip0, b)];
  }
}
