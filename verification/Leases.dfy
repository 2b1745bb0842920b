/** The lease protocol between the user-space server, which owns the address pool, and the kernel,
    which owns the tunnels: updateTunnelTree and delTunnel of pcpmsg.c, the handlers of netlink.c,
    nlmessage.c and netlink_async.c.  A block is known by its spot in the pool. */
module Leases {
  import opened Arith
  import opened PoolScan
  import opened PoolRuns
  import BPlusTree

  type Client = nat

  /** What the server is about to do next for a client. */
  datatype Request =
    | Asking
    | Renewing(spot: Spot)
    | Granted(spot: Spot)
    | Freed(spot: Spot)

  datatype State = State(
    pool: Pool,
    k4: map<Spot, Client>,
    k6: map<Client, Spot>,
    requests: map<Client, Request>,
    notices: seq<Spot>)

  datatype Event =
    | Detect(client: Client)
    | Alloc(client: Client)
    | Create(client: Client)
    | Delete(client: Client)
    | Recycle(client: Client)
    | Expire(client: Client)
    | Deliver

  /** The kernel's detect handler: a live tunnel is renewed, otherwise the server must find a block. */
  function Detected(s: State, c: Client): State {
    s.(requests := s.requests[c := if c in s.k6 then Renewing(s.k6[c]) else Asking])
  }

  /** AllocAddrPort for a client that asks. */
  ghost function Searched(s: State, c: Client, r: nat): State
    requires Range(r) && Ready(s.pool, r)
  {
    match PoolScan.Alloc(s.pool, r)
    case Hit(p, k, b) => s.(pool := p, requests := s.requests[c := Granted(Spot(k, b))])
    case Miss(p) => s.(pool := p, requests := s.requests - {c})
  }

  /** Neither index is full: the insert into a full tree is all that a create of a new tunnel can fail by. */
  predicate Room(s: State) {
    |s.k4| < BPlusTree.MAXBPSIZE && |s.k6| < BPlusTree.MAXBPSIZE
  }

  /** CreateTunnel on the two indexes, and the end of the request; the server takes a failure for success. */
  function Created(s: State, c: Client, b: Spot): State {
    var s' := if Room(s) && b !in s.k4 then s.(k4 := s.k4[b := c], k6 := if c in s.k6 then s.k6 else s.k6[c := b])
      else s;
    s'.(requests := s.requests - {c})
  }

  /** DeleteTunnel on the two indexes. */
  function Dropped(s: State, c: Client): State
    requires c in s.k6
  {
    s.(k4 := s.k4 - {s.k6[c]}, k6 := s.k6 - {c})
  }

  ghost predicate Next(s: State, e: Event, s': State, r: nat)
    requires r > 0
  {
    match e
    case Detect(c) => c !in s.requests && s' == Detected(s, c)
    case Alloc(c) =>
      && c in s.requests && s.requests[c].Asking?
      && Range(r) && Ready(s.pool, r) && s' == Searched(s, c, r)
    case Create(c) =>
      && c in s.requests && (s.requests[c].Renewing? || s.requests[c].Granted?)
      && s' == Created(s, c, s.requests[c].spot)
    case Delete(c) =>
      && c !in s.requests
      && s' == if c in s.k6 then Dropped(s, c).(requests := s.requests[c := Freed(s.k6[c])]) else s
    case Recycle(c) =>
      && c in s.requests && s.requests[c].Freed?
      && s' == s.(pool := Released(s.pool, s.requests[c].spot, r), requests := s.requests - {c})
    case Expire(c) => c in s.k6 && s' == Dropped(s, c).(notices := s.notices + [s.k6[c]])
    case Deliver =>
      && s.notices != []
      && s' == s.(pool := Released(s.pool, s.notices[0], r), notices := s.notices[1..])
  }

  /** A tunnel does not expire between its client's detect and alloc messages. */
  ghost predicate Timely(s: State, e: Event) {
    e.Expire? && e.client in s.requests ==> !s.requests[e.client].Renewing?
  }

  /** Who is responsible for a block that is out. */
  datatype Owner = Tunnel(client: Client) | Grant(client: Client) | Reply(client: Client) | Notice | Lost

  type Owners = map<Spot, Owner>

  ghost predicate Claimed(s: State, owners: Owners, b: Spot)
    requires b in owners
  {
    match owners[b]
    case Tunnel(c) => c in s.k6 && s.k6[c] == b && b in s.k4 && s.k4[b] == c
    case Grant(c) => c in s.requests && s.requests[c] == Granted(b)
    case Reply(c) => c in s.requests && s.requests[c] == Freed(b)
    case Notice => b in s.notices
    case Lost => true
  }

  ghost predicate RequestOK(s: State, owners: Owners, c: Client)
    requires c in s.requests
  {
    match s.requests[c]
    case Asking => c !in s.k6
    case Renewing(b) => c in s.k6 && s.k6[c] == b
    case Granted(b) => c !in s.k6 && b in owners && owners[b] == Grant(c)
    case Freed(b) => c !in s.k6 && b in owners && owners[b] == Reply(c)
  }

  ghost predicate NoticeOK(s: State, owners: Owners, i: nat)
    requires i < |s.notices|
  {
    s.notices[i] in owners && owners[s.notices[i]] == Notice
  }

  ghost predicate Once(notices: seq<Spot>) {
    forall i, j :: 0 <= i < j < |notices| ==> notices[i] != notices[j]
  }

  /** Every block that is out has exactly one owner, and every tunnel, grant, reply and notice owns
      its block. */
  ghost predicate Owned(s: State, owners: Owners) {
    && (forall b {:trigger Claimed(s, owners, b)} :: b in owners ==> Claimed(s, owners, b))
    && (forall c :: c in s.k6 ==> s.k6[c] in owners && owners[s.k6[c]] == Tunnel(c))
    && (forall b :: b in s.k4 ==> b in owners && owners[b] == Tunnel(s.k4[b]))
    && (forall c {:trigger RequestOK(s, owners, c)} :: c in s.requests ==> RequestOK(s, owners, c))
    && (forall i {:trigger NoticeOK(s, owners, i)} :: 0 <= i < |s.notices| ==> NoticeOK(s, owners, i))
    && Once(s.notices)
  }

  /** The pool marks exactly the blocks that have an owner. */
  ghost predicate Inv(s: State, owners: Owners, r: nat)
    requires 1 < r
  {
    Holds(s.pool, owners.Keys, r) && Owned(s, owners)
  }

  /** The new owners of the blocks after a step. */
  ghost function NextOwners(s: State, e: Event, s': State, r: nat, owners: Owners): Owners
    requires r > 0 && Next(s, e, s', r)
  {
    match e
    case Detect(_) => owners
    case Alloc(c) => if c in s'.requests && s'.requests[c].Granted? then owners[s'.requests[c].spot := Grant(c)]
      else owners
    case Create(c) =>
      if !s.requests[c].Granted? then owners
      else if Room(s) && s.requests[c].spot !in s.k4 then owners[s.requests[c].spot := Tunnel(c)]
      else owners[s.requests[c].spot := Lost]
    case Delete(c) => if c in s.k6 then owners[s.k6[c] := Reply(c)] else owners
    case Recycle(c) => owners - {s.requests[c].spot}
    case Expire(c) => owners[s.k6[c] := Notice]
    case Deliver => owners - {s.notices[0]}
  }

  /** The pool's part of a step. */
  lemma PoolKeeps(s: State, e: Event, s': State, r: nat, owners: Owners)
    requires 1 < r && Inv(s, owners, r) && Next(s, e, s', r)
    ensures Holds(s'.pool, NextOwners(s, e, s', r, owners).Keys, r)
    ensures e.Alloc? && e.client in s'.requests && s'.requests[e.client].Granted?
            ==> s'.requests[e.client].spot !in owners
  {
    hide Holds, PoolScan.Alloc, Found, Missed, Room;
    var owners' := NextOwners(s, e, s', r, owners);
    match e
    case Alloc(c) =>
      AllocOutcomes(s.pool, r);
      match PoolScan.Alloc(s.pool, r) {
        case Hit(p, k, b) =>
          FoundHolds(s.pool, p, owners.Keys, r, k, b);
          assert owners'.Keys == owners.Keys + {Spot(k, b)};
        case Miss(p) =>
          MissedHolds(s.pool, p, owners.Keys, r);
      }
    case Create(c) =>
      assert RequestOK(s, owners, c);
      assert owners'.Keys == owners.Keys;
    case Recycle(c) =>
      assert RequestOK(s, owners, c);
      ReleasedHolds(s.pool, owners.Keys, r, s.requests[c].spot);
      assert owners'.Keys == owners.Keys - {s.requests[c].spot};
    case Deliver =>
      assert NoticeOK(s, owners, 0);
      ReleasedHolds(s.pool, owners.Keys, r, s.notices[0]);
      assert owners'.Keys == owners.Keys - {s.notices[0]};
    case Detect(_) =>
    case Delete(_) =>
      assert owners'.Keys == owners.Keys;
    case Expire(_) =>
      assert owners'.Keys == owners.Keys;
  }

  lemma RequestsKeep(s: State, e: Event, s': State, r: nat, owners: Owners, c: Client)
    requires 0 < r && Owned(s, owners) && Next(s, e, s', r) && Timely(s, e)
    requires e.Alloc? && e.client in s'.requests && s'.requests[e.client].Granted?
             ==> s'.requests[e.client].spot !in owners
    requires c in s'.requests
    ensures RequestOK(s', NextOwners(s, e, s', r, owners), c)
  {
    hide PoolScan.Alloc, Ready, Room;
    assert c in s.requests ==> RequestOK(s, owners, c);
    assert e.Create? || e.Recycle? ==> RequestOK(s, owners, e.client);
    assert e.Deliver? ==> NoticeOK(s, owners, 0);
  }

  lemma ClaimsKeep(s: State, e: Event, s': State, r: nat, owners: Owners, b: Spot)
    requires 0 < r && Owned(s, owners) && Next(s, e, s', r) && Timely(s, e)
    requires e.Alloc? && e.client in s'.requests && s'.requests[e.client].Granted?
             ==> s'.requests[e.client].spot !in owners
    requires b in NextOwners(s, e, s', r, owners)
    ensures Claimed(s', NextOwners(s, e, s', r, owners), b)
  {
    hide Next, NextOwners, Owned, Timely, Claimed;
    match e
    case Detect(_) => RequestClaims(s, e, s', r, owners, b);
    case Alloc(_) => RequestClaims(s, e, s', r, owners, b);
    case Create(_) => CreateClaims(s, e, s', r, owners, b);
    case Delete(_) => DropClaims(s, e, s', r, owners, b);
    case Recycle(_) => RequestClaims(s, e, s', r, owners, b);
    case Expire(_) => DropClaims(s, e, s', r, owners, b);
    case Deliver => DeliverClaims(s, e, s', r, owners, b);
  }

  lemma RequestClaims(s: State, e: Event, s': State, r: nat, owners: Owners, b: Spot)
    requires 0 < r && Owned(s, owners) && Next(s, e, s', r) && (e.Detect? || e.Alloc? || e.Recycle?)
    requires e.Alloc? && e.client in s'.requests && s'.requests[e.client].Granted?
             ==> s'.requests[e.client].spot !in owners
    requires b in NextOwners(s, e, s', r, owners)
    ensures Claimed(s', NextOwners(s, e, s', r, owners), b)
  {
    hide PoolScan.Alloc, Ready, Room, Released, Once;
    assert b in owners ==> Claimed(s, owners, b);
    assert e.Recycle? ==> RequestOK(s, owners, e.client);
  }

  lemma CreateClaims(s: State, e: Event, s': State, r: nat, owners: Owners, b: Spot)
    requires 0 < r && Owned(s, owners) && Next(s, e, s', r) && e.Create?
    requires b in NextOwners(s, e, s', r, owners)
    ensures Claimed(s', NextOwners(s, e, s', r, owners), b)
  {
    hide Room, Once;
    assert RequestOK(s, owners, e.client);
    assert b in owners && Claimed(s, owners, b);
  }

  lemma DropClaims(s: State, e: Event, s': State, r: nat, owners: Owners, b: Spot)
    requires 0 < r && Owned(s, owners) && Next(s, e, s', r) && Timely(s, e) && (e.Delete? || e.Expire?)
    requires b in NextOwners(s, e, s', r, owners)
    ensures Claimed(s', NextOwners(s, e, s', r, owners), b)
  {
    hide Once;
    assert b in owners ==> Claimed(s, owners, b);
  }

  lemma DeliverClaims(s: State, e: Event, s': State, r: nat, owners: Owners, b: Spot)
    requires 0 < r && Owned(s, owners) && Next(s, e, s', r) && e.Deliver?
    requires b in NextOwners(s, e, s', r, owners)
    ensures Claimed(s', NextOwners(s, e, s', r, owners), b)
  {
    hide Released, Once;
    assert Claimed(s, owners, b);
    assert s.notices == [s.notices[0]] + s'.notices;
  }

  lemma NoticesKeep(s: State, e: Event, s': State, r: nat, owners: Owners, i: nat)
    requires 0 < r && Owned(s, owners) && Next(s, e, s', r) && Timely(s, e)
    requires e.Alloc? && e.client in s'.requests && s'.requests[e.client].Granted?
             ==> s'.requests[e.client].spot !in owners
    requires i < |s'.notices|
    ensures NoticeOK(s', NextOwners(s, e, s', r, owners), i)
  {
    hide PoolScan.Alloc, Ready, Room;
    assert e.Create? || e.Recycle? ==> RequestOK(s, owners, e.client);
    if e.Deliver? {
      assert s'.notices[i] == s.notices[i + 1] && NoticeOK(s, owners, i + 1);
    } else {
      assert i < |s.notices| ==> NoticeOK(s, owners, i);
    }
  }

  lemma OwnersKeep(s: State, e: Event, s': State, r: nat, owners: Owners)
    requires 0 < r && Owned(s, owners) && Next(s, e, s', r) && Timely(s, e)
    requires e.Alloc? && e.client in s'.requests && s'.requests[e.client].Granted?
             ==> s'.requests[e.client].spot !in owners
    ensures Owned(s', NextOwners(s, e, s', r, owners))
  {
    hide PoolScan.Alloc, Ready, Room, RequestOK, Claimed, NoticeOK;
    var owners' := NextOwners(s, e, s', r, owners);
    forall c | c in s'.requests ensures RequestOK(s', owners', c) {
      RequestsKeep(s, e, s', r, owners, c);
    }
    forall b | b in owners' ensures Claimed(s', owners', b) {
      ClaimsKeep(s, e, s', r, owners, b);
    }
    forall i: nat | i < |s'.notices| ensures NoticeOK(s', owners', i) {
      NoticesKeep(s, e, s', r, owners, i);
    }
    KernelKeeps(s, e, s', r, owners);
    OnceKeeps(s, e, s', r, owners);
  }

  lemma KernelKeeps(s: State, e: Event, s': State, r: nat, owners: Owners)
    requires 0 < r && Owned(s, owners) && Next(s, e, s', r) && Timely(s, e)
    requires e.Alloc? && e.client in s'.requests && s'.requests[e.client].Granted?
             ==> s'.requests[e.client].spot !in owners
    ensures var owners' := NextOwners(s, e, s', r, owners);
      && (forall c :: c in s'.k6 ==> s'.k6[c] in owners' && owners'[s'.k6[c]] == Tunnel(c))
      && (forall b :: b in s'.k4 ==> b in owners' && owners'[b] == Tunnel(s'.k4[b]))
  {
    hide PoolScan.Alloc, Ready, Room, Released, Claimed, Once;
    assert e.Create? || e.Recycle? ==> RequestOK(s, owners, e.client);
    assert e.Deliver? ==> NoticeOK(s, owners, 0);
  }

  lemma OnceKeeps(s: State, e: Event, s': State, r: nat, owners: Owners)
    requires 0 < r && Owned(s, owners) && Next(s, e, s', r)
    ensures Once(s'.notices)
  {
    hide PoolScan.Alloc, Ready, Room, Released, Claimed;
    if e.Expire? {
      forall i | 0 <= i < |s.notices| ensures s.notices[i] != s.k6[e.client] {
        assert NoticeOK(s, owners, i);
      }
    }
  }

  /** Every timely step keeps the invariant. */
  lemma StepKeeps(s: State, e: Event, s': State, r: nat, owners: Owners)
    requires 1 < r && Inv(s, owners, r) && Next(s, e, s', r) && Timely(s, e)
    ensures Inv(s', NextOwners(s, e, s', r, owners), r)
  {
    PoolKeeps(s, e, s', r, owners);
    OwnersKeep(s, e, s', r, owners);
  }

  ghost predicate Start(s: State) {
    Blank(s.pool) && s.k4 == map[] && s.k6 == map[] && s.requests == map[] && s.notices == []
  }

  ghost predicate Run(ss: seq<State>, es: seq<Event>, r: nat)
    requires 1 < r
  {
    && |ss| == |es| + 1 && Start(ss[0])
    && forall i {:trigger es[i]} :: 0 <= i < |es| ==> Next(ss[i], es[i], ss[i + 1], r) && Timely(ss[i], es[i])
  }

  /** A create step that takes away a grant because the store is full. */
  predicate Refuses(s: State, e: Event) {
    e.Create? && e.client in s.requests && s.requests[e.client].Granted? && !Room(s)
  }

  /** The owners after the first i steps of a run. */
  lemma {:induction false} RunOwners(ss: seq<State>, es: seq<Event>, r: nat, i: nat) returns (owners: Owners)
    requires 1 < r && Range(r) && Run(ss, es, r) && i < |ss|
    ensures Inv(ss[i], owners, r)
    ensures (forall j: nat :: j < i ==> !Refuses(ss[j], es[j])) ==> forall b :: b in owners ==> owners[b] != Lost
  {
    hide Inv, Next, Start, Refuses, Timely;
    if i == 0 {
      owners := map[];
      StartInv(ss[0], r);
    } else {
      var before := RunOwners(ss, es, r, i - 1);
      var e := es[i - 1];
      assert Next(ss[i - 1], e, ss[i - 1 + 1], r) && Timely(ss[i - 1], e);
      StepKeeps(ss[i - 1], e, ss[i], r, before);
      owners := NextOwners(ss[i - 1], e, ss[i], r, before);
      if !Refuses(ss[i - 1], e) && forall b :: b in before ==> before[b] != Lost {
        NewlyLost(ss[i - 1], e, ss[i], r, before);
      }
    }
  }

  lemma StartInv(s: State, r: nat)
    requires 1 < r && Range(r) && Start(s)
    ensures Inv(s, map[], r)
  {
    var none: Owners := map[];
    BlankReady(s.pool, r);
    assert none.Keys == {};
  }

  /** Only a refused create loses a block. */
  lemma NewlyLost(s: State, e: Event, s': State, r: nat, owners: Owners)
    requires 1 < r && Inv(s, owners, r) && Next(s, e, s', r) && !Refuses(s, e)
    requires forall b :: b in owners ==> owners[b] != Lost
    ensures var owners' := NextOwners(s, e, s', r, owners); forall b :: b in owners' ==> owners'[b] != Lost
  {
    hide Room, Holds, PoolScan.Alloc, Ready;
    assert e.Create? ==> RequestOK(s, owners, e.client);
  }

  /** Two clients have no port of an address in common, and the pool has every slot of a tunnel marked. */
  ghost predicate Safe(s: State, r: nat) {
    && (forall c :: c in s.k6 ==> s.k6[c] in s.k4 && s.k4[s.k6[c]] == c)
    && (forall b :: b in s.k4 ==> s.k4[b] in s.k6 && s.k6[s.k4[b]] == b)
    && (forall c, x :: c in s.k6 && x in Block(s.k6[c].b, r) ==>
          s.k6[c].k < |s.pool.marks| && x in s.pool.marks[s.k6[c].k])
    && (forall c, d, port {:trigger PortIn(port, s.k6[c].b, r), PortIn(port, s.k6[d].b, r)} ::
          (c in s.k6 && d in s.k6 && s.k6[c].k == s.k6[d].k && PortIn(port, s.k6[c].b, r) && PortIn(port, s.k6[d].b, r))
          ==> c == d)
  }

  lemma InvSafe(s: State, owners: Owners, r: nat)
    requires 1 < r && Inv(s, owners, r)
    ensures Safe(s, r)
  {
    forall c | c in s.k6 ensures s.k6[c] in s.k4 && s.k4[s.k6[c]] == c {
      assert Claimed(s, owners, s.k6[c]);
    }
    forall b | b in s.k4 ensures s.k4[b] in s.k6 && s.k6[s.k4[b]] == b {
      assert Claimed(s, owners, b);
    }
    forall c, x | c in s.k6 && x in Block(s.k6[c].b, r)
      ensures s.k6[c].k < |s.pool.marks| && x in s.pool.marks[s.k6[c].k]
    {
      BlockMarked(s.pool, owners.Keys, r, s.k6[c], x);
    }
    forall c, d, port | c in s.k6 && d in s.k6 && s.k6[c].k == s.k6[d].k
      && PortIn(port, s.k6[c].b, r) && PortIn(port, s.k6[d].b, r) ensures c == d
    {
      LivePorts(s.pool, owners.Keys, r, s.k6[c], s.k6[d], port);
    }
  }

  lemma BlockMarked(p: Pool, live: set<Spot>, r: nat, b: Spot, x: nat)
    requires 1 < r && Holds(p, live, r) && b in live && x in Block(b.b, r)
    ensures b.k < |p.marks| && x in p.marks[b.k]
  {
    assert SpotOK(p, r, b);
    PlaceOf(x, b.b, r);
    assert Accounted(p, live, r, b.k, x);
  }

  /** Safety over every run. */
  lemma RunSafe(ss: seq<State>, es: seq<Event>, r: nat, i: nat)
    requires 1 < r && Range(r) && Run(ss, es, r) && i < |ss|
    ensures Safe(ss[i], r)
  {
    var owners := RunOwners(ss, es, r, i);
    InvSafe(ss[i], owners, r);
  }

  /** A renewal asks for the tunnel that is there: the create step fails and changes no index. */
  lemma RenewalIsIdle(s: State, owners: Owners, c: Client)
    requires Owned(s, owners) && c in s.requests && s.requests[c].Renewing?
    ensures Created(s, c, s.requests[c].spot) == s.(requests := s.requests - {c})
  {
    assert RequestOK(s, owners, c);
    assert Claimed(s, owners, s.k6[c]);
  }

  ghost predicate Names(q: Request, b: Spot) {
    !q.Asking? && q.spot == b
  }

  /** A block that is marked although no tunnel, request or notice names it. */
  ghost predicate Orphan(s: State, b: Spot, r: nat)
    requires r > 0
  {
    && SpotOK(s.pool, r, b) && Block(b.b, r) <= s.pool.marks[b.k]
    && b !in s.k4 && b !in s.k6.Values && b !in s.notices
    && forall c :: c in s.requests ==> !Names(s.requests[c], b)
  }

  /** A grant becomes a tunnel exactly when neither index is full; otherwise its block is an orphan. */
  lemma GrantOutcome(s: State, s': State, r: nat, owners: Owners, c: Client)
    requires 1 < r && Inv(s, owners, r) && c in s.requests && s.requests[c].Granted? && Next(s, Create(c), s', r)
    ensures c in s'.k6 <==> |s.k4| < BPlusTree.MAXBPSIZE && |s.k6| < BPlusTree.MAXBPSIZE
    ensures c in s'.k6 ==> s'.k6[c] == s.requests[c].spot && s'.k4[s.requests[c].spot] == c
    ensures Orphan(s', s.requests[c].spot, r) <==> c !in s'.k6
  {
    hide Holds, Accounted;
    var b := s.requests[c].spot;
    assert RequestOK(s, owners, c);
    if !Room(s) {
      assert SpotOK(s.pool, r, b) by { LiveSpot(s.pool, owners.Keys, r, b); }
      forall x | x in Block(b.b, r) ensures x in s.pool.marks[b.k] {
        BlockMarked(s.pool, owners.Keys, r, b, x);
      }
      forall d | d in s'.requests ensures !Names(s'.requests[d], b) {
        assert RequestOK(s, owners, d);
      }
      forall i: nat | i < |s.notices| ensures s.notices[i] != b {
        assert NoticeOK(s, owners, i);
      }
    }
  }

  lemma LiveSpot(p: Pool, live: set<Spot>, r: nat, b: Spot)
    requires 1 < r && Holds(p, live, r) && b in live
    ensures SpotOK(p, r, b)
  {
  }

  /** An orphan is a block whose owner is lost. */
  lemma OrphanIsLost(s: State, owners: Owners, r: nat, b: Spot)
    requires 1 < r && Inv(s, owners, r) && Orphan(s, b, r)
    ensures b in owners && owners[b] == Lost
  {
    hide Owned;
    BelowTop(b.b, r);
    assert b.b in Block(b.b, r);
    assert Accounted(s.pool, owners.Keys, r, b.k, b.b);
    assert Claimed(s, owners, b) by { ClaimOf(s, owners, b); }
  }

  lemma ClaimOf(s: State, owners: Owners, b: Spot)
    requires Owned(s, owners) && b in owners
    ensures Claimed(s, owners, b)
  {
  }

  /** No step gives an orphan away or takes its marks. */
  lemma OrphanStep(s: State, e: Event, s': State, r: nat, owners: Owners, b: Spot)
    requires 1 < r && Inv(s, owners, r) && Next(s, e, s', r) && Orphan(s, b, r)
    ensures Orphan(s', b, r)
  {
    hide Holds, Found, Missed, PoolScan.Alloc, Owned, SpotOK, Room;
    match e
    case Alloc(c) =>
      AllocOutcomes(s.pool, r);
      OrphanSearched(s.pool, r, b);
    case Recycle(c) =>
      assert RequestOK(s, owners, c) by { RequestOf(s, owners, c); }
      LiveSpot(s.pool, owners.Keys, r, s.requests[c].spot);
      OrphanReleased(s.pool, r, s.requests[c].spot, b);
    case Deliver =>
      assert NoticeOK(s, owners, 0) by { NoticeOf(s, owners, 0); }
      LiveSpot(s.pool, owners.Keys, r, s.notices[0]);
      OrphanReleased(s.pool, r, s.notices[0], b);
    case Create(c) =>
    case Detect(c) =>
    case Delete(c) =>
    case Expire(c) =>
  }

  lemma RequestOf(s: State, owners: Owners, c: Client)
    requires Owned(s, owners) && c in s.requests
    ensures RequestOK(s, owners, c)
  {
  }

  lemma NoticeOf(s: State, owners: Owners, i: nat)
    requires Owned(s, owners) && i < |s.notices|
    ensures NoticeOK(s, owners, i)
  {
  }

  lemma OrphanReleased(p: Pool, r: nat, x: Spot, b: Spot)
    requires 1 < r && SpotOK(p, r, x) && SpotOK(p, r, b) && x != b && Block(b.b, r) <= p.marks[b.k]
    ensures var q := Released(p, x, r); SpotOK(q, r, b) && Block(b.b, r) <= q.marks[b.k]
  {
    if x.k == b.k {
      Apart(b.b, x.b, r);
    }
  }

  lemma OrphanSearched(p: Pool, r: nat, b: Spot)
    requires 1 < r && Range(r) && Ready(p, r) && Outcomes(p, r, PoolScan.Alloc(p, r)) && SpotOK(p, r, b)
             && Block(b.b, r) <= p.marks[b.k]
    ensures var o := PoolScan.Alloc(p, r); SpotOK(o.pool, r, b) && Block(b.b, r) <= o.pool.marks[b.k]
    ensures PoolScan.Alloc(p, r).Hit? ==> Spot(PoolScan.Alloc(p, r).k, PoolScan.Alloc(p, r).b) != b
  {
    hide PoolScan.Alloc, Ready, Taken;
    assert b.b in Block(b.b, r);
    var o := PoolScan.Alloc(p, r);
    assert o.Miss? || o.k != b.k ==> Kept(p.marks[b.k], o.pool.marks[b.k], r);
  }

  /** A block whose create was refused stays marked in every later state of every run, and no search gives
      it again. */
  lemma {:induction false} LostStays(ss: seq<State>, es: seq<Event>, r: nat, i: nat, j: nat, b: Spot)
    requires 1 < r && Range(r) && Run(ss, es, r) && i <= j < |ss| && Orphan(ss[i], b, r)
    ensures Orphan(ss[j], b, r) && !Candidate(ss[j].pool, r, b.k, b.b)
    decreases j - i
  {
    hide Inv, Next;
    if i < j {
      LostStays(ss, es, r, i, j - 1, b);
      var owners := RunOwners(ss, es, r, j - 1);
      assert Next(ss[j - 1], es[j - 1], ss[j - 1 + 1], r);
      OrphanStep(ss[j - 1], es[j - 1], ss[j], r, owners, b);
    }
    assert b.b in Block(b.b, r);
  }

  /** In any state of a run there is an orphan exactly if the store was full when one of the steps before
      created the tunnel of a grant. */
  lemma LeakExact(ss: seq<State>, es: seq<Event>, r: nat, i: nat)
    requires 1 < r && Range(r) && Run(ss, es, r) && i < |ss|
    ensures (exists b :: Orphan(ss[i], b, r)) <==> exists j: nat :: j < i && Refuses(ss[j], es[j])
  {
    hide Inv, Orphan, Next;
    if b :| Orphan(ss[i], b, r) {
      var owners := RunOwners(ss, es, r, i);
      OrphanIsLost(ss[i], owners, r, b);
    }
    if j: nat :| j < i && Refuses(ss[j], es[j]) {
      Refused(ss, es, r, j);
      LostStays(ss, es, r, j + 1, i, ss[j].requests[es[j].client].spot);
    }
  }

  lemma Refused(ss: seq<State>, es: seq<Event>, r: nat, j: nat)
    requires 1 < r && Range(r) && Run(ss, es, r) && j < |es| && Refuses(ss[j], es[j])
    ensures es[j].client in ss[j].requests && ss[j].requests[es[j].client].Granted?
    ensures Orphan(ss[j + 1], ss[j].requests[es[j].client].spot, r)
  {
    hide Inv, Orphan;
    var owners := RunOwners(ss, es, r, j);
    assert Next(ss[j], es[j], ss[j + 1], r);
    GrantOutcome(ss[j], ss[j + 1], r, owners, es[j].client);
  }

  /** Each of the two indexes is the other one read backwards. */
  ghost predicate Inverse(k4: map<Spot, Client>, k6: map<Client, Spot>) {
    && (forall c :: c in k6 ==> k6[c] in k4 && k4[k6[c]] == c)
    && (forall b :: b in k4 ==> k4[b] in k6 && k6[k4[b]] == b)
  }

  lemma {:induction false} InverseSize(k4: map<Spot, Client>, k6: map<Client, Spot>)
    requires Inverse(k4, k6)
    ensures |k4| == |k6|
    decreases |k6|
  {
    if k6 == map[] {
      assert k4 == map[];
    } else {
      var c :| c in k6;
      var b := k6[c];
      assert k4.Keys == (k4 - {b}).Keys + {b} && k6.Keys == (k6 - {c}).Keys + {c};
      InverseSize(k4 - {b}, k6 - {c});
    }
  }

  /** In every state of every run the two indexes have one size, which is at most that of a full store. */
  lemma {:induction false} RunSize(ss: seq<State>, es: seq<Event>, r: nat, i: nat)
    requires 1 < r && Range(r) && Run(ss, es, r) && i < |ss|
    ensures |ss[i].k4| == |ss[i].k6| <= BPlusTree.MAXBPSIZE
  {
    hide Next, Timely, Start, PortIn, Block;
    RunSafe(ss, es, r, i);
    InverseSize(ss[i].k4, ss[i].k6);
    if i == 0 {
      StartSize(ss[0]);
    } else {
      RunSize(ss, es, r, i - 1);
      assert Next(ss[i - 1], es[i - 1], ss[i - 1 + 1], r);
      StepSize(ss[i - 1], es[i - 1], ss[i], r);
    }
  }

  lemma StartSize(s: State)
    requires Start(s)
    ensures |s.k6| == 0
  {
  }

  lemma StepSize(s: State, e: Event, s': State, r: nat)
    requires 0 < r && Next(s, e, s', r) && |s.k6| <= BPlusTree.MAXBPSIZE
    ensures |s'.k6| <= BPlusTree.MAXBPSIZE
  {
    hide PoolScan.Alloc, Ready, Created, Dropped, Released;
    match e
    case Create(c) => CreatedSize(s, c, s.requests[c].spot);
    case Delete(c) => if c in s.k6 { DroppedSize(s, c); }
    case Expire(c) => DroppedSize(s, c);
    case _ =>
  }

  lemma CreatedSize(s: State, c: Client, b: Spot)
    requires |s.k6| <= BPlusTree.MAXBPSIZE
    ensures |Created(s, c, b).k6| <= BPlusTree.MAXBPSIZE
  {
    var k6 := Created(s, c, b).k6;
    assert k6.Keys == s.k6.Keys || (Room(s) && k6.Keys == s.k6.Keys + {c});
  }

  lemma DroppedSize(s: State, c: Client)
    requires c in s.k6
    ensures |Dropped(s, c).k6| <= |s.k6|
  {
    Subset(Dropped(s, c).k6.Keys, s.k6.Keys);
  }

  lemma RunOn(ss: seq<State>, es: seq<Event>, r: nat, e: Event, s': State)
    requires 1 < r && Run(ss, es, r) && Next(ss[|es|], e, s', r) && Timely(ss[|es|], e)
    ensures Run(ss + [s'], es + [e], r) && (ss + [s'])[|es + [e]|] == s'
  {
    hide Next, Timely;
    var ts, fs := ss + [s'], es + [e];
    forall i | 0 <= i < |fs| ensures Next(ts[i], fs[i], ts[i + 1], r) && Timely(ts[i], fs[i]) {
      assert i < |es| ==> Next(ss[i], es[i], ss[i + 1], r) && Timely(ss[i], es[i]);
    }
  }

  /** With fewer blocks out than there are addresses, one of two searches in a row finds another one. */
  lemma SecondSearch(p: Pool, r: nat, live: set<Spot>) returns (q: Pool)
    requires 1 < r < SLOTS && Holds(p, live, r) && |live| < |p.marks|
    ensures Ready(p, r)
    ensures PoolScan.Alloc(p, r).Miss? ==>
              q == PoolScan.Alloc(p, r).pool && Ready(q, r) && PoolScan.Alloc(q, r).Hit?
  {
    hide PoolScan.Alloc, Found, Missed, Holds;
    HoldsReady(p, live, r);
    AllocOutcomes(p, r);
    q := PoolScan.Alloc(p, r).pool;
    if PoolScan.Alloc(p, r).Miss? {
      MissedHolds(p, q, live, r);
      HoldsReady(q, live, r);
      AllocOutcomes(q, r);
      var q' := PoolScan.Alloc(q, r).pool;
      if PoolScan.Alloc(q, r).Miss? {
        MissedHolds(q, q', live, r);
        HoldsReady(q', live, r);
        TwoMisses(p, q, q', r);
        SameLength(p, q, r);
        SameLength(q, q', r);
        var k := FreeAddress(q', r, live);
        SomePlace(q', r, k);
      }
    }
  }

  lemma SomePlace(p: Pool, r: nat, k: nat)
    requires Range(r) && r < SLOTS && k < |p.marks| && Free(p.marks[k], 0, r)
    ensures exists j, b :: 0 <= j < |p.marks| && Place(b, r) && Free(p.marks[j], b, r)
  {
    TopPlace(r);
    assert Place(0, r);
  }

  lemma SameLength(p: Pool, q: Pool, r: nat)
    requires r > 0 && Missed(p, q, r)
    ensures |q.marks| == |p.marks|
  {
  }

  lemma HoldsReady(p: Pool, live: set<Spot>, r: nat)
    requires 1 < r && Holds(p, live, r)
    ensures Range(r) && Ready(p, r)
  {
  }

  /** An address with no block out has its first place free. */
  lemma FreeAddress(p: Pool, r: nat, live: set<Spot>) returns (k: nat)
    requires 1 < r < SLOTS && Holds(p, live, r) && |live| < |p.marks|
    ensures k < |p.marks| && Free(p.marks[k], 0, r)
  {
    hide Holds;
    HoldsReady(p, live, r);
    TopPlace(r);
    k := Unused(live, |p.marks|);
    forall x | x in Block(0, r) ensures x !in p.marks[k] {
      assert Accounted(p, live, r, k, x) by {
        AccountedAt(p, live, r, k, x);
      }
      assert x % r == x && Top(r) >= r by {
        FirstPlace(x, r);
      }
    }
  }

  lemma AccountedAt(p: Pool, live: set<Spot>, r: nat, k: nat, x: nat)
    requires 1 < r && Holds(p, live, r) && k < |p.marks| && x < SLOTS
    ensures Accounted(p, live, r, k, x)
  {
  }

  lemma FirstPlace(x: nat, r: nat)
    requires Range(r) && x < r < SLOTS
    ensures x % r == x && Top(r) >= r
  {
  }

  /** An address below n that has no block of a smaller set. */
  lemma {:induction false} Unused(live: set<Spot>, n: nat) returns (k: nat)
    requires |live| < n
    ensures k < n && forall b :: b in live ==> b.k != k
    decreases n
  {
    var last := set b | b in live && b.k == n - 1;
    if last == {} {
      k := n - 1;
      forall b | b in live ensures b.k != k {
        assert b !in last;
      }
    } else {
      var b :| b in last;
      var rest := live - last;
      assert live == rest + last && |last| > 0;
      Subset(rest + {b}, live);
      assert |rest + {b}| == |rest| + 1;
      k := Unused(rest, n - 1);
    }
  }

  /** Nothing is under way, and the first n clients have a tunnel each. */
  ghost predicate Filled(s: State, n: nat) {
    s.requests == map[] && s.notices == [] && |s.k6| == n && forall c :: c in s.k6 ==> c < n
  }

  /** With nothing under way and nothing lost, the blocks that are out are those of the tunnels. */
  lemma FewOut(s: State, owners: Owners, r: nat, n: nat)
    requires 1 < r && Inv(s, owners, r) && Filled(s, n) && forall b :: b in owners ==> owners[b] != Lost
    ensures |owners.Keys| <= n
  {
    hide Holds;
    forall b | b in owners.Keys ensures b in s.k6.Values {
      assert Claimed(s, owners, b);
    }
    ValuesSize(s.k6);
    Subset(owners.Keys, s.k6.Values);
  }

  lemma {:induction false} ValuesSize(m: map<Client, Spot>)
    ensures |m.Values| <= |m|
    decreases |m|
  {
    if m == map[] {
      assert m.Values == {};
    } else {
      var c :| c in m;
      var rest := m - {c};
      assert m.Keys == rest.Keys + {c};
      assert m.Values <= rest.Values + {m[c]} by {
        forall b | b in m.Values ensures b in rest.Values + {m[c]} {
          var d :| d in m && m[d] == b;
          assert d != c ==> d in rest && rest[d] == b;
        }
      }
      ValuesSize(rest);
      Subset(m.Values, rest.Values + {m[c]});
    }
  }

  ghost predicate NoneRefused(ss: seq<State>, es: seq<Event>) {
    |ss| == |es| + 1 && forall j: nat :: j < |es| ==> !Refuses(ss[j], es[j])
  }

  lemma NoneRefusedOn(ss: seq<State>, es: seq<Event>, e: Event, s': State)
    requires NoneRefused(ss, es) && !Refuses(ss[|es|], e)
    ensures NoneRefused(ss + [s'], es + [e])
  {
    hide Refuses;
    var ts, fs := ss + [s'], es + [e];
    forall j: nat | j < |fs| ensures !Refuses(ts[j], fs[j]) {
      assert j < |es| ==> ts[j] == ss[j] && fs[j] == es[j];
    }
  }

  /** One more step of a run in which no create is refused. */
  lemma GoOn(ss: seq<State>, es: seq<Event>, r: nat, e: Event, s': State) returns (ts: seq<State>, fs: seq<Event>)
    requires 1 < r && |ss| == |es| + 1 && Run(ss, es, r) && NoneRefused(ss, es)
    requires Next(ss[|es|], e, s', r) && Timely(ss[|es|], e) && !Refuses(ss[|es|], e)
    ensures |ts| == |fs| + 1 && Run(ts, fs, r) && NoneRefused(ts, fs) && ts[0] == ss[0] && ts[|fs|] == s'
  {
    hide Next, Timely, Refuses;
    RunOn(ss, es, r, e, s');
    NoneRefusedOn(ss, es, e, s');
    ts, fs := ss + [s'], es + [e];
  }

  /** A new client asks for a block, from a state in which nothing is under way. */
  lemma Attempt(ss: seq<State>, es: seq<Event>, r: nat, c: Client) returns (ts: seq<State>, fs: seq<Event>)
    requires 1 < r && |ss| == |es| + 1 && Run(ss, es, r) && NoneRefused(ss, es)
    requires var s := ss[|es|]; s.requests == map[] && c !in s.k6 && Range(r) && Ready(s.pool, r)
    ensures |ts| == |fs| + 1 && Run(ts, fs, r) && NoneRefused(ts, fs) && ts[0] == ss[0]
    ensures var s, o := ss[|es|], PoolScan.Alloc(ss[|es|].pool, r);
      ts[|fs|] == s.(pool := o.pool, requests := if o.Hit? then map[c := Granted(Spot(o.k, o.b))] else map[])
  {
    hide PoolScan.Alloc, Run, NoneRefused, Ready;
    var s := ss[|es|];
    var t := s.(requests := map[c := Asking]);
    ts, fs := GoOn(ss, es, r, Detect(c), t);
    assert map[c := Asking] - {c} == map[];
    ts, fs := GoOn(ts, fs, r, Event.Alloc(c), Searched(t, c, r));
  }

  /** The pool of a filled state has blocks to give as long as there are more addresses than tunnels. */
  lemma FilledPool(ss: seq<State>, es: seq<Event>, r: nat, n: nat) returns (live: set<Spot>)
    requires 1 < r && Range(r) && |ss| == |es| + 1 && Run(ss, es, r) && NoneRefused(ss, es) && Filled(ss[|es|], n)
    ensures Holds(ss[|es|].pool, live, r) && |live| <= n
  {
    hide Holds, Owned, Run, Refuses;
    var owners := RunOwners(ss, es, r, |es|);
    FewOut(ss[|es|], owners, r, n);
    live := owners.Keys;
  }

  /** From a filled state a new client gets a grant, at the second attempt if not at the first. */
  lemma GrantNext(ss: seq<State>, es: seq<Event>, r: nat, n: nat) returns (ts: seq<State>, fs: seq<Event>, b: Spot)
    requires 1 < r < SLOTS && Range(r) && |ss| == |es| + 1 && Run(ss, es, r) && NoneRefused(ss, es)
    requires Filled(ss[|es|], n) && n < |ss[|es|].pool.marks|
    ensures |ts| == |fs| + 1 && Run(ts, fs, r) && NoneRefused(ts, fs) && ts[0] == ss[0]
    ensures ts[|fs|] == ss[|es|].(pool := ts[|fs|].pool, requests := map[n := Granted(b)])
    ensures |ts[|fs|].pool.marks| == |ss[|es|].pool.marks|
  {
    hide PoolScan.Alloc, Run, NoneRefused, Ready, Holds;
    var s := ss[|es|];
    var live := FilledPool(ss, es, r, n);
    var q := SecondSearch(s.pool, r, live);
    AllocLength(s.pool, r);
    ts, fs := Attempt(ss, es, r, n);
    var o := PoolScan.Alloc(s.pool, r);
    if o.Miss? {
      AllocLength(q, r);
      ts, fs := Attempt(ts, fs, r, n);
      o := PoolScan.Alloc(q, r);
    }
    b := Spot(o.k, o.b);
  }

  lemma AllocLength(p: Pool, r: nat)
    requires Range(r) && Ready(p, r)
    ensures |PoolScan.Alloc(p, r).pool.marks| == |p.marks|
  {
    hide PoolScan.Alloc;
    AllocOutcomes(p, r);
  }

  /** A run can fill the store. */
  lemma {:induction false} Fill(p: Pool, r: nat, n: nat) returns (ss: seq<State>, es: seq<Event>)
    requires 1 < r < SLOTS && Range(r) && Blank(p) && n <= BPlusTree.MAXBPSIZE && n < |p.marks|
    ensures |ss| == |es| + 1 && Run(ss, es, r) && NoneRefused(ss, es) && ss[0].pool == p
    ensures Filled(ss[|es|], n) && |ss[|es|].pool.marks| == |p.marks|
    decreases n
  {
    hide Blank;
    if n == 0 {
      ss, es := [State(p, map[], map[], map[], [])], [];
    } else {
      ss, es := Fill(p, r, n - 1);
      ss, es := FillOne(ss, es, r, n - 1);
    }
  }

  lemma FillOne(ss: seq<State>, es: seq<Event>, r: nat, n: nat) returns (ts: seq<State>, fs: seq<Event>)
    requires 1 < r < SLOTS && Range(r) && |ss| == |es| + 1 && Run(ss, es, r) && NoneRefused(ss, es)
    requires Filled(ss[|es|], n) && n < |ss[|es|].pool.marks| && n < BPlusTree.MAXBPSIZE
    ensures |ts| == |fs| + 1 && Run(ts, fs, r) && NoneRefused(ts, fs) && ts[0] == ss[0]
    ensures Filled(ts[|fs|], n + 1) && |ts[|fs|].pool.marks| == |ss[|es|].pool.marks|
  {
    hide Run, NoneRefused;
    var b;
    ts, fs, b := GrantNext(ss, es, r, n);
    var s := ts[|fs|];
    var k := |fs|;
    FreshGrant(ts, fs, r, n);
    var s' := Created(s, n, b);
    assert map[n := Granted(b)] - {n} == map[];
    assert s'.k6.Keys == s.k6.Keys + {n};
    ts, fs := GoOn(ts, fs, r, Create(n), s');
  }

  /** A grant is of a block that no tunnel has, and both indexes have one size. */
  lemma FreshGrant(ss: seq<State>, es: seq<Event>, r: nat, c: Client)
    requires 1 < r && Range(r) && |ss| == |es| + 1 && Run(ss, es, r)
    requires var s := ss[|es|]; c in s.requests && s.requests[c].Granted?
    ensures var s := ss[|es|]; s.requests[c].spot !in s.k4 && |s.k4| == |s.k6|
  {
    hide Holds;
    RunSize(ss, es, r, |es|);
    var owners := RunOwners(ss, es, r, |es|);
    assert RequestOK(ss[|es|], owners, c);
  }

  /** The leak is reached: with more addresses than the store has places for tunnels, a run without any
      refusal fills the store and grants one block more, and the create step then makes it an orphan. */
  lemma LeakReached(p: Pool, r: nat) returns (ss: seq<State>, es: seq<Event>, b: Spot)
    requires 1 < r < SLOTS && Range(r) && Blank(p) && |p.marks| > BPlusTree.MAXBPSIZE
    ensures |ss| == |es| + 1 && Run(ss, es, r) && ss[0].pool == p && |ss[|es|].k6| == BPlusTree.MAXBPSIZE
    ensures Orphan(ss[|es|], b, r)
  {
    hide Run, NoneRefused, Orphan, Blank;
    var n := BPlusTree.MAXBPSIZE;
    ss, es := Fill(p, r, n);
    ss, es, b := GrantNext(ss, es, r, n);
    var s := ss[|es|];
    FreshGrant(ss, es, r, n);
    var s' := Created(s, n, b);
    assert Next(s, Create(n), s', r);
    AfterRun(ss, es, r, n, s');
    RunOn(ss, es, r, Create(n), s');
    ss, es := ss + [s'], es + [Create(n)];
  }

  lemma AfterRun(ss: seq<State>, es: seq<Event>, r: nat, c: Client, s': State)
    requires 1 < r && Range(r) && |ss| == |es| + 1 && Run(ss, es, r) && Next(ss[|es|], Create(c), s', r)
    requires var s := ss[|es|]; c in s.requests && s.requests[c].Granted? && !Room(s)
    ensures Orphan(s', ss[|es|].requests[c].spot, r)
  {
    hide Inv, Orphan, Next;
    var owners := RunOwners(ss, es, r, |es|);
    GrantOutcome(ss[|es|], s', r, owners, c);
  }

  /** What timeliness is for: if a tunnel expires while its client renews it, the create step makes the
      tunnel again, and the notice of the expiry then frees the block under the live tunnel. */
  lemma LateExpiry(s: State, r: nat, owners: Owners, c: Client)
    returns (s1: State, s2: State, s3: State)
    requires 1 < r && Inv(s, owners, r) && c in s.requests && s.requests[c].Renewing? && s.notices == []
    requires |s.k4| <= BPlusTree.MAXBPSIZE && |s.k6| <= BPlusTree.MAXBPSIZE
    ensures Next(s, Expire(c), s1, r) && Next(s1, Create(c), s2, r) && Next(s2, Deliver, s3, r)
    ensures var b := s.requests[c].spot;
            c in s3.k6 && s3.k6[c] == b && b.k < |s3.pool.marks| && Free(s3.pool.marks[b.k], b.b, r)
    ensures !Safe(s3, r)
  {
    var b := s.requests[c].spot;
    assert RequestOK(s, owners, c) && Claimed(s, owners, b);
    s1 := Dropped(s, c).(notices := [b]);
    s2 := Created(s1, c, b);
    s3 := s2.(pool := Released(s2.pool, b, r), notices := []);
    assert s.notices + [b] == [b] && s2.notices[1..] == [];
    assert SpotOK(s.pool, r, b);
    assert b.b in Block(b.b, r);
  }

  /** The first allocation of a blank pool gives the first block of the first address. */
  lemma FirstBlock(p: Pool, r: nat) returns (p': Pool)
    requires 1 < r < SLOTS && Range(r) && Blank(p)
    ensures Ready(p, r) && PoolScan.Alloc(p, r) == Hit(p', 0, 0)
  {
    BlankReady(p, r);
    p' := Tried(p, r, 0);
  }

  /** Such a renewal is reached by a timely run from every new pool, and so is the unsafe state behind it. */
  lemma LateExpiryReached(p: Pool, r: nat, c: Client)
    returns (ss: seq<State>, es: seq<Event>, s1: State, s2: State, s3: State)
    requires 1 < r < SLOTS && Range(r) && Blank(p)
    ensures Run(ss, es, r) && ss[0].pool == p
    ensures var s := ss[|es|];
      && c in s.k6 && Safe(s, r) && !Timely(s, Expire(c))
      && Next(s, Expire(c), s1, r) && Next(s1, Create(c), s2, r) && Next(s2, Deliver, s3, r)
    ensures !Safe(s3, r)
  {
    hide PoolScan.Alloc, Inv, Safe, Blank, Ready;
    var p' := FirstBlock(p, r);
    var b := Spot(0, 0);
    var t0 := State(p, map[], map[], map[], []);
    var t1 := t0.(requests := map[c := Asking]);
    var t2 := t1.(pool := p', requests := map[c := Granted(b)]);
    var t3 := t2.(k4 := map[b := c], k6 := map[c := b], requests := map[]);
    var t4 := t3.(requests := map[c := Renewing(b)]);
    ss, es := [t0, t1, t2, t3, t4], [Detect(c), Alloc(c), Create(c), Detect(c)];
    assert Next(t0, es[0], t1, r) && Next(t1, es[1], t2, r);
    assert map[c := Granted(b)] - {c} == map[];
    assert Next(t2, es[2], t3, r) && Next(t3, es[3], t4, r);
    assert Run(ss, es, r);
    RunSafe(ss, es, r, 4);
    var owners := RunOwners(ss, es, r, 4);
    s1, s2, s3 := LateExpiry(t4, r, owners, c);
  }
}
