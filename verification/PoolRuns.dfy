/** What every run of allocations and releases keeps: the blocks that are out are disjoint, and an
    address has no other marks than theirs and, perhaps, the last place. */
module PoolRuns {
  import opened Arith
  import opened PoolScan
  import opened AddrPool

  /** Place b of the k-th address. */
  datatype Spot = Spot(k: nat, b: nat)

  ghost predicate SpotOK(p: Pool, r: nat, s: Spot)
    requires r > 0
  {
    s.k < |p.marks| && Place(s.b, r) && Usable(s.b, r)
  }

  /** A slot is marked when it is in a block that is out, or in the last place once that is reserved. */
  ghost predicate Accounted(p: Pool, live: set<Spot>, r: nat, k: nat, x: nat)
    requires r > 0 && k < |p.marks|
  {
    x in p.marks[k] <==> Spot(k, x - x % r) in live || (Top(r) <= x && Top(r) in p.marks[k])
  }

  ghost predicate Holds(p: Pool, live: set<Spot>, r: nat)
    requires 1 < r
  {
    && Range(r) && Ready(p, r)
    && (forall s {:trigger SpotOK(p, r, s)} :: s in live ==> SpotOK(p, r, s))
    && forall k, x {:trigger Accounted(p, live, r, k, x)} :: 0 <= k < |p.marks| && 0 <= x < SLOTS ==>
         Accounted(p, live, r, k, x)
  }

  /** x is in the one block of its place. */
  lemma PlaceOf(x: nat, b: nat, r: nat)
    requires r > 0 && b % r == 0
    ensures x - x % r == b <==> x in Block(b, r)
  {
    DivMod(x, r);
    DivMod(b, r);
    if x in Block(b, r) {
      DivUnique(x, r, b / r);
    }
  }

  lemma FoundHolds(p0: Pool, p: Pool, live: set<Spot>, r: nat, k: nat, b: nat)
    requires 1 < r && Holds(p0, live, r) && Found(p0, p, r, k, b)
    ensures Spot(k, b) !in live && Holds(p, live + {Spot(k, b)}, r)
  {
    assert b in Block(b, r) && b < SLOTS;
    PlaceOf(b, b, r);
    assert Accounted(p0, live, r, k, b);
    forall s | s in live + {Spot(k, b)} ensures SpotOK(p, r, s) {
      assert s in live ==> SpotOK(p0, r, s);
    }
    forall j: nat, x: nat | j < |p.marks| && x < SLOTS ensures Accounted(p, live + {Spot(k, b)}, r, j, x) {
      KeptAccounts(p0, live, r, j, x, if j == k then p.marks[k] - Block(b, r) else p.marks[j]);
      if j == k {
        PlaceOf(x, b, r);
        TopPlace(r);
        Apart(b, Top(r), r);
        assert Top(r) in Block(Top(r), r);
      }
    }
  }

  lemma KeptAccounts(p0: Pool, live: set<Spot>, r: nat, k: nat, x: nat, m: set<nat>)
    requires 1 < r && Holds(p0, live, r) && k < |p0.marks| && x < SLOTS && Kept(p0.marks[k], m, r)
    ensures x in m <==> Spot(k, x - x % r) in live || (Top(r) <= x && Top(r) in m)
  {
    assert Accounted(p0, live, r, k, x);
    TopPlace(r);
    assert Accounted(p0, live, r, k, Top(r));
    assert Top(r) in Block(Top(r), r);
    assert x in Block(Top(r), r) <==> Top(r) <= x;
  }

  lemma MissedHolds(p0: Pool, p: Pool, live: set<Spot>, r: nat)
    requires 1 < r && Holds(p0, live, r) && Missed(p0, p, r)
    ensures Holds(p, live, r)
  {
    forall s | s in live ensures SpotOK(p, r, s) {
      assert SpotOK(p0, r, s);
    }
    forall k: nat, x: nat | k < |p.marks| && x < SLOTS ensures Accounted(p, live, r, k, x) {
      assert Kept(p0.marks[k], p.marks[k], r);
      KeptAccounts(p0, live, r, k, x, p.marks[k]);
    }
  }

  /** The pool without the marks of a block; an address that is not on the ring changes nothing. */
  function Released(p: Pool, s: Spot, r: nat): Pool {
    if s.k < |p.marks| then
      p.(marks := p.marks[s.k := p.marks[s.k] - set x | x in p.marks[s.k] && In(x, s.b, r)])
    else p
  }

  lemma ReleasedHolds(p: Pool, live: set<Spot>, r: nat, s: Spot)
    requires 1 < r && Holds(p, live, r) && s in live
    ensures Holds(Released(p, s, r), live - {s}, r)
  {
    var p' := Released(p, s, r);
    assert SpotOK(p, r, s);
    TopPlace(r);
    PlaceOf(Top(r), s.b, r);
    Apart(s.b, Top(r), r);
    assert Top(r) in Block(Top(r), r);
    forall k: nat | k < |p'.marks| ensures NodeReady(p', r, k) {
      assert NodeReady(p, r, k);
    }
    forall t | t in live - {s} ensures SpotOK(p', r, t) {
      assert SpotOK(p, r, t);
    }
    forall k: nat, x: nat | k < |p'.marks| && x < SLOTS ensures Accounted(p', live - {s}, r, k, x) {
      assert Accounted(p, live, r, k, x);
      PlaceOf(x, s.b, r);
    }
  }

  /** What a search does to the pool and the blocks that are out. */
  ghost predicate Alloced(p: Pool, live: set<Spot>, p': Pool, live': set<Spot>, r: nat) {
    Range(r) && Ready(p, r) && match Alloc(p, r)
      case Hit(q, k, b) => p' == q && live' == live + {Spot(k, b)}
      case Miss(q) => p' == q && live' == live
  }

  ghost predicate Step(p: Pool, live: set<Spot>, p': Pool, live': set<Spot>, r: nat) {
    || Alloced(p, live, p', live', r)
    || (exists s :: s in live && p' == Released(p, s, r) && live' == live - {s})
  }

  ghost predicate Blank(p: Pool) {
    |p.marks| == |p.cursors| > 0 && forall j :: 0 <= j < |p.marks| ==> p.marks[j] == {} && p.cursors[j] == 0
  }

  lemma BlankReady(p: Pool, r: nat)
    requires r > 0 && Blank(p)
    ensures Ready(p, r)
  {
    forall j: nat | j < |p.marks| ensures NodeReady(p, r, j) {
    }
  }

  /** A run of allocations and releases from a new pool, with the blocks that are out. */
  ghost predicate PoolRun(ps: seq<Pool>, lives: seq<set<Spot>>, r: nat) {
    && |ps| == |lives| > 0 && Blank(ps[0]) && lives[0] == {}
    && forall n {:trigger lives[n]} :: 0 <= n < |ps| - 1 ==> Step(ps[n], lives[n], ps[n + 1], lives[n + 1], r)
  }

  lemma AllocedHolds(p: Pool, live: set<Spot>, p': Pool, live': set<Spot>, r: nat)
    requires 1 < r && Holds(p, live, r) && Alloced(p, live, p', live', r)
    ensures Holds(p', live', r)
  {
    hide Alloc, Holds, Found, Missed;
    AllocOutcomes(p, r);
    match Alloc(p, r)
    case Hit(q, k, b) => FoundHolds(p, q, live, r, k, b);
    case Miss(q) => MissedHolds(p, q, live, r);
  }

  /** Every state of every run that starts from a new pool. */
  lemma {:induction false} RunHolds(ps: seq<Pool>, lives: seq<set<Spot>>, r: nat, i: nat)
    requires 1 < r && Range(r) && PoolRun(ps, lives, r) && i < |ps|
    ensures Holds(ps[i], lives[i], r)
  {
    hide Alloced;
    if i == 0 {
      BlankReady(ps[0], r);
    } else {
      RunHolds(ps, lives, r, i - 1);
      var p, live, p', live' := ps[i - 1], lives[i - 1], ps[i], lives[i];
      assert Step(p, live, p', live', r);
      if Alloced(p, live, p', live', r) {
        AllocedHolds(p, live, p', live', r);
      } else {
        var s :| s in live && p' == Released(p, s, r) && live' == live - {s};
        ReleasedHolds(p, live, r, s);
      }
    }
  }

  lemma RunOn(ps: seq<Pool>, lives: seq<set<Spot>>, r: nat, p: Pool, live: set<Spot>)
    requires PoolRun(ps, lives, r) && Step(ps[|ps| - 1], lives[|ps| - 1], p, live, r)
    ensures PoolRun(ps + [p], lives + [live], r)
  {
    hide Step;
    var qs, ls := ps + [p], lives + [live];
    forall n | 0 <= n < |qs| - 1 ensures Step(qs[n], ls[n], qs[n + 1], ls[n + 1], r) {
      assert n < |ps| - 1 ==> Step(ps[n], lives[n], ps[n + 1], lives[n + 1], r);
    }
  }

  /** The usable places of an address end here. */
  function Limit(r: nat): int {
    if r == 1 then SLOTS else Top(r)
  }

  /** Two addresses: the first marked before a, the second not at all, and their cursors. */
  ghost function Pair(a: nat, x: nat, y: nat): Pool {
    Pool([Block(0, a), {}], [x, y])
  }

  lemma PairReady(r: nat, a: nat, x: nat, y: nat)
    requires Range(r) && a <= SLOTS && x <= SLOTS && y <= SLOTS && x % r == 0 && y % r == 0
    ensures Ready(Pair(a, x, y), r)
  {
    var p := Pair(a, x, y);
    assert Block(0, a) <= Block(0, SLOTS) by {
      forall s | s in Block(0, a) ensures s in Block(0, SLOTS) {
        assert In(s, 0, SLOTS);
      }
    }
    assert NodeReady(p, r, 0) && NodeReady(p, r, 1);
  }

  lemma BlockGrows(c: nat, r: nat)
    ensures Block(0, c) + Block(c, r) == Block(0, c + r) && Free(Block(0, c), c, r)
  {
    forall x: nat ensures x in Block(0, c) + Block(c, r) <==> x in Block(0, c + r) {
    }
  }

  /** While the first address has room it gives its next place. */
  lemma FirstGives(r: nat, c: nat)
    requires Range(r) && c % r == 0 && c < Limit(r)
    ensures (c + r) % r == 0 && c + r <= SLOTS
    ensures Ready(Pair(c, c, 0), r) && Alloc(Pair(c, c, 0), r) == Hit(Pair(c + r, c + r, 0), 0, c)
  {
    TopPlace(r);
    NextPlace(c, r);
    PairReady(r, c, c, 0);
    BlockGrows(c, r);
    assert Tried(Pair(c, c, 0), r, 0) == Pair(c + r, c + r, 0);
  }

  /** The search passes over the rest of a full first address. */
  lemma {:induction false} PassFull(bit: nat, r: nat, x: nat, y: nat)
    requires Range(r) && x <= SLOTS && x % r == 0 && y <= SLOTS && y % r == 0 && bit <= SLOTS && bit % r == 0
    ensures Ready(Pair(SLOTS, x, y), r) && Ready(Pair(SLOTS, 0, y), r)
    ensures Search(bit, Pair(SLOTS, x, y), r, 0, false) == Search(bit, Pair(SLOTS, 0, y), r, 1, false)
    decreases SLOTS - x
  {
    var p := Pair(SLOTS, x, y);
    PairReady(r, SLOTS, x, y);
    PairReady(r, SLOTS, 0, y);
    if x == SLOTS {
      assert Skipped(p, 0) == Pair(SLOTS, 0, y);
    } else {
      NextPlace(x, r);
      assert x in Block(x, r) && x in Block(0, SLOTS);
      assert Tried(p, r, 0) == Pair(SLOTS, x + r, y);
      PassFull(bit, r, x + r, y);
    }
  }

  /** From the first address on, when it has no usable place left. */
  lemma PassFirst(r: nat, a: nat, x: nat, y: nat)
    requires Range(r) && r < SLOTS && y <= SLOTS && y % r == 0
    requires (a == SLOTS && x == 0) || (a == x == Limit(r))
    ensures x % r == 0 && x <= SLOTS && Ready(Pair(a, x, y), r) && Ready(Pair(SLOTS, 0, y), r)
    ensures Alloc(Pair(a, x, y), r) == Search(x, Pair(SLOTS, 0, y), r, 1, false)
  {
    TopPlace(r);
    PairReady(r, a, x, y);
    PairReady(r, SLOTS, 0, y);
    if a == SLOTS {
      PassFull(x, r, x, y);
    } else {
      BlockGrows(x, r);
      PairReady(r, SLOTS, SLOTS, y);
      assert Tried(Pair(a, x, y), r, 0) == Pair(SLOTS, SLOTS, y);
      PassFull(x, r, SLOTS, y);
    }
  }

  /** Then the second address gives its next place, and the client gives it back. */
  lemma SecondGives(r: nat, a: nat, x: nat, c: nat, live: set<Spot>) returns (p: Pool, b: Spot)
    requires Range(r) && r < SLOTS && c < Limit(r) && c % r == 0 && Spot(1, c) !in live
    requires (a == SLOTS && x == 0) || (a == x == Limit(r))
    ensures Alloced(Pair(a, x, c), live, p, live + {b}, r) && b !in live && b.k == 1
    ensures (c + r) % r == 0 && c + r <= SLOTS && Released(p, b, r) == Pair(SLOTS, 0, c + r)
  {
    hide Alloc, Ready;
    TopPlace(r);
    NextPlace(c, r);
    b := Spot(1, c);
    p := Tried(Pair(SLOTS, 0, c), r, 1);
    SecondHit(r, a, x, c);
    assert {} + Block(c, r) == Block(c, r);
    assert Released(p, b, r).marks[1] == {};
  }

  lemma SecondHit(r: nat, a: nat, x: nat, c: nat)
    requires Range(r) && r < SLOTS && c < Limit(r) && c % r == 0
    requires (a == SLOTS && x == 0) || (a == x == Limit(r))
    ensures Ready(Pair(a, x, c), r)
    ensures Alloc(Pair(a, x, c), r) == Hit(Tried(Pair(SLOTS, 0, c), r, 1), 1, c)
  {
    hide Alloc;
    TopPlace(r);
    NextPlace(c, r);
    PassFirst(r, a, x, c);
    assert Free({}, c, r);
  }

  /** A search after that fails, with every usable place of the second address free. */
  lemma SecondMissed(r: nat)
    requires Range(r) && r < SLOTS
    ensures var p := Pair(SLOTS, 0, Limit(r)); Ready(p, r) && Alloc(p, r).Miss?
  {
    TopPlace(r);
    PassFirst(r, SLOTS, 0, Limit(r));
    PairReady(r, SLOTS, 0, Limit(r));
    var p := Pair(SLOTS, 0, Limit(r));
    if r > 1 {
      assert Free({}, Top(r), r);
      TriedReady(p, r, 1);
      var q := Tried(p, r, 1);
      SkippedReady(q, r, 1);
      assert Search(0, p, r, 1, false) == Search(0, q, r, 1, false);
      assert Search(0, q, r, 1, false) == Search(0, Skipped(q, 1), r, 0, true);
    } else {
      SkippedReady(p, r, 1);
    }
  }

  lemma {:induction false} FillFirst(r: nat, c: nat) returns (ps: seq<Pool>, lives: seq<set<Spot>>)
    requires Range(r) && r < SLOTS && c % r == 0 && c <= Limit(r)
    ensures PoolRun(ps, lives, r) && ps[|ps| - 1] == Pair(c, c, 0) && forall s :: s in lives[|ps| - 1] ==> s.k == 0
    decreases c
  {
    hide PoolRun, Alloc, Ready, Step, Alloced, Pair;
    if c == 0 {
      ps, lives := [Pair(0, 0, 0)], [{}];
      EmptyRun(r);
    } else {
      Multiples(0, c, r);
      PreviousMultiple(c, r);
      ps, lives := FillFirst(r, c - r);
      LastOf(ps, lives, r);
      var live := lives[|ps| - 1] + {Spot(0, c - r)};
      FirstAlloced(r, c - r, lives[|ps| - 1]);
      RunOn(ps, lives, r, Pair(c, c, 0), live);
      ps, lives := ps + [Pair(c, c, 0)], lives + [live];
    }
  }

  lemma EmptyRun(r: nat)
    ensures PoolRun([Pair(0, 0, 0)], [{}], r)
  {
    assert Block(0, 0) == {};
  }

  lemma FirstAlloced(r: nat, c: nat, live: set<Spot>)
    requires Range(r) && c % r == 0 && c < Limit(r)
    ensures Step(Pair(c, c, 0), live, Pair(c + r, c + r, 0), live + {Spot(0, c)}, r)
  {
    hide Alloc, Ready, Pair;
    FirstGives(r, c);
    assert Alloced(Pair(c, c, 0), live, Pair(c + r, c + r, 0), live + {Spot(0, c)}, r);
  }

  lemma LastOf(ps: seq<Pool>, lives: seq<set<Spot>>, r: nat)
    requires PoolRun(ps, lives, r)
    ensures |ps| == |lives| > 0
  {
  }

  lemma PreviousMultiple(c: nat, r: nat)
    requires r > 0 && c % r == 0 && c >= r
    ensures (c - r) % r == 0
  {
    DivMod(c, r);
    DivUnique(c - r, r, c / r - 1);
  }

  lemma {:induction false} MoveSecond(r: nat, c: nat) returns (ps: seq<Pool>, lives: seq<set<Spot>>)
    requires Range(r) && r < SLOTS && c % r == 0 && 0 < c <= Limit(r)
    ensures PoolRun(ps, lives, r) && ps[|ps| - 1] == Pair(SLOTS, 0, c) && forall s :: s in lives[|ps| - 1] ==> s.k == 0
    decreases c
  {
    hide PoolRun, Alloced, Released;
    TopPlace(r);
    Multiples(0, c, r);
    PreviousMultiple(c, r);
    var a, x := SLOTS, 0;
    if c == r {
      a, x := Limit(r), Limit(r);
      ps, lives := FillFirst(r, Limit(r));
    } else {
      ps, lives := MoveSecond(r, c - r);
    }
    LastOf(ps, lives, r);
    var live := lives[|ps| - 1];
    var p, b := SecondGives(r, a, x, c - r, live);
    RunOn(ps, lives, r, p, live + {b});
    ps, lives := ps + [p], lives + [live + {b}];
    assert live + {b} - {b} == live;
    RunOn(ps, lives, r, Released(p, b, r), live);
    ps, lives := ps + [Released(p, b, r)], lives + [live];
  }

  /** One failing search does not mean that the pool is exhausted: for every range below 64 a run from a
      new pool of two addresses leads to a search that fails although the first place of the second
      address could be given. */
  lemma OneMissIsNotEnough(r: nat) returns (ps: seq<Pool>, lives: seq<set<Spot>>)
    requires Range(r) && r < SLOTS
    ensures PoolRun(ps, lives, r)
    ensures var p := ps[|ps| - 1];
      && Ready(p, r) && Alloc(p, r).Miss? && |p.marks| == 2
      && Place(0, r) && Usable(0, r) && Free(p.marks[1], 0, r)
  {
    hide PoolRun, Alloc;
    TopPlace(r);
    ps, lives := MoveSecond(r, Limit(r));
    LastOf(ps, lives, r);
    SecondMissed(r);
    assert Free({}, 0, r);
  }

  /** The ports of a block, numbered without wrapping round. */
  ghost predicate PortIn(port: int, b: nat, r: nat) {
    1024 * b + 1024 <= port < 1024 * b + 1024 + 1024 * r
  }

  /** The blocks that are out are whole ranges between 1024 and 65535, as the start and stop ports
      say, and two of one address have no port in common. */
  lemma LivePorts(p: Pool, live: set<Spot>, r: nat, s: Spot, t: Spot, port: int)
    requires 1 < r && Holds(p, live, r) && s in live && t in live
    ensures PortIn(port, s.b, r) <==> StartOf(s.b) <= port <= StopOf(s.b, r)
    ensures PortIn(port, s.b, r) ==> 1024 <= port <= 65535
    ensures PortIn(port, s.b, r) && PortIn(port, t.b, r) && s.k == t.k ==> s == t
  {
    assert SpotOK(p, r, s) && SpotOK(p, r, t);
    BelowTop(s.b, r);
    BoundaryCheck(s.b, r);
    if s.b < t.b {
      Multiples(s.b, t.b, r);
    } else if t.b < s.b {
      Multiples(t.b, s.b, r);
    }
  }

  lemma BelowTop(b: nat, r: nat)
    requires 1 < r && Range(r) && Place(b, r) && Usable(b, r)
    ensures b + 2 * r <= SLOTS
  {
    TopPlace(r);
    Multiples(b, Top(r), r);
  }

  /** A block of one slot at the last slot passes the boundary check with ports 0 to 1023. */
  lemma OneSlotWraps(b: nat, r: nat)
    requires Range(r) && Place(b, r) && Usable(b, r)
    ensures StartOf(b) >= 1024 <==> !(r == 1 && b == 63)
    ensures r == 1 && b == 63 ==> StartOf(b) == 0 && StopOf(b, r) == 1023
  {
    if r > 1 {
      BelowTop(b, r);
    }
  }

  /** The start port in a message names the block: no other place has it, and DeallocAddrPort takes the
      marks of exactly that block away. */
  lemma MessageNamesBlock(p: Pool, live: set<Spot>, r: nat, s: Spot, t: Spot)
    requires 1 < r && Holds(p, live, r) && s in live && t in live
    ensures StartOf(s.b) >= 1024 && StartOf(s.b) / 1024 - 1 == s.b
    ensures StartOf(s.b) == StartOf(t.b) ==> s.b == t.b
    ensures s.k < |p.marks| && Released(p, s, r) == p.(marks := p.marks[s.k := p.marks[s.k] - Block(s.b, r)])
  {
    assert SpotOK(p, r, s) && SpotOK(p, r, t);
    BelowTop(s.b, r);
    BelowTop(t.b, r);
    BoundaryCheck(s.b, r);
    BoundaryCheck(t.b, r);
    assert p.marks[s.k] - Block(s.b, r) == Released(p, s, r).marks[s.k];
  }

  ghost function BlocksOf(live: set<Spot>, k: nat): set<Spot> {
    set s | s in live && s.k == k
  }

  ghost function SlotsOf(live: set<Spot>, k: nat, r: nat): set<nat> {
    set s, x | s in live && s.k == k && x in Block(s.b, r) :: x
  }

  lemma {:induction false} BlockSize(b: nat, r: nat)
    ensures |Block(b, r)| == r
    decreases r
  {
    if r == 0 {
      assert Block(b, r) == {};
    } else {
      assert Block(b, r) == Block(b, r - 1) + {b + r - 1};
      BlockSize(b, r - 1);
    }
  }

  lemma SlotsWithout(live: set<Spot>, k: nat, r: nat, s: Spot)
    requires Range(r) && s in live && forall t :: t in live ==> t.b % r == 0
    ensures s.k == k ==> SlotsOf(live, k, r) == SlotsOf(live - {s}, k, r) + Block(s.b, r)
                         && SlotsOf(live - {s}, k, r) !! Block(s.b, r)
                            && BlocksOf(live, k) == BlocksOf(live - {s}, k) + {s}
    ensures s.k != k ==>
              SlotsOf(live, k, r) == SlotsOf(live - {s}, k, r) && BlocksOf(live, k) == BlocksOf(live - {s}, k)
  {
    forall t | t in live && t != s && t.k == k && s.k == k ensures Block(t.b, r) !! Block(s.b, r) {
      Apart(t.b, s.b, r);
    }
  }

  lemma {:induction false} SlotsSize(live: set<Spot>, k: nat, r: nat)
    requires Range(r) && forall s :: s in live ==> s.b % r == 0
    ensures |SlotsOf(live, k, r)| == r * |BlocksOf(live, k)|
    decreases live
  {
    if live == {} {
      assert SlotsOf(live, k, r) == {} && BlocksOf(live, k) == {};
    } else {
      var s :| s in live;
      SlotsWithout(live, k, r, s);
      SlotsSize(live - {s}, k, r);
      BlockSize(s.b, r);
    }
  }

  lemma SlotsMember(live: set<Spot>, k: nat, r: nat, x: nat)
    requires Range(r) && forall s :: s in live ==> s.b % r == 0
    ensures x in SlotsOf(live, k, r) <==> Spot(k, x - x % r) in live
  {
    if Spot(k, x - x % r) in live {
      PlaceOf(x, x - x % r, r);
    }
    forall s | s in live && s.k == k && x in Block(s.b, r) ensures s == Spot(k, x - x % r) {
      PlaceOf(x, s.b, r);
    }
  }

  /** The marks of an address are r for each block that is out, and r more once the last place is reserved. */
  lemma MarksCount(p: Pool, live: set<Spot>, r: nat, k: nat)
    requires 1 < r && Holds(p, live, r) && k < |p.marks|
    ensures |p.marks[k]| == r * |BlocksOf(live, k)| + if Top(r) in p.marks[k] then r else 0
  {
    hide SlotsOf, BlocksOf;
    var out, top := SlotsOf(live, k, r), if Top(r) in p.marks[k] then Block(Top(r), r) else {};
    TopPlace(r);
    assert NodeReady(p, r, k);
    forall s | s in live ensures s.b % r == 0 && s.b < Top(r) {
      assert SpotOK(p, r, s);
      BelowTop(s.b, r);
    }
    forall x: nat ensures (x in p.marks[k] <==> x in out + top) && !(x in out && x in top) {
      SlotsMember(live, k, r, x);
      PlaceOf(x, Top(r), r);
      if x < SLOTS {
        assert Accounted(p, live, r, k, x);
      }
    }
    assert p.marks[k] == out + top && out !! top;
    SlotsSize(live, k, r);
    BlockSize(Top(r), r);
  }
}
