/** The address pool as a value, and what one search of it may find or miss. */
module PoolScan {
  import opened Arith

  const SLOTS := 64

  /** For each address on the ring, the slots it has marked and its cursor. */
  datatype Pool = Pool(marks: seq<set<nat>>, cursors: seq<nat>)

  /** r divides 64. */
  predicate Range(r: nat) {
    r == 1 || r == 2 || r == 4 || r == 8 || r == 16 || r == 32 || r == 64
  }

  predicate In(x: nat, b: nat, r: nat) {
    b <= x < b + r
  }

  ghost function Block(b: nat, r: nat): set<nat> {
    set x | b <= x < b + r && In(x, b, r)
  }

  /** b is a place for a block of r slots. */
  predicate Place(b: nat, r: nat)
    requires r > 0
  {
    b % r == 0 && b + r <= SLOTS
  }

  ghost predicate Free(m: set<nat>, b: nat, r: nat) {
    Block(b, r) !! m
  }

  ghost predicate NodeReady(p: Pool, r: nat, j: nat)
    requires r > 0 && j < |p.marks| == |p.cursors|
  {
    p.cursors[j] <= SLOTS && p.cursors[j] % r == 0 && p.marks[j] <= Block(0, SLOTS)
  }

  /** Every cursor is at a place for a block or at the end. */
  ghost predicate Ready(p: Pool, r: nat)
    requires r > 0
  {
    && |p.marks| == |p.cursors| > 0
    && forall j {:trigger NodeReady(p, r, j)} :: 0 <= j < |p.marks| ==> NodeReady(p, r, j)
  }

  /** The ports of the last place run over the top of the port numbers: the search marks it and goes on. */
  function Top(r: nat): int {
    SLOTS - r
  }

  ghost predicate Usable(b: nat, r: nat) {
    r == 1 || b != Top(r)
  }

  /** m', with the last place marked if it was free before. */
  ghost predicate Kept(m: set<nat>, m': set<nat>, r: nat) {
    m' == m || (1 < r <= SLOTS && Free(m, Top(r), r) && m' == m + Block(Top(r), r))
  }

  /** The search starts at the cursor of the first address and comes back to it, but it looks at
      the others only from their cursors on. */
  predicate InReach(p: Pool, j: nat, b: nat)
    requires j < |p.cursors|
  {
    j == 0 || p.cursors[j] <= b
  }

  /** The search, now at address k, has passed place b of address j. */
  predicate Passed(p0: Pool, p: Pool, k: nat, lap: bool, j: nat, b: nat)
    requires |p0.cursors| == |p.cursors| && j < |p.cursors|
  {
    if lap then if j == 0 then p0.cursors[0] <= b || b < p.cursors[0] else p0.cursors[j] <= b
    else if j < k then p0.cursors[j] <= b
    else j == k && p0.cursors[j] <= b < p.cursors[j]
  }

  ghost predicate Taken(m: set<nat>, b: nat, r: nat)
    requires r > 0
  {
    Place(b, r) ==> !Free(m, b, r)
  }

  ghost predicate CursorAt(p0: Pool, p: Pool, k: nat, lap: bool, j: nat)
    requires |p0.cursors| == |p.cursors| && j < |p.cursors|
  {
    if lap then if j == 0 then p.cursors[0] <= p0.cursors[0] else p.cursors[j] == 0
    else if j < k then p.cursors[j] == 0
    else if j == k then p0.cursors[j] <= p.cursors[j]
    else p.cursors[j] == p0.cursors[j]
  }

  /** How far the search has come: lap says that it is back at the first address. */
  ghost predicate Scan(p0: Pool, p: Pool, r: nat, k: nat, lap: bool)
    requires r > 0
  {
    && Ready(p0, r) && Ready(p, r) && |p.marks| == |p0.marks|
    && k < |p.marks| && (lap ==> k == 0)
    && (forall j {:trigger CursorAt(p0, p, k, lap, j)} :: 0 <= j < |p.marks| ==> CursorAt(p0, p, k, lap, j))
    && (forall j {:trigger Kept(p0.marks[j], p.marks[j], r)} :: 0 <= j < |p.marks| ==> Kept(p0.marks[j], p.marks[j], r))
    && (forall j, b {:trigger Taken(p.marks[j], b, r)} ::
          0 <= j < |p.marks| && 0 <= b && Passed(p0, p, k, lap, j, b) ==> Taken(p.marks[j], b, r))
  }

  /** The search gave place b of address k. */
  ghost predicate Found(p0: Pool, p: Pool, r: nat, k: nat, b: nat)
    requires r > 0
  {
    && Ready(p0, r) && Ready(p, r) && |p.marks| == |p0.marks| && k < |p.marks|
    && Place(b, r) && Usable(b, r) && InReach(p0, k, b) && Free(p0.marks[k], b, r) && Block(b, r) <= p.marks[k]
    && Kept(p0.marks[k], p.marks[k] - Block(b, r), r)
    && forall j {:trigger Kept(p0.marks[j], p.marks[j], r)} :: 0 <= j < |p.marks| && j != k ==>
         Kept(p0.marks[j], p.marks[j], r)
  }

  /** The search gave nothing. */
  ghost predicate Missed(p0: Pool, p: Pool, r: nat)
    requires r > 0
  {
    && Ready(p0, r) && Ready(p, r) && |p.marks| == |p0.marks|
    && p.cursors[0] == p0.cursors[0] && (forall j :: 0 < j < |p.cursors| ==> p.cursors[j] == 0)
    && (forall j {:trigger Kept(p0.marks[j], p.marks[j], r)} :: 0 <= j < |p.marks| ==> Kept(p0.marks[j], p.marks[j], r))
    && (forall j, b {:trigger Taken(p.marks[j], b, r)} ::
          0 <= j < |p.marks| && 0 <= b && InReach(p0, j, b) ==> Taken(p.marks[j], b, r))
  }

  /** A place the search could have given. */
  ghost predicate Candidate(p: Pool, r: nat, j: nat, b: nat)
    requires r > 0
  {
    j < |p.marks| == |p.cursors| && Place(b, r) && Usable(b, r) && InReach(p, j, b) && Free(p.marks[j], b, r)
  }

  lemma Apart(b: nat, c: nat, r: nat)
    requires r > 0 && b % r == 0 && c % r == 0 && b != c
    ensures Block(b, r) !! Block(c, r)
  {
    if b < c {
      Multiples(b, c, r);
    } else {
      Multiples(c, b, r);
    }
  }

  lemma TopPlace(r: nat)
    requires Range(r)
    ensures Top(r) >= 0 && Place(Top(r), r)
  {
  }

  lemma NextPlace(c: nat, r: nat)
    requires Range(r) && c % r == 0 && c < SLOTS
    ensures (c + r) % r == 0 && c + r <= SLOTS
    ensures forall b :: b % r == 0 && c <= b < c + r ==> b == c
  {
    NextMultiple(c, r);
    assert SLOTS % r == 0;
    Multiples(c, SLOTS, r);
    forall b | b % r == 0 && c < b ensures c + r <= b {
      Multiples(c, b, r);
    }
  }

  /** A search that gives nothing passes over no place that it could have given. */
  lemma MissedExact(p0: Pool, p: Pool, r: nat, j: nat, b: nat)
    requires Range(r) && Missed(p0, p, r)
    ensures !Candidate(p0, r, j, b)
  {
    if Candidate(p0, r, j, b) {
      TopPlace(r);
      assert Kept(p0.marks[j], p.marks[j], r);
      if r > 1 {
        Apart(b, Top(r), r);
      }
      MissedTaken(p0, p, r, j, b);
    }
  }

  lemma NoCandidate(p0: Pool, p: Pool, r: nat)
    requires Range(r) && Missed(p0, p, r)
    ensures forall j, b :: !Candidate(p0, r, j, b)
  {
    forall j: nat, b: nat ensures !Candidate(p0, r, j, b) {
      MissedExact(p0, p, r, j, b);
    }
  }

  lemma FoundCandidate(p0: Pool, p: Pool, r: nat, k: nat, b: nat)
    requires r > 0 && Found(p0, p, r, k, b)
    ensures Candidate(p0, r, k, b)
  {
  }

  lemma MissedTaken(p0: Pool, p: Pool, r: nat, j: nat, b: nat)
    requires r > 0 && Missed(p0, p, r) && j < |p.marks| && InReach(p0, j, b)
    ensures Taken(p.marks[j], b, r)
  {
  }

  /** Two failing searches in a row leave no free place anywhere. */
  lemma TwoMisses(p0: Pool, p1: Pool, p2: Pool, r: nat)
    requires Range(r) && Missed(p0, p1, r) && Missed(p1, p2, r)
    ensures forall j, b :: 0 <= j < |p2.marks| && Place(b, r) ==> !Free(p2.marks[j], b, r)
  {
    forall j: nat, b: nat | j < |p2.marks| && Place(b, r) ensures !Free(p2.marks[j], b, r) {
      assert InReach(p1, j, b);
      assert Taken(p2.marks[j], b, r);
    }
  }

  lemma StartScan(p: Pool, r: nat)
    requires Range(r) && Ready(p, r)
    ensures Scan(p, p, r, 0, false)
  {
    forall j: nat | j < |p.marks| ensures CursorAt(p, p, 0, false, j) && Kept(p.marks[j], p.marks[j], r) {
    }
  }

  /** The cursor at the end of an address goes back to its start and the search to the next address. */
  lemma SkipStep(p0: Pool, p: Pool, p': Pool, r: nat, k: nat, k': nat, lap': bool)
    requires Range(r) && Scan(p0, p, r, k, false) && p.cursors[k] == SLOTS
    requires p' == p.(cursors := p.cursors[k := 0])
    requires lap' == (k + 1 == |p.marks|) && k' == if lap' then 0 else k + 1
    ensures Scan(p0, p', r, k', lap')
  {
    var n := |p.marks|;
    forall j: nat | j < n
      ensures NodeReady(p', r, j) && CursorAt(p0, p', k', lap', j) && Kept(p0.marks[j], p'.marks[j], r)
    {
      assert NodeReady(p, r, j) && NodeReady(p0, r, j) && CursorAt(p0, p, k, false, j)
             && Kept(p0.marks[j], p.marks[j], r);
    }
    forall j: nat, b: nat | j < n && Passed(p0, p', k', lap', j, b) ensures Taken(p'.marks[j], b, r) {
      assert CursorAt(p0, p, k, false, j) && NodeReady(p0, r, j);
      assert Taken(p.marks[j], b, r) || b >= SLOTS;
    }
  }

  /** A place that is taken, or the last one: the search goes on. */
  lemma TryStep(p0: Pool, p: Pool, p': Pool, r: nat, k: nat, lap: bool)
    requires Range(r) && Scan(p0, p, r, k, lap) && p.cursors[k] < SLOTS && (lap ==> p.cursors[0] != p0.cursors[0])
    requires p'.cursors == p.cursors[k := p.cursors[k] + r]
    requires if Free(p.marks[k], p.cursors[k], r)
             then !Usable(p.cursors[k], r) && p'.marks == p.marks[k := p.marks[k] + Block(p.cursors[k], r)]
             else p'.marks == p.marks
    ensures Scan(p0, p', r, k, lap)
  {
    var n, c := |p.marks|, p.cursors[k];
    assert NodeReady(p, r, k) && NodeReady(p0, r, k) && CursorAt(p0, p, k, lap, k) && Kept(p0.marks[k], p.marks[k], r);
    NextPlace(c, r);
    TopPlace(r);
    assert p'.marks[k] == p.marks[k] || p'.marks[k] == p.marks[k] + Block(c, r);
    assert c in Block(c, r);
    forall j: nat | j < n
      ensures NodeReady(p', r, j) && CursorAt(p0, p', k, lap, j) && Kept(p0.marks[j], p'.marks[j], r)
    {
      assert NodeReady(p, r, j) && NodeReady(p0, r, j) && CursorAt(p0, p, k, lap, j)
             && Kept(p0.marks[j], p.marks[j], r);
    }
    forall j: nat, b: nat | j < n && Passed(p0, p', k, lap, j, b) ensures Taken(p'.marks[j], b, r) {
      assert p.marks[j] <= p'.marks[j];
      if Passed(p0, p, k, lap, j, b) {
        assert Taken(p.marks[j], b, r);
      }
    }
  }

  lemma HitStep(p0: Pool, p: Pool, p': Pool, r: nat, k: nat, lap: bool)
    requires Range(r) && Scan(p0, p, r, k, lap) && p.cursors[k] < SLOTS
    requires Free(p.marks[k], p.cursors[k], r) && Usable(p.cursors[k], r)
    requires p'.cursors == p.cursors[k := p.cursors[k] + r]
    requires p'.marks == p.marks[k := p.marks[k] + Block(p.cursors[k], r)]
    ensures Found(p0, p', r, k, p.cursors[k])
  {
    var n, c := |p.marks|, p.cursors[k];
    assert NodeReady(p, r, k) && NodeReady(p0, r, k) && CursorAt(p0, p, k, lap, k) && Kept(p0.marks[k], p.marks[k], r);
    NextPlace(c, r);
    forall j: nat | j < n ensures NodeReady(p', r, j) && (j != k ==> Kept(p0.marks[j], p'.marks[j], r)) {
      assert NodeReady(p, r, j) && Kept(p0.marks[j], p.marks[j], r);
    }
    assert p'.marks[k] - Block(c, r) == p.marks[k];
  }

  lemma EndScan(p0: Pool, p: Pool, r: nat)
    requires Range(r) && Scan(p0, p, r, 0, true) && p.cursors[0] == p0.cursors[0]
    ensures Missed(p0, p, r)
  {
    forall j: nat | 0 < j < |p.marks| ensures p.cursors[j] == 0 {
      assert CursorAt(p0, p, 0, true, j);
    }
    forall j: nat, b: nat | j < |p.marks| && InReach(p0, j, b) ensures Taken(p.marks[j], b, r) {
      assert Passed(p0, p, 0, true, j, b);
    }
  }

  /** How a search ends. */
  datatype Outcome = Hit(pool: Pool, k: nat, b: nat) | Miss(pool: Pool)

  /** The cursor of address k goes back to its first place. */
  function Skipped(p: Pool, k: nat): Pool
    requires k < |p.cursors|
  {
    p.(cursors := p.cursors[k := 0])
  }

  /** The place at the cursor of address k is marked if it is free, and the cursor moves on. */
  ghost function Tried(p: Pool, r: nat, k: nat): Pool
    requires k < |p.marks| == |p.cursors|
  {
    var c := p.cursors[k];
    Pool(if Free(p.marks[k], c, r) then p.marks[k := p.marks[k] + Block(c, r)] else p.marks, p.cursors[k := c + r])
  }

  lemma SkippedReady(p: Pool, r: nat, k: nat)
    requires Range(r) && Ready(p, r) && k < |p.marks|
    ensures Ready(Skipped(p, k), r)
  {
    forall j: nat | j < |p.marks| ensures NodeReady(Skipped(p, k), r, j) {
      assert NodeReady(p, r, j);
    }
  }

  lemma TriedReady(p: Pool, r: nat, k: nat)
    requires Range(r) && Ready(p, r) && k < |p.marks| && p.cursors[k] < SLOTS
    ensures Ready(Tried(p, r, k), r) && Place(p.cursors[k], r)
  {
    assert NodeReady(p, r, k);
    NextPlace(p.cursors[k], r);
    forall j: nat | j < |p.marks| ensures NodeReady(Tried(p, r, k), r, j) {
      assert NodeReady(p, r, j);
    }
  }

  /** The search at address k, step by step; bit is where the cursor of the first address was at the start. */
  ghost function Search(bit: nat, p: Pool, r: nat, k: nat, lap: bool): Outcome
    requires Range(r) && Ready(p, r) && k < |p.marks|
    requires bit <= SLOTS && bit % r == 0 && (k > 0 ==> p.cursors[0] == 0) && (lap ==> k == 0 && p.cursors[0] <= bit)
    decreases if lap then 0 else |p.marks| - k, SLOTS - p.cursors[k]
  {
    assert NodeReady(p, r, k);
    var c := p.cursors[k];
    if lap && c == bit then Miss(p)
    else if c >= SLOTS then
      SkippedReady(p, r, k);
      Search(bit, Skipped(p, k), r, if k + 1 < |p.marks| then k + 1 else 0, k + 1 == |p.marks|)
    else
      TriedReady(p, r, k);
      if Free(p.marks[k], c, r) && Usable(c, r) then Hit(Tried(p, r, k), k, c)
      else
        assert lap ==> c + r <= bit by { if lap { Multiples(c, bit, r); } }
        Search(bit, Tried(p, r, k), r, k, lap)
  }

  /** One whole search. */
  ghost function Alloc(p: Pool, r: nat): Outcome
    requires Range(r) && Ready(p, r)
  {
    assert NodeReady(p, r, 0);
    Search(p.cursors[0], p, r, 0, false)
  }

  ghost predicate Outcomes(p0: Pool, r: nat, o: Outcome)
    requires r > 0
  {
    match o
    case Hit(p, k, b) => Found(p0, p, r, k, b)
    case Miss(p) => Missed(p0, p, r)
  }

  lemma ScanStart(p0: Pool, p: Pool, r: nat, k: nat, lap: bool)
    requires Range(r) && Scan(p0, p, r, k, lap)
    ensures Ready(p, r) && k < |p.marks| && |p0.cursors| > 0 && p0.cursors[0] <= SLOTS && p0.cursors[0] % r == 0
    ensures (k > 0 ==> p.cursors[0] == 0) && (lap ==> k == 0 && p.cursors[0] <= p0.cursors[0])
  {
    assert NodeReady(p0, r, 0) && CursorAt(p0, p, k, lap, 0);
  }

  /** From any point of a search on, what it finds or misses is what the account of it says. */
  lemma {:induction false} SearchOutcomes(p0: Pool, p: Pool, r: nat, k: nat, lap: bool)
    requires Range(r) && Scan(p0, p, r, k, lap)
    ensures Ready(p, r) && k < |p.marks| && |p0.cursors| > 0 && p0.cursors[0] <= SLOTS && p0.cursors[0] % r == 0
    ensures (k > 0 ==> p.cursors[0] == 0) && (lap ==> k == 0 && p.cursors[0] <= p0.cursors[0])
    ensures Outcomes(p0, r, Search(p0.cursors[0], p, r, k, lap))
    decreases if lap then 0 else |p.marks| - k, SLOTS - p.cursors[k]
  {
    hide Scan, Found, Missed, Free, Usable;
    ScanStart(p0, p, r, k, lap);
    assert NodeReady(p, r, k);
    var c, bit := p.cursors[k], p0.cursors[0];
    if lap && c == bit {
      EndScan(p0, p, r);
    } else if c >= SLOTS {
      var k', lap' := if k + 1 < |p.marks| then k + 1 else 0, k + 1 == |p.marks|;
      SkipStep(p0, p, Skipped(p, k), r, k, k', lap');
      SearchOutcomes(p0, Skipped(p, k), r, k', lap');
    } else if Free(p.marks[k], c, r) && Usable(c, r) {
      HitStep(p0, p, Tried(p, r, k), r, k, lap);
    } else {
      TryStep(p0, p, Tried(p, r, k), r, k, lap);
      SearchOutcomes(p0, Tried(p, r, k), r, k, lap);
    }
  }

  lemma AllocOutcomes(p: Pool, r: nat)
    requires Range(r) && Ready(p, r)
    ensures Outcomes(p, r, Alloc(p, r))
  {
    StartScan(p, r);
    SearchOutcomes(p, p, r, 0, false);
  }

  /** A search from p0 has come to p at address k, and goes on from there. */
  ghost predicate Underway(p0: Pool, p: Pool, r: nat, k: nat, lap: bool) {
    && Range(r) && Ready(p0, r) && Ready(p, r) && |p.marks| == |p0.marks| && k < |p.marks|
    && p0.cursors[0] <= SLOTS && p0.cursors[0] % r == 0 && (k > 0 ==> p.cursors[0] == 0)
       && (lap ==> k == 0 && p.cursors[0] <= p0.cursors[0])
    && Search(p0.cursors[0], p, r, k, lap) == Alloc(p0, r)
  }

  lemma UnderwayStart(p: Pool, r: nat)
    requires Range(r) && Ready(p, r)
    ensures Underway(p, p, r, 0, false)
  {
    assert NodeReady(p, r, 0);
  }

  lemma UnderwayHere(p0: Pool, p: Pool, r: nat, k: nat, lap: bool)
    requires Underway(p0, p, r, k, lap)
    ensures |p0.cursors| == |p.cursors| == |p.marks| && k < |p.marks| && (lap ==> k == 0)
            && (k > 0 ==> p.cursors[0] == 0)
    ensures p.cursors[k] <= SLOTS && p.cursors[k] % r == 0 && p0.cursors[0] <= SLOTS
    ensures lap ==> p.cursors[0] <= p0.cursors[0]
  {
    assert NodeReady(p, r, k);
  }

  lemma UnderwaySkip(p0: Pool, p: Pool, r: nat, k: nat)
    requires Underway(p0, p, r, k, false) && p.cursors[k] == SLOTS
    ensures Underway(p0, Skipped(p, k), r, if k + 1 < |p.marks| then k + 1 else 0, k + 1 == |p.marks|)
  {
    SkippedReady(p, r, k);
  }

  lemma UnderwayTry(p0: Pool, p: Pool, r: nat, k: nat, lap: bool)
    requires Underway(p0, p, r, k, lap) && p.cursors[k] < SLOTS && (lap ==> p.cursors[0] != p0.cursors[0])
    ensures if Free(p.marks[k], p.cursors[k], r) && Usable(p.cursors[k], r)
            then Alloc(p0, r) == Hit(Tried(p, r, k), k, p.cursors[k])
            else Underway(p0, Tried(p, r, k), r, k, lap)
  {
    TriedReady(p, r, k);
    assert NodeReady(p, r, k);
    if lap {
      Multiples(p.cursors[0], p0.cursors[0], r);
    }
  }

  lemma UnderwayEnd(p0: Pool, p: Pool, r: nat)
    requires Underway(p0, p, r, 0, true) && p.cursors[0] == p0.cursors[0]
    ensures Alloc(p0, r) == Miss(p)
  {
  }

  /** A search ends well exactly if there was a place it could have given. */
  lemma AllocExact(p: Pool, r: nat)
    requires Range(r) && Ready(p, r)
    ensures Alloc(p, r).Hit? <==> exists j, c :: Candidate(p, r, j, c)
  {
    hide Alloc, Found, Missed, Candidate;
    AllocOutcomes(p, r);
    match Alloc(p, r)
    case Hit(p', k, b) => FoundCandidate(p, p', r, k, b);
    case Miss(p') => NoCandidate(p, p', r);
  }
}
