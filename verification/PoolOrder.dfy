/** In which order a search of the address pool looks, and what it leaves behind. */
module PoolOrder {
  import opened PoolScan

  /** The search comes to place c of address j before place b of address k: it goes through the addresses in
      their order, each from its cursor on, and at last through the places of the first before its cursor. */
  predicate Earlier(p: Pool, j: nat, c: nat, k: nat, b: nat)
    requires |p.cursors| > 0
  {
    var late, late' := j == 0 && c < p.cursors[0], k == 0 && b < p.cursors[0];
    if late == late' then j < k || (j == k && c < b) else late'
  }

  /** The marks of an address whose last place was passed or not. */
  ghost function TopMarked(m: set<nat>, r: nat, passed: bool): set<nat> {
    if 1 < r <= SLOTS && passed && Free(m, Top(r), r) then m + Block(Top(r), r) else m
  }

  ghost predicate MarkedAt(p0: Pool, p: Pool, r: nat, k: nat, lap: bool, j: nat)
    requires 0 < r <= SLOTS && |p0.cursors| == |p.cursors| == |p.marks| == |p0.marks| && j < |p.marks|
  {
    p.marks[j] == TopMarked(p0.marks[j], r, Passed(p0, p, k, lap, j, Top(r)))
  }

  /** A search under way has marked the last places it has passed, if they were free, and no others. */
  ghost predicate Marked(p0: Pool, p: Pool, r: nat, k: nat, lap: bool)
    requires 0 < r <= SLOTS && |p0.cursors| == |p.cursors| == |p.marks| == |p0.marks|
  {
    forall j {:trigger MarkedAt(p0, p, r, k, lap, j)} :: 0 <= j < |p.marks| ==> MarkedAt(p0, p, r, k, lap, j)
  }

  /** The first place in that order which is usable and free is given.  The cursor of its address moves behind
      it, those of the addresses passed before go back to 0, and the rest stay. */
  ghost predicate GivesFirst(p0: Pool, p: Pool, r: nat, k: nat, b: nat)
    requires 0 < r <= SLOTS && |p0.cursors| == |p.cursors| == |p.marks| == |p0.marks| && k < |p.marks|
  {
    var late := k == 0 && b < p0.cursors[0];
    && Candidate(p0, r, k, b)
    && (forall j, c :: Candidate(p0, r, j, c) ==> !Earlier(p0, j, c, k, b))
    && p.cursors[k] == b + r
    && (forall j :: 0 <= j < |p.cursors| && j != k ==> p.cursors[j] == if late || j < k then 0 else p0.cursors[j])
    && forall j :: 0 <= j < |p.marks| ==>
         p.marks[j] == TopMarked(p0.marks[j], r, (late || j < k) && p0.cursors[j] <= Top(r))
                       + if j == k then Block(b, r) else {}
  }

  ghost predicate GivesNone(p0: Pool, p: Pool, r: nat)
    requires 0 < r <= SLOTS && |p0.cursors| == |p.cursors| == |p.marks| == |p0.marks|
  {
    && (forall j, c :: !Candidate(p0, r, j, c))
    && (forall j :: 0 <= j < |p.cursors| ==> p.cursors[j] == if j == 0 then p0.cursors[0] else 0)
    && forall j :: 0 <= j < |p.marks| ==> p.marks[j] == TopMarked(p0.marks[j], r, InReach(p0, j, Top(r)))
  }

  lemma Sizes(p0: Pool, p: Pool, r: nat, k: nat, lap: bool)
    requires Range(r) && Scan(p0, p, r, k, lap)
    ensures 0 < r <= SLOTS && |p0.cursors| == |p.cursors| == |p.marks| == |p0.marks| && k < |p.marks|
  {
  }

  lemma MarkedStart(p: Pool, r: nat)
    requires Range(r) && Ready(p, r)
    ensures Marked(p, p, r, 0, false)
  {
    forall j: nat | j < |p.marks| ensures MarkedAt(p, p, r, 0, false, j) {
    }
  }

  lemma MarkedSkip(p0: Pool, p: Pool, r: nat, k: nat, k': nat, lap': bool)
    requires Range(r) && Scan(p0, p, r, k, false) && p.cursors[k] == SLOTS && Marked(p0, p, r, k, false)
    requires lap' == (k + 1 == |p.marks|) && k' == if lap' then 0 else k + 1
    ensures Marked(p0, Skipped(p, k), r, k', lap')
  {
    forall j: nat | j < |p.marks| ensures MarkedAt(p0, Skipped(p, k), r, k', lap', j) {
      assert MarkedAt(p0, p, r, k, false, j) && CursorAt(p0, p, k, false, j) && NodeReady(p0, r, j);
    }
  }

  lemma MarkedTry(p0: Pool, p: Pool, r: nat, k: nat, lap: bool)
    requires Range(r) && Scan(p0, p, r, k, lap) && p.cursors[k] < SLOTS && (lap ==> p.cursors[0] != p0.cursors[0])
    requires !(Free(p.marks[k], p.cursors[k], r) && Usable(p.cursors[k], r)) && Marked(p0, p, r, k, lap)
    ensures Marked(p0, Tried(p, r, k), r, k, lap)
  {
    var c := p.cursors[k];
    assert NodeReady(p, r, k) && NodeReady(p0, r, k) && CursorAt(p0, p, k, lap, k);
    NextPlace(c, r);
    TopPlace(r);
    forall j: nat | j < |p.marks| ensures MarkedAt(p0, Tried(p, r, k), r, k, lap, j) {
      assert MarkedAt(p0, p, r, k, lap, j);
    }
  }

  /** Nothing the search has passed could have been given. */
  lemma PassedNone(p0: Pool, p: Pool, r: nat, k: nat, lap: bool, j: nat, c: nat)
    requires Range(r) && Scan(p0, p, r, k, lap) && j < |p.marks| && Passed(p0, p, k, lap, j, c)
    ensures !Candidate(p0, r, j, c)
  {
    if Candidate(p0, r, j, c) {
      TopPlace(r);
      assert Kept(p0.marks[j], p.marks[j], r) && Taken(p.marks[j], c, r);
      if r > 1 {
        Apart(c, Top(r), r);
      }
    }
  }

  lemma FirstHit(p0: Pool, p: Pool, r: nat, k: nat, lap: bool)
    requires Range(r) && Scan(p0, p, r, k, lap) && Marked(p0, p, r, k, lap)
    requires p.cursors[k] < SLOTS && (lap ==> p.cursors[0] != p0.cursors[0])
    requires Free(p.marks[k], p.cursors[k], r) && Usable(p.cursors[k], r)
    ensures GivesFirst(p0, Tried(p, r, k), r, k, p.cursors[k])
  {
    var b, p' := p.cursors[k], Tried(p, r, k);
    assert NodeReady(p, r, k) && NodeReady(p0, r, k) && CursorAt(p0, p, k, lap, k);
    assert NodeReady(p0, r, 0);
    HitStep(p0, p, p', r, k, lap);
    FoundCandidate(p0, p', r, k, b);
    forall j, c | Candidate(p0, r, j, c) ensures !Earlier(p0, j, c, k, b) {
      if Earlier(p0, j, c, k, b) {
        assert CursorAt(p0, p, k, lap, j);
        PassedNone(p0, p, r, k, lap, j, c);
      }
    }
    forall j: nat | j < |p.cursors| && j != k
      ensures p'.cursors[j] == if (k == 0 && b < p0.cursors[0]) || j < k then 0 else p0.cursors[j]
    {
      assert CursorAt(p0, p, k, lap, j);
    }
    NextPlace(b, r);
    TopPlace(r);
    forall j: nat | j < |p.marks|
      ensures p'.marks[j] == TopMarked(p0.marks[j], r,
                                       ((k == 0 && b < p0.cursors[0]) || j < k) && p0.cursors[j] <= Top(r))
                             + if j == k then Block(b, r) else {}
    {
      assert MarkedAt(p0, p, r, k, lap, j) && CursorAt(p0, p, k, lap, j) && NodeReady(p0, r, j);
    }
  }

  lemma NoneLeft(p0: Pool, p: Pool, r: nat)
    requires Range(r) && Scan(p0, p, r, 0, true) && p.cursors[0] == p0.cursors[0] && Marked(p0, p, r, 0, true)
    ensures GivesNone(p0, p, r)
  {
    EndScan(p0, p, r);
    NoCandidate(p0, p, r);
    forall j: nat | j < |p.marks| ensures p.marks[j] == TopMarked(p0.marks[j], r, InReach(p0, j, Top(r))) {
      assert MarkedAt(p0, p, r, 0, true, j) && CursorAt(p0, p, 0, true, j) && NodeReady(p0, r, j);
    }
  }

  ghost predicate Gives(p0: Pool, r: nat, o: Outcome)
    requires 0 < r <= SLOTS
  {
    && |p0.cursors| == |o.pool.cursors| == |o.pool.marks| == |p0.marks| && (o.Hit? ==> o.k < |p0.marks|)
    && match o
       case Hit(p, k, b) => GivesFirst(p0, p, r, k, b)
       case Miss(p) => GivesNone(p0, p, r)
  }

  lemma {:induction false} SearchGives(p0: Pool, p: Pool, r: nat, k: nat, lap: bool)
    requires Range(r) && Scan(p0, p, r, k, lap) && |p0.cursors| == |p.cursors| == |p.marks| == |p0.marks|
    requires Marked(p0, p, r, k, lap)
    ensures Ready(p, r) && k < |p.marks| && |p0.cursors| > 0 && p0.cursors[0] <= SLOTS && p0.cursors[0] % r == 0
    ensures (k > 0 ==> p.cursors[0] == 0) && (lap ==> k == 0 && p.cursors[0] <= p0.cursors[0])
    ensures Gives(p0, r, Search(p0.cursors[0], p, r, k, lap))
    decreases if lap then 0 else |p.marks| - k, SLOTS - p.cursors[k]
  {
    hide Scan, Free, Usable, GivesFirst, GivesNone, Marked;
    ScanStart(p0, p, r, k, lap);
    assert NodeReady(p, r, k);
    var c := p.cursors[k];
    if lap && c == p0.cursors[0] {
      NoneLeft(p0, p, r);
    } else if c >= SLOTS {
      var k', lap' := if k + 1 < |p.marks| then k + 1 else 0, k + 1 == |p.marks|;
      SkipStep(p0, p, Skipped(p, k), r, k, k', lap');
      MarkedSkip(p0, p, r, k, k', lap');
      SearchGives(p0, Skipped(p, k), r, k', lap');
    } else if Free(p.marks[k], c, r) && Usable(c, r) {
      FirstHit(p0, p, r, k, lap);
    } else {
      TryStep(p0, p, Tried(p, r, k), r, k, lap);
      MarkedTry(p0, p, r, k, lap);
      SearchGives(p0, Tried(p, r, k), r, k, lap);
    }
  }

  /** A search gives the first place in its order that is usable and free, or none if there is none, and
      leaves exactly these marks and cursors. */
  lemma AllocGives(p: Pool, r: nat)
    requires Range(r) && Ready(p, r)
    ensures Gives(p, r, Alloc(p, r))
  {
    StartScan(p, r);
    MarkedStart(p, r);
    SearchGives(p, p, r, 0, false);
  }
}
