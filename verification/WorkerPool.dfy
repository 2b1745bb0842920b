/** The pool of worker threads: thrmgr.c.  Every step that holds the mutex is one event. */
module WorkerPool {
  import opened Arith

  datatype PoolState = PoolValid | PoolExit

  /** Where a worker is: outside the mutex before it looks for work, asleep on the condition, running a
      job, or on its way out.  A worker that has to exit still looks for work first. */
  datatype Worker =
    | Ready(mustExit: bool)
    | Asleep(mustExit: bool)
    | Running(job: nat, mustExit: bool)
    | Leaving

  /** A job is known by its number among all that were dispatched; handled is the set of those whose
      handler has returned. */
  datatype Pool = Pool(
    state: PoolState,
    max: int,
    alive: int,
    idle: int,
    queue: seq<nat>,
    dispatched: nat,
    handled: set<nat>,
    workers: map<nat, Worker>,
    freed: bool)

  datatype Event =
    | Dispatch(starts: bool, w: nat)
    | Look(w: nat)
    | Wake(w: nat)
    | TimeOut(w: nat)
    | Finish(w: nat)
    | Leave(w: nat)
    | BeginDestroy
    | EndDestroy

  /** thrmgr_dispatch on a valid pool; starting a thread may fail, and then the job just waits. */
  function Dispatched(s: Pool, starts: bool, w: nat): Pool {
    var s' := s.(queue := s.queue + [s.dispatched], dispatched := s.dispatched + 1);
    if s'.idle == 0 && s'.alive < s'.max && starts then
      s'.(alive := s'.alive + 1, workers := s'.workers[w := Ready(false)])
    else s'
  }

  /** The condition of the worker's inner loop, evaluated by a worker that counts as idle: it takes a job,
      sleeps, or leaves. */
  function Looked(s: Pool, w: nat, mustExit: bool): Pool {
    if s.queue != [] then
      s.(idle := s.idle - 1, queue := s.queue[1..],
         workers := s.workers[w := Running(s.queue[0], mustExit || s.state.PoolExit?)])
    else if s.state.PoolExit? then s.(idle := s.idle - 1, workers := s.workers[w := Leaving])
    else s.(workers := s.workers[w := Asleep(mustExit)])
  }

  predicate Next(s: Pool, e: Event, s': Pool) {
    !s.freed &&
    match e
    case Dispatch(starts, w) =>
      if s.state.PoolValid? then w !in s.workers && s' == Dispatched(s, starts, w) else s' == s
    case Look(w) => w in s.workers && s.workers[w].Ready?
      && s' == Looked(s.(idle := s.idle + 1), w, s.workers[w].mustExit)
    case Wake(w) => w in s.workers && s.workers[w].Asleep? && s' == Looked(s, w, s.workers[w].mustExit)
    case TimeOut(w) =>
      w in s.workers && s.workers[w].Asleep? && s' == s.(idle := s.idle - 1, workers := s.workers[w := Leaving])
    case Finish(w) =>
      && w in s.workers && s.workers[w].Running?
      && s' == s.(handled := s.handled + {s.workers[w].job}, workers := s.workers[w := Ready(s.workers[w].mustExit)])
    case Leave(w) =>
      w in s.workers && s.workers[w].Leaving? && s' == s.(alive := s.alive - 1, workers := s.workers - {w})
    case BeginDestroy => s.state.PoolValid? && s' == s.(state := PoolExit)
    case EndDestroy => s.state.PoolExit? && !(s.alive > 0) && s' == s.(freed := true)
  }

  /** thrmgr_new. */
  predicate Init(s: Pool) {
    && s.max > 0 && s.state.PoolValid? && s.alive == 0 && s.idle == 0 && s.queue == [] && s.dispatched == 0
    && s.handled == {} && s.workers == map[] && !s.freed
  }

  ghost function Sleepers(s: Pool): set<nat> {
    set w | w in s.workers && s.workers[w].Asleep?
  }

  ghost predicate Holds(s: Pool, w: nat, j: nat) {
    w in s.workers && s.workers[w].Running? && s.workers[w].job == j
  }

  /** The first job that is still queued, or the next one to come. */
  function Front(s: Pool): int {
    s.dispatched - |s.queue|
  }

  /** A job that has left the queue is held by exactly one worker, or handled, and not both. */
  ghost predicate Placed(s: Pool, j: nat) {
    && (j in s.handled ==> forall w {:trigger Holds(s, w, j)} :: !Holds(s, w, j))
    && (j !in s.handled ==> exists w :: Holds(s, w, j))
    && forall v, w {:trigger Holds(s, v, j), Holds(s, w, j)} :: Holds(s, v, j) && Holds(s, w, j) ==> v == w
  }

  ghost predicate Inv(s: Pool) {
    && s.alive == |s.workers| <= s.max && s.idle == |Sleepers(s)|
    && Front(s) >= 0 && (forall i :: 0 <= i < |s.queue| ==> s.queue[i] == Front(s) + i)
    && (forall j :: j in s.handled ==> j < Front(s))
    && (forall w :: w in s.workers && s.workers[w].Running? ==> s.workers[w].job < Front(s))
    && (forall j: nat {:trigger Placed(s, j)} :: j < Front(s) ==> Placed(s, j))
    && (s.freed ==> s.state.PoolExit? && s.workers == map[])
  }

  lemma InitInv(s: Pool)
    requires Init(s)
    ensures Inv(s)
  {
  }

  lemma Counts(s: Pool, w: nat, x: Worker)
    ensures var s' := s.(workers := s.workers[w := x]);
      && |s'.workers| == (if w in s.workers then |s.workers| else |s.workers| + 1)
      && |Sleepers(s')| == |Sleepers(s)| - (if w in s.workers && s.workers[w].Asleep? then 1 else 0)
         + (if x.Asleep? then 1 else 0)
  {
    hide Sleepers;
    var s' := s.(workers := s.workers[w := x]);
    SameBut(s'.workers.Keys, s.workers.Keys, w);
    SleepersBut(s, s', w);
    SameBut(Sleepers(s'), Sleepers(s), w);
  }

  lemma SleepersBut(s: Pool, s': Pool, w: nat)
    requires forall v :: v != w ==>
               (v in s'.workers <==> v in s.workers) && (v in s.workers ==> s'.workers[v] == s.workers[v])
    ensures forall v :: v != w ==> (v in Sleepers(s') <==> v in Sleepers(s))
    ensures w in Sleepers(s') <==> w in s'.workers && s'.workers[w].Asleep?
    ensures w in Sleepers(s) <==> w in s.workers && s.workers[w].Asleep?
  {
  }

  lemma SameBut(a: set<nat>, b: set<nat>, w: nat)
    requires forall v :: v != w ==> (v in a <==> v in b)
    ensures |a| - (if w in a then 1 else 0) == |b| - if w in b then 1 else 0
  {
    assert a - {w} == b - {w};
    Without(a, w);
    Without(b, w);
  }

  lemma Without(a: set<nat>, w: nat)
    ensures |a| == |a - {w}| + if w in a then 1 else 0
  {
    if w in a {
      assert a == a - {w} + {w};
    } else {
      assert a == a - {w};
    }
  }

  lemma CountsGone(s: Pool, w: nat)
    requires w in s.workers && !s.workers[w].Asleep?
    ensures var s' := s.(workers := s.workers - {w}); |s'.workers| == |s.workers| - 1 && Sleepers(s') == Sleepers(s)
  {
    var s' := s.(workers := s.workers - {w});
    assert s'.workers.Keys == s.workers.Keys - {w};
  }

  lemma IdleAtMostAlive(s: Pool)
    requires Inv(s)
    ensures 0 <= s.idle <= s.alive <= s.max
  {
    assert Sleepers(s) <= s.workers.Keys;
    Subset(Sleepers(s), s.workers.Keys);
  }

  /** The counters after a step. */
  lemma CountsKeep(s: Pool, e: Event, s': Pool)
    requires Inv(s) && Next(s, e, s')
    ensures s'.alive == |s'.workers| <= s'.max && s'.idle == |Sleepers(s')|
    ensures s'.freed ==> s'.state.PoolExit? && s'.workers == map[]
  {
    hide Placed, Looked;
    match e
    case Dispatch(starts, w) => Counts(s, w, Ready(false));
    case Look(w) => LookKeeps(s, e, s');
    case Wake(w) => LookKeeps(s, e, s');
    case TimeOut(w) => Counts(s, w, Leaving);
    case Finish(w) => Counts(s, w, Ready(s.workers[w].mustExit));
    case Leave(w) => CountsGone(s, w);
    case BeginDestroy =>
    case EndDestroy => NoWorkers(s);
  }

  lemma LookKeeps(s: Pool, e: Event, s': Pool)
    requires s.alive == |s.workers| <= s.max && s.idle == |Sleepers(s)| && Next(s, e, s') && (e.Look? || e.Wake?)
    ensures s'.alive == |s'.workers| <= s'.max && s'.idle == |Sleepers(s')| && !s'.freed
  {
    var t := if e.Look? then s.(idle := s.idle + 1) else s;
    assert Sleepers(t) == Sleepers(s);
    LookCounts(t, e.w, s.workers[e.w].mustExit);
  }

  lemma NoWorkers(s: Pool)
    requires s.alive == |s.workers| && !(s.alive > 0)
    ensures s.workers == map[]
  {
    assert s.workers.Keys == {};
  }

  lemma LookCounts(s: Pool, w: nat, mustExit: bool)
    requires w in s.workers && s.alive == |s.workers| && (s.workers[w].Ready? || s.workers[w].Asleep?)
    requires s.idle == |Sleepers(s)| + if s.workers[w].Ready? then 1 else 0
    ensures var s' := Looked(s, w, mustExit); s'.alive == |s'.workers| && s'.idle == |Sleepers(s')| && s'.max == s.max
  {
    Counts(s, w, if s.queue != [] then Running(s.queue[0], mustExit || s.state.PoolExit?)
                 else if s.state.PoolExit? then Leaving else Asleep(mustExit));
  }

  /** The jobs after a step that holds and handles the same ones. */
  lemma SamePlaced(s: Pool, s': Pool, j: nat)
    requires Placed(s, j) && s'.handled == s.handled && forall w :: Holds(s', w, j) <==> Holds(s, w, j)
    ensures Placed(s', j)
  {
    if j !in s.handled {
      var w :| Holds(s, w, j);
      assert Holds(s', w, j);
    }
  }

  /** A job that is taken from the queue is then held by the worker that took it. */
  lemma TakenPlaced(s: Pool, s': Pool, w: nat, mustExit: bool, j: nat)
    requires Inv(s) && w in s.workers && !s.workers[w].Running? && s.queue != [] && j <= Front(s)
    requires s'.handled == s.handled && s'.workers == s.workers[w := Running(s.queue[0], mustExit)]
    ensures Placed(s', j)
  {
    if j == Front(s) {
      assert s.queue[0] == Front(s) && Holds(s', w, j);
      forall v ensures Holds(s', v, j) ==> v == w {
      }
    } else {
      assert Placed(s, j);
      SamePlaced(s, s', j);
    }
  }

  lemma FinishedPlaced(s: Pool, s': Pool, w: nat, j: nat)
    requires Inv(s) && w in s.workers && s.workers[w].Running? && j < Front(s)
    requires s'.handled == s.handled + {s.workers[w].job} && s'.workers == s.workers[w := Ready(s.workers[w].mustExit)]
    ensures Placed(s', j)
  {
    assert Placed(s, j) && Holds(s, w, s.workers[w].job);
    if j == s.workers[w].job {
      forall v ensures !Holds(s', v, j) {
        assert Holds(s', v, j) ==> Holds(s, v, j);
      }
    } else {
      forall v ensures Holds(s', v, j) <==> Holds(s, v, j) {
      }
      if j !in s.handled {
        var v :| Holds(s, v, j);
        assert Holds(s', v, j);
      }
    }
  }

  lemma JobsKeep(s: Pool, e: Event, s': Pool, j: nat)
    requires Inv(s) && Next(s, e, s') && j < Front(s')
    ensures Placed(s', j)
  {
    match e
    case Look(w) => LookPlaced(s, s', w, j);
    case Wake(w) => LookPlaced(s, s', w, j);
    case Finish(w) => FinishedPlaced(s, s', w, j);
    case _ =>
      assert Placed(s, j);
      SamePlaced(s, s', j);
  }

  lemma LookPlaced(s: Pool, s': Pool, w: nat, j: nat)
    requires Inv(s) && w in s.workers && (s.workers[w].Ready? || s.workers[w].Asleep?) && j < Front(s')
    requires s' == Looked(s.(idle := s'.idle + if s.queue != [] || s.state.PoolExit? then 1 else 0), w,
             s.workers[w].mustExit)
    ensures Placed(s', j)
  {
    if s.queue != [] {
      TakenPlaced(s, s', w, s.workers[w].mustExit || s.state.PoolExit?, j);
    } else {
      assert Placed(s, j);
      SamePlaced(s, s', j);
    }
  }

  /** Every step keeps the invariant. */
  lemma StepKeeps(s: Pool, e: Event, s': Pool)
    requires Inv(s) && Next(s, e, s')
    ensures Inv(s')
  {
    hide Placed, Next;
    CountsKeep(s, e, s');
    QueueKeeps(s, e, s');
    forall j: nat | j < Front(s') ensures Placed(s', j) {
      JobsKeep(s, e, s', j);
    }
  }

  lemma QueueKeeps(s: Pool, e: Event, s': Pool)
    requires Inv(s) && Next(s, e, s')
    ensures Front(s') >= 0 && forall i :: 0 <= i < |s'.queue| ==> s'.queue[i] == Front(s') + i
    ensures forall j :: j in s'.handled ==> j < Front(s')
    ensures forall w :: w in s'.workers && s'.workers[w].Running? ==> s'.workers[w].job < Front(s')
  {
    hide Placed, Sleepers;
  }

  /** What a dispatch does: the job goes to the end of the queue, and the pool grows, by one worker that
      is about to look for work, exactly if no worker sleeps, fewer than max are alive and a thread can be
      started.  After the exit flag nothing happens. */
  lemma DispatchGrows(s: Pool, starts: bool, w: nat, s': Pool)
    requires Inv(s) && Next(s, Dispatch(starts, w), s')
    ensures s.state.PoolExit? ==> s' == s
    ensures s.state.PoolValid? ==> s'.queue == s.queue + [s.dispatched] && s'.dispatched == s.dispatched + 1
    ensures |s'.workers| > |s.workers| <==>
            s.state.PoolValid? && Sleepers(s) == {} && |s.workers| < s.max && starts
    ensures |s'.workers| > |s.workers| ==>
              w !in s.workers && s'.workers == s.workers[w := Ready(false)] && s'.alive == s.alive + 1
    ensures |s'.workers| <= |s.workers| ==> s'.workers == s.workers && s'.alive == s.alive
    ensures s'.state == s.state && s'.idle == s.idle && s'.handled == s.handled && s'.max == s.max && !s'.freed
  {
    hide Placed;
    Counts(s, w, Ready(false));
    NoSleepers(s);
  }

  lemma NoSleepers(s: Pool)
    ensures Sleepers(s) == {} <==> |Sleepers(s)| == 0
  {
  }

  /** What a worker that looks for work, or is woken, does: it takes the oldest job; without one it leaves a
      pool that is to end, and otherwise sleeps.  Nobody else moves. */
  lemma WorkerLooks(s: Pool, e: Event, s': Pool)
    requires Inv(s) && (e.Look? || e.Wake?) && Next(s, e, s')
    ensures e.w in s.workers && s'.workers.Keys == s.workers.Keys && e.w in s'.workers
    ensures forall v :: v in s.workers && v != e.w ==> s'.workers[v] == s.workers[v]
    ensures s.queue != [] ==>
              s'.workers[e.w].Running? && s'.workers[e.w].job == Front(s) && s'.queue == s.queue[1..]
    ensures s.queue == [] ==> s'.queue == [] && (if s.state.PoolExit? then s'.workers[e.w].Leaving?
                                                 else s'.workers[e.w].Asleep?)
    ensures s'.alive == s.alive && s'.idle == |Sleepers(s')| && s'.handled == s.handled && s'.state == s.state
    ensures s'.dispatched == s.dispatched && !s'.freed
  {
    hide Placed;
    CountsKeep(s, e, s');
  }

  /** When a worker gives up, when it is gone, and when a job is handled. */
  lemma StepFates(s: Pool, e: Event, s': Pool, w: nat, j: nat)
    requires Next(s, e, s') && w in s.workers
    ensures w !in s'.workers <==> e == Leave(w)
    ensures !s.workers[w].Leaving? ==>
              (w in s'.workers && s'.workers[w].Leaving? <==>
               e == TimeOut(w) || ((e == Look(w) || e == Wake(w)) && s.queue == [] && s.state.PoolExit?))
    ensures s.workers[w].Leaving? && w in s'.workers ==> s'.workers[w].Leaving?
    ensures s.workers[w].Asleep? && w in s'.workers && !s'.workers[w].Asleep? ==> e == Wake(w) || e == TimeOut(w)
    ensures j !in s.handled ==> (j in s'.handled <==> e.Finish? && Holds(s, e.w, j))
    ensures s'.state != s.state <==> e.BeginDestroy?
    ensures s'.freed <==> e.EndDestroy?
  {
  }

  ghost predicate Run(ss: seq<Pool>, es: seq<Event>) {
    |ss| == |es| + 1 && Init(ss[0]) && forall i {:trigger es[i]} :: 0 <= i < |es| ==> Next(ss[i], es[i], ss[i + 1])
  }

  /** Over every run: the counters are in order, and every dispatched job is queued, held by one worker, or
      handled, exactly one of these; the queue is in order of dispatch, so jobs leave it in that order; the
      pool is freed only when no worker is alive. */
  lemma {:induction false} RunSafe(ss: seq<Pool>, es: seq<Event>, i: nat)
    requires Run(ss, es) && i < |ss|
    ensures Inv(ss[i]) && 0 <= ss[i].idle <= ss[i].alive <= ss[i].max
    ensures ss[i].freed ==> ss[i].alive == 0
  {
    if i == 0 {
      InitInv(ss[0]);
    } else {
      RunSafe(ss, es, i - 1);
      var e := es[i - 1];
      StepKeeps(ss[i - 1], e, ss[i]);
    }
    IdleAtMostAlive(ss[i]);
  }

  /** A job is in exactly one place. */
  lemma OnePlace(s: Pool, j: nat)
    requires Inv(s) && j < s.dispatched
    ensures j in s.queue <==> j >= Front(s)
    ensures j in s.queue ==> j !in s.handled && forall w :: !Holds(s, w, j)
    ensures j !in s.queue && j !in s.handled ==> exists w :: Holds(s, w, j) && forall v :: Holds(s, v, j) ==> v == w
    ensures j in s.handled ==> j !in s.queue && forall w :: !Holds(s, w, j)
  {
    if j >= Front(s) {
      assert s.queue[j - Front(s)] == j;
    } else {
      assert Placed(s, j);
    }
  }

  /** After the exit flag is set it stays set, and no job is queued any more. */
  lemma {:induction false} ExitIsFinal(ss: seq<Pool>, es: seq<Event>, i: nat, k: nat)
    requires Run(ss, es) && i <= k < |ss| && ss[i].state.PoolExit?
    ensures ss[k].state.PoolExit? && ss[k].dispatched == ss[i].dispatched
    decreases k - i
  {
    if i < k {
      ExitIsFinal(ss, es, i, k - 1);
      var e := es[k - 1];
      assert Next(ss[k - 1], e, ss[k]);
    }
  }

  ghost predicate AllLeaving(s: Pool) {
    forall w :: w in s.workers ==> s.workers[w].Leaving?
  }

  /** A job is queued, and no worker will look at the queue any more. */
  ghost predicate Stranded(s: Pool) {
    s.queue != [] && AllLeaving(s)
  }

  predicate StartsThread(s: Pool, e: Event) {
    e.Dispatch? && s.state.PoolValid? && s.idle == 0 && s.alive < s.max && e.starts
  }

  /** The last worker that was not leaving times out on a queue that is not empty; or a job comes while
      there are only leaving workers, or none, and no thread is started for it: because that fails, or
      because the leaving workers still count up to the limit. */
  ghost predicate Strands(s: Pool, e: Event) {
    match e
    case TimeOut(w) => s.queue != [] && forall v :: v in s.workers && v != w ==> s.workers[v].Leaving?
    case Dispatch(starts, _) => s.state.PoolValid? && AllLeaving(s) && !(s.alive < s.max && starts)
    case _ => false
  }

  lemma StrandedStep(s: Pool, e: Event, s': Pool)
    requires Inv(s) && Next(s, e, s')
    ensures Stranded(s') <==> Strands(s, e) || (Stranded(s) && !StartsThread(s, e))
  {
    hide Placed, Holds;
    if AllLeaving(s) {
      assert Sleepers(s) == {};
    }
    match e
    case Dispatch(starts, w) =>
      forall v | v in s.workers ensures v in s'.workers && s'.workers[v] == s.workers[v] {
      }
      assert StartsThread(s, e) ==> w in s'.workers && s'.workers[w].Ready?;
    case Look(w) => assert !Stranded(s) && (s'.queue != [] ==> w in s'.workers && !s'.workers[w].Leaving?);
    case Wake(w) => assert !Stranded(s) && (s'.queue != [] ==> w in s'.workers && !s'.workers[w].Leaving?);
    case TimeOut(w) =>
      assert !Stranded(s);
      forall v | v in s.workers && v != w ensures v in s'.workers && s'.workers[v] == s.workers[v] {
      }
    case Finish(w) => assert !Stranded(s) && w in s'.workers && !s'.workers[w].Leaving?;
    case Leave(w) =>
      forall v | v in s.workers && v != w ensures v in s'.workers && s'.workers[v] == s.workers[v] {
      }
    case BeginDestroy =>
    case EndDestroy =>
  }

  lemma NothingStranded(s: Pool)
    requires Init(s)
    ensures !Stranded(s)
  {
  }

  /** Step i strands the queue and no later step before k starts a thread. */
  ghost predicate StrandedSince(ss: seq<Pool>, es: seq<Event>, i: nat, k: nat)
    requires i < k <= |es| < |ss|
  {
    Strands(ss[i], es[i]) && forall m :: i < m < k ==> !StartsThread(ss[m], es[m])
  }

  lemma {:induction false} StrandedExact(ss: seq<Pool>, es: seq<Event>, k: nat)
    requires Run(ss, es) && k < |ss|
    ensures Stranded(ss[k]) <==> exists i: nat :: i < k && StrandedSince(ss, es, i, k)
  {
    hide Inv, Next, Strands, StartsThread, Stranded;
    if k == 0 {
      NothingStranded(ss[0]);
    } else {
      var s, e := ss[k - 1], es[k - 1];
      StrandedExact(ss, es, k - 1);
      RunSafe(ss, es, k - 1);
      StrandedStep(s, e, ss[k]);
      if Strands(s, e) {
        assert StrandedSince(ss, es, k - 1, k);
      } else if Stranded(s) && !StartsThread(s, e) {
        var i: nat :| i < k - 1 && StrandedSince(ss, es, i, k - 1);
        assert StrandedSince(ss, es, i, k);
      }
      forall i: nat | i < k && StrandedSince(ss, es, i, k) ensures Stranded(ss[k]) {
        if i < k - 1 {
          assert StrandedSince(ss, es, i, k - 1);
        }
      }
    }
  }

  /** A pool is freed with jobs in its queue exactly if some step stranded them and no thread was started
      after it. */
  lemma LeftBehind(ss: seq<Pool>, es: seq<Event>, k: nat)
    requires Run(ss, es) && k < |ss| && ss[k].freed
    ensures ss[k].queue != [] <==> exists i: nat :: i < k && StrandedSince(ss, es, i, k)
  {
    RunSafe(ss, es, k);
    StrandedExact(ss, es, k);
  }

  /** One job comes, is handled, and its worker goes to sleep. */
  lemma FirstJob(s0: Pool) returns (s1: Pool, s2: Pool, s3: Pool, s4: Pool)
    requires Init(s0)
    ensures Next(s0, Dispatch(true, 0), s1) && Next(s1, Look(0), s2) && Next(s2, Finish(0), s3) && Next(s3, Look(0), s4)
    ensures s4 == s0.(dispatched := 1, alive := 1, idle := 1, handled := {0}, workers := map[0 := Asleep(false)])
  {
    s1 := s0.(queue := [0], dispatched := 1, alive := 1, workers := map[0 := Ready(false)]);
    s2 := s1.(queue := [], workers := map[0 := Running(0, false)]);
    s3 := s2.(handled := {0}, workers := map[0 := Ready(false)]);
    s4 := s3.(idle := 1, workers := map[0 := Asleep(false)]);
  }

  /** Then another job comes, and the sleeper leaves. */
  lemma SecondJob(s4: Pool) returns (s5: Pool, s6: Pool, s7: Pool, s8: Pool, s9: Pool)
    requires s4.state.PoolValid? && !s4.freed && s4.alive == s4.idle == s4.dispatched == 1 && s4.queue == []
    requires s4.workers == map[0 := Asleep(false)]
    ensures Next(s4, Dispatch(true, 1), s5) && Next(s5, TimeOut(0), s6) && Next(s6, Leave(0), s7)
    ensures Next(s7, BeginDestroy, s8) && Next(s8, EndDestroy, s9)
    ensures s9.freed && s9.queue == [1] && s9.handled == s4.handled
  {
    s5 := s4.(queue := [1], dispatched := 2);
    s6 := s5.(idle := 0, workers := map[0 := Leaving]);
    s7 := s6.(alive := 0, workers := map[]);
    s8 := s7.(state := PoolExit);
    s9 := s8.(freed := true);
    assert map[0 := Leaving] - {0} == map[];
  }

  /** It can happen although every thread starts: the only worker sleeps when the second job comes, and
      times out. */
  lemma SleeperMissesJob(s0: Pool) returns (ss: seq<Pool>, es: seq<Event>)
    requires Init(s0)
    ensures Run(ss, es) && ss[0] == s0 && forall e :: e in es && e.Dispatch? ==> e.starts
    ensures var s := ss[|es|]; s.freed && s.queue == [1] && 1 !in s.handled
  {
    hide Next;
    var s1, s2, s3, s4 := FirstJob(s0);
    var s5, s6, s7, s8, s9 := SecondJob(s4);
    ss := [s0, s1, s2, s3, s4, s5, s6, s7, s8, s9];
    es := [Dispatch(true, 0), Look(0), Finish(0), Look(0), Dispatch(true, 1), TimeOut(0), Leave(0), BeginDestroy,
      EndDestroy];
  }
}
