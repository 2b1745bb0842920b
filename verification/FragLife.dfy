/** The life of a partial datagram: fragments of any datagrams come while the timer of defrag6.c sweeps the
    table.  Which buckets are there, and which datagrams complete, is told by the events alone. */
module FragLife {
  import opened Keys
  import opened Fragments
  import opened Reassembly
  import opened FragTable

  /** Either a fragment comes or fragtimeouthandle takes some time off every bucket. */
  datatype Event = Comes(key: Key, piece: Piece) | Tick(time: nat)

  /** The buckets and the time each has left. */
  datatype State = State(table: Table, left: map<Key, int>)

  const NOTHING := State(map[], map[])

  function Next(s: State, ev: Event, max: nat, timeOut: int): State {
    match ev
    case Comes(k, p) =>
      var left := if k in s.left && EntryOf(s.table, k).cnt >= max then s.left[k] else timeOut;
      State(Put(s.table, Arriving(k, p), max), s.left[k := left])
    case Tick(n) =>
      State(map k | k in s.table && k in s.left && s.left[k] > n :: s.table[k],
            map k | k in s.table && k in s.left && s.left[k] > n :: s.left[k] - n)
  }

  ghost function StateOf(t: ShashCb): State
    reads t, t.index.Values
  {
    State(t.View(), t.Timers())
  }

  /** A fragment comes to the table. */
  method Receive(t: ShashCb, k: Key, p: Piece, max: nat, timeOut: int, buf: array<Byte>)
    returns (done: bool, pktlen: nat)
    requires t.Valid() && p.End() <= BUFSIZE <= buf.Length && max > 0
    modifies t, t.table, t.index.Values, t.frags, buf
    ensures t.Valid() && StateOf(t) == Next(old(StateOf(t)), Comes(k, p), max, timeOut)
    ensures done == Fires(EntryOf(old(t.View()), k), p, max)
  {
    hide ShashCb.Valid, Received, Fires, Arrived, BucketNode.View, Counts, ShashCb.View, ShashCb.Timers, Put, Written,
         Fits, Sum, EntryOf;
    ghost var s := StateOf(t);
    t.EntryIs();
    t.TimesAre();
    CountOf(t, k);
    done, pktlen := t.Receive(k, p, max, timeOut, buf);
    t.TimesAre();
    CameIs(s, StateOf(t), k, p, max, timeOut);
  }

  lemma CountOf(t: ShashCb, k: Key)
    ensures k in t.index ==> EntryOf(t.View(), k).cnt == t.index[k].cnt
  {
  }

  lemma CameIs(s: State, t: State, k: Key, p: Piece, max: nat, timeOut: int)
    requires t.table == Put(s.table, Arriving(k, p), max)
    requires t.left.Keys == s.left.Keys + {k} && forall l :: l in s.left && l != k ==> t.left[l] == s.left[l]
    requires t.left[k] == if k in s.left && EntryOf(s.table, k).cnt >= max then s.left[k] else timeOut
    ensures t == Next(s, Comes(k, p), max, timeOut)
  {
    hide Put;
  }

  /** The timer runs out. */
  method Sweep(t: ShashCb, n: nat, max: nat, timeOut: int)
    requires t.Valid()
    modifies t, t.table, t.index.Values
    ensures t.Valid() && StateOf(t) == Next(old(StateOf(t)), Tick(n), max, timeOut)
  {
    hide ShashCb.Valid, BucketNode.View, ShashCb.View, ShashCb.Timers;
    ghost var s := StateOf(t);
    t.EntryIs();
    t.TimesAre();
    t.Sweep(n);
    t.EntryIs();
    t.TimesAre();
    SweptIs(s, StateOf(t), n, max, timeOut);
  }

  lemma SweptIs(s: State, t: State, n: nat, max: nat, timeOut: int)
    requires s.table.Keys == s.left.Keys && t.table.Keys == t.left.Keys == set k | k in s.left && s.left[k] > n
    requires forall k :: k in t.table ==> t.table[k] == s.table[k] && t.left[k] == s.left[k] - n
    ensures t == Next(s, Tick(n), max, timeOut)
  {
  }

  function Ran(s: State, evs: seq<Event>, max: nat, timeOut: int): State {
    if evs == [] then s
    else Next(Ran(s, evs[..|evs| - 1], max, timeOut), evs[|evs| - 1], max, timeOut)
  }

  /** The time taken off by the sweeps among some events. */
  function Time(evs: seq<Event>): nat {
    if evs == [] then 0
    else Time(evs[..|evs| - 1]) + if evs[|evs| - 1].Tick? then evs[|evs| - 1].time else 0
  }

  /** A fragment under k comes at place i, and finds fewer than max before it in its bucket. */
  predicate Taken(s: State, evs: seq<Event>, k: Key, max: nat, timeOut: int, i: nat)
    requires i < |evs|
  {
    evs[i].Comes? && evs[i].key == k && EntryOf(Ran(s, evs[..i], max, timeOut).table, k).cnt < max
  }

  /** The last fragment under k that was taken came at place i. */
  ghost predicate LastTaken(s: State, evs: seq<Event>, k: Key, max: nat, timeOut: int, i: nat) {
    && i < |evs| && Taken(s, evs, k, max, timeOut, i)
    && forall j :: i < j < |evs| ==> !Taken(s, evs, k, max, timeOut, j)
  }

  lemma TakenPrefix(s: State, evs: seq<Event>, k: Key, max: nat, timeOut: int, n: nat)
    requires n <= |evs|
    ensures forall i :: 0 <= i < n ==> (Taken(s, evs[..n], k, max, timeOut, i) <==> Taken(s, evs, k, max, timeOut, i))
  {
    forall i | 0 <= i < n ensures evs[..n][..i] == evs[..i] {
    }
  }

  /** An event that is no taken fragment leaves the last taken one where it was. */
  lemma LastStays(s: State, evs: seq<Event>, k: Key, max: nat, timeOut: int, i: nat)
    requires evs != [] && !Taken(s, evs, k, max, timeOut, |evs| - 1)
    ensures var pre, ev := evs[..|evs| - 1], evs[|evs| - 1];
      && (LastTaken(s, evs, k, max, timeOut, i) <==> LastTaken(s, pre, k, max, timeOut, i))
      && (LastTaken(s, pre, k, max, timeOut, i) ==>
            Time(evs[i + 1..]) == Time(pre[i + 1..]) + if ev.Tick? then ev.time else 0)
  {
    var pre := evs[..|evs| - 1];
    TakenPrefix(s, evs, k, max, timeOut, |evs| - 1);
    if LastTaken(s, pre, k, max, timeOut, i) {
      assert evs[i + 1..][..|evs[i + 1..]| - 1] == pre[i + 1..];
    }
  }

  lemma LastUnique(s: State, evs: seq<Event>, k: Key, max: nat, timeOut: int, i: nat, j: nat)
    requires LastTaken(s, evs, k, max, timeOut, i) && LastTaken(s, evs, k, max, timeOut, j)
    ensures i == j
  {
  }

  lemma NextOf(s: State, k: Key, ev: Event, max: nat, timeOut: int)
    requires k in s.table <==> k in s.left
    ensures var t := Next(s, ev, max, timeOut);
      && (k in t.table <==> k in t.left)
      && (k in t.table <==> if ev.Tick? then k in s.left && s.left[k] > ev.time else k in s.table || ev.key == k)
      && (k in t.left ==>
            t.left[k] == if ev.Tick? then s.left[k] - ev.time
                         else if ev.key != k || (k in s.left && EntryOf(s.table, k).cnt >= max) then s.left[k]
                         else timeOut)
  {
    hide Received;
  }

  /** The bucket of k is there exactly while less than timeOut has been taken off since its last taken
      fragment, and has what is left of that. */
  ghost predicate Lives(s: State, evs: seq<Event>, k: Key, max: nat, timeOut: int) {
    var t := Ran(s, evs, max, timeOut);
    && (k in t.table <==> k in t.left)
    && (k in t.table <==>
          exists i: nat :: LastTaken(s, evs, k, max, timeOut, i) && Time(evs[i + 1..]) < timeOut)
    && forall i: nat :: LastTaken(s, evs, k, max, timeOut, i) && k in t.left ==>
                          t.left[k] == timeOut - Time(evs[i + 1..])
  }

  lemma LivesTaken(s: State, evs: seq<Event>, k: Key, max: nat, timeOut: int)
    requires evs != [] && Taken(s, evs, k, max, timeOut, |evs| - 1) && max > 0 && timeOut > 0
    requires var t := Ran(s, evs[..|evs| - 1], max, timeOut); k in t.table <==> k in t.left
    ensures Lives(s, evs, k, max, timeOut)
  {
    hide Next, Ran;
    var n := |evs| - 1;
    RanStep(s, evs, max, timeOut);
    NextOf(Ran(s, evs[..n], max, timeOut), k, evs[n], max, timeOut);
    assert LastTaken(s, evs, k, max, timeOut, n) && evs[n + 1..] == [];
  }

  lemma RanStep(s: State, evs: seq<Event>, max: nat, timeOut: int)
    requires evs != []
    ensures Ran(s, evs, max, timeOut) == Next(Ran(s, evs[..|evs| - 1], max, timeOut), evs[|evs| - 1], max, timeOut)
  {
  }

  lemma OnlyAt(s: State, evs: seq<Event>, k: Key, max: nat, timeOut: int, i: nat)
    requires LastTaken(s, evs, k, max, timeOut, i)
    ensures forall j: nat :: LastTaken(s, evs, k, max, timeOut, j) ==> i == j
  {
  }

  /** The bucket when the last fragment was taken at place i. */
  ghost predicate LivesFrom(s: State, evs: seq<Event>, k: Key, max: nat, timeOut: int, i: nat)
    requires i < |evs|
  {
    var t, time := Ran(s, evs, max, timeOut), Time(evs[i + 1..]);
    && (k in t.table <==> k in t.left) && (k in t.table <==> time < timeOut)
    && (k in t.left ==> t.left[k] == timeOut - time)
  }

  lemma LivesAt(s: State, evs: seq<Event>, k: Key, max: nat, timeOut: int, i: nat)
    requires LastTaken(s, evs, k, max, timeOut, i)
    ensures Lives(s, evs, k, max, timeOut) <==> LivesFrom(s, evs, k, max, timeOut, i)
  {
    OnlyAt(s, evs, k, max, timeOut, i);
    hide LastTaken, Ran, Time;
  }

  /** An event that is no taken fragment, when a fragment was taken before. */
  lemma LivesOn(s: State, evs: seq<Event>, k: Key, max: nat, timeOut: int, i: nat)
    requires evs != [] && !Taken(s, evs, k, max, timeOut, |evs| - 1) && max > 0 && timeOut > 0
    requires Lives(s, evs[..|evs| - 1], k, max, timeOut) && LastTaken(s, evs[..|evs| - 1], k, max, timeOut, i)
    ensures Lives(s, evs, k, max, timeOut)
  {
    var n := |evs| - 1;
    var t := Ran(s, evs[..n], max, timeOut);
    assert evs[n].Comes? && evs[n].key == k ==> k in t.table;
    LastStays(s, evs, k, max, timeOut, i);
    hide Next, Ran, Lives, Time;
    LivesAt(s, evs[..n], k, max, timeOut, i);
    LivesAt(s, evs, k, max, timeOut, i);
    RanStep(s, evs, max, timeOut);
    NextOf(t, k, evs[n], max, timeOut);
  }

  ghost predicate NoneTaken(s: State, evs: seq<Event>, k: Key, max: nat, timeOut: int) {
    forall i: nat :: !LastTaken(s, evs, k, max, timeOut, i)
  }

  /** And when none was. */
  lemma LivesNot(s: State, evs: seq<Event>, k: Key, max: nat, timeOut: int)
    requires evs != [] && !Taken(s, evs, k, max, timeOut, |evs| - 1) && max > 0 && timeOut > 0
    requires Lives(s, evs[..|evs| - 1], k, max, timeOut)
    requires NoneTaken(s, evs[..|evs| - 1], k, max, timeOut)
    ensures Lives(s, evs, k, max, timeOut)
  {
    var n := |evs| - 1;
    var t := Ran(s, evs[..n], max, timeOut);
    assert !(evs[n].Comes? && evs[n].key == k);
    RanStep(s, evs, max, timeOut);
    NextOf(t, k, evs[n], max, timeOut);
    hide Next, Ran, LastTaken, Taken, Time;
    forall i: nat ensures !LastTaken(s, evs, k, max, timeOut, i) {
      LastStays(s, evs, k, max, timeOut, i);
    }
  }

  /** Over every run from a state without k. */
  lemma {:induction false} BucketLives(s: State, evs: seq<Event>, k: Key, max: nat, timeOut: int)
    requires k !in s.table && k !in s.left && max > 0 && timeOut > 0
    ensures Lives(s, evs, k, max, timeOut)
  {
    if evs != [] {
      hide Lives, Taken;
      var n := |evs| - 1;
      BucketLives(s, evs[..n], k, max, timeOut);
      if Taken(s, evs, k, max, timeOut, n) {
        LivesBoth(s, evs[..n], k, max, timeOut);
        LivesTaken(s, evs, k, max, timeOut);
      } else if i: nat :| LastTaken(s, evs[..n], k, max, timeOut, i) {
        LivesOn(s, evs, k, max, timeOut, i);
      } else {
        LivesNot(s, evs, k, max, timeOut);
      }
    }
  }

  lemma LivesBoth(s: State, evs: seq<Event>, k: Key, max: nat, timeOut: int)
    requires Lives(s, evs, k, max, timeOut)
    ensures var t := Ran(s, evs, max, timeOut); k in t.table <==> k in t.left
  {
  }

  /** All pieces that come under k, in order. */
  function Coming(evs: seq<Event>, k: Key): seq<Piece> {
    if evs == [] then []
    else
      var ev := evs[|evs| - 1];
      Coming(evs[..|evs| - 1], k) + if ev.Comes? && ev.key == k then [ev.piece] else []
  }

  /** Those that came since the bucket of k was made: a sweep that drops the bucket drops them. */
  function Since(s: State, evs: seq<Event>, k: Key, max: nat, timeOut: int): seq<Piece> {
    if evs == [] then []
    else
      var before, ev := Since(s, evs[..|evs| - 1], k, max, timeOut), evs[|evs| - 1];
      if ev.Comes? then before + (if ev.key == k then [ev.piece] else [])
      else if k in Ran(s, evs, max, timeOut).table then before
      else []
  }

  lemma {:induction false} CountAfter(a: seq<Piece>, max: nat)
    ensures After(a, max).cnt == |a|
  {
    hide Arrived, Fires;
    if a != [] {
      CountAfter(a[..|a| - 1], max);
      ReceivedCount(After(a[..|a| - 1], max), a[|a| - 1], max);
    }
  }

  lemma ReceivedCount(e: Entry, p: Piece, max: nat)
    ensures Received(e, p, max).cnt == e.cnt + 1
  {
    hide Inserted;
  }

  lemma NextEntry(s: State, k: Key, ev: Event, max: nat, timeOut: int)
    ensures EntryOf(Next(s, ev, max, timeOut).table, k) ==
            if ev.Comes? && ev.key == k then Received(EntryOf(s.table, k), ev.piece, max)
            else if ev.Comes? then EntryOf(s.table, k)
            else if k in Next(s, ev, max, timeOut).table then EntryOf(s.table, k)
            else EMPTY
  {
    hide Received;
  }

  lemma AfterNext(a: seq<Piece>, p: Piece, max: nat)
    ensures After(a + [p], max) == Received(After(a, max), p, max)
  {
    assert (a + [p])[..|a|] == a;
  }

  /** A bucket depends on nothing but the pieces that came since it was made. */
  lemma {:induction false} BucketSince(s: State, evs: seq<Event>, k: Key, max: nat, timeOut: int)
    requires k !in s.table && k !in s.left
    ensures var t := Ran(s, evs, max, timeOut);
      && EntryOf(t.table, k) == After(Since(s, evs, k, max, timeOut), max)
      && (k in t.table <==> k in t.left)
      && (k !in t.table ==> Since(s, evs, k, max, timeOut) == [])
  {
    assert After([], max) == EMPTY;
    hide Received, After, Next;
    if evs != [] {
      var pre, ev := evs[..|evs| - 1], evs[|evs| - 1];
      BucketSince(s, pre, k, max, timeOut);
      NextOf(Ran(s, pre, max, timeOut), k, ev, max, timeOut);
      NextEntry(Ran(s, pre, max, timeOut), k, ev, max, timeOut);
      if ev.Comes? && ev.key == k {
        AfterNext(Since(s, pre, k, max, timeOut), ev.piece, max);
      } else {
        assert Since(s, pre, k, max, timeOut) + [] == Since(s, pre, k, max, timeOut);
      }
    }
  }

  /** They are the latest of all that came. */
  lemma {:induction false} SinceLatest(s: State, evs: seq<Event>, k: Key, max: nat, timeOut: int) returns (m: nat)
    ensures m <= |Coming(evs, k)| && Since(s, evs, k, max, timeOut) == Coming(evs, k)[m..]
  {
    m := 0;
    if evs != [] {
      var ev := evs[|evs| - 1];
      m := SinceLatest(s, evs[..|evs| - 1], k, max, timeOut);
      if ev.Tick? && k !in Ran(s, evs, max, timeOut).table {
        m := |Coming(evs, k)|;
      }
    }
  }

  ghost predicate ComesAt(evs: seq<Event>, k: Key, i: nat) {
    i < |evs| && evs[i].Comes? && evs[i].key == k
  }

  lemma {:induction false} ComingPrefix(evs: seq<Event>, k: Key, n: nat)
    requires n <= |evs|
    ensures |Coming(evs[..n], k)| <= |Coming(evs, k)| && Coming(evs[..n], k) == Coming(evs, k)[..|Coming(evs[..n], k)|]
    ensures n < |evs| && ComesAt(evs, k, n) ==>
              |Coming(evs[..n], k)| < |Coming(evs, k)| && Coming(evs, k)[|Coming(evs[..n], k)|] == evs[n].piece
  {
    if n == |evs| {
      assert evs[..n] == evs;
    } else {
      assert evs[..|evs| - 1][..n] == evs[..n];
      ComingPrefix(evs[..|evs| - 1], k, n);
    }
  }

  /** As long as no more than max have come, every fragment is taken. */
  lemma AllTaken(s: State, evs: seq<Event>, k: Key, max: nat, timeOut: int, i: nat)
    requires k !in s.table && k !in s.left && |Coming(evs, k)| <= max && i < |evs|
    ensures Taken(s, evs, k, max, timeOut, i) <==> ComesAt(evs, k, i)
  {
    if ComesAt(evs, k, i) {
      BucketSince(s, evs[..i], k, max, timeOut);
      var m := SinceLatest(s, evs[..i], k, max, timeOut);
      CountAfter(Since(s, evs[..i], k, max, timeOut), max);
      ComingPrefix(evs, k, i);
    }
  }

  /** Between two fragments under k that follow each other, the sweeps take off less than timeOut. */
  ghost predicate Steady(evs: seq<Event>, k: Key, timeOut: int) {
    forall i: nat, j: nat :: ComesAt(evs, k, i) && ComesAt(evs, k, j) && NextCome(evs, k, i, j) ==>
      Time(evs[i + 1..j]) < timeOut
  }

  ghost predicate NextCome(evs: seq<Event>, k: Key, i: nat, j: nat) {
    i < j <= |evs| && forall l: nat :: i < l < j ==> !ComesAt(evs, k, l)
  }

  /** One event more keeps the pauses, and adds the one before it if it is a fragment under k. */
  lemma SteadyNext(evs: seq<Event>, k: Key, timeOut: int)
    requires evs != []
    ensures var n := |evs| - 1;
      Steady(evs, k, timeOut) <==> Steady(evs[..n], k, timeOut) && (ComesAt(evs, k, n) ==>
        forall i: nat :: ComesAt(evs, k, i) && NextCome(evs, k, i, n) ==> Time(evs[i + 1..n]) < timeOut)
  {
    var n := |evs| - 1;
    var pre := evs[..n];
    forall i: nat, j: nat | i < j < n
      ensures NextCome(evs, k, i, j) <==> NextCome(pre, k, i, j)
      ensures pre[i + 1..j] == evs[i + 1..j]
    {
      assert forall l: nat :: l < n ==> (ComesAt(evs, k, l) <==> ComesAt(pre, k, l));
    }
    assert forall l: nat :: l < n ==> (ComesAt(evs, k, l) <==> ComesAt(pre, k, l));
  }

  lemma {:induction false} LastComes(evs: seq<Event>, k: Key) returns (i: nat)
    requires Coming(evs, k) != []
    ensures ComesAt(evs, k, i) && NextCome(evs, k, i, |evs|)
  {
    i := |evs| - 1;
    if !ComesAt(evs, k, i) {
      var pre := evs[..|evs| - 1];
      i := LastComes(pre, k);
      assert forall l: nat :: l < |pre| ==> (ComesAt(evs, k, l) <==> ComesAt(pre, k, l));
    }
  }

  /** The bucket of fragments that have come is there exactly if the last pause is short. */
  lemma LastPause(s: State, evs: seq<Event>, k: Key, max: nat, timeOut: int)
    requires k !in s.table && k !in s.left && |Coming(evs, k)| <= max && max > 0 && timeOut > 0
    ensures (Coming(evs, k) != [] ==> k in Ran(s, evs, max, timeOut).table) <==>
            forall i: nat :: ComesAt(evs, k, i) && NextCome(evs, k, i, |evs|) ==> Time(evs[i + 1..]) < timeOut
  {
    BucketLives(s, evs, k, max, timeOut);
    forall i: nat
      ensures LastTaken(s, evs, k, max, timeOut, i) <==> ComesAt(evs, k, i) && NextCome(evs, k, i, |evs|)
    {
      forall j: nat | j < |evs| ensures Taken(s, evs, k, max, timeOut, j) <==> ComesAt(evs, k, j) {
        AllTaken(s, evs, k, max, timeOut, j);
      }
    }
    if Coming(evs, k) != [] {
      var i := LastComes(evs, k);
      forall j: nat | LastTaken(s, evs, k, max, timeOut, j) ensures i == j {
        LastUnique(s, evs, k, max, timeOut, i, j);
      }
    } else {
      forall i: nat | i < |evs| ensures !ComesAt(evs, k, i) {
        ComingPrefix(evs, k, i);
      }
    }
  }

  /** Nothing that came is lost exactly if every pause is short. */
  lemma {:induction false} SteadyKeeps(s: State, evs: seq<Event>, k: Key, max: nat, timeOut: int)
    requires k !in s.table && k !in s.left && |Coming(evs, k)| <= max && max > 0 && timeOut > 0
    ensures Since(s, evs, k, max, timeOut) == Coming(evs, k) <==>
            Steady(evs, k, timeOut) && (Coming(evs, k) != [] ==> k in Ran(s, evs, max, timeOut).table)
  {
    if evs == [] {
      SteadyEmpty(k, timeOut);
    } else {
      hide Steady, Since, Coming, Next, NextCome, Time;
      var n := |evs| - 1;
      var pre, ev := evs[..n], evs[n];
      SinceNext(s, evs, k, max, timeOut);
      SteadyKeeps(s, pre, k, max, timeOut);
      SteadyNext(evs, k, timeOut);
      LastPause(s, pre, k, max, timeOut);
      BucketSince(s, pre, k, max, timeOut);
      NextOf(Ran(s, pre, max, timeOut), k, ev, max, timeOut);
      PauseOf(evs, k, timeOut);
    }
  }

  lemma SinceNext(s: State, evs: seq<Event>, k: Key, max: nat, timeOut: int)
    requires evs != []
    ensures var n := |evs| - 1; var pre := evs[..n];
      var kept, come, ev := Since(s, pre, k, max, timeOut), Coming(pre, k), evs[n];
      var kept', come' := Since(s, evs, k, max, timeOut), Coming(evs, k);
      && |come| <= |come'| && (come == [] ==> kept == [])
      && (ev.Comes? && ev.key == k ==> come' != [] && (kept' == come' <==> kept == come))
      && (ev.Comes? && ev.key != k ==> kept' == kept && come' == come)
      && (ev.Tick? ==> come' == come && kept' == if k in Ran(s, evs, max, timeOut).table then kept else [])
  {
    hide Ran;
    var n := |evs| - 1;
    var pre, ev := evs[..n], evs[n];
    var m := SinceLatest(s, pre, k, max, timeOut);
    if ev.Comes? && ev.key == k {
      SameLast(Since(s, pre, k, max, timeOut), Coming(pre, k), ev.piece);
    } else {
      assert Coming(evs, k) == Coming(pre, k);
      assert ev.Comes? ==> Since(s, evs, k, max, timeOut) == Since(s, pre, k, max, timeOut);
    }
  }

  lemma SteadyEmpty(k: Key, timeOut: int)
    ensures Steady([], k, timeOut)
  {
  }

  lemma SameLast(a: seq<Piece>, b: seq<Piece>, p: Piece)
    ensures a + [p] == b + [p] <==> a == b
  {
    if a + [p] == b + [p] {
      assert (a + [p])[..|a|] == a && (b + [p])[..|b|] == b;
    }
  }

  /** The pause before the last event, seen from the events before it. */
  lemma PauseOf(evs: seq<Event>, k: Key, timeOut: int)
    requires evs != []
    ensures var n := |evs| - 1; var pre := evs[..n];
      (forall i: nat :: ComesAt(evs, k, i) && NextCome(evs, k, i, n) ==> Time(evs[i + 1..n]) < timeOut) <==>
      (forall i: nat :: ComesAt(pre, k, i) && NextCome(pre, k, i, n) ==> Time(pre[i + 1..]) < timeOut)
  {
    var n := |evs| - 1;
    var pre := evs[..n];
    assert forall l: nat :: l < n ==> (ComesAt(evs, k, l) <==> ComesAt(pre, k, l));
    forall i: nat | i < n
      ensures NextCome(evs, k, i, n) <==> NextCome(pre, k, i, n)
      ensures pre[i + 1..] == evs[i + 1..n]
    {
    }
  }

  /** The pieces from the m-th on, and then the first m. */
  lemma Rotated(a: seq<Piece>, f: seq<Piece>, m: nat)
    requires Arrival(a, f) && m <= |a|
    ensures Arrival(a[m..] + a[..m], f)
  {
    var r := a[m..] + a[..m];
    forall i, j | 0 <= i < j < |r| ensures r[i].off != r[j].off {
      var x, y := if i < |a| - m then i + m else i - (|a| - m), if j < |a| - m then j + m else j - (|a| - m);
      assert r[i] == a[x] && r[j] == a[y] && x != y;
    }
    forall p ensures p in r <==> p in f {
      assert p in a <==> p in a[..m] || p in a[m..] by {
        assert a == a[..m] + a[m..];
      }
    }
  }

  /** Of the pieces in their order of arrival the first m are lost: the next one completes the datagram only
      if it is the last and m is 0. */
  lemma ReassemblesLate(f: seq<Piece>, data: seq<Byte>, a: seq<Piece>, m: nat, c: nat, max: nat, buf: seq<Byte>)
    requires Tiles(f, data) && |data| <= 65535 <= |buf| && Arrival(a, f) && m <= c < |a|
    ensures Fires(After(a[..c][m..], max), a[c], max) <==> m == 0 && c + 1 == |a| <= max
    ensures var list := Arrived(After(a[..c][m..], max), a[c], max).list;
      Fires(After(a[..c][m..], max), a[c], max) ==>
        (forall p :: p in list ==> p.End() <= |buf|) && Sum(list) <= |buf| && Assembled(buf, list) == data
  {
    hide Fires, Arrived, Tiles, After, Sum, Assembled, Arrival;
    var r := a[m..] + a[..m];
    Rotated(a, f, m);
    Reassembles(f, data, r, c - m, max, buf);
    assert r[..c - m] == a[..c][m..] && r[c - m] == a[c];
  }

  /** A fragment finds all that came before it exactly if every pause up to it is short. */
  lemma SteadyFinds(s: State, evs: seq<Event>, k: Key, n: nat, max: nat, timeOut: int)
    requires k !in s.table && k !in s.left && |Coming(evs, k)| <= max && max > 0 && timeOut > 0 && ComesAt(evs, k, n)
    ensures Since(s, evs[..n], k, max, timeOut) == Coming(evs[..n], k) <==> Steady(evs[..n + 1], k, timeOut)
  {
    hide Steady, Next;
    var upto, p := evs[..n + 1], evs[n].piece;
    assert upto[..n] == evs[..n];
    ComingPrefix(evs, k, n + 1);
    BucketSince(s, evs[..n], k, max, timeOut);
    SteadyKeeps(s, upto, k, max, timeOut);
    NextOf(Ran(s, evs[..n], max, timeOut), k, evs[n], max, timeOut);
    SameLast(Since(s, evs[..n], k, max, timeOut), Coming(evs[..n], k), p);
  }

  /** A datagram under a fresh key, its fragments in any order among those of others and among sweeps: it
      completes at its last fragment, if it has no more than the table takes and no pause between two of them
      is too long, and otherwise not at all. */
  lemma ReassemblesInTime(s: State, evs: seq<Event>, k: Key, n: nat, f: seq<Piece>, data: seq<Byte>, max: nat,
      timeOut: int, buf: seq<Byte>)
    requires k !in s.table && k !in s.left && max > 0 && timeOut > 0
    requires ComesAt(evs, k, n) && Arrival(Coming(evs, k), f) && Tiles(f, data) && |data| <= 65535 <= |buf|
    ensures var e := EntryOf(Ran(s, evs[..n], max, timeOut).table, k);
      && (Fires(e, evs[n].piece, max) <==>
            Coming(evs[..n + 1], k) == Coming(evs, k) && |f| <= max && Steady(evs[..n + 1], k, timeOut))
      && (Fires(e, evs[n].piece, max) ==>
            var list := Arrived(e, evs[n].piece, max).list;
            (forall p :: p in list ==> p.End() <= |buf|) && Sum(list) <= |buf| && Assembled(buf, list) == data)
  {
    hide Steady, Fires, Arrived, Tiles, After, Sum, Assembled, Next, Arrival;
    var a, p, c := Coming(evs, k), evs[n].piece, |Coming(evs[..n], k)|;
    var m := SinceLatest(s, evs[..n], k, max, timeOut);
    BucketSince(s, evs[..n], k, max, timeOut);
    ComingPrefix(evs, k, n);
    UpTo(evs, k, n);
    ArrivalSize(a, f, data);
    if |f| <= max {
      SteadyFinds(s, evs, k, n, max, timeOut);
    }
    ReassemblesLate(f, data, a, m, c, max, buf);
    assert m == 0 <==> a[..c][m..] == a[..c];
  }

  lemma UpTo(evs: seq<Event>, k: Key, n: nat)
    requires ComesAt(evs, k, n)
    ensures Coming(evs[..n + 1], k) == Coming(evs, k) <==> |Coming(evs[..n], k)| + 1 == |Coming(evs, k)|
  {
    assert evs[..n + 1][..n] == evs[..n];
    ComingPrefix(evs, k, n + 1);
    assert Coming(evs[..n + 1], k) == Coming(evs[..n], k) + [evs[n].piece];
  }
}
