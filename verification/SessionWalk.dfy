/** Sessions of the translator and what a walk over one bucket does to their lifetimes, on values:
    sessiondatproc of timerproc.c within single_link_loop_delete of dbkeyhash.c. */
module SessionWalk {
  type Key = nat

  const MINI_TIMER_VALUE := 5

  /** A session with its upstream and its downstream key. */
  class Session {
    const up: Key
    const down: Key
    var timeOut: int

    constructor (up: Key, down: Key, timeOut: int)
      ensures this.up == up && this.down == down && this.timeOut == timeOut
    {
      this.up, this.down, this.timeOut := up, down, timeOut;
    }
  }

  type Times = map<Session, int>

  function Cut<T>(s: seq<T>, i: nat): (c: seq<T>)
    requires i < |s|
    ensures |c| == |s| - 1 && forall j :: 0 <= j < |c| ==> c[j] == s[if j < i then j else j + 1]
  {
    s[..i] + s[i + 1..]
  }

  function IndexOf(c: seq<Session>, r: Session): (j: nat)
    requires r in c
    ensures j < |c| && c[j] == r
  {
    if c[0] == r then 0 else 1 + IndexOf(c[1..], r)
  }

  /** How the lifetimes stand and which sessions are gone, in this order. */
  datatype Result = Result(times: Times, gone: seq<Session>)

  /** The walk from the i-th node of a bucket on, whose nodes belong to the sessions c: a session whose time
      runs out is cut out; if its other node is in the bucket too, the walk starts again. */
  ghost function WalkOn(c: seq<Session>, i: nat, t: Times, gone: seq<Session>): Result
    requires i <= |c| && forall r :: r in c ==> r in t
    decreases |c|, |c| - i
  {
    if i == |c| then Result(t, gone)
    else
      var r := c[i];
      if t[r] <= 0 then WalkOn(c, i + 1, t, gone)
      else
        var t' := t[r := t[r] - MINI_TIMER_VALUE];
        if t'[r] > 0 then WalkOn(c, i + 1, t', gone)
        else
          var rest := Cut(c, i);
          if r in rest then WalkOn(Cut(rest, IndexOf(rest, r)), 0, t', gone + [r])
          else WalkOn(rest, i, t', gone + [r])
  }

  ghost function Count(c: seq<Session>, r: Session): nat {
    if c == [] then 0 else (if c[0] == r then 1 else 0) + Count(c[1..], r)
  }

  lemma {:induction false} CountIn(c: seq<Session>, r: Session)
    ensures Count(c, r) > 0 <==> r in c
  {
    if c != [] {
      CountIn(c[1..], r);
      assert r in c <==> r == c[0] || r in c[1..];
    }
  }

  lemma CountFrom(c: seq<Session>, i: nat, r: Session)
    requires i < |c|
    ensures Count(c[i..], r) == (if c[i] == r then 1 else 0) + Count(c[i + 1..], r)
  {
    assert c[i..][1..] == c[i + 1..];
  }

  lemma {:induction false} CountSplit(c: seq<Session>, i: nat, r: Session)
    requires i <= |c|
    ensures Count(c, r) == Count(c[..i], r) + Count(c[i..], r)
  {
    if i > 0 {
      CountSplit(c[1..], i - 1, r);
      assert c[..i][1..] == c[1..][..i - 1] && c[1..][i - 1..] == c[i..];
    } else {
      assert c[0..] == c;
    }
  }

  lemma CountCut(c: seq<Session>, i: nat, r: Session)
    requires i < |c|
    ensures Count(Cut(c, i), r) == Count(c, r) - if c[i] == r then 1 else 0
  {
    var rest := Cut(c, i);
    CountSplit(c, i, r);
    CountSplit(rest, i, r);
    CountFrom(c, i, r);
    assert rest[..i] == c[..i] && rest[i..] == c[i + 1..];
  }

  ghost predicate AtMostTwo(c: seq<Session>) {
    forall r {:trigger Count(c, r)} :: r in c ==> Count(c, r) <= 2
  }

  ghost predicate NoneTwice(rs: seq<Session>) {
    forall i, j :: 0 <= i < j < |rs| ==> rs[i] != rs[j]
  }

  /** What at least `visits` visits may do to a session: it goes when its time runs out; otherwise it has
      lost a tick for each visit, perhaps more, and still has time.  One that had none is not touched. */
  predicate Fate(was: int, now: int, visits: nat, goes: bool) {
    if was <= 0 then now == was && !goes
    else if goes then now <= 0
    else 0 < now <= was - MINI_TIMER_VALUE * visits
  }

  /** The outcome of a walk for one session. */
  ghost predicate Fares(c: seq<Session>, i: nat, t: Times, w: Result, left: seq<Session>, r: Session)
    requires i <= |c| && r in t && r in w.times
  {
    && Fate(t[r], w.times[r], Count(c[i..], r), r in left)
    && (r !in c ==> w.times[r] == t[r] && r !in left)
  }

  ghost predicate Outcome(c: seq<Session>, i: nat, t: Times, gone: seq<Session>, w: Result)
    requires i <= |c|
  {
    && w.times.Keys == t.Keys && |gone| <= |w.gone| && w.gone[..|gone|] == gone && NoneTwice(w.gone)
    && forall r {:trigger Fares(c, i, t, w, w.gone[|gone|..], r)} :: r in t ==> Fares(c, i, t, w, w.gone[|gone|..], r)
  }

  /** Any walk, with or without a new start. */
  lemma {:induction false} WalkFates(c: seq<Session>, i: nat, t: Times, gone: seq<Session>)
    requires i <= |c| && (forall r :: r in c ==> r in t) && AtMostTwo(c)
    requires NoneTwice(gone) && forall r :: r in gone ==> r !in c
    ensures Outcome(c, i, t, gone, WalkOn(c, i, t, gone))
    decreases |c|, |c| - i
  {
    hide WalkOn, Outcome, Count, AtMostTwo, NoneTwice;
    if i == |c| {
      WalkEnds(c, t, gone);
    } else if t[c[i]] <= 0 {
      Onward(c, i, t, gone);
      WalkFates(c, i + 1, t, gone);
      Passed(c, i, t, t, gone, WalkOn(c, i + 1, t, gone));
    } else if t[c[i]] > MINI_TIMER_VALUE {
      var t' := t[c[i] := t[c[i]] - MINI_TIMER_VALUE];
      Onward(c, i, t, gone);
      WalkFates(c, i + 1, t', gone);
      Passed(c, i, t, t', gone, WalkOn(c, i + 1, t', gone));
    } else {
      var r, t', rest := c[i], t[c[i] := t[c[i]] - MINI_TIMER_VALUE], Cut(c, i);
      var again := r in rest;
      var c', i' := if again then Cut(rest, IndexOf(rest, r)) else rest, if again then 0 else i;
      Dropped(c, i, c', i', gone);
      RunsOut(c, i, t, gone);
      WalkFates(c', i', t', gone + [r]);
      Gone(c, i, c', i', t, t', gone, WalkOn(c', i', t', gone + [r]));
    }
  }

  /** A node whose session stays. */
  lemma Onward(c: seq<Session>, i: nat, t: Times, gone: seq<Session>)
    requires i < |c| && (forall r :: r in c ==> r in t) && (t[c[i]] <= 0 || t[c[i]] > MINI_TIMER_VALUE)
    ensures WalkOn(c, i, t, gone)
            == WalkOn(c, i + 1, if t[c[i]] <= 0 then t else t[c[i] := t[c[i]] - MINI_TIMER_VALUE], gone)
  {
  }

  lemma WalkEnds(c: seq<Session>, t: Times, gone: seq<Session>)
    requires forall r :: r in c ==> r in t
    ensures WalkOn(c, |c|, t, gone) == Result(t, gone)
    ensures NoneTwice(gone) ==> Outcome(c, |c|, t, gone, WalkOn(c, |c|, t, gone))
  {
    hide Count, NoneTwice;
    forall r | r in t ensures Fares(c, |c|, t, Result(t, gone), [], r) {
      CountIn(c[|c|..], r);
    }
    assert gone[..|gone|] == gone && gone[|gone|..] == [];
  }

  lemma RunsOut(c: seq<Session>, i: nat, t: Times, gone: seq<Session>)
    requires i < |c| && (forall r :: r in c ==> r in t) && 0 < t[c[i]] <= MINI_TIMER_VALUE
    ensures var r, rest, t' := c[i], Cut(c, i), t[c[i] := t[c[i]] - MINI_TIMER_VALUE];
      WalkOn(c, i, t, gone) ==
        if r in rest then WalkOn(Cut(rest, IndexOf(rest, r)), 0, t', gone + [r]) else WalkOn(rest, i, t', gone + [r])
  {
  }

  lemma Passed(c: seq<Session>, i: nat, t: Times, t': Times, gone: seq<Session>, w: Result)
    requires i < |c| && c[i] in t && Outcome(c, i + 1, t', gone, w)
    requires t' == if t[c[i]] <= 0 then t else t[c[i] := t[c[i]] - MINI_TIMER_VALUE]
    requires t[c[i]] > 0 ==> t'[c[i]] > 0
    ensures Outcome(c, i, t, gone, w)
  {
    hide Count, NoneTwice;
    forall x | x in t ensures Fares(c, i, t, w, w.gone[|gone|..], x) {
      assert Fares(c, i + 1, t', w, w.gone[|gone|..], x);
      CountFrom(c, i, x);
    }
  }

  /** The bucket without a session. */
  lemma Dropped(c: seq<Session>, i: nat, c': seq<Session>, i': nat, gone: seq<Session>)
    requires i < |c| && AtMostTwo(c) && NoneTwice(gone) && forall r :: r in gone ==> r !in c
    requires var rest := Cut(c, i); if c[i] in rest then c' == Cut(rest, IndexOf(rest, c[i])) && i' == 0
             else c' == rest && i' == i
    ensures i' <= |c'| < |c| && AtMostTwo(c') && NoneTwice(gone + [c[i]])
    ensures forall x :: x in c' <==> x in c && x != c[i]
    ensures forall x :: x != c[i] ==> Count(c'[i'..], x) >= Count(c[i..], x)
    ensures forall r :: r in gone + [c[i]] ==> r !in c'
  {
    hide Count;
    var r, rest := c[i], Cut(c, i);
    assert r in c && forall j :: 0 <= j < |gone| ==> gone[j] in gone;
    forall x ensures (x in c' <==> x in c && x != r)
      && (x != r ==> Count(c'[i'..], x) >= Count(c[i..], x) && Count(c', x) == Count(c, x)) {
      CountIn(c, x);
      CountIn(c', x);
      CountCut(c, i, x);
      CountIn(rest, r);
      if r in rest {
        CountCut(rest, IndexOf(rest, r), x);
        CountSplit(c, i, x);
        assert c'[0..] == c';
      } else {
        CountFrom(c, i, x);
        assert rest[i..] == c[i + 1..];
      }
    }
  }

  lemma Gone(c: seq<Session>, i: nat, c': seq<Session>, i': nat, t: Times, t': Times, gone: seq<Session>, w: Result)
    requires i < |c| && i' <= |c'| && c[i] in t && 0 < t[c[i]] <= MINI_TIMER_VALUE
             && t' == t[c[i] := t[c[i]] - MINI_TIMER_VALUE]
    requires Outcome(c', i', t', gone + [c[i]], w)
    requires forall x :: x in c' <==> x in c && x != c[i]
    requires forall x :: x != c[i] ==> Count(c'[i'..], x) >= Count(c[i..], x)
    ensures Outcome(c, i, t, gone, w)
  {
    hide Count, NoneTwice;
    var g := gone + [c[i]];
    assert w.gone[..|gone|] == w.gone[..|g|][..|gone|] == gone;
    assert w.gone[|gone|] == w.gone[..|g|][|gone|] == c[i];
    assert w.gone[|gone|..] == [c[i]] + w.gone[|g|..];
    forall x | x in t ensures Fares(c, i, t, w, w.gone[|gone|..], x) {
      assert Fares(c', i', t', w, w.gone[|g|..], x);
    }
  }

  /** Whatever goes was there. */
  lemma GoneKnown(c: seq<Session>, t: Times, w: Result)
    requires (forall r :: r in c ==> r in t) && w == WalkOn(c, 0, t, [])
    ensures forall r :: r in w.gone ==> r in t
  {
    WalkGone(c, 0, t, []);
  }

  lemma {:induction false} WalkGone(c: seq<Session>, i: nat, t: Times, gone: seq<Session>)
    requires i <= |c| && (forall r :: r in c ==> r in t) && forall r :: r in gone ==> r in t
    ensures forall r :: r in WalkOn(c, i, t, gone).gone ==> r in t
    decreases |c|, |c| - i
  {
    hide WalkOn;
    if i == |c| {
      WalkEnds(c, t, gone);
    } else if t[c[i]] <= 0 || t[c[i]] > MINI_TIMER_VALUE {
      Onward(c, i, t, gone);
      WalkGone(c, i + 1, if t[c[i]] <= 0 then t else t[c[i] := t[c[i]] - MINI_TIMER_VALUE], gone);
    } else {
      RunsOut(c, i, t, gone);
      var rest, t' := Cut(c, i), t[c[i] := t[c[i]] - MINI_TIMER_VALUE];
      if c[i] in rest {
        WalkGone(Cut(rest, IndexOf(rest, c[i])), 0, t', gone + [c[i]]);
      } else {
        WalkGone(rest, i, t', gone + [c[i]]);
      }
    }
  }

  lemma NoneTwiceMore(a: seq<Session>, b: seq<Session>)
    requires NoneTwice(a) && NoneTwice(b) && forall r :: r in a ==> r !in b
    ensures NoneTwice(a + b)
  {
    forall i, j | 0 <= i < j < |a + b| ensures (a + b)[i] != (a + b)[j] {
      assert i < |a| ==> a[i] in a;
      assert j >= |a| ==> b[j - |a|] in b;
    }
  }

  /** No session with two nodes in the bucket runs out before the walk has passed both. */
  ghost predicate Calm(c: seq<Session>, i: nat, t: Times)
    requires i <= |c| && forall r :: r in c ==> r in t
  {
    forall r {:trigger Count(c[i..], r)} :: r in c && Count(c, r) == 2 ==>
      t[r] <= 0 || t[r] > MINI_TIMER_VALUE * Count(c[i..], r)
  }

  /** The exact outcome for one session when nothing makes the walk start again. */
  ghost predicate CalmFate(was: int, now: int, visits: nat, goes: bool) {
    && now == (if was > 0 then was - MINI_TIMER_VALUE * visits else was)
    && (goes <==> was > 0 >= now)
  }

  ghost predicate CalmOutcome(c: seq<Session>, i: nat, t: Times, gone: seq<Session>, w: Result)
    requires i <= |c|
  {
    && w.times.Keys == t.Keys && |gone| <= |w.gone| && w.gone[..|gone|] == gone
    && forall r {:trigger w.times[r]} :: r in t ==> CalmFate(t[r], w.times[r], Count(c[i..], r), r in w.gone[|gone|..])
  }

  /** Then each session loses exactly one tick for each of its nodes. */
  lemma {:induction false} CalmWalk(c: seq<Session>, i: nat, t: Times, gone: seq<Session>)
    requires i <= |c| && (forall r :: r in c ==> r in t) && AtMostTwo(c) && Calm(c, i, t)
    ensures CalmOutcome(c, i, t, gone, WalkOn(c, i, t, gone))
    decreases |c| - i
  {
    hide Count, AtMostTwo;
    if i == |c| {
      forall r | r in t ensures Count(c[i..], r) == 0 {
        CountIn(c[i..], r);
      }
      assert gone[..|gone|] == gone && gone[|gone|..] == [];
    } else {
      var r := c[i];
      var t' := if t[r] <= 0 then t else t[r := t[r] - MINI_TIMER_VALUE];
      forall x ensures Count(c[i..], x) == (if r == x then 1 else 0) + Count(c[i + 1..], x) {
        CountFrom(c, i, x);
      }
      if t[r] <= 0 || t'[r] > 0 {
        CalmNext(c, i, t, t');
        CalmWalk(c, i + 1, t', gone);
        CalmPassed(c, i, t, t', gone, WalkOn(c, i + 1, t', gone));
      } else {
        CountSplit(c, i, r);
        assert AtMostTwo(c) ==> Count(c, r) <= 2 by { UpToTwo(c, r); }
        var rest := Cut(c, i);
        CountCut(c, i, r);
        CountIn(rest, r);
        CalmRest(c, i, t, t');
        CalmWalk(rest, i, t', gone + [r]);
        CalmGone(c, i, t, t', gone, WalkOn(rest, i, t', gone + [r]));
      }
    }
  }

  lemma UpToTwo(c: seq<Session>, r: Session)
    ensures AtMostTwo(c) && r in c ==> Count(c, r) <= 2
  {
  }

  lemma CalmNext(c: seq<Session>, i: nat, t: Times, t': Times)
    requires i < |c| && (forall r :: r in c ==> r in t) && Calm(c, i, t)
    requires t' == if t[c[i]] <= 0 then t else t[c[i] := t[c[i]] - MINI_TIMER_VALUE]
    ensures Calm(c, i + 1, t')
  {
    hide Count;
    forall x | x in c && Count(c, x) == 2 ensures t'[x] <= 0 || t'[x] > MINI_TIMER_VALUE * Count(c[i + 1..], x) {
      CountFrom(c, i, x);
    }
  }

  lemma CalmPassed(c: seq<Session>, i: nat, t: Times, t': Times, gone: seq<Session>, w: Result)
    requires i < |c| && c[i] in t && CalmOutcome(c, i + 1, t', gone, w)
    requires t' == if t[c[i]] <= 0 then t else t[c[i] := t[c[i]] - MINI_TIMER_VALUE]
    requires t[c[i]] > 0 ==> t'[c[i]] > 0
    ensures CalmOutcome(c, i, t, gone, w)
  {
    hide Count;
    forall x | x in t ensures CalmFate(t[x], w.times[x], Count(c[i..], x), x in w.gone[|gone|..]) {
      CountFrom(c, i, x);
    }
  }

  lemma CalmRest(c: seq<Session>, i: nat, t: Times, t': Times)
    requires i < |c| && (forall r :: r in c ==> r in t) && AtMostTwo(c) && Calm(c, i, t) && Count(c, c[i]) == 1
    requires t' == t[c[i] := t[c[i]] - MINI_TIMER_VALUE]
    ensures var rest := Cut(c, i);
            i <= |rest| && c[i] !in rest && (forall r :: r in rest ==> r in t') && AtMostTwo(rest) && Calm(rest, i, t')
  {
    hide Count;
    var rest := Cut(c, i);
    CountCut(c, i, c[i]);
    CountIn(rest, c[i]);
    assert rest[i..] == c[i + 1..];
    forall x | x in rest ensures x in c && x != c[i] && Count(rest, x) == Count(c, x)
      && Count(rest[i..], x) == Count(c[i..], x) {
      CountCut(c, i, x);
      CountFrom(c, i, x);
    }
  }

  lemma CalmGone(c: seq<Session>, i: nat, t: Times, t': Times, gone: seq<Session>, w: Result)
    requires i < |c| && c[i] in t && 0 < t[c[i]] <= MINI_TIMER_VALUE && t' == t[c[i] := t[c[i]] - MINI_TIMER_VALUE]
    requires Count(c, c[i]) == 1 && CalmOutcome(Cut(c, i), i, t', gone + [c[i]], w)
    ensures CalmOutcome(c, i, t, gone, w)
  {
    hide Count;
    var g, rest := gone + [c[i]], Cut(c, i);
    assert rest[i..] == c[i + 1..];
    assert w.gone[..|gone|] == w.gone[..|g|][..|gone|] == gone;
    assert w.gone[|gone|] == w.gone[..|g|][|gone|] == c[i];
    assert w.gone[|gone|..] == [c[i]] + w.gone[|g|..];
    CountSplit(c, i, c[i]);
    forall x | x in t ensures CalmFate(t[x], w.times[x], Count(c[i..], x), x in w.gone[|gone|..]) {
      CountFrom(c, i, x);
      assert CalmFate(t'[x], w.times[x], Count(rest[i..], x), x in w.gone[|g|..]);
    }
  }

  /** The walk from the i-th node on starts again behind a node of x, and so passes that node once more. */
  ghost predicate PassedAgain(c: seq<Session>, i: nat, t: Times, x: Session)
    requires i <= |c| && forall r :: r in c ==> r in t
    decreases |c|, |c| - i
  {
    i < |c| &&
    var r := c[i];
    if t[r] <= 0 then PassedAgain(c, i + 1, t, x)
    else
      var t' := t[r := t[r] - MINI_TIMER_VALUE];
      if t'[r] > 0 then PassedAgain(c, i + 1, t', x)
      else
        var rest := Cut(c, i);
        if r in rest then x in c[..i] || PassedAgain(Cut(rest, IndexOf(rest, r)), 0, t', x)
        else PassedAgain(rest, i, t', x)
  }

  lemma {:induction false} GoneStays(c: seq<Session>, i: nat, t: Times, gone: seq<Session>)
    requires i <= |c| && forall r :: r in c ==> r in t
    ensures gone <= WalkOn(c, i, t, gone).gone
    decreases |c|, |c| - i
  {
    hide WalkOn;
    if i == |c| {
      WalkEnds(c, t, gone);
    } else if t[c[i]] <= 0 || t[c[i]] > MINI_TIMER_VALUE {
      Onward(c, i, t, gone);
      GoneStays(c, i + 1, if t[c[i]] <= 0 then t else t[c[i] := t[c[i]] - MINI_TIMER_VALUE], gone);
    } else {
      RunsOut(c, i, t, gone);
      var rest, t' := Cut(c, i), t[c[i] := t[c[i]] - MINI_TIMER_VALUE];
      if c[i] in rest {
        GoneStays(Cut(rest, IndexOf(rest, c[i])), 0, t', gone + [c[i]]);
      } else {
        GoneStays(rest, i, t', gone + [c[i]]);
      }
    }
  }

  /** Exactly one tick for each node, or more. */
  ghost predicate TicksOf(was: int, now: int, visits: nat, again: bool) {
    && now <= was - MINI_TIMER_VALUE * visits
    && (now == was - MINI_TIMER_VALUE * visits <==> !again)
  }

  /** A session that survives with time left has lost more than one tick for each of its nodes exactly if a
      new start took the walk back to the front of a node of it that it had passed. */
  lemma {:induction false} TicksExact(c: seq<Session>, i: nat, t: Times, gone: seq<Session>, x: Session)
    requires i <= |c| && (forall r :: r in c ==> r in t) && x in t && t[x] > 0 && AtMostTwo(c)
    requires x !in WalkOn(c, i, t, gone).gone
    ensures var w := WalkOn(c, i, t, gone);
            x in w.times && TicksOf(t[x], w.times[x], Count(c[i..], x), PassedAgain(c, i, t, x))
    decreases |c|, |c| - i
  {
    hide WalkOn, Count, AtMostTwo, PassedAgain, TicksOf, Cut, IndexOf;
    if i == |c| {
      TicksAtEnd(c, t, gone, x);
    } else if t[c[i]] <= 0 || t[c[i]] > MINI_TIMER_VALUE {
      Onward(c, i, t, gone);
      TicksExact(c, i + 1, if t[c[i]] <= 0 then t else t[c[i] := t[c[i]] - MINI_TIMER_VALUE], gone, x);
      TicksOnward(c, i, t, gone, x);
    } else {
      var r, rest, t' := c[i], Cut(c, i), t[c[i] := t[c[i]] - MINI_TIMER_VALUE];
      RunsOut(c, i, t, gone);
      var c', i' := if r in rest then Cut(rest, IndexOf(rest, r)) else rest, if r in rest then 0 else i;
      GoneStays(c', i', t', gone + [r]);
      assert r in gone + [r] && x != r;
      DroppedCounts(c, i, c', i', x);
      TicksExact(c', i', t', gone + [r], x);
      AgainDropped(c, i, t, c', i', x);
      if r in rest {
        var now := WalkOn(c', i', t', gone + [r]).times[x];
        TicksMore(t[x], now, Count(c[i..], x), Count(c[..i], x), PassedAgain(c', i', t', x));
      }
    }
  }

  lemma TicksAtEnd(c: seq<Session>, t: Times, gone: seq<Session>, x: Session)
    requires (forall r :: r in c ==> r in t) && x in t
    ensures var w := WalkOn(c, |c|, t, gone);
            x in w.times && TicksOf(t[x], w.times[x], Count(c[|c|..], x), PassedAgain(c, |c|, t, x))
  {
    hide WalkOn, Count, PassedAgain;
    AgainIs(c, |c|, t, x);
    WalkEnds(c, t, gone);
    CountIn(c[|c|..], x);
  }

  lemma TicksOnward(c: seq<Session>, i: nat, t: Times, gone: seq<Session>, x: Session)
    requires i < |c| && (forall r :: r in c ==> r in t) && x in t && t[x] > 0
    requires t[c[i]] <= 0 || t[c[i]] > MINI_TIMER_VALUE
    requires var t' := if t[c[i]] <= 0 then t else t[c[i] := t[c[i]] - MINI_TIMER_VALUE];
             var w := WalkOn(c, i + 1, t', gone);
             x in w.times && TicksOf(t'[x], w.times[x], Count(c[i + 1..], x), PassedAgain(c, i + 1, t', x))
    ensures var w := WalkOn(c, i, t, gone);
            x in w.times && TicksOf(t[x], w.times[x], Count(c[i..], x), PassedAgain(c, i, t, x))
  {
    hide WalkOn, Count, PassedAgain;
    AgainIs(c, i, t, x);
    Onward(c, i, t, gone);
    CountFrom(c, i, x);
  }

  /** Nodes that are passed once more are so many more ticks. */
  lemma TicksMore(was: int, now: int, visits: nat, more: nat, again: bool)
    requires TicksOf(was, now, visits + more, again)
    ensures TicksOf(was, now, visits, more > 0 || again)
  {
  }

  lemma AgainIs(c: seq<Session>, i: nat, t: Times, x: Session)
    requires i <= |c| && forall r :: r in c ==> r in t
    ensures i == |c| ==> !PassedAgain(c, i, t, x)
    ensures i < |c| && (t[c[i]] <= 0 || t[c[i]] > MINI_TIMER_VALUE) ==>
      (PassedAgain(c, i, t, x) <==>
       PassedAgain(c, i + 1, if t[c[i]] <= 0 then t else t[c[i] := t[c[i]] - MINI_TIMER_VALUE], x))
  {
  }

  lemma AgainDropped(c: seq<Session>, i: nat, t: Times, c': seq<Session>, i': nat, x: Session)
    requires i < |c| && (forall r :: r in c ==> r in t) && 0 < t[c[i]] <= MINI_TIMER_VALUE
    requires var rest := Cut(c, i); if c[i] in rest then c' == Cut(rest, IndexOf(rest, c[i])) && i' == 0
             else c' == rest && i' == i
    ensures i' <= |c'| && forall r :: r in c' ==> r in t
    ensures var t' := t[c[i] := t[c[i]] - MINI_TIMER_VALUE];
      PassedAgain(c, i, t, x) <==> (c[i] in Cut(c, i) && x in c[..i]) || PassedAgain(c', i', t', x)
  {
  }

  /** What is left to pass of another session: as much as before, or after a new start all of it. */
  lemma DroppedCounts(c: seq<Session>, i: nat, c': seq<Session>, i': nat, x: Session)
    requires i < |c| && AtMostTwo(c) && x != c[i]
    requires var rest := Cut(c, i); if c[i] in rest then c' == Cut(rest, IndexOf(rest, c[i])) && i' == 0
             else c' == rest && i' == i
    ensures AtMostTwo(c')
    ensures if c[i] in Cut(c, i) then Count(c'[i'..], x) == Count(c[i..], x) + Count(c[..i], x)
            && (Count(c[..i], x) > 0 <==> x in c[..i])
            else Count(c'[i'..], x) == Count(c[i..], x)
  {
    hide Count, AtMostTwo, NoneTwice;
    var rest := Cut(c, i);
    NothingGone();
    Dropped(c, i, c', i', []);
    CountIn(c[..i], x);
    CountSplit(c, i, x);
    CountCut(c, i, x);
    if c[i] in rest {
      CountCut(rest, IndexOf(rest, c[i]), x);
      assert c'[0..] == c';
    } else {
      CountFrom(c, i, x);
      assert rest[i..] == c[i + 1..];
    }
  }

  lemma NothingGone()
    ensures NoneTwice([])
  {
  }

  /** A new start takes more: two sessions with both nodes in the bucket, of which b runs out. */
  lemma RestartTicks(a: Session, b: Session, t: Times)
    requires a != b && a in t && b in t && t[a] == 25 && t[b] == 5
    ensures var w := WalkOn([a, a, b, b], 0, t, []); w.gone == [b] && a in w.times && w.times[a] == 5
  {
    hide WalkOn, Cut, IndexOf;
    var c, d := [a, a, b, b], [a, a];
    var t1 := t[a := t[a] - MINI_TIMER_VALUE];
    var t2 := t1[a := t1[a] - MINI_TIMER_VALUE];
    var t3 := t2[b := t2[b] - MINI_TIMER_VALUE];
    var t4 := t3[a := t3[a] - MINI_TIMER_VALUE];
    var t5 := t4[a := t4[a] - MINI_TIMER_VALUE];
    WalkEnds(d, t5, [b]);
    TwoAway(a, b);
    Onward(c, 0, t, []);
    Onward(c, 1, t1, []);
    RunsOut(c, 2, t2, []);
    Onward(d, 0, t3, [b]);
    Onward(d, 1, t4, [b]);
    assert [] + [b] == [b];
  }

  lemma TwoAway(a: Session, b: Session)
    requires a != b
    ensures var rest := Cut([a, a, b, b], 2); b in rest && Cut(rest, IndexOf(rest, b)) == [a, a]
  {
    var rest := Cut([a, a, b, b], 2);
    assert rest == [a, a, b] && rest[1..] == [a, b] && rest[1..][1..] == [b];
  }
}
