/** One sweep of the session timer over all buckets, on values: sessiontmrhandle of timerproc.c. */
module SessionSweep {
  import opened SessionWalk

  ghost function Members(rs: seq<Session>): set<Session> {
    set r | r in rs
  }

  /** The sessions of a bucket without those that are gone. */
  function Minus(c: seq<Session>, gone: set<Session>): (d: seq<Session>)
    ensures forall r :: r in d ==> r in c && r !in gone
    ensures forall r :: r in c && r !in gone ==> r in d
  {
    if c == [] then []
    else if c[0] in gone then Minus(c[1..], gone)
    else [c[0]] + Minus(c[1..], gone)
  }

  lemma {:induction false} MinusKeeps(c: seq<Session>, gone: set<Session>)
    requires forall r :: r in c ==> r !in gone
    ensures Minus(c, gone) == c
  {
    if c != [] {
      MinusKeeps(c[1..], gone);
    }
  }

  lemma {:induction false} MinusMore(c: seq<Session>, a: set<Session>, b: set<Session>)
    ensures Minus(Minus(c, a), b) == Minus(c, a + b)
  {
    if c != [] {
      MinusMore(c[1..], a, b);
      if c[0] !in a {
        assert Minus(c, a)[1..] == Minus(c[1..], a);
      }
    }
  }

  lemma {:induction false} MinusCut(c: seq<Session>, j: nat, r: Session)
    requires j < |c| && c[j] == r && r !in Cut(c, j)
    ensures Minus(c, {r}) == Cut(c, j)
  {
    var d := Cut(c, j);
    if j == 0 {
      assert d == c[1..];
      MinusKeeps(d, {r});
    } else {
      assert c[0] == d[0] && d[1..] == Cut(c[1..], j - 1);
      MinusCut(c[1..], j - 1, r);
      assert d == [c[0]] + d[1..];
    }
  }

  lemma {:induction false} CountMinus(c: seq<Session>, gone: set<Session>, x: Session)
    ensures Count(Minus(c, gone), x) == if x in gone then 0 else Count(c, x)
  {
    if c != [] {
      CountMinus(c[1..], gone, x);
      if c[0] !in gone {
        assert Minus(c, gone)[1..] == Minus(c[1..], gone);
      }
    }
  }

  /** Every session of a bucket has a lifetime or is gone. */
  ghost predicate Known(cs: seq<seq<Session>>, t: Times, gone: seq<Session>) {
    forall k, r :: 0 <= k < |cs| && r in cs[k] ==> r in t || r in gone
  }

  /** The walks over the buckets from the k-th on; what is gone is in no later bucket. */
  ghost function SweepOn(cs: seq<seq<Session>>, k: nat, t: Times, gone: seq<Session>): Result
    requires k <= |cs| && Known(cs, t, gone)
    decreases |cs| - k
  {
    if k == |cs| then Result(t, gone)
    else
      var w := Bucket(cs, k, t, gone);
      SweepOn(cs, k + 1, w.times - Members(w.gone), gone + w.gone)
  }

  /** The walk over bucket k. */
  ghost function Bucket(cs: seq<seq<Session>>, k: nat, t: Times, gone: seq<Session>): (w: Result)
    requires k < |cs| && Known(cs, t, gone)
    ensures w.times.Keys == t.Keys && Known(cs, w.times - Members(w.gone), gone + w.gone)
  {
    var c := Minus(cs[k], Members(gone));
    WalkKeys(c, 0, t, []);
    WalkOn(c, 0, t, [])
  }

  lemma {:induction false} WalkKeys(c: seq<Session>, i: nat, t: Times, gone: seq<Session>)
    requires i <= |c| && forall r :: r in c ==> r in t
    ensures WalkOn(c, i, t, gone).times.Keys == t.Keys
    decreases |c|, |c| - i
  {
    hide WalkOn;
    if i == |c| {
      WalkEnds(c, t, gone);
    } else if t[c[i]] <= 0 || t[c[i]] > MINI_TIMER_VALUE {
      Onward(c, i, t, gone);
      WalkKeys(c, i + 1, if t[c[i]] <= 0 then t else t[c[i] := t[c[i]] - MINI_TIMER_VALUE], gone);
    } else {
      RunsOut(c, i, t, gone);
      var rest, t' := Cut(c, i), t[c[i] := t[c[i]] - MINI_TIMER_VALUE];
      if c[i] in rest {
        WalkKeys(Cut(rest, IndexOf(rest, c[i])), 0, t', gone + [c[i]]);
      } else {
        WalkKeys(rest, i, t', gone + [c[i]]);
      }
    }
  }

  /** In one of the buckets from the k-th on, the walk passes a node of x once more. */
  ghost predicate AgainIn(cs: seq<seq<Session>>, k: nat, t: Times, gone: seq<Session>, x: Session)
    requires k <= |cs| && Known(cs, t, gone)
    decreases |cs| - k
  {
    k < |cs| &&
    (PassedAgain(Minus(cs[k], Members(gone)), 0, t, x)
     || var w := Bucket(cs, k, t, gone); AgainIn(cs, k + 1, w.times - Members(w.gone), gone + w.gone, x))
  }

  /** How many nodes x has in the buckets from the k-th on. */
  ghost function CountAll(cs: seq<seq<Session>>, k: nat, x: Session): nat
    requires k <= |cs|
    decreases |cs| - k
  {
    if k == |cs| then 0 else Count(cs[k], x) + CountAll(cs, k + 1, x)
  }

  /** A session that survives a sweep with time left has lost more than one tick for each of its nodes exactly
      if a walk over one of the buckets started again and passed a node of it once more. */
  lemma {:induction false} SweepExact(cs: seq<seq<Session>>, k: nat, t: Times, gone: seq<Session>, x: Session)
    requires k <= |cs| && Known(cs, t, gone) && x in t && t[x] > 0 && x !in gone
    requires forall j :: 0 <= j < |cs| ==> AtMostTwo(cs[j])
    requires x !in SweepOn(cs, k, t, gone).gone
    ensures var w := SweepOn(cs, k, t, gone);
            x in w.times && TicksOf(t[x], w.times[x], CountAll(cs, k, x), AgainIn(cs, k, t, gone, x))
    decreases |cs| - k
  {
    hide TicksOf, WalkOn, Count, AtMostTwo, PassedAgain, Minus;
    if k < |cs| {
      var w := Bucket(cs, k, t, gone);
      var t', gone' := w.times - Members(w.gone), gone + w.gone;
      StaysGone(cs, k + 1, t', gone');
      BucketTicks(cs, k, t, gone, x);
      SweepExact(cs, k + 1, t', gone', x);
      TicksAdd(t[x], w.times[x], SweepOn(cs, k + 1, t', gone').times[x], Count(cs[k], x), CountAll(cs, k + 1, x),
               PassedAgain(Minus(cs[k], Members(gone)), 0, t, x), AgainIn(cs, k + 1, t', gone', x));
    } else {
      NoTicks(t[x]);
    }
  }

  lemma {:induction false} StaysGone(cs: seq<seq<Session>>, k: nat, t: Times, gone: seq<Session>)
    requires k <= |cs| && Known(cs, t, gone)
    ensures forall x :: x in gone ==> x in SweepOn(cs, k, t, gone).gone
    decreases |cs| - k
  {
    hide WalkOn, Minus;
    if k < |cs| {
      var w := Bucket(cs, k, t, gone);
      StaysGone(cs, k + 1, w.times - Members(w.gone), gone + w.gone);
    }
  }

  /** The walk over one bucket. */
  lemma BucketTicks(cs: seq<seq<Session>>, k: nat, t: Times, gone: seq<Session>, x: Session)
    requires k < |cs| && Known(cs, t, gone) && x in t && t[x] > 0 && x !in gone && AtMostTwo(cs[k])
    requires x !in Bucket(cs, k, t, gone).gone
    ensures var w := Bucket(cs, k, t, gone);
            w.times[x] > 0
            && TicksOf(t[x], w.times[x], Count(cs[k], x), PassedAgain(Minus(cs[k], Members(gone)), 0, t, x))
  {
    hide TicksOf, WalkOn, Count, PassedAgain, Minus;
    var c := Minus(cs[k], Members(gone));
    forall r ensures Count(c, r) <= Count(cs[k], r) {
      CountMinus(cs[k], Members(gone), r);
    }
    CountMinus(cs[k], Members(gone), x);
    assert c[0..] == c;
    TicksExact(c, 0, t, [], x);
    NothingGone();
    WalkFates(c, 0, t, []);
    var w := WalkOn(c, 0, t, []);
    assert w.gone[0..] == w.gone;
    assert Fares(c, 0, t, w, w.gone[0..], x);
  }

  lemma NoTicks(was: int)
    ensures TicksOf(was, was, 0, false)
  {
  }

  lemma TicksAdd(was: int, mid: int, now: int, a: nat, b: nat, again: bool, more: bool)
    requires TicksOf(was, mid, a, again) && TicksOf(mid, now, b, more)
    ensures TicksOf(was, now, a + b, again || more)
  {
  }
}
