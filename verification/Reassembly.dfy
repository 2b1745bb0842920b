/** What the fragment table does to one datagram, as values: fragnodeinsert, updatelength and
    fragprocess of defrag6.c and fragment.c. */
module Reassembly {
  import opened Tunnels
  import opened Keys
  import opened Fragments

  /** A bucket: the sorted fragments, the bytes counted so far, the length of the datagram once the
      last fragment has told it, and the number of fragments that have come. */
  datatype Entry = Entry(list: seq<Piece>, len: UInt32, length: UInt32, flag: bool, cnt: nat)

  const EMPTY := Entry([], 0, 0, false, 0)

  function Add32(a: nat, b: nat): UInt32 {
    (a + b) % 0x1_0000_0000
  }

  ghost predicate Ascending(list: seq<Piece>) {
    forall i, j :: 0 <= i < j < |list| ==> list[i].off < list[j].off
  }

  /** The list with p at its place; a piece at an offset that is there already is dropped. */
  function Inserted(list: seq<Piece>, p: Piece): seq<Piece> {
    if list == [] then [p]
    else if list[0].off == p.off then list
    else if p.off < list[0].off then [p] + list
    else [list[0]] + Inserted(list[1..], p)
  }

  /** updatelength, and whether the datagram is complete. */
  function Counted(e: Entry, p: Piece): Entry {
    var f := e.(len := Add32(e.len, |p.data|));
    if p.more then f else f.(length := Add32(p.off, |p.data|), flag := true)
  }

  predicate Complete(e: Entry) {
    e.flag && e.len == e.length
  }

  /** fragnodeinsert; past `max` fragments a bucket takes no more. */
  function Arrived(e: Entry, p: Piece, max: nat): Entry {
    var f := e.(cnt := e.cnt + 1);
    if f.cnt > max then f else Counted(f.(list := Inserted(f.list, p)), p)
  }

  predicate Fires(e: Entry, p: Piece, max: nat) {
    e.cnt + 1 <= max && Complete(Arrived(e, p, max))
  }

  /** A completed bucket hands its list over and stays. */
  function Received(e: Entry, p: Piece, max: nat): Entry {
    if Fires(e, p, max) then Arrived(e, p, max).(list := []) else Arrived(e, p, max)
  }

  function After(a: seq<Piece>, max: nat): Entry {
    if a == [] then EMPTY else Received(After(a[..|a| - 1], max), a[|a| - 1], max)
  }

  function Sum(list: seq<Piece>): nat {
    if list == [] then 0 else |list[0].data| + Sum(list[1..])
  }

  /** memcpy of each piece to its offset, in list order. */
  function Written(buf: seq<Byte>, list: seq<Piece>): (out: seq<Byte>)
    requires forall p :: p in list ==> p.End() <= |buf|
    ensures |out| == |buf|
    decreases list
  {
    if list == [] then buf
    else
      var p := list[0];
      assert p in list && p.off <= p.End();
      Written(buf[..p.off] + p.data + buf[p.End()..], list[1..])
  }

  predicate Over(p: Piece, i: nat) {
    p.off <= i < p.End()
  }

  lemma WrittenStep(buf: seq<Byte>, list: seq<Piece>, i: nat) returns (next: seq<Byte>)
    requires (forall p :: p in list ==> p.End() <= |buf|) && list != [] && i < |buf|
    ensures |next| == |buf| && (forall p :: p in list[1..] ==> p.End() <= |buf|)
    ensures Written(buf, list) == Written(next, list[1..])
    ensures next[i] == if Over(list[0], i) then list[0].data[i - list[0].off] else buf[i]
  {
    var p := list[0];
    assert p in list && p.off <= p.End();
    next := buf[..p.off] + p.data + buf[p.End()..];
  }

  /** A byte of the buffer is that of the last piece over it, and stays if there is none. */
  lemma {:induction false} WrittenAt(buf: seq<Byte>, list: seq<Piece>, i: nat, j: nat)
    requires (forall p :: p in list ==> p.End() <= |buf|) && i < |buf| && j <= |list|
    requires forall l :: j <= l < |list| ==> !Over(list[l], i)
    ensures j == 0 ==> Written(buf, list)[i] == buf[i]
    ensures j > 0 && Over(list[j - 1], i) ==> Written(buf, list)[i] == list[j - 1].data[i - list[j - 1].off]
    decreases list
  {
    hide Over;
    if list != [] {
      var next := WrittenStep(buf, list, i);
      hide Written;
      WrittenAt(next, list[1..], i, if j > 0 then j - 1 else 0);
    }
  }

  ghost predicate TileAt(f: seq<Piece>, data: seq<Byte>, i: nat)
    requires i < |f|
  {
    && |f[i].data| > 0 && f[i].End() <= |data| && f[i].data == data[f[i].off..f[i].End()]
    && f[i].off == (if i == 0 then 0 else f[i - 1].End())
    && (f[i].more <==> f[i].End() < |data|)
  }

  /** In order, the pieces are data. */
  ghost predicate Tiles(f: seq<Piece>, data: seq<Byte>) {
    && |data| == (if f == [] then 0 else f[|f| - 1].End())
    && forall i {:trigger TileAt(f, data, i)} :: 0 <= i < |f| ==> TileAt(f, data, i)
  }

  lemma CarriesTiles(ps: seq<Piece>, data: seq<Byte>, cap: nat)
    requires Carries(ps, data, cap)
    ensures Tiles(ps, data)
  {
    forall i: nat | i < |ps| ensures TileAt(ps, data, i) {
      assert PieceAt(ps, data, cap, i);
    }
  }

  /** The pieces arrive in some order, no two with the same offset. */
  ghost predicate Arrival(a: seq<Piece>, f: seq<Piece>) {
    && (forall i, j :: 0 <= i < j < |a| ==> a[i].off != a[j].off)
    && forall p :: p in a <==> p in f
  }

  lemma {:induction false} TilesOrder(f: seq<Piece>, data: seq<Byte>, i: nat, j: nat)
    requires Tiles(f, data) && i < j < |f|
    ensures f[i].End() <= f[j].off
    decreases j - i
  {
    assert TileAt(f, data, i) && TileAt(f, data, j) && TileAt(f, data, j - 1);
    if i < j - 1 {
      TilesOrder(f, data, i, j - 1);
    }
  }

  lemma TilesAscend(f: seq<Piece>, data: seq<Byte>)
    requires Tiles(f, data)
    ensures Ascending(f)
  {
    forall i: nat, j: nat | i < j < |f| ensures f[i].off < f[j].off {
      TilesOrder(f, data, i, j);
      assert TileAt(f, data, i);
    }
  }

  ghost predicate Fresh(list: seq<Piece>, off: nat) {
    forall i :: 0 <= i < |list| ==> list[i].off != off
  }

  lemma TailAscends(list: seq<Piece>)
    requires Ascending(list) && list != []
    ensures Ascending(list[1..]) && list == [list[0]] + list[1..]
    ensures forall i :: 0 <= i < |list[1..]| ==> list[0].off < list[1..][i].off
  {
    forall i | 0 <= i < |list[1..]| ensures list[0].off < list[1..][i].off {
      assert list[1..][i] == list[i + 1];
    }
  }

  lemma {:induction false} InsertedHas(list: seq<Piece>, p: Piece, q: Piece)
    requires Ascending(list)
    ensures q in Inserted(list, p) <==> q in list || (q == p && Fresh(list, p.off))
  {
    if list != [] && list[0].off < p.off {
      TailAscends(list);
      InsertedHas(list[1..], p, q);
      assert Fresh(list, p.off) <==> Fresh(list[1..], p.off) by {
        FreshTail(list, p.off);
      }
    } else if list != [] && list[0].off == p.off {
      assert !Fresh(list, p.off);
    } else {
      assert forall i :: 0 < i < |list| ==> list[0].off < list[i].off;
    }
  }

  lemma FreshTail(list: seq<Piece>, off: nat)
    requires list != []
    ensures Fresh(list, off) <==> list[0].off != off && Fresh(list[1..], off)
  {
    if Fresh(list[1..], off) {
      forall i | 0 < i < |list| ensures list[i].off != off {
        assert list[1..][i - 1] == list[i];
      }
    }
  }

  lemma {:induction false} InsertedAscends(list: seq<Piece>, p: Piece)
    requires Ascending(list)
    ensures Ascending(Inserted(list, p))
  {
    if list != [] && list[0].off < p.off {
      TailAscends(list);
      InsertedAscends(list[1..], p);
      var rest := Inserted(list[1..], p);
      forall i | 0 <= i < |rest| ensures list[0].off < rest[i].off {
        InsertedHas(list[1..], p, rest[i]);
      }
    }
  }

  lemma {:induction false} InsertedSum(list: seq<Piece>, p: Piece)
    requires Ascending(list) && Fresh(list, p.off)
    ensures |Inserted(list, p)| == |list| + 1 && Sum(Inserted(list, p)) == Sum(list) + |p.data|
  {
    if list != [] && list[0].off < p.off {
      TailAscends(list);
      FreshTail(list, p.off);
      InsertedSum(list[1..], p);
      assert Inserted(list, p)[1..] == Inserted(list[1..], p);
    } else {
      assert ([p] + list)[1..] == list;
    }
  }

  lemma Inhabited(a: seq<Piece>, b: seq<Piece>)
    requires forall p :: p in a ==> p in b
    ensures a != [] ==> b != []
  {
    if a != [] {
      assert a[0] in b;
    }
  }

  /** Two ascending lists with the same pieces are the same list. */
  lemma {:induction false} SameList(a: seq<Piece>, b: seq<Piece>)
    requires Ascending(a) && Ascending(b) && forall p :: p in a <==> p in b
    ensures a == b
    decreases |a|
  {
    Inhabited(a, b);
    Inhabited(b, a);
    if a != [] && b != [] {
      assert a[0] in b && b[0] in a;
      TailAscends(a);
      TailAscends(b);
      forall p ensures p in a[1..] <==> p in b[1..] {
        assert p in a <==> p == a[0] || p in a[1..];
        assert p in b <==> p == b[0] || p in b[1..];
      }
      SameList(a[1..], b[1..]);
    }
  }

  lemma TilesApart(f: seq<Piece>, data: seq<Byte>, p: Piece, q: Piece)
    requires Tiles(f, data) && p in f && q in f
    ensures p.off < q.off ==> p.End() <= q.off
    ensures p.End() <= |data| && |p.data| > 0 && p.data == data[p.off..p.End()] && (p.more <==> p.End() < |data|)
    ensures p.off == q.off ==> p == q
  {
    var i :| 0 <= i < |f| && f[i] == p;
    var j :| 0 <= j < |f| && f[j] == q;
    assert TileAt(f, data, i) && TileAt(f, data, j);
    if i < j {
      TilesOrder(f, data, i, j);
    } else if j < i {
      TilesOrder(f, data, j, i);
    }
  }

  /** Pieces in order take no more room than there is from the first one on. */
  lemma {:induction false} SumBound(f: seq<Piece>, data: seq<Byte>, list: seq<Piece>)
    requires Tiles(f, data) && Ascending(list) && forall p :: p in list ==> p in f
    ensures Sum(list) <= |data| - if list == [] then 0 else list[0].off
  {
    if list != [] {
      TailAscends(list);
      SumBound(f, data, list[1..]);
      assert list[0] in list;
      TilesApart(f, data, list[0], list[0]);
      if |list| > 1 {
        assert list[1] in list && list[0].off < list[1].off;
        TilesApart(f, data, list[0], list[1]);
      }
    }
  }

  lemma {:induction false} SumTiles(f: seq<Piece>, data: seq<Byte>, i: nat)
    requires Tiles(f, data) && i <= |f|
    ensures Sum(f[i..]) == |data| - if i == |f| then |data| else f[i].off
    decreases |f| - i
  {
    if i < |f| {
      SumTiles(f, data, i + 1);
      assert f[i..][1..] == f[i + 1..] && TileAt(f, data, i);
      assert i + 1 < |f| ==> TileAt(f, data, i + 1);
    }
  }

  /** The bucket holds exactly the pieces a, and has counted them. */
  ghost predicate Gathered(e: Entry, a: seq<Piece>, data: seq<Byte>) {
    && Ascending(e.list) && (forall p :: p in e.list <==> p in a)
    && e.len == Sum(e.list) && e.cnt == |a|
    && (e.flag <==> exists p :: p in a && !p.more)
    && (e.flag ==> e.length == |data|)
  }

  lemma GatherStep(f: seq<Piece>, data: seq<Byte>, e: Entry, a: seq<Piece>, p: Piece, max: nat)
    requires Tiles(f, data) && |data| <= 65535 && Gathered(e, a, data) && |a| < max
    requires p in f && (forall q :: q in a ==> q in f) && forall q :: q in a ==> q.off != p.off
    ensures Gathered(Arrived(e, p, max), a + [p], data)
  {
    hide Inserted, Sum, Tiles, Ascending;
    var list' := Inserted(e.list, p);
    assert Fresh(e.list, p.off) by {
      forall i | 0 <= i < |e.list| ensures e.list[i].off != p.off {
        assert e.list[i] in e.list;
      }
    }
    InsertedAscends(e.list, p);
    InsertedSum(e.list, p);
    forall q ensures q in list' <==> q in a + [p] {
      InsertedHas(e.list, p, q);
    }
    TilesApart(f, data, p, p);
    SumBound(f, data, list');
    FlagStep(e, a, p);
  }

  lemma FlagStep(e: Entry, a: seq<Piece>, p: Piece)
    ensures (exists q :: q in a + [p] && !q.more) <==> (exists q :: q in a && !q.more) || !p.more
  {
    if q :| q in a && !q.more {
      assert q in a + [p];
    }
    assert p in a + [p];
  }

  /** With a piece missing, the count stays below the length. */
  lemma MissingPiece(f: seq<Piece>, data: seq<Byte>, e: Entry, a: seq<Piece>, q: Piece)
    requires Tiles(f, data) && Gathered(e, a, data) && (forall p :: p in a ==> p in f)
    requires q in f && q !in a
    ensures !Complete(e)
  {
    assert Fresh(e.list, q.off) by {
      forall i | 0 <= i < |e.list| ensures e.list[i].off != q.off {
        assert e.list[i] in e.list;
        TilesApart(f, data, e.list[i], q);
      }
    }
    InsertedAscends(e.list, q);
    InsertedSum(e.list, q);
    forall p | p in Inserted(e.list, q) ensures p in f {
      InsertedHas(e.list, q, p);
    }
    SumBound(f, data, Inserted(e.list, q));
    TilesApart(f, data, q, q);
  }

  /** One more piece of an arrival that goes on. */
  lemma GatherNext(f: seq<Piece>, data: seq<Byte>, a: seq<Piece>, k: nat, e: Entry, max: nat)
    requires Tiles(f, data) && |data| <= 65535 && Arrival(a, f) && k < |a| && k < max
    requires Gathered(e, a[..k], data)
    ensures Gathered(Arrived(e, a[k], max), a[..k + 1], data)
    ensures k + 1 < |a| ==> !Fires(e, a[k], max)
  {
    hide Arrived, Fires, Received, Gathered, Tiles, Complete;
    assert a[..k] + [a[k]] == a[..k + 1] && a[k] in a;
    forall q | q in a[..k] ensures q in f && q.off != a[k].off {
      assert q in a;
    }
    GatherStep(f, data, e, a[..k], a[k], max);
    if k + 1 < |a| {
      assert a[|a| - 1] in a && a[|a| - 1] !in a[..k + 1];
      forall q | q in a[..k + 1] ensures q in f {
        assert q in a;
      }
      MissingPiece(f, data, Arrived(e, a[k], max), a[..k + 1], a[|a| - 1]);
      NotFiring(e, a[k], max);
    }
  }

  /** Before the last piece the bucket has exactly the pieces that have come, and does not fire. */
  lemma {:induction false} GatherAll(f: seq<Piece>, data: seq<Byte>, a: seq<Piece>, k: nat, max: nat)
    requires Tiles(f, data) && |data| <= 65535 && Arrival(a, f) && k < |a| && k < max
    ensures Gathered(After(a[..k], max), a[..k], data)
    ensures Gathered(Arrived(After(a[..k], max), a[k], max), a[..k + 1], data)
    ensures k + 1 < |a| ==> !Fires(After(a[..k], max), a[k], max)
  {
    hide Arrived, Fires, Received, Gathered, Tiles, Complete;
    if k > 0 {
      GatherAll(f, data, a, k - 1, max);
      AfterStep(a[..k], max);
      assert a[..k][..k - 1] == a[..k - 1] && a[..k - 1 + 1] == a[..k];
    } else {
      NothingGathered(data, max);
    }
    GatherNext(f, data, a, k, After(a[..k], max), max);
  }

  lemma NotFiring(e: Entry, p: Piece, max: nat)
    requires !Complete(Arrived(e, p, max))
    ensures !Fires(e, p, max)
  {
  }

  lemma AfterStep(a: seq<Piece>, max: nat)
    requires a != []
    ensures var e, p := After(a[..|a| - 1], max), a[|a| - 1];
      !Fires(e, p, max) ==> After(a, max) == Arrived(e, p, max)
  {
  }

  lemma NothingGathered(data: seq<Byte>, max: nat)
    ensures Gathered(After([], max), [], data)
  {
  }

  lemma CompleteAtLast(f: seq<Piece>, data: seq<Byte>, a: seq<Piece>, k: nat, max: nat)
    requires Tiles(f, data) && |data| <= 65535 && Arrival(a, f) && k + 1 == |a| <= max
    ensures Fires(After(a[..k], max), a[k], max) && Arrived(After(a[..k], max), a[k], max).list == f
  {
    GatherAll(f, data, a, k, max);
    assert a[..k + 1] == a;
    var e := Arrived(After(a[..k], max), a[k], max);
    TilesAscend(f, data);
    SameList(e.list, f);
    SumTiles(f, data, 0);
    assert f[0..] == f && a[0] in a;
    LastPiece(f, data);
    CountIs(a, k, max);
  }

  lemma CountIs(a: seq<Piece>, k: nat, max: nat)
    requires k < |a| <= max && After(a[..k], max).cnt == k && Complete(Arrived(After(a[..k], max), a[k], max))
    ensures Fires(After(a[..k], max), a[k], max)
  {
  }

  lemma LastPiece(f: seq<Piece>, data: seq<Byte>)
    requires Tiles(f, data) && f != []
    ensures !f[|f| - 1].more && f[|f| - 1] in f && f[0].off == 0
  {
    assert TileAt(f, data, |f| - 1) && TileAt(f, data, 0);
  }

  /** Written in order over any buffer, the pieces spell the datagram. */
  lemma {:induction false} WrittenTiles(f: seq<Piece>, data: seq<Byte>, buf: seq<Byte>, i: nat, done: nat)
    requires Tiles(f, data) && |data| <= |buf| && i <= |f|
    requires done == (if i == |f| then |data| else f[i].off) && done <= |data| && buf[..done] == data[..done]
    ensures (forall p :: p in f[i..] ==> p.End() <= |buf|) && Written(buf, f[i..])[..|data|] == data
    decreases |f| - i
  {
    forall p | p in f[i..] ensures p.End() <= |buf| {
      assert p in f;
      TilesApart(f, data, p, p);
    }
    if i < |f| {
      var p := f[i];
      assert TileAt(f, data, i) && (i + 1 < |f| ==> TileAt(f, data, i + 1));
      var next := buf[..p.off] + p.data + buf[p.End()..];
      assert next[..p.End()] == data[..p.End()];
      WrittenTiles(f, data, next, i + 1, p.End());
      assert f[i..][1..] == f[i + 1..];
    } else {
      assert data[..|data|] == data;
    }
  }

  /** What leaves the buffer: as many bytes as the pieces have. */
  function Assembled(buf: seq<Byte>, list: seq<Piece>): seq<Byte>
    requires forall p :: p in list ==> p.End() <= |buf|
    requires Sum(list) <= |buf|
  {
    Written(buf, list)[..Sum(list)]
  }

  lemma AssembledTiles(f: seq<Piece>, data: seq<Byte>, buf: seq<Byte>)
    requires Tiles(f, data) && |data| <= |buf|
    ensures (forall p :: p in f ==> p.End() <= |buf|) && Sum(f) == |data| && Assembled(buf, f) == data
  {
    SumTiles(f, data, 0);
    assert f[0..] == f;
    if f != [] {
      LastPiece(f, data);
    }
    WrittenTiles(f, data, buf, 0, 0);
  }

  /** Past the limit nothing is counted any more. */
  lemma {:induction false} Overflowing(f: seq<Piece>, data: seq<Byte>, a: seq<Piece>, k: nat, max: nat)
    requires Tiles(f, data) && |data| <= 65535 && Arrival(a, f) && k < |a| && max < |a|
    ensures !Fires(After(a[..k], max), a[k], max)
    ensures k >= max ==> After(a[..k], max).cnt == k
  {
    hide Arrived, Fires, Received, Gathered, Tiles, Complete, After;
    if k < max {
      GatherAll(f, data, a, k, max);
    } else {
      if k == 0 {
        NothingGathered(data, max);
        GatheredCount(After([], max), [], data);
        assert a[..0] == [];
      } else {
        Overflowing(f, data, a, k - 1, max);
        AfterStep(a[..k], max);
        assert a[..k][..k - 1] == a[..k - 1];
        if k == max {
          GatherAll(f, data, a, k - 1, max);
          GatheredCount(After(a[..k - 1], max), a[..k - 1], data);
        }
        ArrivedCount(After(a[..k - 1], max), a[k - 1], max);
      }
      Beyond(After(a[..k], max), a[k], max);
    }
  }

  lemma GatheredCount(e: Entry, a: seq<Piece>, data: seq<Byte>)
    requires Gathered(e, a, data)
    ensures e.cnt == |a|
  {
  }

  lemma ArrivedCount(e: Entry, p: Piece, max: nat)
    ensures Arrived(e, p, max).cnt == e.cnt + 1
  {
  }

  lemma Beyond(e: Entry, p: Piece, max: nat)
    requires e.cnt >= max
    ensures !Fires(e, p, max)
  {
  }

  /** Every order of arrival: the datagram completes exactly when its last missing piece comes, never
      earlier, and never at all if it has more pieces than the table takes.  The assembled bytes are
      then the datagram, whatever the buffer held before. */
  lemma Reassembles(f: seq<Piece>, data: seq<Byte>, a: seq<Piece>, k: nat, max: nat, buf: seq<Byte>)
    requires Tiles(f, data) && |data| <= 65535 <= |buf| && Arrival(a, f) && k < |a|
    ensures Fires(After(a[..k], max), a[k], max) <==> k + 1 == |a| <= max
    ensures var list := Arrived(After(a[..k], max), a[k], max).list;
      Fires(After(a[..k], max), a[k], max) ==>
        (forall p :: p in list ==> p.End() <= |buf|) && Sum(list) <= |buf| && Assembled(buf, list) == data
  {
    if max < |a| {
      Overflowing(f, data, a, k, max);
    } else if k + 1 < |a| {
      GatherAll(f, data, a, k, max);
    } else {
      CompleteAtLast(f, data, a, k, max);
      AssembledTiles(f, data, buf);
    }
  }

  /** What a fragmenter sent, in any order: it is put together again. */
  lemma CarriedReassembles(ps: seq<Piece>, data: seq<Byte>, cap: nat, a: seq<Piece>, k: nat, max: nat, buf: seq<Byte>)
    requires Carries(ps, data, cap) && |data| <= 65535 <= |buf| && Arrival(a, ps) && k < |a|
    ensures Fires(After(a[..k], max), a[k], max) <==> k + 1 == |a| <= max
    ensures var list := Arrived(After(a[..k], max), a[k], max).list;
      Fires(After(a[..k], max), a[k], max) ==>
        (forall p :: p in list ==> p.End() <= |buf|) && Sum(list) <= |buf| && Assembled(buf, list) == data
  {
    CarriesTiles(ps, data, cap);
    Reassembles(ps, data, a, k, max, buf);
  }

  /** createfragkey: the addresses and the identification of a fragment. */
  datatype Key = Key(src: nat, dst: nat, id: UInt32)

  datatype Arriving = Arriving(key: Key, piece: Piece)

  function KeyOf6(p: Packet6): Key {
    Key(p.src, p.dst, p.id)
  }

  /** Fragments as they come from the wire. */
  function Arrivals(wire: seq<Packet6>): (xs: seq<Arriving>)
    ensures |xs| == |wire|
  {
    seq(|wire|, i requires 0 <= i < |wire| => Arriving(KeyOf6(wire[i]), PieceOf6(wire[i])))
  }

  type Table = map<Key, Entry>

  function EntryOf(t: Table, k: Key): Entry {
    if k in t then t[k] else EMPTY
  }

  function Put(t: Table, x: Arriving, max: nat): Table {
    t[x.key := Received(EntryOf(t, x.key), x.piece, max)]
  }

  function TableAfter(t: Table, xs: seq<Arriving>, max: nat): Table {
    if xs == [] then t else Put(TableAfter(t, xs[..|xs| - 1], max), xs[|xs| - 1], max)
  }

  /** The pieces under one key, in the order they came. */
  function Under(xs: seq<Arriving>, k: Key): seq<Piece> {
    if xs == [] then []
    else Under(xs[..|xs| - 1], k) + if xs[|xs| - 1].key == k then [xs[|xs| - 1].piece] else []
  }

  /** Fragments of other datagrams do not matter. */
  lemma {:induction false} Interleaved(t: Table, xs: seq<Arriving>, k: Key, max: nat)
    requires k !in t
    ensures EntryOf(TableAfter(t, xs, max), k) == After(Under(xs, k), max)
  {
    if xs != [] {
      var last := |xs| - 1;
      Interleaved(t, xs[..last], k, max);
      if xs[last].key == k {
        assert Under(xs, k)[..|Under(xs, k)| - 1] == Under(xs[..last], k);
      } else {
        assert Under(xs, k) == Under(xs[..last], k);
      }
    }
  }

  lemma {:induction false} UnderPrefix(xs: seq<Arriving>, k: Key, n: nat)
    requires n <= |xs|
    ensures |Under(xs[..n], k)| <= |Under(xs, k)| && Under(xs[..n], k) == Under(xs, k)[..|Under(xs[..n], k)|]
  {
    if n == |xs| {
      assert xs[..n] == xs;
    } else {
      UnderPrefix(xs[..|xs| - 1], k, n);
      assert xs[..|xs| - 1][..n] == xs[..n];
    }
  }

  /** A datagram under a fresh key, its fragments in any order among those of others: the n-th arrival
      completes it exactly when it is its last fragment. */
  lemma ReassemblesAmongOthers(t: Table, xs: seq<Arriving>, k: Key, n: nat, f: seq<Piece>, data: seq<Byte>, max: nat,
      buf: seq<Byte>)
    requires k !in t && n < |xs| && xs[n].key == k && Arrival(Under(xs, k), f)
    requires Tiles(f, data) && |data| <= 65535 <= |buf|
    ensures var e := EntryOf(TableAfter(t, xs[..n], max), k);
      && (Fires(e, xs[n].piece, max) <==> Under(xs[..n + 1], k) == Under(xs, k) && |f| <= max)
      && (Fires(e, xs[n].piece, max) ==>
            var list := Arrived(e, xs[n].piece, max).list;
            (forall p :: p in list ==> p.End() <= |buf|) && Sum(list) <= |buf| && Assembled(buf, list) == data)
  {
    Interleaved(t, xs[..n], k, max);
    var a, i := Under(xs, k), |Under(xs[..n], k)|;
    assert xs[..n + 1][..n] == xs[..n];
    UnderPrefix(xs, k, n);
    UnderPrefix(xs, k, n + 1);
    assert Under(xs[..n + 1], k) == Under(xs[..n], k) + [xs[n].piece];
    assert a[..i + 1][i] == xs[n].piece;
    Reassembles(f, data, a, i, max, buf);
    ArrivalSize(a, f, data);
  }

  lemma {:induction false} SameSize(a: seq<Piece>, b: seq<Piece>)
    requires (forall i, j :: 0 <= i < j < |a| ==> a[i] != a[j]) && forall p :: p in a ==> p in b
    ensures |a| <= |b|
  {
    if a != [] {
      var p := a[0];
      assert p in a;
      var j :| 0 <= j < |b| && b[j] == p;
      var rest := b[..j] + b[j + 1..];
      forall q | q in a[1..] ensures q in rest {
        var i :| 0 <= i < |a[1..]| && a[1..][i] == q;
        assert a[i + 1] == q && q in a;
        var m :| 0 <= m < |b| && b[m] == q;
        assert m != j;
        assert rest[if m < j then m else m - 1] == q;
      }
      SameSize(a[1..], rest);
    }
  }

  lemma ArrivalSize(a: seq<Piece>, f: seq<Piece>, data: seq<Byte>)
    requires Tiles(f, data) && Arrival(a, f)
    ensures |a| == |f|
  {
    TilesAscend(f, data);
    SameSize(a, f);
    SameSize(f, a);
  }
}
