/** The two-tree tunnel store: storage.c and the tunnel functions of packet.c. */
module TunnelStore {
  import opened Tunnels
  import opened BPlusTree
  import opened BPlusLookup
  import opened BPlusInsert
  import opened BPlusDelete
  import opened Keys

  type Records = map<nat, Tunnel>

  ghost function RecordsOf(m: Index): Records {
    map k | k in m :: m[k].record
  }

  function KeyOf(t: Tunnel): nat {
    KeyV4(t.extIP, t.startPort)
  }

  /** The tunnel under k in the IPv4 index is there under its own key and also in the IPv6 index. */
  ghost predicate Known4(r4: Records, r6: Records, k: nat)
    requires k in r4
  {
    KeyOf(r4[k]) == k && r4[k].client in r6 && r6[r4[k].client] == r4[k]
  }

  ghost predicate Known6(r4: Records, r6: Records, c: nat)
    requires c in r6
  {
    r6[c].client == c && KeyOf(r6[c]) in r4 && r4[KeyOf(r6[c])] == r6[c]
  }

  /** Both indexes hold the same tunnels, each under its own key. */
  ghost predicate Paired(r4: Records, r6: Records) {
    && (forall k {:trigger Known4(r4, r6, k)} :: k in r4 ==> Known4(r4, r6, k))
    && (forall c {:trigger Known6(r4, r6, c)} :: c in r6 ==> Known6(r4, r6, c))
  }

  /** What the user-space server is told when a tunnel has expired. */
  datatype Notice = Notice(client: nat, extIP: UInt32, startPort: UInt16)

  const WRAP := 0x1_0000_0000_0000_0000

  /** Subtraction of unsigned 64-bit numbers. */
  function Less(time: UInt64, tick: UInt32): UInt64 {
    if tick <= time then time - tick else time + WRAP - tick
  }

  class Storage {
    const v4: BPTree
    const v6: BPTree

    ghost predicate Apart()
      reads v4, v6
    {
      v4 != v6 && v4.nodes !! v6.nodes && v4.values !! v6.values
    }

    ghost predicate Valid()
      reads v4, v6, v4.nodes, v6.nodes, v4.values, v6.values
    {
      Apart() && v4.Valid() && v6.Valid()
    }

    ghost function R4(): Records
      reads v4
    {
      RecordsOf(v4.index)
    }

    ghost function R6(): Records
      reads v6
    {
      RecordsOf(v6.index)
    }

    /** InitStorage. */
    constructor ()
      ensures Valid() && R4() == map[] && R6() == map[]
      ensures fresh(v4) && fresh(v6) && fresh(v4.nodes) && fresh(v6.nodes)
    {
      v4 := new BPTree();
      v6 := new BPTree();
    }

    /** FindElement in the IPv4 index. */
    method FindV4(k: nat) returns (t: Tunnel?)
      requires v4.Valid()
      ensures t == if k in R4() then R4()[k] else null
    {
      t := Search(v4, k);
    }

    /** FindElement in the IPv6 index. */
    method FindV6(k: nat) returns (t: Tunnel?)
      requires v6.Valid()
      ensures t == if k in R6() then R6()[k] else null
    {
      t := Search(v6, k);
    }

    /** InsertElement in the IPv4 index: a key that is there already is left alone, and is no error. */
    method InsertV4(k: nat, t: Tunnel) returns (ret: int)
      requires Valid()
      modifies v4, v4.nodes, v4.values
      ensures Valid() && fresh(v4.nodes - old(v4.nodes)) && fresh(v4.values - old(v4.values))
      ensures ret == if old(v4.size) == MAXBPSIZE then -1 else 1
      ensures R4() == if ret == -1 || k in old(R4()) then old(R4()) else old(R4())[k := t]
    {
      hide BPTree.Valid;
      ret := BPlusInsert.Insert(v4, k, t);
      ret := if ret == -1 then -1 else 1;
    }

    /** InsertElement in the IPv6 index. */
    method InsertV6(k: nat, t: Tunnel) returns (ret: int)
      requires Valid()
      modifies v6, v6.nodes, v6.values
      ensures Valid() && fresh(v6.nodes - old(v6.nodes)) && fresh(v6.values - old(v6.values))
      ensures ret == if old(v6.size) == MAXBPSIZE then -1 else 1
      ensures R6() == if ret == -1 || k in old(R6()) then old(R6()) else old(R6())[k := t]
    {
      hide BPTree.Valid;
      ret := BPlusInsert.Insert(v6, k, t);
      ret := if ret == -1 then -1 else 1;
    }

    /** DeleteElement in the IPv4 index. */
    method DeleteV4(k: nat) returns (t: Tunnel?, ghost j: nat)
      requires Valid()
      modifies v4, v4.nodes, v4.values
      ensures Valid() && fresh(v4.nodes - old(v4.nodes)) && v4.values == old(v4.values)
      ensures R4() == old(R4()) - {k} && t == if k in old(R4()) then old(R4())[k] else null
      ensures Without(v4, k, if k in old(v4.index) then old(v4.index)[k] else null, j)
    {
      hide BPTree.Valid;
      t, j := BPlusDelete.Delete(v4, k);
    }

    /** DeleteElement in the IPv6 index. */
    method DeleteV6(k: nat) returns (t: Tunnel?)
      requires Valid()
      modifies v6, v6.nodes, v6.values
      ensures Valid() && fresh(v6.nodes - old(v6.nodes)) && v6.values == old(v6.values)
      ensures R6() == old(R6()) - {k} && t == if k in old(R6()) then old(R6())[k] else null
    {
      hide BPTree.Valid;
      ghost var j;
      t, j := BPlusDelete.Delete(v6, k);
    }

    /** TunnelTimeCheck: one tick off the lifetime of t, which is unsigned; at 0 the tunnel goes. */
    method TimeCheck(t: Tunnel, tick: UInt32) returns (ret: int, notice: seq<Notice>)
      requires Valid()
      modifies v4, v6, v4.nodes, v6.nodes, v4.values, v6.values, t`liveTime
      ensures Valid() && fresh(v4.nodes - old(v4.nodes)) && fresh(v6.nodes - old(v6.nodes))
      ensures v4.values == old(v4.values) && v6.values == old(v6.values)
      ensures t.liveTime == Less(old(t.liveTime), tick)
      ensures ret == if t.liveTime == 0 then -1 else 1
      ensures notice == if t.liveTime == 0 then [Notice(t.client, t.extIP, t.startPort)] else []
      ensures v4.index == if t.liveTime == 0 then old(v4.index) - {KeyOf(t)} else old(v4.index)
      ensures v6.index == if t.liveTime == 0 then old(v6.index) - {t.client} else old(v6.index)
    {
      hide BPTree.Valid, KeyOf, RecordsOf;
      t.liveTime := Less(t.liveTime, tick);
      if t.liveTime <= 0 {
        Drop(t);
        return -1, [Notice(t.client, t.extIP, t.startPort)];
      }
      return 1, [];
    }

    /** Takes t out of both indexes, as TunnelTimeCheck and ClearStorage do. */
    method Drop(t: Tunnel)
      requires Valid()
      modifies v4, v6, v4.nodes, v6.nodes, v4.values, v6.values
      ensures Valid() && fresh(v4.nodes - old(v4.nodes)) && fresh(v6.nodes - old(v6.nodes))
      ensures v4.values == old(v4.values) && v6.values == old(v6.values)
      ensures v4.index == old(v4.index) - {KeyOf(t)} && v6.index == old(v6.index) - {t.client}
    {
      hide BPTree.Valid, KeyOf, RecordsOf;
      ghost var j;
      var gone;
      gone, j := BPlusDelete.Delete(v4, KeyOf(t));
      gone, j := BPlusDelete.Delete(v6, t.client);
    }

    /** CreateTunnel. */
    method Create(t: Tunnel) returns (ret: int)
      requires Valid()
      modifies v4, v6, v4.nodes, v6.nodes, v4.values, v6.values
      ensures Valid()
      ensures ret == if KeyOf(t) !in old(R4()) && old(v4.size) != MAXBPSIZE && old(v6.size) != MAXBPSIZE then 1 else -1
      ensures ret == -1 ==> R4() == old(R4()) && R6() == old(R6())
      ensures ret == 1 ==> R4() == old(R4())[KeyOf(t) := t]
      ensures ret == 1 ==> R6() == if t.client in old(R6()) then old(R6()) else old(R6())[t.client := t]
      ensures old(Paired(R4(), R6())) ==> (Paired(R4(), R6()) <==> ret == -1 || t.client !in old(R6()))
    {
      hide Storage.R4; hide Storage.R6; hide BPTree.Valid; hide Paired, KeyOf;
      ghost var r4, r6 := R4(), R6();
      if Paired(r4, r6) && KeyOf(t) !in r4 {
        CreatePaired(r4, r6, t);
      }
      ret := CreateBoth(t);
    }

    /** The steps of CreateTunnel. */
    method CreateBoth(t: Tunnel) returns (ret: int)
      requires Valid()
      modifies v4, v6, v4.nodes, v6.nodes, v4.values, v6.values
      ensures Valid()
      ensures ret == if KeyOf(t) !in old(R4()) && old(v4.size) != MAXBPSIZE && old(v6.size) != MAXBPSIZE then 1 else -1
      ensures ret == -1 ==> R4() == old(R4()) && R6() == old(R6())
      ensures ret == 1 ==> R4() == old(R4())[KeyOf(t) := t]
      ensures ret == 1 ==> R6() == if t.client in old(R6()) then old(R6()) else old(R6())[t.client := t]
    {
      hide Storage.R4; hide Storage.R6; hide BPTree.Valid;
      var key4 := KeyOf(t);
      var found := FindV4(key4);
      if found != null {
        return -1;
      }
      ret := InsertV4(key4, t);
      if ret < 0 {
        return -1;
      }
      ret := InsertV6(t.client, t);
      if ret < 0 {
        var gone, j := DeleteV4(key4);
      }
    }

    /** DeleteTunnel. */
    method Destroy(client: nat) returns (ret: int, port: nat, extIP: nat)
      requires Valid()
      modifies v4, v6, v4.nodes, v6.nodes, v4.values, v6.values
      ensures Valid()
      ensures ret == if client in old(R6()) then 1 else -1
      ensures ret == -1 ==> R4() == old(R4()) && R6() == old(R6())
      ensures ret == 1 ==> var t := old(R6())[client];
        && port == t.startPort && extIP == t.extIP
        && R6() == old(R6()) - {client} && R4() == old(R4()) - {KeyOf(t)}
      ensures old(Paired(R4(), R6())) ==> Paired(R4(), R6())
    {
      hide Storage.R4; hide Storage.R6; hide BPTree.Valid; hide Paired;
      ghost var r4, r6 := R4(), R6();
      if Paired(r4, r6) && client in r6 {
        DestroyPaired(r4, r6, client);
      }
      var t := FindV6(client);
      if t == null {
        return -1, 0, 0;
      }
      var gone := DeleteV6(client);
      port, extIP := t.startPort, t.extIP;
      ghost var j;
      gone, j := DeleteV4(KeyV4(extIP, port));
      ret := 1;
    }
  }

  /** A successful create keeps the two indexes equal exactly when the client was new to the IPv6 one. */
  lemma CreatePaired(r4: Records, r6: Records, t: Tunnel)
    requires Paired(r4, r6) && KeyOf(t) !in r4
    ensures Paired(r4[KeyOf(t) := t], if t.client in r6 then r6 else r6[t.client := t]) <==> t.client !in r6
  {
    var s4, s6 := r4[KeyOf(t) := t], if t.client in r6 then r6 else r6[t.client := t];
    if t.client in r6 {
      assert Known6(r4, r6, t.client);
      assert !Known4(s4, s6, KeyOf(t));
    } else {
      forall k | k in s4 ensures Known4(s4, s6, k) {
        assert k in r4 ==> Known4(r4, r6, k);
      }
      forall c | c in s6 ensures Known6(s4, s6, c) {
        assert c in r6 ==> Known6(r4, r6, c);
      }
    }
  }

  /** Deleting a tunnel from both indexes keeps them equal. */
  lemma DestroyPaired(r4: Records, r6: Records, c: nat)
    requires Paired(r4, r6) && c in r6
    ensures Paired(r4 - {KeyOf(r6[c])}, r6 - {c})
  {
    var s4, s6 := r4 - {KeyOf(r6[c])}, r6 - {c};
    assert Known6(r4, r6, c);
    forall k | k in s4 ensures Known4(s4, s6, k) {
      assert Known4(r4, r6, k);
    }
    forall d | d in s6 ensures Known6(s4, s6, d) {
      assert Known6(r4, r6, d);
    }
  }
}
