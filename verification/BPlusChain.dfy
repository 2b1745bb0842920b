/** The chain of values below the B+ tree: the splices of _bpinsert and _bpdelete in bplus.c. */
module BPlusChain {
  import opened BPlusTree

  ghost function Inserted(c: seq<BPValue>, j: nat, v: BPValue): seq<BPValue>
    requires j <= |c|
  {
    seq(|c| + 1, i requires 0 <= i <= |c| => if i < j then c[i] else if i == j then v else c[i - 1])
  }

  ghost function Removed(c: seq<BPValue>, j: nat): seq<BPValue>
    requires j < |c|
  {
    seq(|c| - 1, i requires 0 <= i < |c| - 1 => if i < j then c[i] else c[i + 1])
  }

  /** v goes in front of its successor, the value at position j. */
  method LinkBefore(t: BPTree, v: BPValue, succ: BPValue, ghost j: nat)
    requires Ascending(t.chain) && Chained(t.header, t.chain) && v !in t.chain
    requires j < |t.chain| && t.chain[j] == succ
    modifies t`header, t`chain, t.chain, v
    ensures t.chain == Inserted(old(t.chain), j, v) && Chained(t.header, t.chain)
  {
    ghost var c := t.chain;
    assert LinkedAt(c, j) && (j > 0 ==> LinkedAt(c, j - 1));
    v.prev := succ.prev;
    if v.prev != null {
      succ.prev.next := v;
    } else {
      t.header := v;
    }
    v.next := succ;
    succ.prev := v;
    t.chain := Inserted(c, j, v);
    forall i | 0 <= i < |t.chain| ensures LinkedAt(t.chain, i) {
      var k := if i <= j then i else i - 1;
      assert old(LinkedAt(c, k));
      Apart(c, k, j);
      Apart(c, k, j - 1);
    }
  }

  /** Values at different positions are different objects. */
  lemma Apart(c: seq<BPValue>, i: int, j: int)
    requires Ascending(c)
    ensures 0 <= i < |c| && 0 <= j < |c| && i != j ==> c[i] != c[j]
  {
    assert 0 <= i < j < |c| ==> Before(c, i, j);
    assert 0 <= j < i < |c| ==> Before(c, j, i);
  }

  /** v goes behind its predecessor, the value at position j, which is not the last. */
  method LinkAfter(t: BPTree, v: BPValue, pred: BPValue, ghost j: nat)
    requires Ascending(t.chain) && Chained(t.header, t.chain) && v !in t.chain
    requires j + 1 < |t.chain| && t.chain[j] == pred
    modifies t`chain, t.chain, v
    ensures t.chain == Inserted(old(t.chain), j + 1, v) && Chained(t.header, t.chain)
  {
    ghost var c := t.chain;
    assert LinkedAt(c, j);
    pred.next.prev := v;
    v.next := pred.next;
    pred.next := v;
    v.prev := pred;
    t.chain := Inserted(c, j + 1, v);
    forall i | 0 <= i < |t.chain| ensures LinkedAt(t.chain, i) {
      var k := if i <= j then i else i - 1;
      assert old(LinkedAt(c, k));
      Apart(c, k, j);
      Apart(c, k, j + 1);
    }
  }

  /** v goes behind the last value. */
  method LinkLast(t: BPTree, v: BPValue, last: BPValue)
    requires Ascending(t.chain) && Chained(t.header, t.chain) && v !in t.chain
    requires 0 < |t.chain| && t.chain[|t.chain| - 1] == last
    modifies t`chain, t.chain, v
    ensures t.chain == Inserted(old(t.chain), |old(t.chain)|, v) && Chained(t.header, t.chain)
  {
    ghost var c := t.chain;
    v.prev := last;
    v.next := null;
    last.next := v;
    t.chain := Inserted(c, |c|, v);
    forall i | 0 <= i < |t.chain| ensures LinkedAt(t.chain, i) {
      assert old(i < |c| ==> LinkedAt(c, i));
      Apart(c, i, |c| - 1);
    }
  }

  /** v, the value at position j and not the only one, leaves the chain; its own pointers stay. */
  method Unlink(t: BPTree, v: BPValue, ghost j: nat)
    requires Ascending(t.chain) && Chained(t.header, t.chain)
    requires 1 < |t.chain| && j < |t.chain| && t.chain[j] == v
    modifies t`header, t`chain, t.chain
    ensures t.chain == Removed(old(t.chain), j) && Chained(t.header, t.chain)
    ensures v.next == old(v.next) && v.prev == old(v.prev)
  {
    ghost var c := t.chain;
    assert LinkedAt(c, j);
    if v.prev == null {
      t.header := v.next;
      v.next.prev := null;
    } else {
      v.prev.next := v.next;
      if v.next != null {
        v.next.prev := v.prev;
      }
    }
    t.chain := Removed(c, j);
    forall i | 0 <= i < |t.chain| ensures LinkedAt(t.chain, i) {
      var k := if i < j then i else i + 1;
      assert old(LinkedAt(c, k));
      Apart(c, k, j - 1);
      Apart(c, k, j + 1);
      Apart(c, k, j);
    }
  }

  /** Position of an indexed value in the chain. */
  lemma Position(chain: seq<BPValue>, m: Index, k: nat) returns (j: nat)
    requires Listing(chain, m) && k in m
    ensures j < |chain| && chain[j] == m[k] && chain[j].key == k
  {
    assert FoundIn(chain, m, k);
    j :| 0 <= j < |chain| && chain[j] == m[k];
  }

  lemma IndexListed(chain: seq<BPValue>, m: Index, k: nat)
    requires Listing(chain, m)
    ensures k in m ==> m[k] in chain
  {
    assert k in m ==> FoundIn(chain, m, k);
  }

  lemma ListedIndex(chain: seq<BPValue>, m: Index, i: nat)
    requires Listing(chain, m)
    ensures i < |chain| ==> chain[i].key in m && m[chain[i].key] == chain[i]
  {
    assert i < |chain| ==> ListedAt(chain, m, i);
  }

  lemma NotListed(chain: seq<BPValue>, m: Index, v: BPValue)
    requires Listing(chain, m) && v.key !in m
    ensures v !in chain
  {
    forall i | 0 <= i < |chain| ensures chain[i] != v {
      ListedIndex(chain, m, i);
    }
  }

  lemma ListingInsert(chain: seq<BPValue>, m: Index, v: BPValue, j: nat)
    requires Listing(chain, m) && v.key !in m && j <= |chain|
    requires j > 0 ==> chain[j - 1].key < v.key
    requires j < |chain| ==> v.key < chain[j].key
    ensures Listing(Inserted(chain, j, v), m[v.key := v])
  {
    var c, m' := Inserted(chain, j, v), m[v.key := v];
    AscendingInsert(chain, v, j);
    forall i | 0 <= i < |c| ensures ListedAt(c, m', i) {
      if i != j {
        assert ListedAt(chain, m, if i < j then i else i - 1);
      }
    }
    forall k | k in m'.Keys ensures FoundIn(c, m', k) {
      if k == v.key {
        assert c[j] == v;
      } else {
        var i := Position(chain, m, k);
        assert c[if i < j then i else i + 1] == chain[i];
      }
    }
  }

  lemma AscendingInsert(chain: seq<BPValue>, v: BPValue, j: nat)
    requires Ascending(chain) && j <= |chain|
    requires j > 0 ==> chain[j - 1].key < v.key
    requires j < |chain| ==> v.key < chain[j].key
    ensures Ascending(Inserted(chain, j, v))
  {
    var c := Inserted(chain, j, v);
    forall i, k | 0 <= i < k < |c| ensures Before(c, i, k) {
      assert i < j - 1 ==> Before(chain, i, j - 1);
      assert k > j + 1 ==> Before(chain, j, k - 1);
      var i', k' := if i < j then i else i - 1, if k < j then k else k - 1;
      assert 0 <= i' < k' < |chain| ==> Before(chain, i', k');
    }
  }

  lemma ListingRemove(chain: seq<BPValue>, m: Index, j: nat)
    requires Listing(chain, m) && j < |chain|
    ensures Listing(Removed(chain, j), m - {chain[j].key})
  {
    var c, m' := Removed(chain, j), m - {chain[j].key};
    forall i, k | 0 <= i < k < |c| ensures Before(c, i, k) {
      assert Before(chain, if i < j then i else i + 1, if k < j then k else k + 1);
    }
    forall i | 0 <= i < |c| ensures ListedAt(c, m', i) {
      var l := if i < j then i else i + 1;
      assert ListedAt(chain, m, l);
      assert i < j ==> Before(chain, l, j);
      assert i >= j ==> Before(chain, j, l);
    }
    forall k | k in m'.Keys ensures FoundIn(c, m', k) {
      var i := Position(chain, m, k);
      assert c[if i < j then i else i - 1] == chain[i];
    }
  }

  /** The chain has one value for each key of the index. */
  lemma {:induction false} ListingSize(chain: seq<BPValue>, m: Index)
    requires Listing(chain, m)
    ensures |m| == |chain|
    decreases |chain|
  {
    if chain == [] {
      forall k: nat ensures k !in m {
        IndexListed(chain, m, k);
      }
      assert m.Keys == {};
    } else {
      var last := |chain| - 1;
      ListingRemove(chain, m, last);
      assert ListedAt(chain, m, last);
      assert Removed(chain, last) == chain[..last];
      ListingSize(chain[..last], m - {chain[last].key});
      assert m.Keys == (m - {chain[last].key}).Keys + {chain[last].key};
    }
  }

  /** What adding v to the chain and to the index comes to. */
  twostate predicate Added(t: BPTree, v: BPValue)
    reads t, t.values
  {
    && t.Listed() && t.index == old(t.index)[v.key := v]
    && |t.chain| == |old(t.chain)| + 1 && t.values == old(t.values) + {v}
  }

  method AddBefore(t: BPTree, v: BPValue, succ: BPValue, ghost j: nat)
    requires t.Listed() && v.key !in t.index
    requires j < |t.chain| && t.chain[j] == succ && v.key < succ.key && (j > 0 ==> t.chain[j - 1].key < v.key)
    modifies t`header, t`chain, t`index, t`values, t.values, v
    ensures Added(t, v)
  {
    ListingInsert(t.chain, t.index, v, j);
    NotListed(t.chain, t.index, v);
    LinkBefore(t, v, succ, j);
    t.index := t.index[v.key := v];
    t.values := t.values + {v};
  }

  method AddAfter(t: BPTree, v: BPValue, pred: BPValue, ghost j: nat)
    requires t.Listed() && v.key !in t.index
    requires j + 1 < |t.chain| && t.chain[j] == pred && pred.key < v.key < t.chain[j + 1].key
    modifies t`chain, t`index, t`values, t.values, v
    ensures Added(t, v)
  {
    ListingInsert(t.chain, t.index, v, j + 1);
    NotListed(t.chain, t.index, v);
    LinkAfter(t, v, pred, j);
    t.index := t.index[v.key := v];
    t.values := t.values + {v};
  }

  method AddLast(t: BPTree, v: BPValue, last: BPValue)
    requires t.Listed() && v.key !in t.index
    requires 0 < |t.chain| && t.chain[|t.chain| - 1] == last && last.key < v.key
    modifies t`chain, t`index, t`values, t.values, v
    ensures Added(t, v)
  {
    ListingInsert(t.chain, t.index, v, |t.chain|);
    NotListed(t.chain, t.index, v);
    LinkLast(t, v, last);
    t.index := t.index[v.key := v];
    t.values := t.values + {v};
  }

  /** Takes the value under k out of the chain and the index. */
  method TakeOut(t: BPTree, v: BPValue) returns (ghost j: nat)
    requires t.Listed() && 1 < |t.chain| && v.key in t.index && t.index[v.key] == v
    modifies t`header, t`chain, t`index, t.values
    ensures t.Listed() && t.index == old(t.index) - {v.key} && |t.chain| + 1 == |old(t.chain)|
    ensures j < |old(t.chain)| && old(t.chain)[j] == v && t.chain == Removed(old(t.chain), j)
    ensures v.next == old(v.next) && v.prev == old(v.prev)
  {
    j := Position(t.chain, t.index, v.key);
    ghost var c := t.chain;
    Unlink(t, v, j);
    ListingRemove(c, t.index, j);
    t.index := t.index - {v.key};
  }
}
