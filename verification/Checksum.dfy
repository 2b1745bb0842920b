/** Incremental updates of the Internet checksum: csum_incremental_update of helper.c with its uses in
    pktgen.c, and fix_msscksum of packet.c. */
module Checksum {
  import opened Tunnels

  /** ~x & 0xffff. */
  function Not16(x: UInt16): UInt16 {
    0xFFFF - x
  }

  /** The two folding steps, and the low 16 bits of the complement. */
  function FoldNot(sum: nat): UInt16 {
    var once := sum / 0x1_0000 + sum % 0x1_0000;
    var twice := once + once / 0x1_0000;
    Not16(twice % 0x1_0000)
  }

  /** csum_incremental_update. */
  function CsumUpdate(oldCsum: UInt16, oldField: UInt16, newField: UInt16): UInt16 {
    FoldNot(Not16(oldCsum) + Not16(oldField) + newField)
  }

  /** a and b are the same one's-complement number. */
  predicate Same16(a: int, b: int) {
    (a - b) % 0xFFFF == 0
  }

  /** Folding and complementing turns a sum into its negative, in one's-complement arithmetic. */
  lemma FoldIs(sum: nat) returns (k: int)
    requires sum < 0x1_0000_0000
    ensures FoldNot(sum) + sum == 0xFFFF * k
  {
    var q := sum / 0x1_0000;
    var once := q + sum % 0x1_0000;
    var p := once / 0x1_0000;
    assert sum == once + q * 0xFFFF && once <= 0x1_FFFE && p <= 1;
    assert (once + p) % 0x1_0000 == once + p - p * 0x1_0000;
    k := 1 + p + q;
  }

  lemma SameMultiple(a: int, b: int, k: int)
    requires a - b == 0xFFFF * k
    ensures Same16(a, b)
  {
  }

  /** The new checksum makes up for the new field. */
  lemma UpdateBalances(oldCsum: UInt16, oldField: UInt16, newField: UInt16)
    ensures Same16(CsumUpdate(oldCsum, oldField, newField) + newField, oldCsum + oldField)
  {
    hide FoldNot, Same16;
    var k := FoldIs(Not16(oldCsum) + Not16(oldField) + newField);
    SameMultiple(CsumUpdate(oldCsum, oldField, newField) + newField, oldCsum + oldField, k - 2);
  }

  function Sum(words: seq<UInt16>): nat {
    if words == [] then 0 else words[0] + Sum(words[1..])
  }

  lemma {:induction false} SumReplace(words: seq<UInt16>, i: nat, x: UInt16)
    requires i < |words|
    ensures Sum(words[i := x]) == Sum(words) - words[i] + x
  {
    if i > 0 {
      SumReplace(words[1..], i - 1, x);
      assert words[i := x][1..] == words[1..][i - 1 := x];
    } else {
      assert words[i := x][1..] == words[1..];
    }
  }

  lemma {:induction false} SumAtLeast(words: seq<UInt16>, i: nat)
    requires i < |words|
    ensures Sum(words) >= words[i]
  {
    if i > 0 {
      SumAtLeast(words[1..], i - 1);
    }
  }

  /** What a receiver accepts: the words, with the checksum, fold to all ones. */
  predicate Verifies(words: seq<UInt16>) {
    Sum(words) > 0 && Same16(Sum(words), 0)
  }

  /** The three updates of the checksum for the fields x, y and z, which become a, b and p. */
  function UpdateThrice(c: UInt16, x: UInt16, a: UInt16, y: UInt16, b: UInt16, z: UInt16, p: UInt16): UInt16 {
    CsumUpdate(CsumUpdate(CsumUpdate(c, x, a), y, b), z, p)
  }

  /** The segment with its pseudo header after update_udp_header or update_tcp_header: the two halves of
      the address at hi and lo and the port at port are replaced, and the checksum at check is updated
      three times. */
  function Translate(words: seq<UInt16>, hi: nat, lo: nat, port: nat, check: nat, a: UInt16, b: UInt16,
      p: UInt16): seq<UInt16>
    requires hi < |words| && lo < |words| && port < |words| && check < |words|
  {
    words[hi := a][lo := b][port := p][check := UpdateThrice(words[check], words[hi], a, words[lo], b, words[port], p)]
  }

  /** Address and port translation keeps the one's-complement sum, so a segment that verified still
      does, as long as some word that is not replaced is not 0. */
  lemma TranslateVerifies(words: seq<UInt16>, hi: nat, lo: nat, port: nat, check: nat, a: UInt16, b: UInt16, p: UInt16,
      other: nat)
    requires hi < |words| && lo < |words| && port < |words| && check < |words| && other < |words|
    requires hi != lo && hi != port && lo != port && check != hi && check != lo && check != port
    requires other != hi && other != lo && other != port && other != check && words[other] != 0
    ensures Same16(Sum(Translate(words, hi, lo, port, check, a, b, p)), Sum(words))
    ensures Verifies(Translate(words, hi, lo, port, check, a, b, p)) <==> Verifies(words)
  {
    hide CsumUpdate, Same16, Sum;
    var c0: int := words[check];
    var c1: int := CsumUpdate(c0, words[hi], a);
    var c2: int := CsumUpdate(c1, words[lo], b);
    var c3: int := CsumUpdate(c2, words[port], p);
    UpdateBalances(c0, words[hi], a);
    UpdateBalances(c1, words[lo], b);
    UpdateBalances(c2, words[port], p);
    var w1 := words[hi := a];
    var w2 := w1[lo := b];
    var w3 := w2[port := p];
    SumReplace(words, hi, a);
    SumReplace(w1, lo, b);
    SumReplace(w2, port, p);
    SumReplace(w3, check, c3);
    SumAtLeast(words, other);
    SumAtLeast(w3[check := c3], other);
    AddSame(c1 + a, c0 + words[hi], c2 + b, c1 + words[lo], c3 + p, c2 + words[port], Sum(w3[check := c3]), Sum(words));
  }

  lemma AddSame(a1: int, b1: int, a2: int, b2: int, a3: int, b3: int, x: nat, y: nat)
    requires Same16(a1, b1) && Same16(a2, b2) && Same16(a3, b3) && x - y == a1 - b1 + (a2 - b2) + (a3 - b3)
    ensures Same16(x, y) && (Same16(x, 0) <==> Same16(y, 0))
  {
  }

  lemma FoldTop(sum: nat)
    requires sum <= 3 * 0xFFFF
    ensures FoldNot(sum) == 0xFFFF <==> sum == 0
  {
    var q := sum / 0x1_0000;
    var once := q + sum % 0x1_0000;
    var p := once / 0x1_0000;
    assert sum == once + q * 0xFFFF && once <= 0x1_0001 && p <= 1;
    assert (once + p) % 0x1_0000 == once + p - p * 0x1_0000;
  }

  /** An update gives all ones only from all ones, and otherwise 0 exactly when nothing is left of the sum. */
  lemma UpdateZero(c: UInt16, x: UInt16, y: UInt16)
    ensures CsumUpdate(c, x, y) == 0xFFFF <==> c == 0xFFFF && x == 0xFFFF && y == 0
    ensures CsumUpdate(c, x, y) == 0 <==> Same16(c + x, y) && !(c == 0xFFFF && x == 0xFFFF && y == 0)
  {
    hide FoldNot, Same16;
    FoldTop(Not16(c) + Not16(x) + y);
    UpdateBalances(c, x, y);
    SameEnds(CsumUpdate(c, x, y), y, c + x);
  }

  lemma SameEnds(u: UInt16, y: int, z: int)
    requires Same16(u + y, z)
    ensures Same16(z, y) <==> u == 0 || u == 0xFFFF
  {
  }

  lemma SameThrough(c: int, c1: int, x: int, a: int, y: int, b: int, z: int, p: int, c2: int)
    requires Same16(c1 + a, c + x) && Same16(c2 + b, c1 + y)
    ensures Same16(c2 + z, p) <==> Same16(c + x + y + z, a + b + p)
  {
  }

  /** A UDP checksum of 0 stands for no checksum, which the updates do not know: it stays 0 exactly if
      the replaced fields add up to the same one's-complement number as the new ones. */
  lemma NoChecksumKept(x: UInt16, a: UInt16, y: UInt16, b: UInt16, z: UInt16, p: UInt16)
    ensures UpdateThrice(0, x, a, y, b, z, p) == 0 <==> Same16(x + y + z, a + b + p)
  {
    hide CsumUpdate, Same16;
    var c1: int := CsumUpdate(0, x, a);
    var c2: int := CsumUpdate(c1, y, b);
    UpdateBalances(0, x, a);
    UpdateBalances(c1, y, b);
    UpdateZero(0, x, a);
    UpdateZero(c1, y, b);
    UpdateZero(c2, z, p);
    SameThrough(0, c1, x, a, y, b, z, p, c2);
  }

  /** The segment afterwards, word by word. */
  lemma TranslatedWords(words: seq<UInt16>, hi: nat, lo: nat, port: nat, check: nat, a: UInt16, b: UInt16, p: UInt16)
    requires hi < |words| && lo < |words| && port < |words| && check < |words|
    requires hi != lo && hi != port && lo != port && check != hi && check != lo && check != port
    ensures var out := Translate(words, hi, lo, port, check, a, b, p);
      && |out| == |words| && out[hi] == a && out[lo] == b && out[port] == p
      && forall i :: 0 <= i < |words| && i != hi && i != lo && i != port && i != check ==> out[i] == words[i]
  {
    hide UpdateThrice;
  }

  lemma Same16Equal(u: UInt16, v: UInt16)
    requires Same16(u, v) && (u == 0xFFFF <==> v == 0xFFFF)
    ensures u == v
  {
  }

  /** The order of two updates does not matter. */
  lemma UpdateOrder(c: UInt16, x: UInt16, a: UInt16, y: UInt16, b: UInt16)
    ensures CsumUpdate(CsumUpdate(c, x, a), y, b) == CsumUpdate(CsumUpdate(c, y, b), x, a)
  {
    hide FoldNot, Same16, CsumUpdate;
    var u, v := CsumUpdate(c, x, a), CsumUpdate(c, y, b);
    UpdateBalances(c, x, a);
    UpdateBalances(u, y, b);
    UpdateBalances(c, y, b);
    UpdateBalances(v, x, a);
    UpdateZero(c, x, a);
    UpdateZero(u, y, b);
    UpdateZero(c, y, b);
    UpdateZero(v, x, a);
    SameOrder(c, x, a, y, b, u, v, CsumUpdate(u, y, b), CsumUpdate(v, x, a));
    Same16Equal(CsumUpdate(u, y, b), CsumUpdate(v, x, a));
  }

  lemma SameOrder(c: int, x: int, a: int, y: int, b: int, u: int, v: int, r: int, s: int)
    requires Same16(u + a, c + x) && Same16(r + b, u + y) && Same16(v + b, c + y) && Same16(s + a, v + x)
    ensures Same16(r, s)
  {
  }

  /** The two bytes of a word exchanged. */
  function Swap(w: UInt16): UInt16 {
    256 * (w % 256) + w / 256
  }

  lemma SwapIs(w: UInt16)
    ensures Swap(w) == 256 * w - 0xFFFF * (w / 256) && Swap(Swap(w)) == w && (Swap(w) == 0xFFFF <==> w == 0xFFFF)
    ensures Swap(w) == 0 <==> w == 0
  {
  }

  lemma SameSwapped(c: UInt16, x: UInt16, u: UInt16, y: UInt16)
    requires Same16(u + y, c + x)
    ensures Same16(Swap(u) + Swap(y), Swap(c) + Swap(x))
  {
    SwapIs(c);
    SwapIs(x);
    SwapIs(u);
    SwapIs(y);
    var k := (u + y - (c + x)) / 0xFFFF;
    SameMultiple(Swap(u) + Swap(y), Swap(c) + Swap(x), 256 * k - u / 256 - y / 256 + c / 256 + x / 256);
  }

  /** Hosts of either byte order put the same two bytes into the checksum. */
  lemma ByteOrder(c: UInt16, x: UInt16, y: UInt16)
    ensures CsumUpdate(Swap(c), Swap(x), Swap(y)) == Swap(CsumUpdate(c, x, y))
  {
    hide FoldNot, Same16, CsumUpdate, Swap;
    var u, v := CsumUpdate(c, x, y), CsumUpdate(Swap(c), Swap(x), Swap(y));
    UpdateBalances(c, x, y);
    UpdateBalances(Swap(c), Swap(x), Swap(y));
    UpdateZero(c, x, y);
    UpdateZero(Swap(c), Swap(x), Swap(y));
    SwapIs(c);
    SwapIs(x);
    SwapIs(y);
    SwapIs(u);
    SameSwapped(c, x, u, y);
    SameTrans(v, Swap(u), Swap(y), Swap(c) + Swap(x));
    Same16Equal(v, Swap(u));
  }

  lemma SameTrans(v: int, u: int, y: int, z: int)
    requires Same16(v + y, z) && Same16(u + y, z)
    ensures Same16(v, u)
  {
  }

  /** Translating back with the old fields gives the old segment, except that a checksum of all ones
      becomes the other zero. */
  lemma TranslateBack(words: seq<UInt16>, hi: nat, lo: nat, port: nat, check: nat, a: UInt16, b: UInt16, p: UInt16)
    requires hi < |words| && lo < |words| && port < |words| && check < |words|
    requires hi != lo && hi != port && lo != port && check != hi && check != lo && check != port
    ensures var there := Translate(words, hi, lo, port, check, a, b, p);
      Translate(there, hi, lo, port, check, words[hi], words[lo], words[port])
        == words[check := if words[check] == 0xFFFF then 0 else words[check]]
  {
    hide CsumUpdate;
    ThriceBack(words[check], words[hi], a, words[lo], b, words[port], p);
  }

  lemma ThriceBack(c: UInt16, x: UInt16, a: UInt16, y: UInt16, b: UInt16, z: UInt16, p: UInt16)
    ensures UpdateThrice(UpdateThrice(c, x, a, y, b, z, p), a, x, b, y, p, z) == if c == 0xFFFF then 0 else c
  {
    hide CsumUpdate, Same16;
    var c1: UInt16 := CsumUpdate(c, x, a);
    var c2: UInt16 := CsumUpdate(c1, y, b);
    var c3: UInt16 := CsumUpdate(c2, z, p);
    var d1: UInt16 := CsumUpdate(c3, a, x);
    var d2: UInt16 := CsumUpdate(d1, b, y);
    UpdateBalances(c, x, a);
    UpdateBalances(c1, y, b);
    UpdateBalances(c2, z, p);
    UpdateBalances(c3, a, x);
    UpdateBalances(d1, b, y);
    UpdateBalances(d2, p, z);
    UpdateZero(c2, z, p);
    UpdateZero(c3, a, x);
    UpdateZero(d1, b, y);
    UpdateZero(d2, p, z);
    SameBack(c + x, c1 + a, c1 + y, c2 + b, c2 + z, c3 + p);
    SameBack(c3 + a, d1 + x, d1 + b, d2 + y, d2 + p, CsumUpdate(d2, p, z) + z);
    SameClose(c, CsumUpdate(d2, p, z), x + y + z, a + b + p, c3);
  }

  lemma SameBack(a: int, b: int, c: int, d: int, e: int, f: int)
    requires Same16(b, a) && Same16(d, c) && Same16(f, e)
    ensures Same16(b + d + f, a + c + e)
  {
  }

  lemma SameClose(c: UInt16, d: UInt16, s: int, t: int, m: int)
    requires Same16(m + t, c + s) && Same16(d + s, m + t) && d != 0xFFFF
    ensures d == if c == 0xFFFF then 0 else c
  {
  }
}
