/** Lowering the MSS option of a TCP SYN: patch_tcpmss and fix_msscksum of packet.c. */
module TcpMss {
  import opened Tunnels
  import opened Keys
  import opened Checksum

  const IPHDRLEN := 20
  const TCPHDRLEN := 20
  const IP6HDRLEN := 40
  const IPPROTO := 9
  const IPTCP := 6
  const TCPOFF := 32
  const TCPFLAGS := 33
  const TCPCKSUMH := 36
  const TCPOPTEOL := 0
  const TCPOPTNOP := 1
  const TCPOPTMSS := 2
  const TCPOPTMSSLEN := 4
  const TCPOPTMD5 := 19

  function Word(hi: Byte, lo: Byte): UInt16 {
    256 * hi + lo
  }

  function Hi(w: UInt16): Byte {
    w / 256
  }

  function Lo(w: UInt16): Byte {
    w % 256
  }

  lemma HiLo(w: UInt16)
    ensures 256 * (Hi(w) as int) + Lo(w) as int == w && Word(Hi(w), Lo(w)) == w
  {
  }

  function PutWord(bs: seq<Byte>, at: nat, w: UInt16): (out: seq<Byte>)
    requires at + 2 <= |bs|
    ensures |out| == |bs|
  {
    bs[at := Hi(w)][at + 1 := Lo(w)]
  }

  function WordAt(bs: seq<Byte>, at: nat): UInt16
    requires at + 2 <= |bs|
  {
    Word(bs[at], bs[at + 1])
  }

  /** The bytes after a word has been replaced and the checksum updated for it. */
  function Fixed(bs: seq<Byte>, psum: nat, pmss: nat, newmss: UInt16): seq<Byte>
    requires psum + 2 <= |bs| && pmss + 2 <= |bs|
  {
    PutWord(PutWord(bs, pmss, newmss), psum, CsumUpdate(WordAt(bs, psum), WordAt(bs, pmss), newmss))
  }

  /** (x >> 16) + (x & 0xffff). */
  function Fold(x: nat): nat {
    x / 0x1_0000 + x % 0x1_0000
  }

  /** x += x >> 16, and the low 16 bits of the complement. */
  function Complement(x: nat): UInt16 {
    0xFFFF - (x + x / 0x1_0000) % 0x1_0000
  }

  /** fix_msscksum. */
  method FixMssCksum(buf: array<Byte>, psum: nat, pmss: nat, newmss: UInt16)
    requires psum + 2 <= pmss && pmss + 2 <= buf.Length
    modifies buf
    ensures buf[..] == Fixed(old(buf[..]), psum, pmss, newmss)
  {
    hide CsumUpdate, Hi, Lo, Fold, Complement;
    ghost var was := buf[..];
    var sum: int := Word(buf[psum], buf[psum + 1]);
    sum := Not16(sum);
    var m: int := Word(buf[pmss], buf[pmss + 1]);
    FoldSmall(m);
    m := Fold(m);
    sum := sum + Not16(m);
    buf[pmss], buf[pmss + 1] := Hi(newmss), Lo(newmss);
    HiLo(newmss);
    m := Word(buf[pmss], buf[pmss + 1]);
    sum := sum + m;
    Folded(WordAt(was, psum), WordAt(was, pmss), newmss, sum);
    sum := Fold(sum);
    sum := Complement(sum);
    buf[psum], buf[psum + 1] := Hi(sum), Lo(sum);
  }

  lemma FoldSmall(x: UInt16)
    ensures Fold(x) == x
  {
  }

  lemma Folded(c: UInt16, m: UInt16, newmss: UInt16, sum: nat)
    requires sum == Not16(c) + Not16(m) + newmss
    ensures CsumUpdate(c, m, newmss) == Complement(Fold(sum))
  {
  }

  /** The one's-complement sum of bytes, two to a word and the first of each the high one; a last odd
      byte is followed by a 0. */
  function ByteSum(bs: seq<Byte>, high: bool): nat {
    if bs == [] then 0 else (if high then 256 * bs[0] else bs[0]) + ByteSum(bs[1..], !high)
  }

  /** What a byte at i adds to the sum when it changes by d. */
  function Change(i: nat, high: bool, d: int): int {
    if (i % 2 == 0) == high then 256 * d else d
  }

  lemma {:induction false} ByteSumPut(bs: seq<Byte>, high: bool, i: nat, x: Byte)
    requires i < |bs|
    ensures ByteSum(bs[i := x], high) == ByteSum(bs, high) + Change(i, high, x as int - bs[i] as int)
  {
    if i > 0 {
      ByteSumPut(bs[1..], !high, i - 1, x);
      assert bs[i := x][1..] == bs[1..][i - 1 := x];
    } else {
      assert bs[i := x][1..] == bs[1..];
    }
  }

  lemma WordSumPut(bs: seq<Byte>, at: nat, w: UInt16)
    requires at + 2 <= |bs|
    ensures ByteSum(PutWord(bs, at, w), true) - ByteSum(bs, true)
         == Change(at, true, Hi(w) as int - bs[at] as int) + Change(at + 1, true, Lo(w) as int - bs[at + 1] as int)
  {
    hide ByteSum, Change, Hi, Lo;
    ByteSumPut(bs, true, at, Hi(w));
    ByteSumPut(bs[at := Hi(w)], true, at + 1, Lo(w));
  }

  /** The checksum at an even place still fits after the rewrite exactly when the rewritten word is at an
      even place too, or its bytes have changed by amounts that are congruent modulo 257. */
  lemma FixKeepsSum(bs: seq<Byte>, psum: nat, pmss: nat, newmss: UInt16)
    requires psum + 2 <= pmss && pmss + 2 <= |bs| && psum % 2 == 0
    ensures Same16(ByteSum(Fixed(bs, psum, pmss, newmss), true), ByteSum(bs, true)) <==>
              pmss % 2 == 0
              || (Hi(newmss) as int - bs[pmss] as int - (Lo(newmss) as int - bs[pmss + 1] as int)) % 257 == 0
  {
    hide CsumUpdate, ByteSum, Same16, Hi, Lo, WordAt, PutWord;
    var c, oc, om := CsumUpdate(WordAt(bs, psum), WordAt(bs, pmss), newmss), WordAt(bs, psum), WordAt(bs, pmss);
    var mid := PutWord(bs, pmss, newmss);
    WordSum(bs, pmss, newmss);
    WordSum(mid, psum, c);
    PutApart(bs, pmss, newmss, psum);
    UpdateBalances(oc, om, newmss);
    SameBy(ByteSum(PutWord(mid, psum, c), true), ByteSum(bs, true), c as int + newmss as int, oc as int + om as int,
           if pmss % 2 == 0 then 0
             else Hi(newmss) as int - bs[pmss] as int - (Lo(newmss) as int - bs[pmss + 1] as int));
  }

  lemma PutApart(bs: seq<Byte>, at: nat, w: UInt16, other: nat)
    requires other + 2 <= at && at + 2 <= |bs|
    ensures WordAt(PutWord(bs, at, w), other) == WordAt(bs, other)
  {
  }

  /** A word at an even place counts for itself, one at an odd place with its bytes swapped. */
  lemma WordSum(bs: seq<Byte>, at: nat, w: UInt16)
    requires at + 2 <= |bs|
    ensures ByteSum(PutWord(bs, at, w), true) - ByteSum(bs, true) ==
            w as int - WordAt(bs, at) as int
            - if at % 2 == 0 then 0 else 255 * (Hi(w) as int - bs[at] as int - (Lo(w) as int - bs[at + 1] as int))
  {
    hide ByteSum, Hi, Lo, PutWord;
    WordSumPut(bs, at, w);
    HiLo(w);
  }

  lemma SameBy(x: int, y: int, a: int, b: int, d: int)
    requires Same16(a, b) && x - y == a - b - 255 * d
    ensures Same16(x, y) <==> d % 257 == 0
  {
    var k := (a - b) / 0xFFFF;
    assert a - b == 0xFFFF * k;
    var q, r := d / 257, d % 257;
    assert 255 * d == 0xFFFF * q + 255 * r;
    if r != 0 {
      assert x - y == 0xFFFF * (k - q - 1) + (0xFFFF - 255 * r);
    } else {
      assert x - y == 0xFFFF * (k - q);
    }
  }

  /** Malformed options, or a signature, stop the scan; otherwise it finds the first MSS option or none. */
  datatype Scan = Abort | NoMss | Mss(at: nat)

  /** The options from i to len: kind 0 ends them, kind 1 is a byte alone, any other has its length,
      counting kind and length, in the second byte. */
  function ScanFrom(bs: seq<Byte>, len: nat, i: nat): (r: Scan)
    requires len <= |bs|
    ensures r.Mss? ==> i <= r.at && r.at + 2 <= len && bs[r.at] == TCPOPTMSS && r.at + bs[r.at + 1] <= len
    decreases len - i
  {
    if i >= len || bs[i] == TCPOPTEOL then NoMss
    else if bs[i] == TCPOPTNOP then ScanFrom(bs, len, i + 1)
    else if i + 2 > len || bs[i + 1] < 2 || i + bs[i + 1] > len || bs[i] == TCPOPTMD5 then Abort
    else
      var rest := ScanFrom(bs, len, i + bs[i + 1]);
      if bs[i] == TCPOPTMSS && !rest.Abort? then Mss(i) else rest
  }

  /** The place of the MSS value that patch_tcpmss rewrites, in a SYN of len bytes without data. */
  function Target(bs: seq<Byte>, len: nat, mtu: UInt16): (at: nat)
    requires 40 <= |bs| && len <= |bs|
    ensures at != 0 ==> 42 <= at && at + 2 <= len
  {
    var hl := bs[TCPOFF] / 16 * 4;
    if bs[IPPROTO] != IPTCP || bs[TCPFLAGS] / 2 % 2 == 0 || hl + IPHDRLEN != len || hl <= TCPHDRLEN then 0
    else
      var scan := ScanFrom(bs, len, IPHDRLEN + TCPHDRLEN);
      if !scan.Mss? || bs[scan.at + 1] != TCPOPTMSSLEN then 0
      else if WordAt(bs, scan.at + 2) + IPHDRLEN + TCPHDRLEN <= mtu - IP6HDRLEN then 0
      else scan.at + 2
  }

  /** The MSS for a tunnel of this MTU, as a 16-bit number. */
  function NewMss(mtu: UInt16): UInt16 {
    (mtu - (IP6HDRLEN + IPHDRLEN + TCPHDRLEN)) % 0x1_0000
  }

  function Patched(bs: seq<Byte>, len: nat, mtu: UInt16): (out: seq<Byte>)
    requires 40 <= |bs| && len <= |bs|
    ensures |out| == |bs|
  {
    var at := Target(bs, len, mtu);
    if at == 0 then bs else Fixed(bs, TCPCKSUMH, at, NewMss(mtu))
  }

  /** patch_tcpmss. */
  method PatchTcpMss(buf: array<Byte>, len: nat, mtu: UInt16)
    requires 40 <= buf.Length && len <= buf.Length
    modifies buf
    ensures buf[..] == Patched(old(buf[..]), len, mtu)
  {
    hide Fixed, NewMss;
    ghost var bs := buf[..];
    if buf[IPPROTO] != IPTCP {
      return;
    }
    if buf[TCPFLAGS] / 2 % 2 == 0 {
      return;
    }
    var hl := buf[TCPOFF] as int / 16 * 4;
    if hl + IPHDRLEN != len {
      return;
    }
    if hl <= TCPHDRLEN {
      return;
    }
    var i, found := IPHDRLEN + TCPHDRLEN, 0;
    while i < len
      invariant 40 <= i <= len && buf[..] == bs
                && (found != 0 ==> 40 <= found && found + 2 <= len && bs[found] == TCPOPTMSS)
      invariant ScanFrom(bs, len, 40) == Seen(found, ScanFrom(bs, len, i))
      decreases len - i
    {
      if buf[i] == TCPOPTEOL {
        break;
      }
      if buf[i] == TCPOPTNOP {
        i := i + 1;
        continue;
      }
      if i + 2 > len {
        return;
      }
      if buf[i + 1] < 2 {
        return;
      }
      if i + buf[i + 1] as int > len {
        return;
      }
      if buf[i] == TCPOPTMD5 {
        return;
      }
      if buf[i] == TCPOPTMSS {
        if found == 0 {
          found := i;
        }
      }
      i := i + buf[i + 1] as int;
    }
    if found == 0 {
      return;
    }
    i := found;
    if buf[i + 1] != TCPOPTMSSLEN {
      return;
    }
    i := i + 2;
    var mss := Word(buf[i], buf[i + 1]);
    if mss as int + IPHDRLEN + TCPHDRLEN <= mtu - IP6HDRLEN {
      return;
    }
    FixMssCksum(buf, TCPCKSUMH, i, NewMss(mtu));
  }

  /** The outcome when an MSS option has been seen at `found`, or none if that is 0. */
  function Seen(found: nat, rest: Scan): Scan {
    if rest.Abort? || found == 0 then rest else Mss(found)
  }

  lemma PatchChanges(bs: seq<Byte>, len: nat, mtu: UInt16, i: nat)
    requires 40 <= |bs| && len <= |bs| && i < |bs|
    ensures var at := Target(bs, len, mtu);
      Patched(bs, len, mtu)[i] != bs[i] ==> at != 0 && (i == 36 || i == 37 || i == at || i == at + 1)
  {
  }

  /** A patched packet has the MSS that fits the tunnel, if the MTU has room for one at all. */
  lemma PatchedMss(bs: seq<Byte>, len: nat, mtu: UInt16)
    requires 40 <= |bs| && len <= |bs|
    ensures var at := Target(bs, len, mtu);
      at != 0 ==> WordAt(Patched(bs, len, mtu), at) == NewMss(mtu) && (NewMss(mtu) == mtu - 80 <==> mtu >= 80)
  {
    hide Target, CsumUpdate, NewMss, PutWord;
    var at := Target(bs, len, mtu);
    NewMssIs(mtu);
    if at != 0 {
      PutGet(bs, at, NewMss(mtu), TCPCKSUMH, CsumUpdate(WordAt(bs, TCPCKSUMH), WordAt(bs, at), NewMss(mtu)));
    }
  }

  lemma NewMssIs(mtu: UInt16)
    ensures NewMss(mtu) == mtu - 80 <==> mtu >= 80
  {
  }

  lemma PutGet(bs: seq<Byte>, at: nat, w: UInt16, other: nat, v: UInt16)
    requires other + 2 <= at && at + 2 <= |bs|
    ensures WordAt(PutWord(PutWord(bs, at, w), other, v), at) == w
  {
    var out := PutWord(PutWord(bs, at, w), other, v);
    assert out[at] == Hi(w) && out[at + 1] == Lo(w);
    HiLo(w);
  }

  /** The scan reads no byte that the patch changes. */
  lemma {:induction false} ScanSame(bs: seq<Byte>, cs: seq<Byte>, len: nat, i: nat, at: nat)
    requires len <= |bs| == |cs| && 40 <= i
    requires forall j :: 40 <= j < |bs| && j != at && j != at + 1 ==> cs[j] == bs[j]
    requires at + 2 <= len && (i >= at + 2 || (ScanFrom(bs, len, i) == Mss(at - 2) && bs[at - 1] == TCPOPTMSSLEN))
    ensures ScanFrom(cs, len, i) == ScanFrom(bs, len, i)
    decreases len - i
  {
    if i < len && bs[i] != TCPOPTEOL {
      if bs[i] == TCPOPTNOP {
        ScanSame(bs, cs, len, i + 1, at);
      } else if !(i + 2 > len || bs[i + 1] < 2 || i + bs[i + 1] > len || bs[i] == TCPOPTMD5) {
        ScanSame(bs, cs, len, i + bs[i + 1], at);
      }
    }
  }

  /** Patching a patched packet changes nothing, as long as the MTU has room for an MSS. */
  lemma PatchIdempotent(bs: seq<Byte>, len: nat, mtu: UInt16)
    requires 40 <= |bs| && len <= |bs| && mtu >= 80
    ensures Patched(Patched(bs, len, mtu), len, mtu) == Patched(bs, len, mtu)
  {
    hide Target, Fixed, NewMss, WordAt;
    var at, cs := Target(bs, len, mtu), Patched(bs, len, mtu);
    if at != 0 {
      forall j | 0 <= j < |bs| && j != 36 && j != 37 && j != at && j != at + 1 ensures cs[j] == bs[j] {
        PatchChanges(bs, len, mtu, j);
      }
      PatchedMss(bs, len, mtu);
      TargetGone(bs, cs, len, mtu, at);
    }
  }

  /** With the new MSS in its place, there is nothing more to patch. */
  lemma TargetGone(bs: seq<Byte>, cs: seq<Byte>, len: nat, mtu: UInt16, at: nat)
    requires 40 <= |bs| == |cs| && len <= |bs| && at == Target(bs, len, mtu) != 0
    requires forall j :: 0 <= j < |bs| && j != 36 && j != 37 && j != at && j != at + 1 ==> cs[j] == bs[j]
    requires WordAt(cs, at) == mtu - 80
    ensures Target(cs, len, mtu) == 0
  {
    hide ScanFrom, WordAt;
    ScanSame(bs, cs, len, 40, at);
  }

  /** The checksum of the TCP segment, which starts after 20 bytes of IP header, still fits exactly when
      the option is at an even place or the change does not tell. */
  lemma PatchKeepsSum(bs: seq<Byte>, len: nat, mtu: UInt16)
    requires 40 <= |bs| && len <= |bs|
    ensures var at := Target(bs, len, mtu);
      Same16(ByteSum(Patched(bs, len, mtu), true), ByteSum(bs, true)) <==>
        at % 2 == 0
        || (Hi(NewMss(mtu)) as int - bs[at] as int - (Lo(NewMss(mtu)) as int - bs[at + 1] as int)) % 257 == 0
  {
    hide ByteSum, Target, Fixed, NewMss;
    var at := Target(bs, len, mtu);
    if at != 0 {
      FixKeepsSum(bs, TCPCKSUMH, at, NewMss(mtu));
    }
  }
}
