/** Rewriting a packet that leaves the customer side: update_network_header and update_transport_header of
    pktgen.c, as normal_packet_handl of pktup.c calls them. */
module Translation {
  import opened Tunnels
  import opened Keys
  import opened Checksum
  import opened TcpMss

  const IP6_HLEN := 40
  const IPPROTO_ICMP := 1
  const IPPROTO_TCP := 6
  const IPPROTO_UDP := 17

  /** A 16-bit field as the host reads it; a host is little-endian or not. */
  function Load16(bs: seq<Byte>, at: nat, little: bool): UInt16
    requires at + 2 <= |bs|
  {
    if little then Word(bs[at + 1], bs[at]) else Word(bs[at], bs[at + 1])
  }

  function Load32(bs: seq<Byte>, at: nat, little: bool): UInt32
    requires at + 4 <= |bs|
  {
    if little then 0x1_0000 * Load16(bs, at + 2, little) + Load16(bs, at, little)
    else 0x1_0000 * Load16(bs, at, little) + Load16(bs, at + 2, little)
  }

  method Store16(buf: array<Byte>, at: nat, w: UInt16, little: bool)
    requires at + 2 <= buf.Length
    modifies buf
    ensures buf[..] == PutWord(old(buf[..]), at, Host(w, little))
  {
    if little {
      buf[at], buf[at + 1] := Lo(w), Hi(w);
    } else {
      buf[at], buf[at + 1] := Hi(w), Lo(w);
    }
    SwapIs(w);
    assert little ==> Hi(Swap(w)) == Lo(w) && Lo(Swap(w)) == Hi(w);
  }

  /** htons and its inverse. */
  function Host(w: UInt16, little: bool): UInt16 {
    if little then Swap(w) else w
  }

  lemma HostIs(bs: seq<Byte>, at: nat, little: bool)
    requires at + 2 <= |bs|
    ensures Load16(bs, at, little) == Host(WordAt(bs, at), little)
  {
    SwapWord(bs[at], bs[at + 1]);
  }

  lemma SwapWord(hi: Byte, lo: Byte)
    ensures Swap(Word(hi, lo)) == Word(lo, hi)
  {
    var w: int := 256 * hi + lo;
    assert w / 256 == hi && w % 256 == lo;
  }

  lemma HalvesAre(bs: seq<Byte>, at: nat, little: bool)
    requires at + 4 <= |bs|
    ensures var x, i, j := Load32(bs, at, little), if little then at + 2 else at, if little then at else at + 2;
      x / 0x1_0000 == Host(WordAt(bs, i), little) && x % 0x1_0000 == Host(WordAt(bs, j), little)
  {
    HostIs(bs, at, little);
    HostIs(bs, at + 2, little);
  }

  lemma HostUpdate(c: UInt16, x: UInt16, y: UInt16, little: bool)
    ensures CsumUpdate(Host(c, little), Host(x, little), Host(y, little)) == Host(CsumUpdate(c, x, y), little)
    ensures Host(Host(c, little), little) == c
  {
    ByteOrder(c, x, y);
    SwapIs(c);
  }

  /** What the host computes, in either order of the halves of the address, is the same on the wire. */
  lemma HostThrice(c: UInt16, x: UInt16, a: UInt16, y: UInt16, b: UInt16, z: UInt16, p: UInt16, little: bool)
    ensures var first := if little then CsumUpdate(Host(c, little), Host(y, little), Host(b, little))
                         else CsumUpdate(Host(c, little), Host(x, little), Host(a, little));
      var second := if little then CsumUpdate(first, Host(x, little), Host(a, little))
                    else CsumUpdate(first, Host(y, little), Host(b, little));
      CsumUpdate(second, Host(z, little), Host(p, little)) == Host(UpdateThrice(c, x, a, y, b, z, p), little)
  {
    hide CsumUpdate, Host;
    UpdateOrder(c, x, a, y, b);
    HostUpdate(c, y, b, little);
    HostUpdate(CsumUpdate(c, y, b), x, a, little);
    HostUpdate(c, x, a, little);
    HostUpdate(CsumUpdate(c, x, a), y, b, little);
    HostUpdate(CsumUpdate(CsumUpdate(c, x, a), y, b), z, p, little);
  }

  lemma HostCheckIs(c: UInt16, bs: seq<Byte>, i: nat, cs: seq<Byte>, j: nat, z: UInt16, p: UInt16, little: bool)
    requires i + 4 <= |bs| && j + 4 <= |cs|
    ensures HostCheck(Host(c, little), Load32(bs, i, little), Load32(cs, j, little), Host(z, little), Host(p, little))
      == Host(UpdateThrice(c, WordAt(bs, i), WordAt(cs, j), WordAt(bs, i + 2), WordAt(cs, j + 2), z, p), little)
  {
    hide CsumUpdate, Swap, Load32, WordAt, UpdateThrice;
    HalvesAre(bs, i, little);
    HalvesAre(cs, j, little);
    HostThrice(c, WordAt(bs, i), WordAt(cs, j), WordAt(bs, i + 2), WordAt(cs, j + 2), z, p, little);
  }

  function HeaderLen(pkt: seq<Byte>): nat
    requires pkt != []
  {
    pkt[0] % 16 * 4
  }

  /** The three updates that both directions compute, on the numbers the host has read. */
  function HostCheck(c: UInt16, was: UInt32, new4: UInt32, port: UInt16, newport: UInt16): UInt16 {
    CsumUpdate(CsumUpdate(CsumUpdate(c, was / 0x1_0000, new4 / 0x1_0000), was % 0x1_0000, new4 % 0x1_0000),
               port, newport)
  }

  /** The checksum of the transport header at `at` after the source address and port of pkt have been
      replaced by pub and port. */
  function SourceCheck(bs: seq<Byte>, at: nat, pkt: seq<Byte>, pub: seq<Byte>, port: UInt16): UInt16
    requires at + 2 <= |bs| && 20 <= |pkt| && HeaderLen(pkt) + 2 <= |pkt| && |pub| == 4
  {
    UpdateThrice(WordAt(bs, at), WordAt(pkt, 12), WordAt(pub, 0), WordAt(pkt, 14), WordAt(pub, 2),
                 WordAt(pkt, HeaderLen(pkt)), port)
  }

  /** update_udp_header, with the checksum at 6 behind the start of the header, and update_tcp_header,
      with the checksum at 16; port is in network order already. */
  method UpdateHeader(out: array<Byte>, pkt: seq<Byte>, pub: seq<Byte>, at: nat, check: nat, port: UInt16, little: bool)
    requires 20 <= |pkt| && HeaderLen(pkt) + 2 <= |pkt| && |pub| == 4 && 2 <= check && at + check + 2 <= out.Length
    modifies out
    ensures var was, p := old(out[..]), Host(port, little);
      out[..] == PutWord(PutWord(was, at, p), at + check, SourceCheck(was, at + check, pkt, pub, p))
  {
    hide CsumUpdate, Swap, Load32, WordAt, PutWord, HostCheck;
    ghost var was, p := out[..], Host(port, little);
    Store16(out, at, port, little);
    HostIs(out[..], at + check, little);
    HostIs(pkt, HeaderLen(pkt), little);
    PutBefore(was, at, p, at + check);
    SwapIs(port);
    HostCheckIs(WordAt(was, at + check), pkt, 12, pub, 0, WordAt(pkt, HeaderLen(pkt)), p, little);
    var c := HostCheck(Load16(out[..], at + check, little), Load32(pkt, 12, little), Load32(pub, 0, little),
                       Load16(pkt, HeaderLen(pkt), little), port);
    Store16(out, at + check, c, little);
    SwapIs(SourceCheck(was, at + check, pkt, pub, p));
  }

  lemma PutBefore(bs: seq<Byte>, at: nat, w: UInt16, other: nat)
    requires at + 2 <= other && other + 2 <= |bs|
    ensures WordAt(PutWord(bs, at, w), other) == WordAt(bs, other)
  {
  }

  /** The 16-bit words of some bytes; a last odd byte is followed by a 0. */
  function Words(bs: seq<Byte>): (ws: seq<UInt16>)
    ensures |ws| == (|bs| + 1) / 2
  {
    seq((|bs| + 1) / 2, k requires 0 <= k < (|bs| + 1) / 2 =>
      Word(bs[2 * k], if 2 * k + 1 < |bs| then bs[2 * k + 1] else 0))
  }

  lemma WordsAt(bs: seq<Byte>, k: nat)
    requires k < (|bs| + 1) / 2
    ensures 2 * k < |bs| && Words(bs)[k] == Word(bs[2 * k], if 2 * k + 1 < |bs| then bs[2 * k + 1] else 0)
  {
  }

  lemma {:induction false} SumBelow(words: seq<UInt16>)
    ensures Sum(words) <= 0xFFFF * |words|
  {
    if words != [] {
      SumBelow(words[1..]);
    }
  }

  lemma WordsPut(bs: seq<Byte>, at: nat, w: UInt16)
    requires at + 2 <= |bs| && at % 2 == 0
    ensures Words(PutWord(bs, at, w)) == Words(bs)[at / 2 := w]
  {
    hide Words;
    var out := PutWord(bs, at, w);
    HiLo(w);
    forall k: nat | k < (|bs| + 1) / 2 ensures Words(out)[k] == Words(bs)[at / 2 := w][k] {
      WordsAt(bs, k);
      WordsAt(out, k);
    }
  }

  /** ip_send_check of the kernel, by section 3.1 of RFC 791. */
  method IpSendCheck(out: array<Byte>, at: nat) returns (check: UInt16)
    requires at + 20 <= out.Length && 20 <= HeaderLen(out[at..]) <= out.Length - at
    modifies out
    ensures out[..] == PutWord(old(out[..]), at + 10, check)
    ensures HeaderLen(out[at..]) == old(HeaderLen(out[at..])) && Verifies(Words(out[at..at + HeaderLen(out[at..])]))
  {
    hide Words, FoldNot, Hi, Lo, Verifies;
    ghost var was := out[..];
    var n := HeaderLen(out[at..]);
    out[at + 10], out[at + 11] := 0, 0;
    Zero();
    assert out[at..at + n] == PutWord(was[at..at + n], 10, 0);
    check := FoldNot(HeaderSum(out[at..at + n]));
    out[at + 10], out[at + 11] := Hi(check), Lo(check);
    HeaderChecks(was[at..at + n], check);
    assert out[at..at + n] == PutWord(was[at..at + n], 10, check);
    assert HeaderLen(out[at..]) == n;
  }

  lemma Zero()
    ensures Hi(0) == 0 && Lo(0) == 0
  {
  }

  function HeaderSum(h: seq<Byte>): UInt32
    requires |h| <= 60
  {
    SumBelow(Words(h));
    Sum(Words(h))
  }

  lemma HeaderChecks(h: seq<Byte>, check: UInt16)
    requires 20 <= |h| <= 60 && h[0] > 0 && check == FoldNot(HeaderSum(PutWord(h, 10, 0)))
    ensures Verifies(Words(PutWord(h, 10, check)))
  {
    hide FoldNot, Sum, Words;
    var zero, whole := PutWord(h, 10, 0), PutWord(h, 10, check);
    WordsPut(h, 10, 0);
    WordsPut(h, 10, check);
    SumReplace(Words(h), 5, 0);
    SumReplace(Words(h), 5, check);
    var k := FoldIs(HeaderSum(zero));
    SameMultiple(Sum(Words(whole)), 0, k);
    SumAtLeast(Words(whole), 0);
    FirstWord(whole);
  }

  lemma FirstWord(h: seq<Byte>)
    requires |h| >= 2
    ensures Words(h)[0] == 256 * (h[0] as int) + h[1] as int
  {
  }

  /** memcpy of an address. */
  method PutAddress(out: array<Byte>, new4: seq<Byte>, at: nat)
    requires |new4| == 4 && at + 4 <= out.Length
    modifies out
    ensures out[..] == old(out[..at]) + new4 + old(out[at + 4..])
  {
    forall i | 0 <= i < 4 {
      out[at + i] := new4[i];
    }
  }

  lemma SameLen(a: seq<Byte>, b: seq<Byte>)
    requires a != [] && b != [] && a[0] == b[0]
    ensures HeaderLen(a) == HeaderLen(b)
  {
  }

  /** update_network_header. */
  method UpdateNetworkHeader(out: array<Byte>, pub: seq<Byte>, at: nat) returns (check: UInt16)
    requires |pub| == 4 && at + 20 <= out.Length && 20 <= HeaderLen(out[at..]) <= out.Length - at
    modifies out
    ensures var was := old(out[..]);
      out[..] == PutWord(was[..at + 12] + pub + was[at + 16..], at + 10, check)
    ensures HeaderLen(out[at..]) == old(HeaderLen(out[at..])) && Verifies(Words(out[at..at + HeaderLen(out[at..])]))
  {
    hide HeaderLen, PutWord, Verifies, Words;
    ghost var was := out[..];
    PutAddress(out, pub, at + 12);
    SameLen(out[at..], was[at..]);
    check := IpSendCheck(out, at);
  }

  /** update_icmp_header: the identification is at 4 and the checksum at 2. */
  method UpdateIcmpHeader(out: array<Byte>, pkt: seq<Byte>, at: nat, port: UInt16, little: bool)
    requires pkt != [] && HeaderLen(pkt) + 6 <= |pkt| && at + 6 <= out.Length
    modifies out
    ensures var was, n, p := old(out[..]), HeaderLen(pkt), Host(port, little);
      out[..] == PutWord(PutWord(was, at + 4, p), at + 2, CsumUpdate(WordAt(pkt, n + 2), WordAt(pkt, n + 4), p))
  {
    hide CsumUpdate, Swap, WordAt, PutWord;
    var n, p := HeaderLen(pkt), Host(port, little);
    Store16(out, at + 4, port, little);
    HostIs(pkt, n + 2, little);
    HostIs(pkt, n + 4, little);
    HostIs(out[..], at + 4, little);
    SwapIs(port);
    HostUpdate(WordAt(pkt, n + 2), WordAt(pkt, n + 4), p, little);
    SwapIs(CsumUpdate(WordAt(pkt, n + 2), WordAt(pkt, n + 4), p));
    Store16(out, at + 2, CsumUpdate(Load16(pkt, n + 2, little), Load16(pkt, n + 4, little), port), little);
  }

  /** Where update_transport_header writes a port or an identification in the transport header, and where
      the checksum. */
  function PortAt(proto: Byte): nat {
    if proto == IPPROTO_ICMP then 4 else 0
  }

  function CheckAt(proto: Byte): nat {
    if proto == IPPROTO_TCP then 16 else if proto == IPPROTO_UDP then 6 else 2
  }

  predicate Known(proto: Byte) {
    proto == IPPROTO_TCP || proto == IPPROTO_UDP || proto == IPPROTO_ICMP
  }

  /** A packet with a whole IP header, and behind it the fields that the translation reads and writes. */
  predicate Whole(pkt: seq<Byte>) {
    && 20 <= |pkt| <= 65535 && 20 <= HeaderLen(pkt)
    && HeaderLen(pkt) + CheckAt(pkt[9]) + 2 <= |pkt| && HeaderLen(pkt) + PortAt(pkt[9]) + 2 <= |pkt|
  }

  /** The new checksum of the transport header of pkt. */
  function NewCheck(pkt: seq<Byte>, pub: seq<Byte>, port: UInt16): UInt16
    requires Whole(pkt) && |pub| == 4
  {
    var n := HeaderLen(pkt);
    if pkt[9] == IPPROTO_ICMP then CsumUpdate(WordAt(pkt, n + 2), WordAt(pkt, n + 4), port)
    else SourceCheck(pkt, n + CheckAt(pkt[9]), pkt, pub, port)
  }

  /** update_transport_header, on a copy of the packet that has its transport header at `at`. */
  method UpdateTransportHeader(out: array<Byte>, pkt: seq<Byte>, pub: seq<Byte>, at: nat, newport: UInt16, little: bool)
    requires Whole(pkt) && |pub| == 4 && at + |pkt| - HeaderLen(pkt) <= out.Length
    requires out[at..at + |pkt| - HeaderLen(pkt)] == pkt[HeaderLen(pkt)..]
    modifies out
    ensures var was, p := old(out[..]), pkt[9];
      out[..] ==
        if Known(p) then
          PutWord(PutWord(was, at + PortAt(p), newport), at + CheckAt(p), NewCheck(pkt, pub, newport))
        else was
  {
    hide CsumUpdate, Swap, PutWord;
    ghost var was := out[..];
    SwapIs(newport);
    SameWord(was, at, pkt, HeaderLen(pkt), CheckAt(pkt[9]));
    if pkt[9] == IPPROTO_TCP {
      UpdateHeader(out, pkt, pub, at, 16, Host(newport, little), little);
    } else if pkt[9] == IPPROTO_UDP {
      UpdateHeader(out, pkt, pub, at, 6, Host(newport, little), little);
    } else if pkt[9] == IPPROTO_ICMP {
      UpdateIcmpHeader(out, pkt, at, Host(newport, little), little);
    }
  }

  lemma SameWord(bs: seq<Byte>, at: nat, pkt: seq<Byte>, n: nat, i: nat)
    requires n <= |pkt| && at + |pkt| - n <= |bs| && bs[at..at + |pkt| - n] == pkt[n..] && n + i + 2 <= |pkt|
    ensures WordAt(bs, at + i) == WordAt(pkt, n + i)
  {
    assert bs[at + i] == bs[at..at + |pkt| - n][i] && bs[at + i + 1] == bs[at..at + |pkt| - n][i + 1];
  }

  /** The words a transport checksum covers: the pseudo header of RFC 768 and RFC 793, and the segment. */
  function SegmentWords(pkt: seq<Byte>): (ws: seq<UInt16>)
    requires Whole(pkt)
  {
    [WordAt(pkt, 12), WordAt(pkt, 14), WordAt(pkt, 16), WordAt(pkt, 18), pkt[9], |pkt| - HeaderLen(pkt)]
    + Words(pkt[HeaderLen(pkt)..])
  }

  predicate Within(i: int, at: nat) {
    at <= i < at + 2
  }

  /** out is pkt with the address at `at`, the words at `port` and `check`, and the checksum of the IP header
      replaced. */
  ghost predicate Differ(pkt: seq<Byte>, out: seq<Byte>, at: nat, port: nat, check: nat) {
    && |out| == |pkt|
    && forall i :: 0 <= i < |pkt| && !Within(i, 10) && !(at <= i < at + 4) && !Within(i, port) && !Within(i, check) ==>
         out[i] == pkt[i]
  }

  lemma SegmentWord(pkt: seq<Byte>, k: nat)
    requires Whole(pkt) && k < 6 + (|pkt| - HeaderLen(pkt) + 1) / 2
    ensures |SegmentWords(pkt)| == 6 + (|pkt| - HeaderLen(pkt) + 1) / 2
    ensures SegmentWords(pkt)[k] ==
            if k < 4 then WordAt(pkt, 12 + 2 * k)
            else if k == 4 then pkt[9]
            else if k == 5 then |pkt| - HeaderLen(pkt)
            else
              var i := HeaderLen(pkt) + 2 * (k - 6);
              Word(pkt[i], if i + 1 < |pkt| then pkt[i + 1] else 0)
  {
    hide Words, WordAt;
    if k >= 6 {
      WordsAt(pkt[HeaderLen(pkt)..], k - 6);
    }
  }

  /** The place of the checksum among those words. */
  function CheckWord(proto: Byte): nat {
    if proto == IPPROTO_TCP then 14 else 9
  }

  /** The words of a translated segment are those of Translate, and it verifies if the segment did: the
      source address is at 12 and the source port at 0, the destination at 16 and 2. */
  lemma SegmentTranslated(pkt: seq<Byte>, out: seq<Byte>, at: nat, port: nat, hi: UInt16, lo: UInt16, p: UInt16)
    requires (at == 12 && port == 0) || (at == 16 && port == 2)
    requires Whole(pkt) && (pkt[9] == IPPROTO_TCP || pkt[9] == IPPROTO_UDP)
    requires Differ(pkt, out, at, HeaderLen(pkt) + port, HeaderLen(pkt) + CheckAt(pkt[9]))
    requires WordAt(out, at) == hi && WordAt(out, at + 2) == lo && WordAt(out, HeaderLen(pkt) + port) == p
    requires var n, c := HeaderLen(pkt), CheckAt(pkt[9]);
      WordAt(out, n + c) == UpdateThrice(WordAt(pkt, n + c), WordAt(pkt, at), hi, WordAt(pkt, at + 2), lo,
                                         WordAt(pkt, n + port), p)
    ensures Whole(out) && HeaderLen(out) == HeaderLen(pkt)
    ensures var i := if port == 0 then 0 else 2;
      SegmentWords(out) ==
        Translate(SegmentWords(pkt), i, i + 1, if port == 0 then 6 else 7, CheckWord(pkt[9]), hi, lo, p)
    ensures Verifies(SegmentWords(out)) <==> Verifies(SegmentWords(pkt))
  {
    hide UpdateThrice, SegmentWords, Verifies, Differ, Whole, WordAt, HeaderLen, Translate;
    WordsDiffer(pkt, out, at, port);
    var i := if port == 0 then 0 else 2;
    var j := if port == 0 then 6 else 7;
    TranslateIs(SegmentWords(pkt), SegmentWords(out), i, i + 1, j, CheckWord(pkt[9]), hi, lo, p);
    TranslateVerifies(SegmentWords(pkt), i, i + 1, j, CheckWord(pkt[9]), hi, lo, p, 4);
  }

  lemma TranslateIs(ws: seq<UInt16>, vs: seq<UInt16>, hi: nat, lo: nat, port: nat, check: nat, a: UInt16, b: UInt16,
      p: UInt16)
    requires hi < |ws| && lo < |ws| && port < |ws| && check < |ws| == |vs|
    requires vs[hi] == a && vs[lo] == b && vs[port] == p
    requires hi != lo && hi != port && lo != port && check != hi && check != lo && check != port
    requires vs[check] == UpdateThrice(ws[check], ws[hi], a, ws[lo], b, ws[port], p)
    requires forall k :: 0 <= k < |ws| && k != hi && k != lo && k != port && k != check ==> vs[k] == ws[k]
    ensures vs == Translate(ws, hi, lo, port, check, a, b, p)
  {
    hide UpdateThrice;
  }

  lemma WordsDiffer(pkt: seq<Byte>, out: seq<Byte>, at: nat, port: nat)
    requires (at == 12 && port == 0) || (at == 16 && port == 2)
    requires Whole(pkt) && (pkt[9] == IPPROTO_TCP || pkt[9] == IPPROTO_UDP)
    requires Differ(pkt, out, at, HeaderLen(pkt) + port, HeaderLen(pkt) + CheckAt(pkt[9]))
    ensures 20 <= |pkt| && Whole(pkt) && Whole(out) && HeaderLen(out) == HeaderLen(pkt)
    ensures |SegmentWords(out)| == |SegmentWords(pkt)|
    ensures var i, j := if port == 0 then 0 else 2, if port == 0 then 6 else 7;
      var ws, vs, n, c, l := SegmentWords(pkt), SegmentWords(out), HeaderLen(pkt), CheckAt(pkt[9]), CheckWord(pkt[9]);
      && l < |ws| && ws[i] == WordAt(pkt, at) && vs[i] == WordAt(out, at) && ws[4] == pkt[9]
      && ws[i + 1] == WordAt(pkt, at + 2) && vs[i + 1] == WordAt(out, at + 2)
      && ws[j] == WordAt(pkt, n + port) && vs[j] == WordAt(out, n + port)
      && ws[l] == WordAt(pkt, n + c) && vs[l] == WordAt(out, n + c)
      && forall k :: 0 <= k < |ws| && k != i && k != i + 1 && k != j && k != l ==> vs[k] == ws[k]
  {
    hide SegmentWords, Words;
    var i, j, l := if port == 0 then 0 else 2, if port == 0 then 6 else 7, CheckWord(pkt[9]);
    SegmentWord(pkt, i);
    SegmentWord(out, i);
    SegmentWord(pkt, i + 1);
    SegmentWord(out, i + 1);
    SegmentWord(pkt, 4);
    SegmentWord(pkt, j);
    SegmentWord(out, j);
    SegmentWord(pkt, l);
    SegmentWord(out, l);
    forall k: nat | k < |SegmentWords(pkt)| && k != i && k != i + 1 && k != j && k != l
      ensures SegmentWords(out)[k] == SegmentWords(pkt)[k]
    {
      SegmentWord(pkt, k);
      SegmentWord(out, k);
    }
  }

  /** Two words put at places apart from each other. */
  lemma PutTwo(bs: seq<Byte>, i: nat, w: UInt16, j: nat, v: UInt16)
    requires i + 2 <= |bs| && j + 2 <= |bs| && (i + 2 <= j || j + 2 <= i)
    ensures var out := PutWord(PutWord(bs, i, w), j, v);
      && WordAt(out, i) == w && WordAt(out, j) == v
      && forall k :: 0 <= k < |bs| && !Within(k, i) && !Within(k, j) ==> out[k] == bs[k]
  {
    HiLo(w);
    HiLo(v);
  }

  /** What leaves has the new source in its words, and its checksum fits if the old one did. */
  lemma SourceTranslated(pkt: seq<Byte>, out: seq<Byte>, pub: seq<Byte>, newport: UInt16)
    requires Whole(pkt) && (pkt[9] == IPPROTO_TCP || pkt[9] == IPPROTO_UDP) && |pub| == 4
    requires Differ(pkt, out, 12, HeaderLen(pkt), HeaderLen(pkt) + CheckAt(pkt[9]))
    requires out[12..16] == pub && WordAt(out, HeaderLen(pkt)) == newport
    requires WordAt(out, HeaderLen(pkt) + CheckAt(pkt[9])) == NewCheck(pkt, pub, newport)
    ensures Whole(out) && HeaderLen(out) == HeaderLen(pkt)
    ensures SegmentWords(out) == Translate(SegmentWords(pkt), 0, 1, 6, CheckWord(pkt[9]),
                                           WordAt(pub, 0), WordAt(pub, 2), newport)
    ensures Verifies(SegmentWords(out)) <==> Verifies(SegmentWords(pkt))
  {
    hide UpdateThrice, SegmentWords, Verifies, Words;
    assert |out| == |pkt|;
    hide Differ;
    assert WordAt(out[12..16], 0) == WordAt(out, 12) && WordAt(out[12..16], 2) == WordAt(out, 14);
    SegmentTranslated(pkt, out, 12, 0, WordAt(pub, 0), WordAt(pub, 2), newport);
  }

  /** An echo message with a new identification keeps its one's-complement sum. */
  lemma EchoTranslated(msg: seq<Byte>, newport: UInt16)
    requires |msg| >= 6
    ensures var c := CsumUpdate(WordAt(msg, 2), WordAt(msg, 4), newport);
      Same16(Sum(Words(PutWord(PutWord(msg, 4, newport), 2, c))), Sum(Words(msg)))
  {
    hide CsumUpdate, Sum, Words, PutWord, Same16;
    var c := CsumUpdate(WordAt(msg, 2), WordAt(msg, 4), newport);
    UpdateBalances(WordAt(msg, 2), WordAt(msg, 4), newport);
    WordsPut(msg, 4, newport);
    WordsPut(PutWord(msg, 4, newport), 2, c);
    SumReplace(Words(msg), 2, newport);
    SumReplace(Words(msg)[2 := newport], 1, c);
    WordOf(msg, 1);
    WordOf(msg, 2);
    SumsSame(c, newport, WordAt(msg, 2), WordAt(msg, 4), Sum(Words(msg)[2 := newport][1 := c]), Sum(Words(msg)));
  }

  lemma WordOf(bs: seq<Byte>, k: nat)
    requires 2 * k + 2 <= |bs|
    ensures Words(bs)[k] == WordAt(bs, 2 * k)
  {
  }

  lemma SumsSame(c: int, p: int, c0: int, p0: int, x: int, y: int)
    requires Same16(c + p, c0 + p0) && x == y - c0 - p0 + c + p
    ensures Same16(x, y)
  {
  }

  lemma AfterNetwork(was: seq<Byte>, pkt: seq<Byte>, pub: seq<Byte>, check: UInt16)
    requires |was| == IP6_HLEN + |pkt| && was[IP6_HLEN..] == pkt && Whole(pkt) && HeaderLen(pkt) <= |pkt| && |pub| == 4
    ensures var at, n := IP6_HLEN, HeaderLen(pkt);
      var out := PutWord(was[..at + 12] + pub + was[at + 16..], at + 10, check);
      && out[at + n..at + n + |pkt| - n] == pkt[n..] && HeaderLen(out[at..]) == n
      && out[at + 12..at + 16] == pub && forall i :: 0 <= i < |pkt| && !(10 <= i < 16) ==> out[at + i] == pkt[i]
  {
    hide HeaderLen;
    var at, n := IP6_HLEN, HeaderLen(pkt);
    var mid := was[..at + 12] + pub + was[at + 16..];
    var out := PutWord(mid, at + 10, check);
    forall i | 0 <= i < |pkt| && !(10 <= i < 16) ensures out[at + i] == pkt[i] {
      assert was[at + i] == was[at..][i];
    }
    forall i | 0 <= i < |pkt| - n ensures out[at + n..at + n + |pkt| - n][i] == pkt[n..][i] {
      assert out[at + (n + i)] == pkt[n + i];
    }
    forall i | 0 <= i < 4 ensures out[at + 12..at + 16][i] == pub[i] {
      assert mid[at + 12 + i] == pub[i];
    }
    assert out[at..][0] == pkt[0];
    SameLen(out[at..], pkt);
  }

  /** The two words of the transport header leave the rest as it was. */
  lemma AfterTransport(was: seq<Byte>, pkt: seq<Byte>, p: UInt16, c: UInt16)
    requires |was| == IP6_HLEN + |pkt| && Whole(pkt) && Known(pkt[9])
    requires forall i :: 0 <= i < |pkt| && !(10 <= i < 16) ==> was[IP6_HLEN + i] == pkt[i]
    ensures var at, n, i, j := IP6_HLEN, HeaderLen(pkt), PortAt(pkt[9]), CheckAt(pkt[9]);
      var out := PutWord(PutWord(was, at + n + i, p), at + n + j, c);
      && Differ(pkt, out[at..], 12, n + i, n + j) && out[at..][12..16] == was[at + 12..at + 16]
      && out[at..][..n] == was[at..at + n]
      && WordAt(out[at..], n + i) == p && WordAt(out[at..], n + j) == c
  {
    hide PutWord, HeaderLen;
    var at, n, i, j := IP6_HLEN, HeaderLen(pkt), PortAt(pkt[9]), CheckAt(pkt[9]);
    PutTwo(was, at + n + i, p, at + n + j, c);
    var out := PutWord(PutWord(was, at + n + i, p), at + n + j, c);
    var sent := out[at..];
    forall k | 0 <= k < |pkt| && !Within(k, n + i) && !Within(k, n + j) ensures sent[k] == was[at + k] {
      assert sent[k] == out[at + k];
    }
    forall k | 0 <= k < n ensures sent[..n][k] == was[at..at + n][k] {
      assert sent[k] == was[at + k];
    }
    WordBehind(out, at, n + i);
    WordBehind(out, at, n + j);
  }

  lemma WordBehind(bs: seq<Byte>, at: nat, i: nat)
    requires at + i + 2 <= |bs|
    ensures WordAt(bs[at..], i) == WordAt(bs, at + i)
  {
  }

  lemma EchoAfter(was: seq<Byte>, pkt: seq<Byte>, pub: seq<Byte>, newport: UInt16)
    requires Whole(pkt) && pkt[9] == IPPROTO_ICMP && |pub| == 4 && |was| == IP6_HLEN + |pkt| && HeaderLen(pkt) <= |pkt|
    requires var at, n := IP6_HLEN, HeaderLen(pkt); was[at + n..at + n + |pkt| - n] == pkt[n..]
    ensures var at, n := IP6_HLEN, HeaderLen(pkt);
      var out := PutWord(PutWord(was, at + n + 4, newport), at + n + 2, NewCheck(pkt, pub, newport));
      Same16(Sum(Words(out[at..][n..])), Sum(Words(pkt[n..])))
  {
    hide CsumUpdate, Sum, Words, Same16, Hi, Lo, HeaderLen;
    var at, n := IP6_HLEN, HeaderLen(pkt);
    var msg, c := pkt[n..], CsumUpdate(WordAt(pkt, n + 2), WordAt(pkt, n + 4), newport);
    assert WordAt(msg, 2) == WordAt(pkt, n + 2) && WordAt(msg, 4) == WordAt(pkt, n + 4);
    EchoTranslated(msg, newport);
    var out := PutWord(PutWord(was, at + n + 4, newport), at + n + 2, c);
    assert out[at..][n..] == PutWord(PutWord(msg, 4, newport), 2, c);
  }

  method ConstructIpv6Payload(out: array<Byte>, pkt: seq<Byte>, at: nat)
    requires at + |pkt| == out.Length
    modifies out
    ensures out[at..] == pkt
  {
    forall i | 0 <= i < |pkt| {
      out[at + i] := pkt[i];
    }
  }

  /** construct_ipv6_payload, update_network_header and update_transport_header as normal_packet_handl calls
      them: behind the IPv6 header stands the packet with its source replaced. */
  method Rewritten(pkt: seq<Byte>, pub: seq<Byte>, newport: UInt16, little: bool)
    returns (out: array<Byte>, ghost mid: seq<Byte>)
    requires Whole(pkt) && HeaderLen(pkt) <= |pkt| && Known(pkt[9]) && |pub| == 4
    ensures fresh(out) && out.Length == IP6_HLEN + |pkt| == |mid|
    ensures var at, n := IP6_HLEN, HeaderLen(pkt);
      && mid[at + n..at + n + |pkt| - n] == pkt[n..] && mid[at + 12..at + 16] == pub
      && (forall i :: 0 <= i < |pkt| && !(10 <= i < 16) ==> mid[at + i] == pkt[i])
      && Verifies(Words(mid[at..at + n]))
      && out[..] == PutWord(PutWord(mid, at + n + PortAt(pkt[9]), newport), at + n + CheckAt(pkt[9]),
                            NewCheck(pkt, pub, newport))
  {
    hide CsumUpdate, PutWord, Words, Verifies, UpdateThrice, HeaderLen, NewCheck;
    out := new Byte[IP6_HLEN + |pkt|];
    ConstructIpv6Payload(out, pkt, IP6_HLEN);
    var n := HeaderLen(pkt);
    ghost var was := out[..];
    var check := UpdateNetworkHeader(out, pub, IP6_HLEN);
    AfterNetwork(was, pkt, pub, check);
    mid := out[..];
    UpdateTransportHeader(out, pkt, pub, IP6_HLEN + n, newport, little);
  }

  /** What this makes of the packet, on hosts of either byte order. */
  method NormalPacketHandl(pkt: seq<Byte>, pub: seq<Byte>, newport: UInt16, little: bool) returns (out: array<Byte>)
    requires Whole(pkt) && HeaderLen(pkt) <= |pkt| && Known(pkt[9]) && |pub| == 4
    ensures fresh(out) && out.Length == 40 + |pkt|
    ensures var sent, n := out[40..], pkt[0] % 16 * 4;
      var port := n + if pkt[9] == 1 then 4 else 0;
      var check := n + if pkt[9] == 6 then 16 else if pkt[9] == 17 then 6 else 2;
      && Differ(pkt, sent, 12, port, check) && sent[12..16] == pub && Verifies(Words(sent[..n]))
      && sent[port] as int * 256 + sent[port + 1] as int == newport
      && WordAt(sent, check) == NewCheck(pkt, pub, newport)
    ensures var sent := out[40..];
      pkt[9] != 1 ==> Whole(sent) && (Verifies(SegmentWords(sent)) <==> Verifies(SegmentWords(pkt)))
    ensures var n := HeaderLen(pkt);
      pkt[9] == 1 ==> Same16(Sum(Words(out[40..][n..])), Sum(Words(pkt[n..])))
  {
    hide CsumUpdate, PutWord, Words, Verifies, UpdateThrice, NewCheck, Differ, SegmentWords, Sum, Same16;
    ghost var mid;
    out, mid := Rewritten(pkt, pub, newport, little);
    AfterTransport(mid, pkt, newport, NewCheck(pkt, pub, newport));
    if pkt[9] == IPPROTO_ICMP {
      EchoAfter(mid, pkt, pub, newport);
    } else {
      SourceTranslated(pkt, out[IP6_HLEN..], pub, newport);
    }
  }
}
