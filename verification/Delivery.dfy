/** Rewriting a packet that comes in at the customer side: nathandle and pktchecksum of pktdown.c. */
module Delivery {
  import opened Tunnels
  import opened Keys
  import opened Checksum
  import opened TcpMss
  import opened Translation

  /** Where nathandle writes the old port or identification, counted from the end of a header of 20 bytes. */
  function DestAt(proto: Byte): nat {
    if proto == IPPROTO_ICMP then 4 else 2
  }

  /** The checksum of the transport header after pktchecksum. */
  function DestCheck(bs: seq<Byte>, pub: seq<Byte>, newport: UInt16, oldport: UInt16): UInt16
    requires Whole(bs) && |pub| == 4
  {
    var c := WordAt(bs, HeaderLen(bs) + CheckAt(bs[9]));
    if bs[9] == IPPROTO_ICMP then CsumUpdate(c, newport, oldport)
    else UpdateThrice(c, WordAt(pub, 0), WordAt(bs, 16), WordAt(pub, 2), WordAt(bs, 18), newport, oldport)
  }

  /** The checksum of the IP header after pktchecksum. */
  function AddressCheck(bs: seq<Byte>, pub: seq<Byte>): UInt16
    requires 20 <= |bs| && |pub| == 4
  {
    CsumUpdate(CsumUpdate(WordAt(bs, 10), WordAt(pub, 0), WordAt(bs, 16)), WordAt(pub, 2), WordAt(bs, 18))
  }

  lemma HostTwice(c: UInt16, bs: seq<Byte>, i: nat, cs: seq<Byte>, j: nat, little: bool)
    requires i + 4 <= |bs| && j + 4 <= |cs|
    ensures var x, y := Load32(bs, i, little), Load32(cs, j, little);
      CsumUpdate(CsumUpdate(Host(c, little), x / 0x1_0000, y / 0x1_0000), x % 0x1_0000, y % 0x1_0000)
        == Host(CsumUpdate(CsumUpdate(c, WordAt(bs, i), WordAt(cs, j)), WordAt(bs, i + 2), WordAt(cs, j + 2)), little)
  {
    hide CsumUpdate, Host, Load32, WordAt;
    HalvesAre(bs, i, little);
    HalvesAre(cs, j, little);
    var x, a, y, b := WordAt(bs, i), WordAt(cs, j), WordAt(bs, i + 2), WordAt(cs, j + 2);
    UpdateOrder(c, x, a, y, b);
    HostUpdate(c, y, b, little);
    HostUpdate(CsumUpdate(c, y, b), x, a, little);
    HostUpdate(c, x, a, little);
    HostUpdate(CsumUpdate(c, x, a), y, b, little);
  }

  /** pktchecksum. */
  method PktChecksum(buf: array<Byte>, pub: seq<Byte>, newport: UInt16, oldport: UInt16, little: bool)
    requires Whole(buf[..]) && Known(buf[9]) && |pub| == 4
    modifies buf
    ensures var was := old(buf[..]);
      buf[..] == PutWord(PutWord(was, 10, AddressCheck(was, pub)), HeaderLen(was) + CheckAt(was[9]),
                         DestCheck(was, pub, newport, oldport))
  {
    hide CsumUpdate, Swap, Load32, WordAt, PutWord, HostCheck, Load16;
    ghost var was := buf[..];
    var n, proto := HeaderLen(buf[..]), buf[9];
    var nsrc, daddr := Load32(pub, 0, little), Load32(buf[..], 16, little);
    var c := Load16(buf[..], 10, little);
    HostIs(was, 10, little);
    HostTwice(WordAt(was, 10), pub, 0, was, 16, little);
    c := CsumUpdate(c, nsrc / 0x1_0000, daddr / 0x1_0000);
    c := CsumUpdate(c, nsrc % 0x1_0000, daddr % 0x1_0000);
    SwapIs(AddressCheck(was, pub));
    Store16(buf, 10, c, little);
    var at, old16, new16 := n + CheckAt(proto), Host(newport, little), Host(oldport, little);
    PutBefore(was, 10, AddressCheck(was, pub), at);
    HostIs(buf[..], at, little);
    SwapIs(DestCheck(was, pub, newport, oldport));
    if proto == IPPROTO_ICMP {
      HostUpdate(WordAt(was, at), newport, oldport, little);
      Store16(buf, at, CsumUpdate(Load16(buf[..], at, little), old16, new16), little);
    } else {
      HostCheckIs(WordAt(was, at), pub, 0, was, 16, newport, oldport, little);
      Store16(buf, at, HostCheck(Load16(buf[..], at, little), nsrc, daddr, old16, new16), little);
    }
  }

  /** What nathandle writes before pktchecksum. */
  function Readdressed(was: seq<Byte>, client: seq<Byte>, oldport: UInt16): (b: seq<Byte>)
    requires Whole(was) && |client| == 4
    ensures |b| == |was|
  {
    PutWord(was[..16] + client + was[20..], 20 + DestAt(was[9]), oldport)
  }

  lemma ReaddressedKeeps(was: seq<Byte>, client: seq<Byte>, oldport: UInt16)
    requires Whole(was) && |client| == 4
    ensures var b, d := Readdressed(was, client, oldport), 20 + DestAt(was[9]);
      && Whole(b) && b[9] == was[9] && HeaderLen(b) == HeaderLen(was)
      && WordAt(b, d) == oldport && b[16..20] == client
      && forall i :: 0 <= i < |was| && !(16 <= i < 20) && !Within(i, d) ==> b[i] == was[i]
  {
    HiLo(oldport);
  }

  function Out(was: seq<Byte>, pub: seq<Byte>, client: seq<Byte>, newport: UInt16, oldport: UInt16): (out: seq<Byte>)
    requires Whole(was) && |client| == 4 && |pub| == 4
    ensures |out| == |was|
  {
    ReaddressedKeeps(was, client, oldport);
    var b := Readdressed(was, client, oldport);
    PutWord(PutWord(b, 10, AddressCheck(b, pub)), HeaderLen(b) + CheckAt(b[9]), DestCheck(b, pub, newport, oldport))
  }

  /** The bytes of the delivered packet. */
  lemma Delivered(was: seq<Byte>, pub: seq<Byte>, client: seq<Byte>, newport: UInt16, oldport: UInt16)
    requires Whole(was) && Known(was[9]) && |pub| == 4 && |client| == 4
    ensures var out, n := Out(was, pub, client, newport, oldport), HeaderLen(was);
      var d, c := DestAt(was[9]), CheckAt(was[9]);
      && |out| == |was| && out[16..20] == client
      && WordAt(out, n + d) == (if n == 20 then oldport else WordAt(was, n + d))
      && (n == 20 ==> Differ(was, out, 16, 20 + d, 20 + c))
  {
    assert HeaderLen(was) % 4 == 0;
    hide CsumUpdate, UpdateThrice, HeaderLen, AddressCheck, DestCheck, PutWord, Readdressed;
    ReaddressedKeeps(was, client, oldport);
    var b := Readdressed(was, client, oldport);
    var n, c := HeaderLen(was), CheckAt(was[9]);
    PutTwo(b, 10, AddressCheck(b, pub), n + c, DestCheck(b, pub, newport, oldport));
  }

  lemma ClientWords(bs: seq<Byte>, client: seq<Byte>)
    requires |client| == 4 && 20 <= |bs| && bs[16..20] == client
    ensures WordAt(bs, 16) == WordAt(client, 0) && WordAt(bs, 18) == WordAt(client, 2)
  {
    assert WordAt(bs[16..20], 0) == WordAt(bs, 16) && WordAt(bs[16..20], 2) == WordAt(bs, 18);
  }

  /** The two checksums of a packet that was for pub and newport. */
  lemma ChecksAre(was: seq<Byte>, pub: seq<Byte>, client: seq<Byte>, newport: UInt16, oldport: UInt16)
    requires Whole(was) && Known(was[9]) && |pub| == 4 && |client| == 4 && HeaderLen(was) == 20
    requires was[16..20] == pub && WordAt(was, 20 + DestAt(was[9])) == newport
    ensures var out, d, c := Out(was, pub, client, newport, oldport), DestAt(was[9]), CheckAt(was[9]);
      && WordAt(out, 16) == WordAt(client, 0) && WordAt(out, 18) == WordAt(client, 2)
      && WordAt(out, 10) == CsumUpdate(CsumUpdate(WordAt(was, 10), WordAt(was, 16), WordAt(client, 0)),
                                       WordAt(was, 18), WordAt(client, 2))
      && WordAt(out, 20 + c) ==
          if was[9] == IPPROTO_ICMP then CsumUpdate(WordAt(was, 20 + c), WordAt(was, 20 + d), oldport)
          else UpdateThrice(WordAt(was, 20 + c), WordAt(was, 16), WordAt(client, 0), WordAt(was, 18), WordAt(client, 2),
                            WordAt(was, 20 + d), oldport)
  {
    hide CsumUpdate, UpdateThrice, PutWord, Readdressed, HeaderLen;
    ReaddressedKeeps(was, client, oldport);
    var b := Readdressed(was, client, oldport);
    ClientWords(was, pub);
    ClientWords(b, client);
    assert WordAt(b, 10) == WordAt(was, 10) && WordAt(b, 20 + CheckAt(was[9])) == WordAt(was, 20 + CheckAt(was[9]));
    PutTwo(b, 10, AddressCheck(b, pub), 20 + CheckAt(was[9]), DestCheck(b, pub, newport, oldport));
  }

  /** The IP header verifies if it did. */
  lemma HeaderUpdated(h: seq<Byte>, a: UInt16, b: UInt16)
    requires |h| == 20 && h[0] > 0
    ensures var c := CsumUpdate(CsumUpdate(WordAt(h, 10), WordAt(h, 16), a), WordAt(h, 18), b);
      Verifies(Words(PutWord(PutWord(PutWord(h, 16, a), 18, b), 10, c))) <==> Verifies(Words(h))
  {
    hide CsumUpdate, Sum, Words, PutWord, Same16, WordAt;
    var c0: int, x: int, y: int := WordAt(h, 10), WordAt(h, 16), WordAt(h, 18);
    var c1: int := CsumUpdate(c0, x, a);
    var c: int := CsumUpdate(c1, y, b);
    UpdateBalances(c0, x, a);
    UpdateBalances(c1, y, b);
    var ws := Words(h);
    WordsPut(h, 16, a);
    WordsPut(PutWord(h, 16, a), 18, b);
    WordsPut(PutWord(PutWord(h, 16, a), 18, b), 10, c);
    WordOf(h, 5);
    WordOf(h, 8);
    WordOf(h, 9);
    FirstWord(h);
    SumReplace(ws, 8, a);
    SumReplace(ws[8 := a], 9, b);
    SumReplace(ws[8 := a][9 := b], 5, c);
    SumAtLeast(ws, 0);
    SumAtLeast(ws[8 := a][9 := b][5 := c], 0);
    SameSelf();
    AddSame(c1 + a, c0 + x, c + b, c1 + y, 0, 0, Sum(ws[8 := a][9 := b][5 := c]), Sum(ws));
  }

  lemma SameSelf()
    ensures Same16(0, 0)
  {
  }

  lemma HeaderDelivered(was: seq<Byte>, pub: seq<Byte>, client: seq<Byte>, newport: UInt16, oldport: UInt16)
    requires Whole(was) && Known(was[9]) && |pub| == 4 && |client| == 4 && HeaderLen(was) == 20
    requires was[16..20] == pub && WordAt(was, 20 + DestAt(was[9])) == newport
    ensures Verifies(Words(Out(was, pub, client, newport, oldport)[..20])) <==> Verifies(Words(was[..20]))
  {
    hide Out, CsumUpdate, Verifies, Words, WordAt, HeaderLen;
    Delivered(was, pub, client, newport, oldport);
    ChecksAre(was, pub, client, newport, oldport);
    DifferFront(was, Out(was, pub, client, newport, oldport), DestAt(was[9]), CheckAt(was[9]));
    hide Differ, Whole;
    var h, out := was[..20], Out(was, pub, client, newport, oldport);
    HeaderUpdated(h, WordAt(client, 0), WordAt(client, 2));
    HeaderBytes(was, out, WordAt(client, 0), WordAt(client, 2));
  }

  lemma DifferFront(was: seq<Byte>, out: seq<Byte>, d: nat, c: nat)
    requires Whole(was) && Differ(was, out, 16, 20 + d, 20 + c)
    ensures forall i :: 0 <= i < 16 && !Within(i, 10) ==> out[i] == was[i]
    ensures 20 <= |was| == |out| && was[0] > 0
  {
  }

  lemma HeaderBytes(was: seq<Byte>, out: seq<Byte>, a: UInt16, b: UInt16)
    requires 20 <= |was| == |out| && WordAt(out, 16) == a && WordAt(out, 18) == b
    requires forall i :: 0 <= i < 16 && !Within(i, 10) ==> out[i] == was[i]
    ensures WordAt(was[..20], 10) == WordAt(was, 10) && WordAt(was[..20], 16) == WordAt(was, 16)
    ensures WordAt(was[..20], 18) == WordAt(was, 18)
    ensures out[..20] == PutWord(PutWord(PutWord(was[..20], 16, a), 18, b), 10, WordAt(out, 10))
  {
    WordBytes(out, 16);
    WordBytes(out, 18);
    WordBytes(out, 10);
  }

  lemma WordBytes(bs: seq<Byte>, at: nat)
    requires at + 2 <= |bs|
    ensures Hi(WordAt(bs, at)) == bs[at] && Lo(WordAt(bs, at)) == bs[at + 1]
  {
    var w := 256 * (bs[at] as int) + bs[at + 1] as int;
    assert w / 256 == bs[at] && w % 256 == bs[at + 1];
  }

  /** A segment or datagram that was for pub and newport is for the client and the old port, and verifies
      if it did. */
  lemma SegmentDelivered(was: seq<Byte>, pub: seq<Byte>, client: seq<Byte>, newport: UInt16, oldport: UInt16)
    requires Whole(was) && (was[9] == IPPROTO_TCP || was[9] == IPPROTO_UDP) && |pub| == 4 && |client| == 4
    requires HeaderLen(was) == 20 && was[16..20] == pub && WordAt(was, 22) == newport
    ensures var out := Out(was, pub, client, newport, oldport);
      && Whole(out)
      && SegmentWords(out) == Translate(SegmentWords(was), 2, 3, 7, CheckWord(was[9]), WordAt(client, 0),
                                        WordAt(client, 2), oldport)
      && (Verifies(SegmentWords(out)) <==> Verifies(SegmentWords(was)))
  {
    hide Out, UpdateThrice, SegmentWords, Verifies, Words;
    Delivered(was, pub, client, newport, oldport);
    ChecksAre(was, pub, client, newport, oldport);
    var out := Out(was, pub, client, newport, oldport);
    SegmentTranslated(was, out, 16, 2, WordAt(client, 0), WordAt(client, 2), oldport);
  }

  lemma EchoDelivered(was: seq<Byte>, pub: seq<Byte>, client: seq<Byte>, newport: UInt16, oldport: UInt16)
    requires Whole(was) && was[9] == IPPROTO_ICMP && |pub| == 4 && |client| == 4
    requires HeaderLen(was) == 20 && was[16..20] == pub && WordAt(was, 24) == newport
    ensures Same16(Sum(Words(Out(was, pub, client, newport, oldport)[20..])), Sum(Words(was[20..])))
  {
    hide Out, Same16, Sum, Words, CsumUpdate;
    Delivered(was, pub, client, newport, oldport);
    ChecksAre(was, pub, client, newport, oldport);
    var out, msg := Out(was, pub, client, newport, oldport), was[20..];
    EchoTranslated(msg, oldport);
    WordBehind(was, 20, 2);
    WordBehind(was, 20, 4);
    WordBytes(out, 22);
    WordBytes(out, 24);
    assert out[20..] == PutWord(PutWord(msg, 4, oldport), 2, WordAt(out, 22));
  }

  method Rewrite(buf: array<Byte>, pub: seq<Byte>, client: seq<Byte>, newport: UInt16, oldport: UInt16, little: bool)
    requires Whole(buf[..]) && Known(buf[9]) && |pub| == 4 && |client| == 4
    modifies buf
    ensures Whole(Readdressed(old(buf[..]), client, oldport))
    ensures buf[..] == Out(old(buf[..]), pub, client, newport, oldport)
  {
    assert 20 + DestAt(buf[9]) + 2 <= buf.Length;
    hide CsumUpdate, Swap, PutWord, UpdateThrice, Whole, AddressCheck, DestCheck, HeaderLen, CheckAt, WordAt;
    ghost var was := buf[..];
    var proto := buf[9];
    PutAddress(buf, client, 16);
    SwapIs(oldport);
    Store16(buf, 20 + DestAt(proto), Host(oldport, little), little);
    ReaddressedKeeps(was, client, oldport);
    assert buf[..] == Readdressed(was, client, oldport);
    PktChecksum(buf, pub, newport, oldport, little);
  }

  /** nathandle for a session that was found: the client's address, as it stands on the wire, and the old
      port replace the destination.  The port goes behind 20 bytes of header, however long the header is. */
  method NatHandle(buf: array<Byte>, pub: seq<Byte>, client: seq<Byte>, newport: UInt16, oldport: UInt16, little: bool)
    requires Whole(buf[..]) && Known(buf[9]) && |pub| == 4 && |client| == 4
    modifies buf
    ensures var was, out, n := old(buf[..]), buf[..], old(buf[0] % 16 * 4);
      var d, c := if was[9] == 1 then 4 else 2, if was[9] == 6 then 16 else if was[9] == 17 then 6 else 2;
      && |out| == |was| && out[16..20] == client
      && WordAt(out, n + d) == (if n == 20 then oldport else WordAt(was, n + d))
      && (n == 20 ==> Differ(was, out, 16, 20 + d, 20 + c))
    ensures var was, out := old(buf[..]), buf[..];
      was[0] % 16 == 5 && was[16..20] == pub && WordAt(was, if was[9] == 1 then 24 else 22) == newport ==>
        && (Verifies(Words(out[..20])) <==> Verifies(Words(was[..20])))
        && (was[9] != 1 ==> Whole(out) && (Verifies(SegmentWords(out)) <==> Verifies(SegmentWords(was))))
        && (was[9] == 1 ==> Same16(Sum(Words(out[20..])), Sum(Words(was[20..]))))
  {
    hide CsumUpdate, Swap, PutWord, UpdateThrice, Verifies, Words, SegmentWords, Sum, Same16, WordAt,
         Readdressed, Differ, Out;
    ghost var was := buf[..];
    Rewrite(buf, pub, client, newport, oldport, little);
    Delivered(was, pub, client, newport, oldport);
    if HeaderLen(was) == 20 && was[16..20] == pub && WordAt(was, 20 + DestAt(was[9])) == newport {
      HeaderDelivered(was, pub, client, newport, oldport);
      if was[9] == IPPROTO_ICMP {
        EchoDelivered(was, pub, client, newport, oldport);
      } else {
        SegmentDelivered(was, pub, client, newport, oldport);
      }
    }
  }

  /** With options in the header whose third and fourth byte are the session's port, by which it is found, a
      datagram for that port keeps it, whatever the session says. */
  lemma OptionsMislead(pub: seq<Byte>, client: seq<Byte>, oldport: UInt16) returns (was: seq<Byte>)
    requires |pub| == 4 && |client| == 4
    ensures Whole(was) && was[9] == 17 && was[0] % 16 == 6 && was[16..20] == pub
    ensures WordAt(was, 22) == 5000 && WordAt(was, 26) == 5000
    ensures WordAt(Out(was, pub, client, 5000, oldport), 26) == 5000
  {
    hide Out;
    was := [0x46, 0, 0, 32, 0, 0, 0, 0, 64, 17, 0, 0, 10, 0, 0, 1] + pub
           + [0x44, 4, 0x13, 0x88, 0, 53, 0x13, 0x88, 0, 8, 0, 0];
    Delivered(was, pub, client, 5000, oldport);
  }
}
