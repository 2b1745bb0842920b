/** Fragmenting on both sides of the tunnel: IPv4FragandIPinIP and GetFragOffset of packet.c,
    pkt_fraghandle of defrag6.c and fragment.c, ipv6_frag_handl of pktup.c. */
module Fragments {
  import opened Arith
  import opened Tunnels
  import opened Keys
  import opened FragSizes

  const IP6_HLEN := 40
  const IP6F_HLEN := 8
  const IP_HLEN := 20

  /** An IPv6 packet with a fragment header; an address is the number its bytes spell. */
  datatype Packet6 = Packet6(src: nat, dst: nat, id: UInt32, payloadLen: UInt16, fragOff: UInt16, body: seq<Byte>)

  /** An IPv4 fragment; the header is the inner packet's except for length, offset and checksum. */
  datatype Packet4 = Packet4(header: seq<Byte>, totLen: UInt16, fragOff: UInt16, body: seq<Byte>)

  /** A fragment by what it says: where its bytes go and whether more follow. */
  datatype Piece = Piece(off: nat, more: bool, data: seq<Byte>) {
    function End(): nat {
      off + |data|
    }
  }

  /** GetFragOffset: the field masked with 0xfffe and with 1. */
  function PieceOf6(p: Packet6): Piece {
    Piece(p.fragOff - p.fragOff % 2, p.fragOff % 2 == 1, p.body)
  }

  /** The 13 low bits of the IPv4 field count units of 8 bytes; the flag is the bit above. */
  function PieceOf4(p: Packet4): Piece {
    Piece(p.fragOff % 0x2000 * 8, p.fragOff / 0x2000 % 2 == 1, p.body)
  }

  /** off | 1 when more fragments follow. */
  function FragField(off: UInt16, more: bool): UInt16 {
    if more && off % 2 == 0 then off + 1 else off
  }

  ghost predicate PieceAt(ps: seq<Piece>, data: seq<Byte>, cap: nat, i: nat)
    requires i < |ps|
  {
    var p := ps[i];
    && 0 < |p.data| <= cap && p.off % 8 == 0 && p.End() <= |data|
    && p.data == data[p.off..p.End()]
    && p.off == (if i == 0 then 0 else ps[i - 1].End())
    && (p.more <==> p.End() < |data|)
    && (p.more ==> |p.data| % 8 == 0)
  }

  /** The pieces cut the first off bytes of data. */
  ghost predicate Cut(ps: seq<Piece>, data: seq<Byte>, cap: nat, off: nat) {
    && off == (if ps == [] then 0 else ps[|ps| - 1].End())
    && forall i {:trigger PieceAt(ps, data, cap, i)} :: 0 <= i < |ps| ==> PieceAt(ps, data, cap, i)
  }

  /** The pieces are data, cut into at most cap bytes each. */
  ghost predicate Carries(ps: seq<Piece>, data: seq<Byte>, cap: nat) {
    Cut(ps, data, cap, |data|)
  }

  lemma CutMore(ps: seq<Piece>, data: seq<Byte>, cap: nat, p: Piece)
    requires Cut(ps, data, cap, p.off) && PieceAt(ps + [p], data, cap, |ps|)
    ensures Cut(ps + [p], data, cap, p.End())
  {
    forall i: nat | i <= |ps| ensures PieceAt(ps + [p], data, cap, i) {
      assert i < |ps| ==> PieceAt(ps, data, cap, i);
    }
  }

  /** Ends grow, so exactly the last piece says that no more follow. */
  lemma {:induction false} CarriesOrder(ps: seq<Piece>, data: seq<Byte>, cap: nat, off: nat, i: nat, j: nat)
    requires Cut(ps, data, cap, off) && i < j < |ps|
    ensures ps[i].off < ps[i].End() <= ps[j].off < ps[j].End() <= |data|
    ensures ps[i].more
    decreases j - i
  {
    assert PieceAt(ps, data, cap, i) && PieceAt(ps, data, cap, j) && PieceAt(ps, data, cap, j - 1);
    if i < j - 1 {
      CarriesOrder(ps, data, cap, off, i, j - 1);
    }
  }

  function Pieces6(sent: seq<Packet6>): (ps: seq<Piece>)
    ensures |ps| == |sent|
  {
    seq(|sent|, i requires 0 <= i < |sent| => PieceOf6(sent[i]))
  }

  function Pieces4(sent: seq<Packet4>): (ps: seq<Piece>)
    ensures |ps| == |sent|
  {
    seq(|sent|, i requires 0 <= i < |sent| => PieceOf4(sent[i]))
  }

  /** The next size of a fragment of a datagram of len bytes, off of which are cut. */
  function NextSize(len: nat, off: nat, cap: nat, flen0: nat, fleno: nat): nat
    requires off < len
  {
    if len - off > cap then if off == 0 then flen0 else fleno else len - off
  }

  ghost predicate SizedAt(ps: seq<Piece>, len: nat, cap: nat, flen0: nat, fleno: nat, i: nat)
    requires i < |ps|
  {
    ps[i].off < len && |ps[i].data| == NextSize(len, ps[i].off, cap, flen0, fleno)
  }

  /** Every piece has the size that was due at its place. */
  ghost predicate Sized(ps: seq<Piece>, len: nat, cap: nat, flen0: nat, fleno: nat) {
    forall i {:trigger SizedAt(ps, len, cap, flen0, fleno, i)} :: 0 <= i < |ps| ==>
      SizedAt(ps, len, cap, flen0, fleno, i)
  }

  lemma NoneSized(len: nat, cap: nat, flen0: nat, fleno: nat)
    ensures Sized([], len, cap, flen0, fleno)
  {
  }

  lemma NextSized(ps: seq<Piece>, len: nat, cap: nat, flen0: nat, fleno: nat, p: Piece)
    requires Sized(ps, len, cap, flen0, fleno) && p.off < len
    requires |p.data| == NextSize(len, p.off, cap, flen0, fleno)
    ensures Sized(ps + [p], len, cap, flen0, fleno)
  {
    forall i: nat | i <= |ps| ensures SizedAt(ps + [p], len, cap, flen0, fleno, i) {
      assert i < |ps| ==> SizedAt(ps, len, cap, flen0, fleno, i);
    }
  }

  /** So the first piece has the first size, and all others but the last have the other. */
  lemma AllSized(ps: seq<Piece>, data: seq<Byte>, cap: nat, flen0: nat, fleno: nat)
    requires Carries(ps, data, cap) && Sized(ps, |data|, cap, flen0, fleno) && |data| > cap
    ensures ps != [] && |ps[0].data| == flen0 && forall i :: 0 < i < |ps| - 1 ==> |ps[i].data| == fleno
  {
    assert PieceAt(ps, data, cap, 0) && SizedAt(ps, |data|, cap, flen0, fleno, 0);
    forall i | 0 < i < |ps| - 1 ensures |ps[i].data| == fleno {
      CarriesOrder(ps, data, cap, |data|, 0, i);
      CarriesOrder(ps, data, cap, |data|, i, i + 1);
      assert SizedAt(ps, |data|, cap, flen0, fleno, i);
    }
  }

  /** How far the loop has come after k fragments of these sizes. */
  ghost predicate Reached(len: nat, off: nat, k: nat, cap: nat, flen0: nat, fleno: nat) {
    && off <= len && (off == 0 <==> k == 0)
    && (off < len ==> off % 8 == 0 && (k > 0 ==> len > cap && off == flen0 + Times(k - 1, fleno)))
  }

  lemma ReachStart(len: nat, cap: nat, flen0: nat, fleno: nat)
    ensures Reached(len, 0, 0, cap, flen0, fleno)
  {
  }

  lemma ReachNext(len: nat, off: nat, k: nat, cap: nat, flen0: nat, fleno: nat, n: nat)
    requires cap >= 8 && Reached(len, off, k, cap, flen0, fleno) && off < len && n == Pieces(len, Floor8(cap))
    requires len > cap ==> n >= 2 && Balanced(len, Floor8(cap), n, flen0, fleno)
    ensures var flen := NextSize(len, off, cap, flen0, fleno);
      && 0 < flen <= cap && off + flen <= len && off % 8 == 0 && (off + flen < len ==> flen % 8 == 0)
      && Reached(len, off + flen, k + 1, cap, flen0, fleno) && k + 1 <= n
  {
    hide Pieces, CountFor, Times, Floor8;
    PiecesBound(len, Floor8(cap));
    if k > 0 {
      TimesNext(k - 1, fleno);
      if k >= n && len > cap {
        TimesMono(n - 1, k - 1, fleno);
      }
    } else {
      TimesNext(0, fleno);
    }
  }

  /** IPv4FragandIPinIP: an IPv4 packet too long for the tunnel, cut behind IPv6 fragment headers. */
  method IPv4FragandIPinIP(data: seq<Byte>, src: nat, dst: nat, id: UInt32, mtu: UInt16)
    returns (sent: seq<Packet6>, ghost offs: seq<nat>)
    requires 0 < |data| <= 65535 && mtu >= MIN_MTU
    ensures Carries(Pieces6(sent), data, mtu - 48) && |sent| <= Pieces(|data|, Floor8(mtu - 48))
    ensures sent != [] && forall i :: 0 <= i < |sent| ==>
              sent[i].src == src && sent[i].dst == dst && sent[i].id == id && sent[i].payloadLen == |sent[i].body| + 8
    ensures |offs| == |sent| + 1 && offs[0] == 0 && offs[|sent|] == |data|
    ensures (forall i :: 0 <= i < |sent| ==> offs[i] % 8 == 0)
            && forall i, j :: 0 <= i < j <= |sent| ==> offs[i] < offs[j] <= |data|
    ensures forall i {:trigger sent[i]} :: 0 <= i < |sent| ==>
              && sent[i].body == data[offs[i]..offs[i + 1]] && |sent[i].body| <= mtu - 48
              && sent[i].fragOff == offs[i] + if i + 1 < |sent| then 1 else 0
    ensures |data| > mtu - 48 ==>
              var f := Floor8(mtu - 48);
              var (first, other) := SizesOf(|data|, f, Pieces(|data|, f));
              |sent[0].body| == first && forall i :: 0 < i < |sent| - 1 ==> |sent[i].body| == other
  {
    hide SizesOf, Pieces, Carries, Balanced, Sized, Floor8;
    var cap := mtu - (IP6_HLEN + IP6F_HLEN);
    var nfrag, flen0, fleno := Balance(|data|, mtu, 48);
    sent := SendPieces(data, src, dst, id, mtu, nfrag, flen0, fleno);
    offs := WireFields(sent, data, cap);
    if |data| > cap {
      SentSizes(sent, data, cap, flen0, fleno);
    }
  }

  lemma SentSizes(sent: seq<Packet6>, data: seq<Byte>, cap: nat, flen0: nat, fleno: nat)
    requires Carries(Pieces6(sent), data, cap) && Sized(Pieces6(sent), |data|, cap, flen0, fleno) && |data| > cap
    ensures sent != [] && |sent[0].body| == flen0 && forall i :: 0 < i < |sent| - 1 ==> |sent[i].body| == fleno
  {
    var ps := Pieces6(sent);
    AllSized(ps, data, cap, flen0, fleno);
    forall i | 0 <= i < |sent| ensures |ps[i].data| == |sent[i].body| {
    }
  }

  /** The loop of IPv4FragandIPinIP. */
  method SendPieces(data: seq<Byte>, src: nat, dst: nat, id: UInt32, mtu: UInt16, nfrag: nat, flen0: nat, fleno: nat)
    returns (sent: seq<Packet6>)
    requires 0 < |data| <= 65535 && mtu >= MIN_MTU && nfrag == Pieces(|data|, Floor8(mtu - 48))
    requires |data| > mtu - 48 ==> nfrag >= 2 && Balanced(|data|, Floor8(mtu - 48), nfrag, flen0, fleno)
    ensures Carries(Pieces6(sent), data, mtu - 48) && |sent| <= nfrag
    ensures Sized(Pieces6(sent), |data|, mtu - 48, flen0, fleno)
    ensures forall i :: 0 <= i < |sent| ==>
              sent[i].src == src && sent[i].dst == dst && sent[i].id == id && sent[i].payloadLen == |sent[i].body| + 8
  {
    hide Pieces, Cut, Balanced, Reached, Sized;
    var cap := mtu - (IP6_HLEN + IP6F_HLEN);
    var len := |data|;
    sent := [];
    var off := 0;
    NoCut(data, cap);
    NoneSized(len, cap, flen0, fleno);
    ReachStart(len, cap, flen0, fleno);
    while off < len
      invariant off <= len && Reached(len, off, |sent|, cap, flen0, fleno) && Cut(Pieces6(sent), data, cap, off)
                && |sent| <= nfrag
      invariant Sized(Pieces6(sent), len, cap, flen0, fleno)
      invariant forall i :: 0 <= i < |sent| ==>
                  && sent[i].src == src && sent[i].dst == dst && sent[i].id == id
                  && sent[i].payloadLen == |sent[i].body| + 8
      decreases len - off
    {
      var flen := len - off;
      if flen > cap {
        if off == 0 {
          flen := flen0;
        } else {
          flen := fleno;
        }
      }
      ReachNext(len, off, |sent|, cap, flen0, fleno, nfrag);
      var fragOff := off;
      if flen + off < len {
        fragOff := FragField(off, true);
      }
      var packet := Packet6(src, dst, id, flen + IP6F_HLEN, fragOff, data[off..off + flen]);
      NextPiece(Pieces6(sent), data, cap, off, flen, PieceOf6(packet));
      NextSized(Pieces6(sent), len, cap, flen0, fleno, PieceOf6(packet));
      assert Pieces6(sent + [packet]) == Pieces6(sent) + [PieceOf6(packet)];
      sent := sent + [packet];
      off := off + flen;
    }
  }

  /** The fields on the wire of packets that carry data: each says how many bytes are in front of it, and one
      more unless it is the last. */
  lemma WireFields(sent: seq<Packet6>, data: seq<Byte>, cap: nat) returns (offs: seq<nat>)
    requires Carries(Pieces6(sent), data, cap) && |data| > 0
    ensures sent != [] && |offs| == |sent| + 1 && offs[0] == 0 && offs[|sent|] == |data|
    ensures (forall i :: 0 <= i < |sent| ==> offs[i] % 8 == 0)
            && forall i, j :: 0 <= i < j <= |sent| ==> offs[i] < offs[j] <= |data|
    ensures forall i {:trigger sent[i]} :: 0 <= i < |sent| ==>
              && sent[i].body == data[offs[i]..offs[i + 1]] && |sent[i].body| <= cap
              && sent[i].fragOff == offs[i] + if i + 1 < |sent| then 1 else 0
  {
    var ps := Pieces6(sent);
    offs := Starts(ps, |data|);
    StartsGrow(ps, data, cap);
    forall i {:trigger sent[i]} | 0 <= i < |sent|
      ensures sent[i].body == data[offs[i]..offs[i + 1]] && |sent[i].body| <= cap
      ensures sent[i].fragOff == offs[i] + if i + 1 < |sent| then 1 else 0
    {
      StartAt(ps, data, cap, i);
    }
  }

  /** Where each piece starts, and where the last one ends. */
  ghost function Starts(ps: seq<Piece>, len: nat): (offs: seq<nat>)
    ensures |offs| == |ps| + 1 && offs[|ps|] == len && forall i :: 0 <= i < |ps| ==> offs[i] == ps[i].off
  {
    seq(|ps|, i requires 0 <= i < |ps| => ps[i].off) + [len]
  }

  lemma StartAt(ps: seq<Piece>, data: seq<Byte>, cap: nat, i: nat)
    requires Carries(ps, data, cap) && i < |ps|
    ensures var offs := Starts(ps, |data|);
      && offs[i] == ps[i].off && offs[i] % 8 == 0 && ps[i].End() == offs[i + 1] <= |data|
      && 0 < |ps[i].data| <= cap && ps[i].data == data[offs[i]..offs[i + 1]] && (ps[i].more <==> i + 1 < |ps|)
  {
    assert PieceAt(ps, data, cap, i);
    if i + 1 < |ps| {
      CarriesOrder(ps, data, cap, |data|, i, i + 1);
      assert PieceAt(ps, data, cap, i + 1);
    }
  }

  lemma StartsGrow(ps: seq<Piece>, data: seq<Byte>, cap: nat)
    requires Carries(ps, data, cap) && |data| > 0
    ensures var offs := Starts(ps, |data|);
      && ps != [] && offs[0] == 0 && (forall i :: 0 <= i < |ps| ==> offs[i] % 8 == 0)
      && forall i, j :: 0 <= i < j <= |ps| ==> offs[i] < offs[j] <= |data|
  {
    var offs := Starts(ps, |data|);
    assert PieceAt(ps, data, cap, 0);
    hide PieceAt;
    forall i | 0 <= i < |ps| ensures offs[i] % 8 == 0 {
      StartAt(ps, data, cap, i);
    }
    forall i, j | 0 <= i < j <= |ps| ensures offs[i] < offs[j] <= |data| {
      StartAt(ps, data, cap, i);
      if j < |ps| {
        StartAt(ps, data, cap, j);
        CarriesOrder(ps, data, cap, |data|, i, j);
      }
    }
  }

  lemma NoCut(data: seq<Byte>, cap: nat)
    ensures Cut([], data, cap, 0)
  {
  }

  lemma NextPiece(ps: seq<Piece>, data: seq<Byte>, cap: nat, off: nat, flen: nat, p: Piece)
    requires Cut(ps, data, cap, off) && 0 < flen <= cap && off + flen <= |data| && off % 8 == 0
    requires off + flen < |data| ==> flen % 8 == 0
    requires p == Piece(off, off + flen < |data|, data[off..off + flen])
    ensures Cut(ps + [p], data, cap, off + flen)
  {
    CutMore(ps, data, cap, p);
  }

  /** pkt_fraghandle: a reassembled packet, cut again behind copies of its IPv4 header.  The count of
      pieces that it divides by is 0 for a packet without payload. */
  method PktFragHandle(packet: seq<Byte>, mtu: UInt16) returns (sent: seq<Packet4>, ghost offs: seq<nat>)
    requires IP_HLEN < |packet| <= 65535 && mtu >= MIN_MTU
    ensures Carries(Pieces4(sent), packet[IP_HLEN..], mtu - IP_HLEN)
    ensures |sent| <= Pieces(|packet| - IP_HLEN, Floor8(mtu - IP_HLEN))
    ensures sent != [] && forall i :: 0 <= i < |sent| ==>
              sent[i].header == packet[..IP_HLEN] && sent[i].totLen == |sent[i].body| + IP_HLEN
    ensures |offs| == |sent| + 1 && offs[0] == 0 && offs[|sent|] == |packet| - 20
    ensures (forall i :: 0 <= i < |sent| ==> offs[i] % 8 == 0)
            && forall i, j :: 0 <= i < j <= |sent| ==> offs[i] < offs[j] <= |packet| - 20
    ensures forall i {:trigger sent[i]} :: 0 <= i < |sent| ==>
              && sent[i].body == packet[20..][offs[i]..offs[i + 1]] && |sent[i].body| <= mtu - 20
              && sent[i].fragOff == offs[i] / 8 + if i + 1 < |sent| then 0x2000 else 0
    ensures |packet| > mtu ==>
              var f := Floor8(mtu - 20);
              var (first, other) := SizesOf(|packet| - 20, f, Pieces(|packet| - 20, f));
              |sent[0].body| == first && forall i :: 0 < i < |sent| - 1 ==> |sent[i].body| == other
  {
    hide SizesOf, Pieces, Carries, Balanced, Sized, Floor8;
    var data, cap := packet[IP_HLEN..], mtu - IP_HLEN;
    var nfrag, flen0, fleno := Balance(|packet| - IP_HLEN, mtu, IP_HLEN);
    sent := SendPieces4(packet, mtu, nfrag, flen0, fleno);
    offs := WireFields4(sent, data, cap);
    if |data| > cap {
      SentSizes4(sent, data, cap, flen0, fleno);
    }
  }

  lemma SentSizes4(sent: seq<Packet4>, data: seq<Byte>, cap: nat, flen0: nat, fleno: nat)
    requires Carries(Pieces4(sent), data, cap) && Sized(Pieces4(sent), |data|, cap, flen0, fleno) && |data| > cap
    ensures sent != [] && |sent[0].body| == flen0 && forall i :: 0 < i < |sent| - 1 ==> |sent[i].body| == fleno
  {
    var ps := Pieces4(sent);
    AllSized(ps, data, cap, flen0, fleno);
    forall i | 0 <= i < |sent| ensures |ps[i].data| == |sent[i].body| {
    }
  }

  /** The loop of pkt_fraghandle. */
  method SendPieces4(packet: seq<Byte>, mtu: UInt16, nfrag: nat, flen0: nat, fleno: nat) returns (sent: seq<Packet4>)
    requires IP_HLEN < |packet| <= 65535 && mtu >= MIN_MTU
    requires nfrag == Pieces(|packet| - IP_HLEN, Floor8(mtu - IP_HLEN))
    requires |packet| > mtu ==>
               nfrag >= 2 && Balanced(|packet| - IP_HLEN, Floor8(mtu - IP_HLEN), nfrag, flen0, fleno)
    ensures Carries(Pieces4(sent), packet[IP_HLEN..], mtu - IP_HLEN) && |sent| <= nfrag
    ensures Sized(Pieces4(sent), |packet| - IP_HLEN, mtu - IP_HLEN, flen0, fleno)
    ensures forall i :: 0 <= i < |sent| ==>
              && sent[i].header == packet[..IP_HLEN] && sent[i].totLen == |sent[i].body| + IP_HLEN
              && sent[i].fragOff < 0x4000
  {
    hide Pieces, Cut, Balanced, Reached, Sized;
    var data, cap := packet[IP_HLEN..], mtu - IP_HLEN;
    var len := |packet| - IP_HLEN;
    sent := [];
    var off := 0;
    NoCut(data, cap);
    NoneSized(len, cap, flen0, fleno);
    ReachStart(len, cap, flen0, fleno);
    while off < len
      invariant off <= len && Reached(len, off, |sent|, cap, flen0, fleno) && Cut(Pieces4(sent), data, cap, off)
                && |sent| <= nfrag
      invariant Sized(Pieces4(sent), len, cap, flen0, fleno)
      invariant forall i :: 0 <= i < |sent| ==>
                  && sent[i].header == packet[..IP_HLEN] && sent[i].totLen == |sent[i].body| + IP_HLEN
                  && sent[i].fragOff < 0x4000
      decreases len - off
    {
      var flen := len - off;
      if flen > cap {
        if off == 0 {
          flen := flen0;
        } else {
          flen := fleno;
        }
      }
      ReachNext(len, off, |sent|, cap, flen0, fleno, nfrag);
      var fragOff := off / 8;
      if flen + off < len {
        fragOff := off / 8 + 0x2000;
      }
      var next := Packet4(packet[..IP_HLEN], flen + IP_HLEN, fragOff, data[off..off + flen]);
      Offset4(off, flen + off < len);
      NextPiece(Pieces4(sent), data, cap, off, flen, PieceOf4(next));
      NextSized(Pieces4(sent), len, cap, flen0, fleno, PieceOf4(next));
      assert Pieces4(sent + [next]) == Pieces4(sent) + [PieceOf4(next)];
      sent := sent + [next];
      off := off + flen;
    }
  }

  /** The same for IPv4 fragments, which count in units of 8 bytes and have the flag above. */
  lemma WireFields4(sent: seq<Packet4>, data: seq<Byte>, cap: nat) returns (offs: seq<nat>)
    requires Carries(Pieces4(sent), data, cap) && |data| > 0
    requires forall i :: 0 <= i < |sent| ==> sent[i].fragOff < 0x4000
    ensures sent != [] && |offs| == |sent| + 1 && offs[0] == 0 && offs[|sent|] == |data|
    ensures (forall i :: 0 <= i < |sent| ==> offs[i] % 8 == 0)
            && forall i, j :: 0 <= i < j <= |sent| ==> offs[i] < offs[j] <= |data|
    ensures forall i {:trigger sent[i]} :: 0 <= i < |sent| ==>
              && sent[i].body == data[offs[i]..offs[i + 1]] && |sent[i].body| <= cap
              && sent[i].fragOff == offs[i] / 8 + if i + 1 < |sent| then 0x2000 else 0
  {
    hide PieceOf4, Carries;
    var ps := Pieces4(sent);
    offs := Starts(ps, |data|);
    StartsGrow(ps, data, cap);
    forall i {:trigger sent[i]} | 0 <= i < |sent|
      ensures sent[i].body == data[offs[i]..offs[i + 1]] && |sent[i].body| <= cap
      ensures sent[i].fragOff == offs[i] / 8 + if i + 1 < |sent| then 0x2000 else 0
    {
      StartAt(ps, data, cap, i);
      Field4(sent[i]);
    }
  }

  lemma Field4(p: Packet4)
    requires p.fragOff < 0x4000
    ensures PieceOf4(p).data == p.body
    ensures p.fragOff == PieceOf4(p).off / 8 + if PieceOf4(p).more then 0x2000 else 0
  {
  }

  lemma Offset4(off: nat, more: bool)
    requires off <= 65535 && off % 8 == 0
    ensures var f := off / 8 + if more then 0x2000 else 0;
            f % 0x2000 * 8 == off && (f / 0x2000 % 2 == 1 <==> more) && f <= 65535
  {
  }

  /** What ipv6_frag_handl makes of the bytes: the first fragment goes through the address translation. */
  function Translated(data: seq<Byte>, n: nat, update: seq<Byte> -> seq<Byte>): seq<Byte>
    requires n <= |data|
  {
    update(data[..n]) + data[n..]
  }

  function Min(a: nat, b: nat): nat {
    if a <= b then a else b
  }

  /** The bytes of turn k. */
  function BlockOf(data: seq<Byte>, cap: nat, k: nat): seq<Byte>
    requires Times(k, cap) <= |data|
  {
    data[Times(k, cap)..Min(Times(k, cap) + cap, |data|)]
  }

  /** The identification after k turns: the first draw that is not 0. */
  function IdentAfter(draw: nat -> UInt32, k: nat): UInt32 {
    if k == 0 then 0
    else if IdentAfter(draw, k - 1) == 0 then draw(k - 1)
    else IdentAfter(draw, k - 1)
  }

  /** The fragment of turn k. */
  ghost predicate TurnAt(sent: seq<Packet6>, data: seq<Byte>, cap: nat, draw: nat -> UInt32,
      update: seq<Byte> -> seq<Byte>, k: nat)
    requires k < |sent|
  {
    && Times(k, cap) < |data| && sent[k].id == IdentAfter(draw, k + 1)
    && sent[k].body == (if IdentAfter(draw, k) == 0 then update(BlockOf(data, cap, k)) else BlockOf(data, cap, k))
    && PieceOf6(sent[k]) == Piece(Times(k, cap), Times(k, cap) + cap < |data|, sent[k].body)
  }

  ghost predicate Turns(sent: seq<Packet6>, data: seq<Byte>, cap: nat, draw: nat -> UInt32,
      update: seq<Byte> -> seq<Byte>) {
    forall k {:trigger TurnAt(sent, data, cap, draw, update, k)} :: 0 <= k < |sent|
      ==> TurnAt(sent, data, cap, draw, update, k)
  }

  /** The turns have reached the end of data. */
  ghost predicate AllTurns(sent: seq<Packet6>, data: seq<Byte>, cap: nat, draw: nat -> UInt32,
      update: seq<Byte> -> seq<Byte>) {
    Turns(sent, data, cap, draw, update) && |data| <= Times(|sent|, cap)
  }

  ghost predicate OneId(sent: seq<Packet6>) {
    forall i, j :: 0 <= i < |sent| && 0 <= j < |sent| ==> sent[i].id == sent[j].id
  }

  /** The fragments are one datagram, the packet with its first block translated. */
  ghost predicate OneDatagram(sent: seq<Packet6>, data: seq<Byte>, cap: nat, update: seq<Byte> -> seq<Byte>) {
    OneId(sent) && Carries(Pieces6(sent), Translated(data, Min(cap, |data|), update), cap)
  }

  ghost predicate QuietAt(data: seq<Byte>, cap: nat, draw: nat -> UInt32, update: seq<Byte> -> seq<Byte>, k: nat)
    requires Times(k, cap) <= |data|
  {
    draw(k) == 0 && update(BlockOf(data, cap, k)) == BlockOf(data, cap, k)
  }

  /** In every later turn another draw gives 0 and another translation changes nothing. */
  ghost predicate Quiet(data: seq<Byte>, cap: nat, draw: nat -> UInt32, update: seq<Byte> -> seq<Byte>) {
    forall k {:trigger QuietAt(data, cap, draw, update, k)} :: 0 < k && Times(k, cap) < |data|
      ==> QuietAt(data, cap, draw, update, k)
  }

  lemma {:induction false} IdentKept(draw: nat -> UInt32, k: nat)
    requires k > 0 && draw(0) != 0
    ensures IdentAfter(draw, k) == draw(0)
  {
    if k > 1 {
      IdentKept(draw, k - 1);
    } else {
      assert IdentAfter(draw, 0) == 0;
    }
  }

  /** Before turn k, nothing that matters later has happened. */
  lemma {:induction false} IdentQuiet(data: seq<Byte>, cap: nat, draw: nat -> UInt32, update: seq<Byte> -> seq<Byte>,
      k: nat)
    requires draw(0) == 0 && Quiet(data, cap, draw, update) && cap > 0 && (k > 0 ==> Times(k - 1, cap) < |data|)
    ensures IdentAfter(draw, k) == 0
  {
    hide Times, BlockOf;
    if k > 1 {
      TimesMono(k - 2, k - 1, cap);
      IdentQuiet(data, cap, draw, update, k - 1);
      assert QuietAt(data, cap, draw, update, k - 1);
    } else if k == 1 {
      assert IdentAfter(draw, 0) == 0;
    }
  }

  /** A block of data that is the same in data' makes a piece of data'. */
  lemma BlockPiece(p: Piece, data: seq<Byte>, data': seq<Byte>, cap: nat, off: nat)
    requires cap > 0 && cap % 8 == 0 && off < |data| == |data'|
    requires var end := Min(off + cap, |data|);
             p == Piece(off, off + cap < |data|, data'[off..end])
    ensures 0 < |p.data| <= cap && p.End() <= |data'| && p.data == data'[p.off..p.End()]
    ensures (p.more <==> p.End() < |data'|) && (p.more ==> |p.data| % 8 == 0)
  {
  }

  lemma TurnEnd(sent: seq<Packet6>, data: seq<Byte>, cap: nat, draw: nat -> UInt32, update: seq<Byte> -> seq<Byte>,
      k: nat)
    requires Turns(sent, data, cap, draw, update) && k < |sent| && forall x :: |update(x)| == |x|
    requires Times(k + 1, cap) <= |data|
    ensures PieceOf6(sent[k]).End() == Times(k + 1, cap)
  {
    hide Times, PieceOf6;
    TimesNext(k, cap);
    assert TurnAt(sent, data, cap, draw, update, k);
  }

  lemma FirstTurnPiece(sent: seq<Packet6>, data: seq<Byte>, cap: nat, draw: nat -> UInt32,
      update: seq<Byte> -> seq<Byte>)
    requires Turns(sent, data, cap, draw, update) && 0 < |sent| && cap > 0 && cap % 8 == 0
             && forall x :: |update(x)| == |x|
    ensures PieceAt(Pieces6(sent), Translated(data, Min(cap, |data|), update), cap, 0)
  {
    hide Times, PieceOf6, Translated;
    TimesNext(0, cap);
    TranslatedAt(data, Min(cap, |data|), update);
    assert TurnAt(sent, data, cap, draw, update, 0) && IdentAfter(draw, 0) == 0;
    assert BlockOf(data, cap, 0) == data[..Min(cap, |data|)];
    BlockPiece(PieceOf6(sent[0]), data, Translated(data, Min(cap, |data|), update), cap, 0);
  }

  /** The piece of turn k, if what it carries is the block of the translated packet. */
  lemma TurnPiece(sent: seq<Packet6>, data: seq<Byte>, cap: nat, draw: nat -> UInt32, update: seq<Byte> -> seq<Byte>,
      k: nat)
    requires Turns(sent, data, cap, draw, update) && k < |sent| && cap > 0 && cap % 8 == 0
             && forall x :: |update(x)| == |x|
    requires k > 0 ==> Times(k, cap) <= |data| && sent[k].body == BlockOf(data, cap, k)
    ensures PieceAt(Pieces6(sent), Translated(data, Min(cap, |data|), update), cap, k)
  {
    hide Times, PieceOf6, Translated, Turns;
    if k == 0 {
      FirstTurnPiece(sent, data, cap, draw, update);
    } else {
      var n := Min(cap, |data|);
      TranslatedAt(data, n, update);
      TimesNext(0, cap);
      TimesMono(1, k, cap);
      TimesEight(k, cap);
      TurnEnd(sent, data, cap, draw, update, k - 1);
      TurnHas(sent, data, cap, draw, update, k);
      BlockPiece(PieceOf6(sent[k]), data, Translated(data, n, update), cap, Times(k, cap));
    }
  }

  lemma TurnHas(sent: seq<Packet6>, data: seq<Byte>, cap: nat, draw: nat -> UInt32, update: seq<Byte> -> seq<Byte>,
      k: nat)
    requires Turns(sent, data, cap, draw, update) && k < |sent|
    ensures Times(k, cap) < |data|
    ensures PieceOf6(sent[k]) == Piece(Times(k, cap), Times(k, cap) + cap < |data|, sent[k].body)
  {
    assert TurnAt(sent, data, cap, draw, update, k);
  }

  lemma TimesEight(k: nat, cap: nat)
    requires cap % 8 == 0
    ensures Times(k, cap) % 8 == 0
  {
    assert Times(k, cap) == 8 * (k * (cap / 8)) by {
      assert cap == 8 * (cap / 8);
      Reorder(k, cap / 8);
    }
  }

  lemma Reorder(k: nat, c: nat)
    ensures k * (8 * c) == 8 * (k * c)
  {
  }

  /** One datagram comes out exactly if the first draw is not 0 or what follows it has no effect. */
  lemma DatagramExact(sent: seq<Packet6>, data: seq<Byte>, cap: nat, draw: nat -> UInt32,
      update: seq<Byte> -> seq<Byte>)
    requires AllTurns(sent, data, cap, draw, update) && |data| > 0 && cap > 0 && cap % 8 == 0
             && forall x :: |update(x)| == |x|
    ensures OneDatagram(sent, data, cap, update) <==> draw(0) != 0 || Quiet(data, cap, draw, update)
  {
    hide Times, PieceOf6, Turns, Quiet, OneDatagram;
    if draw(0) != 0 || Quiet(data, cap, draw, update) {
      DatagramIf(sent, data, cap, draw, update);
    }
    if OneDatagram(sent, data, cap, update) && draw(0) == 0 {
      DatagramOnlyIf(sent, data, cap, draw, update);
    }
  }

  lemma DatagramIf(sent: seq<Packet6>, data: seq<Byte>, cap: nat, draw: nat -> UInt32, update: seq<Byte> -> seq<Byte>)
    requires AllTurns(sent, data, cap, draw, update) && |data| > 0 && cap > 0 && cap % 8 == 0
             && forall x :: |update(x)| == |x|
    requires draw(0) != 0 || Quiet(data, cap, draw, update)
    ensures OneDatagram(sent, data, cap, update)
  {
    hide Times, PieceOf6, Quiet, BlockOf, PieceAt, Translated;
    var n, ps := Min(cap, |data|), Pieces6(sent);
    var data' := Translated(data, n, update);
    TranslatedAt(data, n, update);
    forall k: nat | k < |sent|
      ensures PieceAt(ps, data', cap, k) && sent[k].id == draw(0)
    {
      assert TurnAt(sent, data, cap, draw, update, k);
      if draw(0) != 0 {
        IdentKept(draw, k + 1);
        if k > 0 {
          IdentKept(draw, k);
        }
      } else {
        TimesNext(k, cap);
        if k > 0 {
          TimesNext(k - 1, cap);
          assert QuietAt(data, cap, draw, update, k) by {
            IsQuiet(data, cap, draw, update, k);
          }
        }
        IdentQuiet(data, cap, draw, update, k + 1);
      }
      TurnPiece(sent, data, cap, draw, update, k);
    }
    LastTurn(sent, data, cap, draw, update);
    assert ps[|ps| - 1].End() == |data'| by {
      var k := |sent| - 1;
      assert PieceAt(ps, data', cap, k);
      EndOfLast(ps, data', cap, k);
    }
  }

  lemma IsQuiet(data: seq<Byte>, cap: nat, draw: nat -> UInt32, update: seq<Byte> -> seq<Byte>, k: nat)
    requires Quiet(data, cap, draw, update) && k > 0 && Times(k, cap) < |data|
    ensures QuietAt(data, cap, draw, update, k)
  {
  }

  lemma EndOfLast(ps: seq<Piece>, data: seq<Byte>, cap: nat, k: nat)
    requires k < |ps| && PieceAt(ps, data, cap, k) && !ps[k].more
    ensures ps[k].End() == |data|
  {
  }

  lemma LastTurn(sent: seq<Packet6>, data: seq<Byte>, cap: nat, draw: nat -> UInt32, update: seq<Byte> -> seq<Byte>)
    requires AllTurns(sent, data, cap, draw, update) && |data| > 0
    ensures sent != [] && !PieceOf6(sent[|sent| - 1]).more
  {
    hide Times, PieceOf6;
    TimesNext(0, cap);
    var k := |sent| - 1;
    if k >= 0 {
      TimesNext(k, cap);
      assert TurnAt(sent, data, cap, draw, update, k);
    }
  }

  lemma DatagramOnlyIf(sent: seq<Packet6>, data: seq<Byte>, cap: nat, draw: nat -> UInt32,
      update: seq<Byte> -> seq<Byte>)
    requires AllTurns(sent, data, cap, draw, update) && |data| > 0 && cap > 0 && forall x :: |update(x)| == |x|
    requires OneDatagram(sent, data, cap, update) && draw(0) == 0
    ensures Quiet(data, cap, draw, update)
  {
    hide Times, PieceOf6;
    forall k: nat | 0 < k && Times(k, cap) < |data| ensures QuietAt(data, cap, draw, update, k) {
      if k >= |sent| {
        TimesMono(|sent|, k, cap);
      }
      AgreesAt(sent, data, cap, draw, update, k);
    }
  }

  lemma AgreesAt(sent: seq<Packet6>, data: seq<Byte>, cap: nat, draw: nat -> UInt32, update: seq<Byte> -> seq<Byte>,
      k: nat)
    requires Turns(sent, data, cap, draw, update) && 0 < k < |sent| && cap > 0 && forall x :: |update(x)| == |x|
    requires OneDatagram(sent, data, cap, update) && draw(0) == 0
    ensures Times(k, cap) <= |data| && QuietAt(data, cap, draw, update, k)
  {
    hide Times, PieceOf6, Translated, Turns, TurnAt;
    var n := Min(cap, |data|);
    TranslatedAt(data, n, update);
    TimesNext(0, cap);
    TimesMono(1, k, cap);
    TurnHas(sent, data, cap, draw, update, k);
    TurnIds(sent, data, cap, draw, update, k);
    assert PieceAt(Pieces6(sent), Translated(data, n, update), cap, k);
    assert sent[k].body == BlockOf(data, cap, k);
  }

  /** With one identification in all packets and a first draw of 0, every later turn draws 0 and translates. */
  lemma TurnIds(sent: seq<Packet6>, data: seq<Byte>, cap: nat, draw: nat -> UInt32, update: seq<Byte> -> seq<Byte>,
      k: nat)
    requires Turns(sent, data, cap, draw, update) && OneId(sent) && 0 < k < |sent| && draw(0) == 0
    ensures draw(k) == 0 && Times(k, cap) < |data| && sent[k].body == update(BlockOf(data, cap, k))
  {
    hide Times, PieceOf6, BlockOf;
    assert IdentAfter(draw, 0) == 0 && IdentAfter(draw, 1) == 0;
    assert TurnAt(sent, data, cap, draw, update, 0) && TurnAt(sent, data, cap, draw, update, k);
    assert TurnAt(sent, data, cap, draw, update, k - 1);
    assert sent[k].id == sent[0].id == sent[k - 1].id;
  }

  /** A first draw of 0 spoils even this small packet: its two fragments have different identifications. */
  lemma ZeroDrawSpoils(sent: seq<Packet6>, draw: nat -> UInt32)
    requires draw(0) == 0 && draw(1) == 7 && AllTurns(sent, seq(1240, i => 0), 1232, draw, x => x)
    ensures |sent| > 1 && sent[0].id != sent[1].id && !OneDatagram(sent, seq(1240, i => 0), 1232, x => x)
  {
    var data: seq<Byte> := seq(1240, i => 0);
    assert |sent| >= 2;
    assert TurnAt(sent, data, 1232, draw, x => x, 0) && TurnAt(sent, data, 1232, draw, x => x, 1);
    assert IdentAfter(draw, 0) == 0 && IdentAfter(draw, 1) == 0 && IdentAfter(draw, 2) == 7;
  }

  /** One turn of the loop of ipv6_frag_handl: the bytes from offset on, in a fragment of at most cap. */
  method OneFragment(data: seq<Byte>, src: nat, dst: nat, cap: nat, offset: nat, ident: UInt32, drawn: UInt32,
                     update: seq<Byte> -> seq<Byte>) returns (packet: Packet6, ident': UInt32)
    requires offset < |data| <= 65535 && offset % 8 == 0 && 0 < cap <= 65487 && forall x :: |update(x)| == |x|
    ensures ident' == if ident == 0 then drawn else ident
    ensures packet.src == src && packet.dst == dst && packet.id == ident' && packet.payloadLen == |packet.body| + 8
    ensures var end := Min(offset + cap, |data|);
      && packet.body == (if ident == 0 then update(data[offset..end]) else data[offset..end])
      && PieceOf6(packet) == Piece(offset, end < |data|, packet.body)
  {
    var len: nat := |data| - offset;
    if len > cap {
      len := cap;
    }
    var body := data[offset..offset + len];
    ident' := ident;
    if ident' == 0 {
      ident' := drawn;
      body := update(body);
    }
    var fragOff := offset;
    if offset + len < |data| {
      fragOff := FragField(offset, true);
    }
    packet := Packet6(src, dst, ident', len + IP6F_HLEN, fragOff, body);
  }

  /** The loop of ipv6_frag_handl: draw(k) is what random32 returns in the k-th turn. */
  method SendTurns(data: seq<Byte>, src: nat, dst: nat, cap: nat, draw: nat -> UInt32, update: seq<Byte> -> seq<Byte>)
    returns (sent: seq<Packet6>)
    requires 0 < |data| <= 65535 && 0 < cap <= 65487 && cap % 8 == 0 && forall x :: |update(x)| == |x|
    ensures AllTurns(sent, data, cap, draw, update) && |sent| == Pieces(|data|, cap)
    ensures forall i :: 0 <= i < |sent| ==>
              sent[i].src == src && sent[i].dst == dst && sent[i].payloadLen == |sent[i].body| + 8
  {
    hide PieceOf6, Turns, Times, IdentAfter, Pieces;
    var ident: UInt32, offset: nat := 0, 0;
    sent := [];
    NoTurns(data, cap, draw, update);
    while offset < |data|
      invariant offset == Min(Times(|sent|, cap), |data|) && (sent != [] ==> Times(|sent| - 1, cap) < |data|)
      invariant ident == IdentAfter(draw, |sent|) && Turns(sent, data, cap, draw, update)
      invariant forall i :: 0 <= i < |sent| ==>
                  sent[i].src == src && sent[i].dst == dst && sent[i].payloadLen == |sent[i].body| + 8
      decreases |data| - offset
    {
      TimesNext(|sent|, cap);
      TimesEight(|sent|, cap);
      var packet, ident' := OneFragment(data, src, dst, cap, offset, ident, draw(|sent|), update);
      NextTurn(sent, data, cap, draw, update, packet);
      sent := sent + [packet];
      ident := ident';
      offset := Min(offset + cap, |data|);
    }
    PiecesAre(|data|, cap, |sent|);
  }

  /** ipv6_frag_handl.  A draw of 0 is taken for no draw at all, and the next fragment is then translated again
      and gets another identification. */
  method Ipv6FragHandl(data: seq<Byte>, src: nat, dst: nat, mtu: UInt16, draw: nat -> UInt32,
      update: seq<Byte> -> seq<Byte>)
    returns (sent: seq<Packet6>, ghost offs: seq<nat>)
    requires 0 < |data| <= 65535 && mtu >= MIN_MTU && forall x :: |update(x)| == |x|
    ensures var cap := Floor8(mtu) - 48;
      && AllTurns(sent, data, cap, draw, update) && |sent| == Pieces(|data|, cap)
      && (OneDatagram(sent, data, cap, update) <==> draw(0) != 0 || Quiet(data, cap, draw, update))
    ensures forall i :: 0 <= i < |sent| ==>
              sent[i].src == src && sent[i].dst == dst && sent[i].payloadLen == |sent[i].body| + 8
    ensures |offs| == |sent| + 1 && offs[0] == 0 && offs[|sent|] == |data|
            && forall j, k :: 0 <= j < k <= |sent| ==> offs[j] < offs[k] <= |data|
    ensures forall k {:trigger sent[k]} :: 0 <= k < |sent| ==>
              && |sent[k].body| == offs[k + 1] - offs[k] && (k + 1 < |sent| ==> |sent[k].body| == Floor8(mtu) - 48)
              && |sent[k].body| <= Floor8(mtu) - 48 && sent[k].fragOff == offs[k] + if k + 1 < |sent| then 1 else 0
    ensures forall k {:trigger sent[k]} :: 0 <= k < |sent| ==>
              if forall j :: 0 <= j < k ==> draw(j) == 0 then
                sent[k].id == draw(k) && sent[k].body == update(data[offs[k]..offs[k + 1]])
              else sent[k].id == sent[k - 1].id && sent[k].body == data[offs[k]..offs[k + 1]]
  {
    hide Floor8, AllTurns, Pieces, OneDatagram, Quiet;
    var cap: nat := Floor8(mtu) - 48;
    sent := SendTurns(data, src, dst, cap, draw, update);
    DatagramExact(sent, data, cap, draw, update);
    offs := TurnWire(sent, data, cap, draw, update);
  }

  lemma {:induction false} NoIdentYet(draw: nat -> UInt32, k: nat)
    ensures IdentAfter(draw, k) == 0 <==> forall j: nat :: j < k ==> draw(j) == 0
  {
    if k > 0 {
      NoIdentYet(draw, k - 1);
    }
  }

  /** The fields of all turns on the wire. */
  lemma TurnWire(sent: seq<Packet6>, data: seq<Byte>, cap: nat, draw: nat -> UInt32, update: seq<Byte> -> seq<Byte>)
    returns (offs: seq<nat>)
    requires AllTurns(sent, data, cap, draw, update) && |data| > 0 && cap > 0 && cap % 8 == 0
             && forall x :: |update(x)| == |x|
    ensures |offs| == |sent| + 1 && offs[0] == 0 && offs[|sent|] == |data|
            && forall j, k :: 0 <= j < k <= |sent| ==> offs[j] < offs[k] <= |data|
    ensures forall k {:trigger sent[k]} :: 0 <= k < |sent| ==>
              && |sent[k].body| == offs[k + 1] - offs[k] && (k + 1 < |sent| ==> |sent[k].body| == cap)
              && |sent[k].body| <= cap && sent[k].fragOff == offs[k] + if k + 1 < |sent| then 1 else 0
    ensures forall k {:trigger sent[k]} :: 0 <= k < |sent| ==>
              if forall j :: 0 <= j < k ==> draw(j) == 0 then
                sent[k].id == draw(k) && sent[k].body == update(data[offs[k]..offs[k + 1]])
              else sent[k].id == sent[k - 1].id && sent[k].body == data[offs[k]..offs[k + 1]]
  {
    hide Times, AllTurns;
    offs := TurnStarts(|sent|, cap, |data|);
    StartsOfTurns(sent, data, cap, draw, update);
    forall k {:trigger sent[k]} | 0 <= k < |sent|
      ensures |sent[k].body| == offs[k + 1] - offs[k] && (k + 1 < |sent| ==> |sent[k].body| == cap)
      ensures |sent[k].body| <= cap && sent[k].fragOff == offs[k] + if k + 1 < |sent| then 1 else 0
      ensures if forall j :: 0 <= j < k ==> draw(j) == 0 then
                sent[k].id == draw(k) && sent[k].body == update(data[offs[k]..offs[k + 1]])
              else sent[k].id == sent[k - 1].id && sent[k].body == data[offs[k]..offs[k + 1]]
    {
      TurnFields(sent, data, cap, draw, update, k);
    }
  }

  ghost function TurnStarts(n: nat, cap: nat, len: nat): (offs: seq<nat>)
    ensures |offs| == n + 1 && offs[n] == len && forall k :: 0 <= k < n ==> offs[k] == Times(k, cap)
  {
    seq(n, k requires 0 <= k < n => Times(k, cap)) + [len]
  }

  lemma StartsOfTurns(sent: seq<Packet6>, data: seq<Byte>, cap: nat, draw: nat -> UInt32,
      update: seq<Byte> -> seq<Byte>)
    requires AllTurns(sent, data, cap, draw, update) && |data| > 0 && cap > 0
    ensures var offs := TurnStarts(|sent|, cap, |data|);
      offs[0] == 0 && forall j, k :: 0 <= j < k <= |sent| ==> offs[j] < offs[k] <= |data|
  {
    hide Times, AllTurns, Turns;
    TimesNext(0, cap);
    SomeTurns(sent, data, cap, draw, update);
    forall j, k | 0 <= j < k <= |sent|
      ensures Times(j, cap) < |data| && (k < |sent| ==> Times(j, cap) < Times(k, cap) < |data|)
    {
      TurnIs(sent, data, cap, draw, update, j);
      if k < |sent| {
        TurnIs(sent, data, cap, draw, update, k);
        TimesNext(j, cap);
        TimesMono(j + 1, k, cap);
      }
    }
  }

  lemma SomeTurns(sent: seq<Packet6>, data: seq<Byte>, cap: nat, draw: nat -> UInt32, update: seq<Byte> -> seq<Byte>)
    requires AllTurns(sent, data, cap, draw, update) && |data| > 0
    ensures sent != []
  {
    TimesNext(0, cap);
  }

  /** The fields of turn k on the wire. */
  lemma TurnFields(sent: seq<Packet6>, data: seq<Byte>, cap: nat, draw: nat -> UInt32,
      update: seq<Byte> -> seq<Byte>, k: nat)
    requires AllTurns(sent, data, cap, draw, update) && k < |sent| && cap > 0 && cap % 8 == 0
             && forall x :: |update(x)| == |x|
    ensures var from, to := Times(k, cap), if k + 1 < |sent| then Times(k + 1, cap) else |data|;
      && from < to <= |data| && |sent[k].body| == to - from <= cap && (k + 1 < |sent| ==> to == from + cap)
      && sent[k].fragOff == from + (if k + 1 < |sent| then 1 else 0)
      && if forall j :: 0 <= j < k ==> draw(j) == 0 then sent[k].id == draw(k) && sent[k].body == update(data[from..to])
         else sent[k].id == sent[k - 1].id && sent[k].body == data[from..to]
  {
    hide Times, AllTurns, Turns;
    TimesNext(k, cap);
    NoIdentYet(draw, k);
    TurnIs(sent, data, cap, draw, update, k);
    if k > 0 {
      TurnIs(sent, data, cap, draw, update, k - 1);
    }
    EndTurn(sent, data, cap, draw, update, k);
    LastReaches(sent, data, cap, draw, update);
  }

  lemma LastReaches(sent: seq<Packet6>, data: seq<Byte>, cap: nat, draw: nat -> UInt32,
      update: seq<Byte> -> seq<Byte>)
    requires AllTurns(sent, data, cap, draw, update)
    ensures |data| <= Times(|sent|, cap)
  {
  }

  lemma TurnIs(sent: seq<Packet6>, data: seq<Byte>, cap: nat, draw: nat -> UInt32, update: seq<Byte> -> seq<Byte>,
      k: nat)
    requires AllTurns(sent, data, cap, draw, update) && k < |sent|
    ensures TurnAt(sent, data, cap, draw, update, k)
  {
  }

  /** Only the last turn reaches the end of data. */
  lemma EndTurn(sent: seq<Packet6>, data: seq<Byte>, cap: nat, draw: nat -> UInt32, update: seq<Byte> -> seq<Byte>,
      k: nat)
    requires AllTurns(sent, data, cap, draw, update) && k < |sent|
    ensures Times(k + 1, cap) < |data| <==> k + 1 < |sent|
  {
    hide Times;
    if k + 1 < |sent| {
      assert TurnAt(sent, data, cap, draw, update, k + 1);
    }
  }

  lemma NoTurns(data: seq<Byte>, cap: nat, draw: nat -> UInt32, update: seq<Byte> -> seq<Byte>)
    ensures Turns([], data, cap, draw, update) && IdentAfter(draw, 0) == 0 && Times(0, cap) == 0
  {
  }

  lemma NextTurn(sent: seq<Packet6>, data: seq<Byte>, cap: nat, draw: nat -> UInt32, update: seq<Byte> -> seq<Byte>,
      p: Packet6)
    requires Turns(sent, data, cap, draw, update) && Times(|sent|, cap) < |data|
    requires p.id == if IdentAfter(draw, |sent|) == 0 then draw(|sent|) else IdentAfter(draw, |sent|)
    requires p.body == if IdentAfter(draw, |sent|) == 0 then update(BlockOf(data, cap, |sent|))
             else BlockOf(data, cap, |sent|)
    requires PieceOf6(p) == Piece(Times(|sent|, cap), Times(|sent|, cap) + cap < |data|, p.body)
    ensures Turns(sent + [p], data, cap, draw, update) && IdentAfter(draw, |sent| + 1) == p.id
  {
    hide Times, PieceOf6, BlockOf;
    forall k: nat | k <= |sent| ensures TurnAt(sent + [p], data, cap, draw, update, k) {
      assert k < |sent| ==> TurnAt(sent, data, cap, draw, update, k);
    }
  }

  /** The number of turns of cap bytes each that it takes to reach len. */
  lemma PiecesAre(len: nat, cap: nat, n: nat)
    requires cap > 0 && n > 0 && Times(n - 1, cap) < len <= Times(n, cap)
    ensures n == Pieces(len, cap)
  {
    hide Pieces;
    PiecesBound(len, cap);
    var m := Pieces(len, cap);
    if m < n {
      TimesMono(m, n - 1, cap);
    } else if n < m {
      TimesMono(n, m - 1, cap);
    }
  }

  lemma TranslatedAt(data: seq<Byte>, n: nat, update: seq<Byte> -> seq<Byte>)
    requires n <= |data| && |update(data[..n])| == n
    ensures |Translated(data, n, update)| == |data| && Translated(data, n, update)[..n] == update(data[..n])
    ensures forall i, j :: n <= i <= j <= |data| ==> Translated(data, n, update)[i..j] == data[i..j]
  {
  }
}
