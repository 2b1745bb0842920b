/** Both directions of the tunnel: what the fragmenter of one side sends, the reassembly of the other
    side puts together to the packet that went in.  Packets as IPv4FragandIPinIP of packet.c and
    ipv6_frag_handl of pktup.c send them; tables as fragment.c and defrag6.c keep them. */
module TunnelIdentity {
  import opened Tunnels
  import opened Keys
  import opened FragSizes
  import opened Fragments
  import opened Reassembly

  const BUFFER := 66000
  const CPE_MAX_FRAG_CNT := 1024
  const TC_MAX_FRAG_CNT := 1144

  /** Of the packets on the wire, those with the key of sent are exactly the packets sent, each once and in
      any order, and the n-th packet is one of them; to the table the key is new. */
  ghost predicate Comes(t: Table, wire: seq<Packet6>, n: nat, sent: seq<Packet6>) {
    && sent != [] && n < |wire|
    && var k := KeyOf6(sent[0]);
    && k !in t && KeyOf6(wire[n]) == k && (forall i :: 0 <= i < |sent| ==> KeyOf6(sent[i]) == k)
    && Arrival(Under(Arrivals(wire), k), Pieces6(sent))
  }

  /** The n-th packet completes its datagram exactly when no fragment of it is still to come, and then the
      buffer spells data, whatever it held before. */
  ghost predicate Completes(t: Table, wire: seq<Packet6>, n: nat, data: seq<Byte>, max: nat, buf: seq<Byte>)
    requires n < |wire|
  {
    var xs, k, p := Arrivals(wire), KeyOf6(wire[n]), PieceOf6(wire[n]);
    var e := EntryOf(TableAfter(t, xs[..n], max), k);
    && (Fires(e, p, max) <==> Under(xs[..n + 1], k) == Under(xs, k))
    && (Fires(e, p, max) ==>
          var list := Arrived(e, p, max).list;
          (forall q :: q in list ==> q.End() <= |buf|) && Sum(list) <= |buf| && Assembled(buf, list) == data)
  }

  /** The packets sent are put together to data wherever, whenever and among whatever they arrive. */
  ghost predicate Rebuilt(sent: seq<Packet6>, data: seq<Byte>, max: nat) {
    forall t, wire, n: nat, buf {:trigger Comes(t, wire, n, sent), Completes(t, wire, n, data, max, buf)} ::
      Comes(t, wire, n, sent) && |buf| == BUFFER ==> Completes(t, wire, n, data, max, buf)
  }

  /** A packet that was cut into no more fragments than a bucket takes is rebuilt. */
  lemma CutRebuilt(sent: seq<Packet6>, data: seq<Byte>, cap: nat, max: nat)
    requires Carries(Pieces6(sent), data, cap) && |data| <= 65535 && |sent| <= max
    ensures Rebuilt(sent, data, max)
  {
    var ps := Pieces6(sent);
    CarriesTiles(ps, data, cap);
    forall t, wire, n: nat, buf | Comes(t, wire, n, sent) && |buf| == BUFFER
      ensures Completes(t, wire, n, data, max, buf)
    {
      ReassemblesAmongOthers(t, Arrivals(wire), KeyOf6(sent[0]), n, ps, data, max, buf);
    }
  }

  lemma SomeSent(ps: seq<Piece>, data: seq<Byte>, cap: nat)
    requires Carries(ps, data, cap) && |data| > 0
    ensures ps != []
  {
  }

  /** From the concentrator to the customer side: the IPv4 packet comes out as it went in. */
  method Downstream(packet: seq<Byte>, src: nat, dst: nat, id: UInt32, mtu: UInt16) returns (sent: seq<Packet6>)
    requires 0 < |packet| <= 65535 && mtu >= MIN_MTU
    ensures Rebuilt(sent, packet, CPE_MAX_FRAG_CNT)
    ensures sent != [] && forall i :: 0 <= i < |sent| ==> KeyOf6(sent[i]) == Key(src, dst, id)
  {
    hide Pieces, Carries, Rebuilt;
    ghost var offs;
    sent, offs := IPv4FragandIPinIP(packet, src, dst, id, mtu);
    FewPiecesAlways(|packet|, Floor8(mtu - 48));
    CutRebuilt(sent, packet, mtu - 48, CPE_MAX_FRAG_CNT);
    SomeSent(Pieces6(sent), packet, mtu - 48);
  }

  /** What the customer side sends. */
  method SendUp(packet: seq<Byte>, src: nat, dst: nat, mtu: UInt16, draw: nat -> UInt32,
      update: seq<Byte> -> seq<Byte>)
    returns (sent: seq<Packet6>)
    requires 0 < |packet| <= 65535 && mtu >= MIN_MTU && forall x :: |update(x)| == |x|
    ensures sent != [] && |sent| <= TC_MAX_FRAG_CNT && Floor8(mtu) >= 48
    ensures var cap := Floor8(mtu) - 48;
      draw(0) != 0 || Quiet(packet, cap, draw, update) ==>
        Carries(Pieces6(sent), Translated(packet, Min(cap, |packet|), update), cap)
        && forall i :: 0 <= i < |sent| ==> KeyOf6(sent[i]) == Key(src, dst, sent[0].id)
  {
    hide Pieces, Carries, Quiet, AllTurns, Translated;
    ghost var offs;
    sent, offs := Ipv6FragHandl(packet, src, dst, mtu, draw, update);
    FewPiecesAlways(|packet|, Floor8(mtu) - 48);
  }

  lemma TranslatedIs(packet: seq<Byte>, cap: nat, update: seq<Byte> -> seq<Byte>)
    requires forall x :: |update(x)| == |x|
    ensures var n := if cap < |packet| then cap else |packet|;
      Translated(packet, Min(cap, |packet|), update) == update(packet[..n]) + packet[n..]
    ensures |Translated(packet, Min(cap, |packet|), update)| == |packet|
  {
  }

  /** From the customer side to the concentrator: the packet comes out with its first block translated,
      unless a first draw of 0 was followed by something that matters. */
  method Upstream(packet: seq<Byte>, src: nat, dst: nat, mtu: UInt16, draw: nat -> UInt32,
      update: seq<Byte> -> seq<Byte>)
    returns (sent: seq<Packet6>)
    requires 0 < |packet| <= 65535 && mtu >= MIN_MTU && forall x :: |update(x)| == |x|
    ensures var cap := Floor8(mtu) - 48; var n := if cap < |packet| then cap else |packet|;
      draw(0) != 0 || Quiet(packet, cap, draw, update) ==>
        Rebuilt(sent, update(packet[..n]) + packet[n..], TC_MAX_FRAG_CNT)
        && forall i :: 0 <= i < |sent| ==> KeyOf6(sent[i]) == Key(src, dst, sent[0].id)
    ensures sent != []
  {
    hide Carries, Rebuilt, Quiet, Translated, Floor8;
    sent := SendUp(packet, src, dst, mtu, draw, update);
    var cap := Floor8(mtu) - 48;
    if draw(0) != 0 || Quiet(packet, cap, draw, update) {
      TranslatedIs(packet, cap, update);
      CutRebuilt(sent, Translated(packet, Min(cap, |packet|), update), cap, TC_MAX_FRAG_CNT);
    }
  }
}
