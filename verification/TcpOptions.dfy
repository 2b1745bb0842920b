/** What patch_tcpmss does to a TCP segment, told by the options the segment carries and not by the scan. */
module TcpOptions {
  import opened Tunnels
  import opened Keys
  import opened Checksum
  import opened TcpMss

  type Kind = k: Byte | k >= 2 witness 2
  type Body = b: seq<Byte> | |b| < 254

  /** An option of a TCP header: a byte alone, or a kind with a body of its own length. */
  datatype Option = Nop | Option(kind: Kind, body: Body) {
    /** The bytes of the option, as section 3.1 of RFC 793 gives them. */
    function Bytes(): (bs: seq<Byte>) {
      match this
      case Nop => [1]
      case Option(kind, body) => [kind, |body| + 2] + body
    }

    predicate Is(k: Byte) {
      Option? && kind == k
    }
  }

  function Encoded(opts: seq<Option>): seq<Byte> {
    if opts == [] then [] else opts[0].Bytes() + Encoded(opts[1..])
  }

  /** The bytes from i to len are those of some options, with nothing behind them or an end of options. */
  ghost predicate Carries(bs: seq<Byte>, i: nat, len: nat, opts: seq<Option>, tail: seq<Byte>) {
    && i <= len <= |bs| && bs[i..len] == Encoded(opts) + tail
    && (tail != [] ==> tail[0] == 0)
  }

  ghost predicate Has(opts: seq<Option>, k: Byte) {
    exists o :: o in opts && o.Is(k)
  }

  /** The place of the first option of a kind. */
  ghost predicate FirstAt(opts: seq<Option>, k: Byte, j: nat) {
    j < |opts| && opts[j].Is(k) && forall l :: 0 <= l < j ==> !opts[l].Is(k)
  }

  lemma SplitFirst(s: seq<Byte>, b: seq<Byte>, e: seq<Byte>, t: seq<Byte>)
    requires s == b + e + t
    ensures |b| <= |s| && s[..|b|] == b && s[|b|..] == e + t
  {
  }

  /** The first option stands at i, and the others behind it. */
  lemma CarriesRest(bs: seq<Byte>, i: nat, len: nat, opts: seq<Option>, tail: seq<Byte>)
    requires Carries(bs, i, len, opts, tail) && opts != []
    ensures var n := |opts[0].Bytes()|;
      i + n <= len && bs[i..i + n] == opts[0].Bytes() && Carries(bs, i + n, len, opts[1..], tail)
  {
    var b, e := opts[0].Bytes(), Encoded(opts[1..]);
    SplitFirst(bs[i..len], b, e, tail);
    assert bs[i..len][..|b|] == bs[i..i + |b|] && bs[i..len][|b|..] == bs[i + |b|..len];
  }

  lemma FirstByte(bs: seq<Byte>, i: nat, o: Option)
    requires i + |o.Bytes()| <= |bs| && bs[i..i + |o.Bytes()|] == o.Bytes()
    ensures o.Nop? ==> bs[i] == 1 && |o.Bytes()| == 1
    ensures o.Option? ==> bs[i] == o.kind && bs[i + 1] == |o.body| + 2 == |o.Bytes()|
    ensures o.Option? && |o.body| == 2 ==> bs[i + 2] == o.body[0] && bs[i + 3] == o.body[1]
  {
    var b := o.Bytes();
    assert bs[i] == bs[i..i + |b|][0];
    if o.Option? {
      assert bs[i + 1] == bs[i..i + |b|][1];
      assert |o.body| == 2 ==> bs[i + 2] == bs[i..i + |b|][2] && bs[i + 3] == bs[i..i + |b|][3];
    }
  }

  lemma HasRest(opts: seq<Option>, k: Byte)
    requires opts != []
    ensures Has(opts, k) <==> opts[0].Is(k) || Has(opts[1..], k)
  {
    assert opts[0] in opts;
    forall o | o in opts ensures o == opts[0] || o in opts[1..] {
    }
  }

  /** The scan at the first option, and at the end of them. */
  lemma ScanStep(bs: seq<Byte>, i: nat, len: nat, opts: seq<Option>, tail: seq<Byte>)
    requires Carries(bs, i, len, opts, tail)
    ensures opts == [] ==> ScanFrom(bs, len, i) == NoMss
    ensures opts != [] ==> i + |opts[0].Bytes()| <= len <= |bs|
    ensures opts != [] ==>
      var rest := ScanFrom(bs, len, i + |opts[0].Bytes()|);
      ScanFrom(bs, len, i) ==
        if opts[0].Is(19) then Abort else if opts[0].Is(2) && !rest.Abort? then Mss(i) else rest
  {
    if opts != [] {
      hide Encoded, Carries, Option.Bytes;
      CarriesRest(bs, i, len, opts, tail);
      FirstByte(bs, i, opts[0]);
    } else {
      NothingLeft(bs, i, len, tail);
    }
  }

  lemma NothingLeft(bs: seq<Byte>, i: nat, len: nat, tail: seq<Byte>)
    requires Carries(bs, i, len, [], tail)
    ensures ScanFrom(bs, len, i) == NoMss
  {
    assert i < len ==> bs[i] == bs[i..len][0];
  }

  /** With a signature the scan gives up. */
  lemma {:induction false} ScanSigned(bs: seq<Byte>, i: nat, len: nat, opts: seq<Option>, tail: seq<Byte>)
    requires Carries(bs, i, len, opts, tail)
    ensures ScanFrom(bs, len, i).Abort? <==> Has(opts, 19)
    decreases opts
  {
    hide ScanFrom, Carries;
    ScanStep(bs, i, len, opts, tail);
    if opts != [] {
      CarriesRest(bs, i, len, opts, tail);
      HasRest(opts, 19);
      ScanSigned(bs, i + |opts[0].Bytes()|, len, opts[1..], tail);
    }
  }

  lemma {:induction false} ScanNone(bs: seq<Byte>, i: nat, len: nat, opts: seq<Option>, tail: seq<Byte>)
    requires Carries(bs, i, len, opts, tail) && !Has(opts, 2)
    ensures !ScanFrom(bs, len, i).Mss?
    decreases opts
  {
    hide ScanFrom, Carries;
    ScanStep(bs, i, len, opts, tail);
    if opts != [] {
      CarriesRest(bs, i, len, opts, tail);
      HasRest(opts, 2);
      ScanNone(bs, i + |opts[0].Bytes()|, len, opts[1..], tail);
    }
  }

  /** Where the j-th option stands. */
  function Start(opts: seq<Option>, j: nat): nat
    requires j <= |opts|
  {
    if j == 0 then 0 else |opts[0].Bytes()| + Start(opts[1..], j - 1)
  }

  lemma {:induction false} StartIs(opts: seq<Option>, j: nat)
    requires j <= |opts|
    ensures Start(opts, j) == |Encoded(opts[..j])|
  {
    if j > 0 {
      StartIs(opts[1..], j - 1);
      assert opts[..j][1..] == opts[1..][..j - 1];
    }
  }

  lemma {:induction false} OptionAt(bs: seq<Byte>, i: nat, len: nat, opts: seq<Option>, tail: seq<Byte>, j: nat)
    requires Carries(bs, i, len, opts, tail) && j < |opts|
    ensures var at := i + Start(opts, j);
      at + |opts[j].Bytes()| <= len <= |bs| && bs[at..at + |opts[j].Bytes()|] == opts[j].Bytes()
    decreases opts
  {
    hide Carries, Option.Bytes;
    CarriesRest(bs, i, len, opts, tail);
    if j > 0 {
      OptionAt(bs, i + |opts[0].Bytes()|, len, opts[1..], tail, j - 1);
    }
  }

  /** The first MSS option is found. */
  lemma {:induction false} ScanFirst(bs: seq<Byte>, i: nat, len: nat, opts: seq<Option>, tail: seq<Byte>, j: nat)
    requires Carries(bs, i, len, opts, tail) && FirstAt(opts, 2, j) && !Has(opts, 19)
    ensures ScanFrom(bs, len, i) == Mss(i + Start(opts, j))
    decreases opts
  {
    hide ScanFrom, Carries, Option.Bytes, Has;
    ScanStep(bs, i, len, opts, tail);
    CarriesRest(bs, i, len, opts, tail);
    HasRest(opts, 19);
    if j == 0 {
      ScanSigned(bs, i + |opts[0].Bytes()|, len, opts[1..], tail);
    } else {
      ScanFirst(bs, i + |opts[0].Bytes()|, len, opts[1..], tail, j - 1);
    }
  }

  /** Bytes that do not make the scan give up are some options. */
  lemma {:induction false} ScanParses(bs: seq<Byte>, i: nat, len: nat) returns (opts: seq<Option>, tail: seq<Byte>)
    requires i <= len <= |bs| && !ScanFrom(bs, len, i).Abort?
    ensures Carries(bs, i, len, opts, tail)
    decreases len - i
  {
    hide Carries, Option.Bytes;
    if i == len || bs[i] == 0 {
      opts, tail := [], bs[i..len];
      NoOptions(bs, i, len);
    } else {
      var o := OptionOf(bs, i, len);
      opts, tail := ScanParses(bs, i + |o.Bytes()|, len);
      opts := [o] + opts;
      Prepended(bs, i, len, opts, tail);
    }
  }

  lemma NoOptions(bs: seq<Byte>, i: nat, len: nat)
    requires i <= len <= |bs| && (i == len || bs[i] == 0)
    ensures Carries(bs, i, len, [], bs[i..len])
  {
  }

  /** The option that the scan passes at i. */
  lemma OptionOf(bs: seq<Byte>, i: nat, len: nat) returns (o: Option)
    requires i < len <= |bs| && bs[i] != 0 && (bs[i] != 1 ==> i + 2 <= len && bs[i + 1] >= 2 && i + bs[i + 1] <= len)
    ensures 0 < |o.Bytes()| <= len - i && bs[i..i + |o.Bytes()|] == o.Bytes()
    ensures |o.Bytes()| == if bs[i] == 1 then 1 else bs[i + 1]
  {
    o := if bs[i] == 1 then Nop else Option(bs[i], bs[i + 2..i + bs[i + 1]]);
  }

  lemma Prepended(bs: seq<Byte>, i: nat, len: nat, opts: seq<Option>, tail: seq<Byte>)
    requires opts != [] && i + |opts[0].Bytes()| <= len <= |bs|
    requires bs[i..i + |opts[0].Bytes()|] == opts[0].Bytes()
    requires Carries(bs, i + |opts[0].Bytes()|, len, opts[1..], tail)
    ensures Carries(bs, i, len, opts, tail)
  {
    var b := opts[0].Bytes();
    assert opts == [opts[0]] + opts[1..];
    assert bs[i..len] == b + bs[i + |b|..len];
    assert b + (Encoded(opts[1..]) + tail) == b + Encoded(opts[1..]) + tail;
  }

  /** An option whose body is a number of two bytes above the MTU less 80. */
  predicate TooBig(o: Option, mtu: UInt16) {
    o.Option? && |o.body| == 2 && 256 * (o.body[0] as int) + o.body[1] as int > mtu - 80
  }

  /** The MSS is lowered exactly in a TCP segment with SYN set, no data and some options, which have no
      signature and whose first MSS option is too big. */
  ghost predicate Lowers(bs: seq<Byte>, len: nat, opts: seq<Option>, mtu: UInt16)
    requires 40 <= |bs|
  {
    && bs[9] == 6 && bs[33] / 2 % 2 == 1 && bs[32] / 16 * 4 + 20 == len && len > 40 && !Has(opts, 19)
    && exists j: nat :: FirstAt(opts, 2, j) && TooBig(opts[j], mtu)
  }

  lemma TargetAt(bs: seq<Byte>, len: nat, mtu: UInt16, at: nat)
    requires 40 < len <= |bs| && ScanFrom(bs, len, 40) == Mss(at) && at + 4 <= |bs|
    requires bs[9] == 6 && bs[33] / 2 % 2 == 1 && bs[32] / 16 * 4 + 20 == len
    ensures var big := bs[at + 1] == 4 && 256 * (bs[at + 2] as int) + bs[at + 3] as int > mtu - 80;
      Target(bs, len, mtu) == if big then at + 2 else 0
  {
    hide ScanFrom;
  }

  lemma TargetIs(bs: seq<Byte>, len: nat, opts: seq<Option>, tail: seq<Byte>, mtu: UInt16, j: nat)
    requires 40 <= len <= |bs| && Carries(bs, 40, len, opts, tail) && FirstAt(opts, 2, j) && !Has(opts, 19)
    requires bs[9] == 6 && bs[33] / 2 % 2 == 1 && bs[32] / 16 * 4 + 20 == len && len > 40
    ensures Target(bs, len, mtu) == if TooBig(opts[j], mtu) then 42 + Start(opts, j) else 0
    ensures TooBig(opts[j], mtu) ==>
      var at := 42 + Start(opts, j);
      at + 2 <= |bs| && bs[at] == opts[j].body[0] && bs[at + 1] == opts[j].body[1]
  {
    hide ScanFrom, Carries, Start, Has, Target, Option.Bytes;
    OptionAt(bs, 40, len, opts, tail, j);
    ScanFirst(bs, 40, len, opts, tail, j);
    var at := 40 + Start(opts, j);
    FirstByte(bs, at, opts[j]);
    if |opts[j].body| == 2 {
      TargetAt(bs, len, mtu, at);
    } else {
      TargetNone(bs, len, mtu, at);
    }
  }

  lemma TargetNone(bs: seq<Byte>, len: nat, mtu: UInt16, at: nat)
    requires 40 < len <= |bs| && ScanFrom(bs, len, 40) == Mss(at) && at + 2 <= |bs| && bs[at + 1] != 4
    ensures Target(bs, len, mtu) == 0
  {
    hide ScanFrom;
  }

  /** What patch_tcpmss makes of such a segment: the two bytes of the option spell the MTU less 80, the
      checksum has been updated for them, and all else is as it was. */
  lemma SegmentPatched(bs: seq<Byte>, len: nat, opts: seq<Option>, tail: seq<Byte>, mtu: UInt16, j: nat)
    requires 40 <= len <= |bs| && Carries(bs, 40, len, opts, tail) && FirstAt(opts, 2, j) && Lowers(bs, len, opts, mtu)
    ensures |opts[j].body| == 2
    ensures var at, out, mss: nat := 42 + |Encoded(opts[..j])|, Patched(bs, len, mtu), (mtu - 80) % 0x1_0000;
      && at + 2 <= |bs| && bs[at] == opts[j].body[0] && bs[at + 1] == opts[j].body[1]
      && out[at] as int * 256 + out[at + 1] as int == mss
      && out[36] as int * 256 + out[37] as int
          == CsumUpdate(bs[36] as int * 256 + bs[37] as int, bs[at] as int * 256 + bs[at + 1] as int, mss)
      && forall i :: 0 <= i < |bs| && i != 36 && i != 37 && i != at && i != at + 1 ==> out[i] == bs[i]
  {
    hide Carries, CsumUpdate, Encoded, Target, Fixed, Has, Start, Option.Bytes;
    var m: nat :| FirstAt(opts, 2, m) && TooBig(opts[m], mtu);
    FirstSame(opts, m, j);
    TargetIs(bs, len, opts, tail, mtu, j);
    StartIs(opts, j);
    FixedBytes(bs, 36, 42 + Start(opts, j), NewMss(mtu));
  }

  lemma FirstSame(opts: seq<Option>, m: nat, j: nat)
    requires FirstAt(opts, 2, m) && FirstAt(opts, 2, j)
    ensures m == j
  {
  }

  lemma FixedBytes(bs: seq<Byte>, psum: nat, pmss: nat, newmss: UInt16)
    requires psum + 2 <= pmss && pmss + 2 <= |bs|
    ensures var out := Fixed(bs, psum, pmss, newmss);
      && out[pmss] as int * 256 + out[pmss + 1] as int == newmss
      && out[psum] as int * 256 + out[psum + 1] as int
          == CsumUpdate(bs[psum] as int * 256 + bs[psum + 1] as int, bs[pmss] as int * 256 + bs[pmss + 1] as int,
                        newmss)
      && forall i :: 0 <= i < |bs| && i != psum && i != psum + 1 && i != pmss && i != pmss + 1 ==> out[i] == bs[i]
  {
    hide CsumUpdate, PutWord;
    var mid, c := PutWord(bs, pmss, newmss), CsumUpdate(WordAt(bs, psum), WordAt(bs, pmss), newmss);
    PutBytes(bs, pmss, newmss);
    PutBytes(mid, psum, c);
  }

  lemma PutBytes(bs: seq<Byte>, at: nat, w: UInt16)
    requires at + 2 <= |bs|
    ensures var out := PutWord(bs, at, w);
      && |out| == |bs| && out[at] as int * 256 + out[at + 1] as int == w
      && forall i :: 0 <= i < |bs| && i != at && i != at + 1 ==> out[i] == bs[i]
  {
    HiLo(w);
  }

  /** Every other segment is left alone. */
  lemma SegmentKept(bs: seq<Byte>, len: nat, opts: seq<Option>, tail: seq<Byte>, mtu: UInt16)
    requires 40 <= len <= |bs| && Carries(bs, 40, len, opts, tail) && !Lowers(bs, len, opts, mtu)
    ensures Patched(bs, len, mtu) == bs
  {
    hide Fixed, Carries, Encoded;
    ScanSigned(bs, 40, len, opts, tail);
    if !Has(opts, 2) {
      ScanNone(bs, 40, len, opts, tail);
    } else if !Has(opts, 19) {
      var j := First(opts, 2);
      if Target(bs, len, mtu) != 0 {
        TargetIs(bs, len, opts, tail, mtu, j);
      }
    }
  }

  lemma {:induction false} First(opts: seq<Option>, k: Byte) returns (j: nat)
    requires Has(opts, k)
    ensures FirstAt(opts, k, j)
  {
    HasRest(opts, k);
    if opts[0].Is(k) {
      j := 0;
    } else {
      j := First(opts[1..], k);
      j := j + 1;
    }
  }

  /** And so is every packet that is too short, or whose bytes behind the header are no options. */
  lemma PatchedParses(bs: seq<Byte>, len: nat, mtu: UInt16) returns (opts: seq<Option>, tail: seq<Byte>)
    requires 40 <= |bs| && len <= |bs| && Patched(bs, len, mtu) != bs
    ensures 40 < len && Carries(bs, 40, len, opts, tail) && Lowers(bs, len, opts, mtu)
  {
    hide Fixed;
    opts, tail := ScanParses(bs, 40, len);
    if !Lowers(bs, len, opts, mtu) {
      SegmentKept(bs, len, opts, tail, mtu);
    }
  }
}
