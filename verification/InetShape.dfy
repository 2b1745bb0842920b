/** The texts of addresses by what they spell: numerals of base 10 and 16, and the forms of section 2.2 of
    RFC 4291. */
module InetShape {
  import opened Tunnels
  import opened Keys
  import opened InetText

  const LOWER := "0123456789abcdef"
  const UPPER := "0123456789ABCDEF"

  /** The digits are the sixteen usual ones; both cases are read, the lower one is written. */
  lemma DigitsAre(d: nat)
    requires d < 16
    ensures Digit(d) == LOWER[d] && XDigit(LOWER[d]) == d && XDigit(UPPER[d]) == d
  {
  }

  lemma DigitsOnly(c: char)
    ensures XDigit(c) == -1 || (0 <= XDigit(c) < 16 && (c == LOWER[XDigit(c)] || c == UPPER[XDigit(c)]))
    ensures XDigit(c) == -1 <==> c !in LOWER && c !in UPPER
  {
    if c in LOWER {
      var d :| 0 <= d < |LOWER| && LOWER[d] == c;
      DigitsAre(d);
    }
    if c in UPPER {
      var d :| 0 <= d < |UPPER| && UPPER[d] == c;
      DigitsAre(d);
    }
  }

  /** The number a numeral spells. */
  function Number(s: string, base: nat): int {
    if s == [] then 0 else Number(s[..|s| - 1], base) * base + XDigit(s[|s| - 1])
  }

  predicate Numeral(s: string, base: nat) {
    forall c :: c in s ==> 0 <= XDigit(c) < base
  }

  lemma NumberOne(s: string, c: char, base: nat)
    ensures Number(s + [c], base) == Number(s, base) * base + XDigit(c) && Number([], base) == 0
    ensures Numeral(s, base) && 0 <= XDigit(c) < base ==> Numeral(s + [c], base)
  {
    assert (s + [c])[..|s|] == s;
  }

  /** A numeral without leading zeros, in lower case. */
  predicate Shortest(s: string, base: nat) {
    s != [] && (|s| > 1 ==> s[0] != '0') && Numeral(s, base) && forall c :: c in s ==> c in LOWER
  }

  lemma ShortestOne(d: nat, base: nat)
    requires d < 16 && d < base
    ensures Shortest([Digit(d)], base) && Number([Digit(d)], base) == d && (d > 0 ==> Digit(d) != '0')
  {
    DigitsAre(d);
    NumberOne([], Digit(d), base);
    assert [] + [Digit(d)] == [Digit(d)];
  }

  lemma ShortestMore(s: string, d: nat, base: nat)
    requires Shortest(s, base) && s[0] != '0' && d < 16 && d < base
    ensures Shortest(s + [Digit(d)], base) && Number(s + [Digit(d)], base) == Number(s, base) * base + d
  {
    DigitsAre(d);
    NumberOne(s, Digit(d), base);
  }

  lemma ThreeDigits(u: Byte)
    requires u > 99
    ensures var a, b, c := u / 100, u % 100 / 10, u % 10;
      0 < a < 10 && b < 10 && (a * 10 + b) * 10 + c == u
  {
  }

  /** Octets are written in decimal without leading zeros. */
  lemma DecIs(u: Byte)
    ensures Shortest(Dec(u), 10) && Number(Dec(u), 10) == u
  {
    hide Shortest, Number, Digit;
    if u > 99 {
      var a, b, c := u / 100, u % 100 / 10, u % 10;
      ThreeDigits(u);
      ShortestOne(a, 10);
      ShortestMore([Digit(a)], b, 10);
      ShortestMore([Digit(a)] + [Digit(b)], c, 10);
      assert [Digit(a)] + [Digit(b)] + [Digit(c)] == Dec(u);
    } else if u > 9 {
      ShortestOne(u / 10, 10);
      ShortestMore([Digit(u / 10)], u % 10, 10);
      assert [Digit(u / 10)] + [Digit(u % 10)] == Dec(u);
    } else {
      ShortestOne(u, 10);
    }
  }

  /** Groups are written in hexadecimal without leading zeros. */
  lemma {:induction false} HexIs(w: UInt16)
    ensures Shortest(Hex(w), 16) && Number(Hex(w), 16) == w && (w > 0 ==> Hex(w)[0] != '0')
    decreases w
  {
    if w < 16 {
      ShortestOne(w, 16);
    } else {
      HexIs(w / 16);
      ShortestMore(Hex(w / 16), w % 16, 16);
    }
  }

  /** Groups i to j - 1 with colons between them. */
  function Joined(b: seq<Byte>, i: nat, j: nat): string
    requires |b| == 16 && i <= j <= 8
    decreases j - i
  {
    if i == j then ""
    else Hex(Word(b, i)) + if i + 1 < j then ":" + Joined(b, i + 1, j) else ""
  }

  lemma {:induction false} FormatBehind(b: seq<Byte>, base: int, len: nat, i: nat)
    requires Shaped(b, base, len) && 0 < i < 8 && (base == -1 || base + len <= i) && !Embedded(b, base, len)
    ensures Format(b, base, len, i) == ":" + Joined(b, i, 8)
    decreases 8 - i
  {
    hide Hex, Embedded, Word;
    if i < 7 {
      FormatBehind(b, base, len, i + 1);
      assert ":" + (Hex(Word(b, i)) + (":" + Joined(b, i + 1, 8))) == ":" + Joined(b, i, 8);
    } else {
      assert ":" + (Hex(Word(b, 7)) + "") == ":" + Joined(b, 7, 8);
    }
  }

  lemma Regroup(a: string, h: string, j: string, r: string)
    ensures a + (h + (j + r)) == a + (h + j) + r && a + j + r == a + (j + r)
  {
  }

  lemma {:induction false} FormatBefore(b: seq<Byte>, base: int, len: nat, i: nat)
    requires Shaped(b, base, len) && 0 < i < base
    ensures Format(b, base, len, i) == ":" + Joined(b, i, base) + (":" + Format(b, base, len, base + len))
    decreases base - i
  {
    var h, rest := Hex(Word(b, i)), ":" + Format(b, base, len, base + len);
    FormatWord(b, base, len, i);
    JoinedIs(b, i, base);
    hide Hex, Word, Format, Joined;
    if i + 1 < base {
      FormatBefore(b, base, len, i + 1);
      Regroup(":", h, ":" + Joined(b, i + 1, base), rest);
    } else {
      assert Format(b, base, len, base) == rest by {
        FormatRun(b, base, len);
      }
      Regroup(":", h, "", rest);
      assert "" + rest == rest;
    }
  }

  lemma FormatWord(b: seq<Byte>, base: int, len: nat, i: nat)
    requires Shaped(b, base, len) && 0 < i < base
    ensures Format(b, base, len, i) == ":" + (Hex(Word(b, i)) + Format(b, base, len, i + 1))
  {
    hide Hex, Word;
  }

  lemma FormatRun(b: seq<Byte>, base: int, len: nat)
    requires Shaped(b, base, len) && 0 <= base
    ensures Format(b, base, len, base) == ":" + Format(b, base, len, base + len)
  {
    hide Hex, Word;
  }

  lemma JoinedIs(b: seq<Byte>, i: nat, j: nat)
    requires |b| == 16 && i < j <= 8
    ensures Joined(b, i, j) == Hex(Word(b, i)) + if i + 1 < j then ":" + Joined(b, i + 1, j) else ""
  {
    hide Hex, Word;
  }

  lemma FormatLast(b: seq<Byte>, base: int, len: nat)
    requires Shaped(b, base, len) && 0 <= base && !Embedded(b, base, len)
    ensures Format(b, base, len, base + len) == ":" + Joined(b, base + len, 8)
  {
    if base + len < 8 {
      FormatBehind(b, base, len, base + len);
    } else {
      assert ":" + "" == ":";
    }
  }

  lemma FormatQuad(b: seq<Byte>, len: nat)
    requires Shaped(b, 0, len) && Embedded(b, 0, len)
    ensures Format(b, 0, len, 0) ==
            ":" + if len == 6 then ":" + Quad(b[12..], 0) else ":" + (Hex(0xFFFF) + (":" + Quad(b[12..], 0)))
  {
    hide Hex, Quad;
  }

  /** What is written: eight groups; or the groups around a double colon; or, behind one at the start, a
      dotted quad. */
  lemma FormatShape(b: seq<Byte>, base: int, len: nat)
    requires Shaped(b, base, len)
    ensures Format(b, base, len, 0) ==
            if base == -1 then Joined(b, 0, 8)
            else if base == 0 && len == 6 then "::" + Quad(b[12..], 0)
            else if base == 0 && len == 5 && Word(b, 5) == 0xFFFF then "::ffff:" + Quad(b[12..], 0)
            else Joined(b, 0, base) + "::" + Joined(b, base + len, 8)
  {
    if base == 0 && Embedded(b, base, len) {
      FormatQuad(b, len);
      AllF();
    } else {
      FormatPlain(b, base, len);
    }
  }

  lemma AllF()
    ensures Hex(0xFFFF) == "ffff"
  {
    assert Hex(0xF) == "f" && Hex(0xFF) == "f" + "f" && Hex(0xFFF) == "ff" + "f" && Hex(0xFFFF) == "fff" + "f";
  }

  lemma FormatPlain(b: seq<Byte>, base: int, len: nat)
    requires Shaped(b, base, len) && !Embedded(b, base, len)
    ensures Format(b, base, len, 0) ==
            if base == -1 then Joined(b, 0, 8) else Joined(b, 0, base) + "::" + Joined(b, base + len, 8)
  {
    FormatFirst(b, base, len);
    assert Joined(b, 0, 0) == "";
    hide Hex, Word, Format, Joined, Embedded;
    if base == -1 {
      FormatBehind(b, base, len, 1);
      JoinedIs(b, 0, 8);
    } else if base == 0 {
      FormatLast(b, base, len);
      Doubly("", Joined(b, len, 8));
    } else {
      FormatLast(b, base, len);
      JoinedIs(b, 0, base);
      var h, last := Hex(Word(b, 0)), Joined(b, base + len, 8);
      if base == 1 {
        FormatRun(b, base, len);
        Doubly(h + "", last);
        Doubly(h, "");
      } else {
        FormatBefore(b, base, len, 1);
        var mid := ":" + Joined(b, 1, base);
        Regroup("", h, mid, ":" + (":" + last));
        Doubly(h + mid, last);
        Doubly(h + (mid + (":" + (":" + last))), "");
      }
    }
  }

  lemma Doubly(a: string, b: string)
    ensures a + (":" + (":" + b)) == a + "::" + b && "" + a == a && a + "" == a
  {
  }

  lemma FormatFirst(b: seq<Byte>, base: int, len: nat)
    requires Shaped(b, base, len) && !Embedded(b, base, len)
    ensures Format(b, base, len, 0) ==
            if base == 0 then ":" + Format(b, base, len, len) else Hex(Word(b, 0)) + Format(b, base, len, 1)
  {
    hide Hex;
    assert "" + (Hex(Word(b, 0)) + Format(b, base, len, 1)) == Hex(Word(b, 0)) + Format(b, base, len, 1);
  }

  lemma QuadIs(b: seq<Byte>)
    requires |b| == 4
    ensures Quad(b, 0) == Dec(b[0]) + "." + Dec(b[1]) + "." + Dec(b[2]) + "." + Dec(b[3])
  {
    hide Dec;
    assert Quad(b, 3) == Dec(b[3]);
    assert Quad(b, 2) == Dec(b[2]) + "." + Dec(b[3]);
    assert Quad(b, 1) == Dec(b[1]) + "." + Quad(b, 2);
    assert Quad(b, 0) == Dec(b[0]) + "." + Quad(b, 1);
  }

  /** A decimal numeral of at most 255; leading zeros are allowed. */
  predicate Octet(o: string) {
    o != [] && Numeral(o, 10) && 0 <= Number(o, 10) <= 255
  }

  predicate AllOctets(os: seq<string>) {
    forall o :: o in os ==> Octet(o)
  }

  function Dots(os: seq<string>): string
    requires os != []
  {
    if |os| == 1 then os[0] else os[0] + ("." + Dots(os[1..]))
  }

  function Values(os: seq<string>): (b: seq<Byte>)
    requires AllOctets(os)
    ensures |b| == |os| && forall i :: 0 <= i < |os| ==> b[i] == Number(os[i], 10)
  {
    seq(|os|, i requires 0 <= i < |os| => ValueOf(os[i]))
  }

  function ValueOf(o: string): (v: Byte)
    ensures Octet(o) ==> v == Number(o, 10)
  {
    if 0 <= Number(o, 10) <= 255 then Number(o, 10) else 0
  }

  lemma {:induction false} NumberGrows(s: string, i: nat, base: nat)
    requires i <= |s| && Numeral(s, base) && base > 0
    ensures 0 <= Number(s[..i], base) <= Number(s, base)
    decreases |s|
  {
    if s == [] {
    } else {
      var t := s[..|s| - 1];
      assert s[|s| - 1] in s;
      NumberGrows(t, if i < |s| then i else 0, base);
      Grows(Number(t, base), base, XDigit(s[|s| - 1]));
      if i < |s| {
        assert t[..i] == s[..i];
      } else {
        assert s[..i] == s;
      }
    }
  }

  lemma Grows(n: nat, base: nat, d: nat)
    requires base > 0
    ensures n <= n * base + d
  {
  }

  /** The reader of dotted quads over one numeral. */
  lemma {:induction false} Pton4Run(o: string, i: nat, rest: string, done: seq<Byte>)
    requires Octet(o) && i < |o| && |done| < 4 && 0 <= Number(o[..i], 10) <= 255
    ensures Pton4(o[i..] + rest, done, Number(o[..i], 10), i > 0) == Pton4(rest, done, Number(o, 10), true)
    decreases |o| - i
  {
    hide Pton4, Number;
    var more := o[i + 1..] + rest;
    assert o[i..] + rest == [o[i]] + more && o[i] in o;
    NumberOne(o[..i], o[i], 10);
    assert o[..i] + [o[i]] == o[..i + 1];
    NumberGrows(o, i + 1, 10);
    Pton4One(o[i], more, done, Number(o[..i], 10), i > 0);
    if i + 1 < |o| {
      Pton4Run(o, i + 1, rest, done);
    } else {
      assert o[..i + 1] == o && more == rest;
    }
  }

  lemma Pton4One(c: char, rest: string, done: seq<Byte>, cur: Byte, saw: bool)
    requires |done| < 4 && 0 <= XDigit(c) < 10 && cur * 10 + XDigit(c) <= 255
    ensures Pton4([c] + rest, done, cur, saw) == Pton4(rest, done, cur * 10 + XDigit(c), true)
  {
    assert ([c] + rest)[1..] == rest;
  }

  /** Four octets with dots between them are read. */
  lemma {:induction false} Pton4Takes(os: seq<string>, done: seq<Byte>)
    requires os != [] && |done| + |os| == 4 && AllOctets(os)
    ensures Pton4(Dots(os), done, 0, false) == Some(done + Values(os))
    decreases os
  {
    hide Pton4, Octet;
    var o, v := os[0], Values(os);
    assert o in os && Octet(o);
    if |os| == 1 {
      Pton4Whole(o, "", done);
      assert o + "" == o;
      Pton4End(done, v[0]);
      assert [v[0]] == v;
    } else {
      var rest := "." + Dots(os[1..]);
      Pton4Whole(o, rest, done);
      Pton4Dot(Dots(os[1..]), done, v[0]);
      forall p | p in os[1..] ensures Octet(p) {
        assert p in os;
      }
      Pton4Takes(os[1..], done + [v[0]]);
      assert done + [v[0]] + Values(os[1..]) == done + v;
    }
  }

  lemma Pton4Whole(o: string, rest: string, done: seq<Byte>)
    requires Octet(o) && |done| < 4
    ensures Pton4(o + rest, done, 0, false) == Pton4(rest, done, Number(o, 10), true)
  {
    assert o[0..] == o && o[..0] == [];
    Pton4Run(o, 0, rest, done);
  }

  lemma Pton4End(done: seq<Byte>, cur: Byte)
    requires |done| == 3
    ensures Pton4("", done, cur, true) == Some(done + [cur])
  {
  }

  lemma Pton4Dot(rest: string, done: seq<Byte>, cur: Byte)
    requires |done| < 3
    ensures Pton4("." + rest, done, cur, true) == Pton4(rest, done + [cur], 0, false)
  {
    assert ("." + rest)[1..] == rest;
  }

  lemma OctetFirst(run: string, os: seq<string>)
    requires Octet(run) && os != [] && AllOctets(os)
    ensures AllOctets([run] + os) && Dots([run] + os) == run + ("." + Dots(os))
  {
    hide Octet;
    assert ([run] + os)[1..] == os;
  }

  lemma OctetLast(run: string, s: string)
    requires Octet(run) && s == []
    ensures AllOctets([run]) && Dots([run]) == run + s
  {
    hide Octet;
    assert run + s == run;
  }

  lemma HeadOff(run: string, s: string)
    requires s != []
    ensures run + [s[0]] + s[1..] == run + s && [] + s[1..] == s[1..] && [s[0]] + s[1..] == s
  {
  }

  /** What the reader must see next. */
  lemma Pton4Case(s: string, done: seq<Byte>, cur: Byte, saw: bool)
    requires |done| < 4 && Pton4(s, done, cur, saw).Some?
    ensures s == [] ==> |done| == 3 && saw
    ensures s != [] && s[0] == '.' ==> saw && |done| < 3 && Pton4(s[1..], done + [cur], 0, false).Some?
    ensures s != [] && s[0] != '.' ==>
              && 0 <= XDigit(s[0]) < 10 && cur * 10 + XDigit(s[0]) <= 255
              && Pton4(s[1..], done, cur * 10 + XDigit(s[0]), true).Some?
  {
  }

  /** And nothing else is. */
  lemma {:induction false} Pton4Needs(s: string, done: seq<Byte>, run: string) returns (os: seq<string>)
    requires |done| < 4 && Numeral(run, 10) && 0 <= Number(run, 10) <= 255
    requires Pton4(s, done, Number(run, 10), run != []).Some?
    ensures |os| == 4 - |done| && AllOctets(os) && Dots(os) == run + s
    decreases |s|
  {
    assert Number([], 10) == 0 && Numeral([], 10);
    hide Number, Numeral, Pton4, XDigit, AllOctets, Dots;
    Pton4Case(s, done, Number(run, 10), run != []);
    if s == [] {
      os := [run];
      OctetLast(run, s);
    } else if s[0] == '.' {
      var rest := Pton4Needs(s[1..], done + [Number(run, 10)], []);
      os := [run] + rest;
      HeadOff(run, s);
      OctetFirst(run, rest);
    } else {
      NumberOne(run, s[0], 10);
      HeadOff(run, s);
      os := Pton4Needs(s[1..], done, run + [s[0]]);
    }
  }

  /** inet_pton4 reads exactly the dotted quads of four octets. */
  lemma Read4Exact(s: string, b: seq<Byte>)
    ensures Pton4(s, [], 0, false) == Some(b) <==>
            exists os :: |os| == 4 && AllOctets(os) && Dots(os) == s && Values(os) == b
  {
    if Pton4(s, [], 0, false).Some? {
      var os := Pton4Needs(s, [], []);
      assert [] + s == s;
    }
    forall os | |os| == 4 && AllOctets(os) && Dots(os) == s ensures Pton4(s, [], 0, false) == Some(Values(os)) {
      Pton4Takes(os, []);
      assert [] + Values(os) == Values(os);
    }
  }
}
