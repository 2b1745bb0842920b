/** The texts that inet_pton6 of help.c takes, and what it reads from each. */
module InetGrammar {
  import opened Keys
  import opened InetText
  import opened InetShape

  /** A hexadecimal numeral of at most 0xffff; leading zeros are allowed. */
  predicate Small(g: string) {
    Numeral(g, 16) && 0 <= Number(g, 16) <= 0xFFFF
  }

  predicate Groups(gs: seq<string>) {
    forall g :: g in gs ==> g != [] && Small(g)
  }

  lemma GroupsFront(gs: seq<string>)
    requires Groups(gs) && gs != []
    ensures Groups(gs[..|gs| - 1]) && gs[|gs| - 1] in gs && gs[|gs| - 1] != [] && Small(gs[|gs| - 1])
  {
    hide Small;
    forall g | g in gs[..|gs| - 1] ensures g != [] && Small(g) {
      assert g in gs;
    }
    assert gs[|gs| - 1] in gs;
  }

  function GroupBytes(gs: seq<string>): (b: seq<Byte>)
    requires Groups(gs)
    ensures |b| == 2 * |gs|
  {
    if gs == [] then []
    else
      var g := gs[|gs| - 1];
      GroupsFront(gs);
      GroupBytes(gs[..|gs| - 1]) + [Number(g, 16) / 256, Number(g, 16) % 256]
  }

  /** Groups with a colon behind each, and one more colon before group k, or at the end if k is their
      number. */
  function Body(gs: seq<string>, k: int): string {
    if gs == [] then (if k == 0 then ":" else "")
    else Body(gs[..|gs| - 1], k) + (gs[|gs| - 1] + (if k == |gs| then "::" else ":"))
  }

  /** The reader after some groups and part of the next. */
  function At(gs: seq<string>, k: int, last: string): Reader
    requires Groups(gs) && Small(last)
  {
    Reader(GroupBytes(gs), if 0 <= k <= |gs| then 2 * k else -1, last != [], Number(last, 16))
  }

  lemma Digit6(c: char, rest: string, tok: string, gs: seq<string>, k: int, last: string)
    requires Groups(gs) && Small(last) && XDigit(c) >= 0
    ensures if Small(last + [c]) then Pton6([c] + rest, tok, At(gs, k, last)) == Pton6(rest, tok, At(gs, k, last + [c]))
            else Pton6([c] + rest, tok, At(gs, k, last)) == None
  {
    assert ([c] + rest)[1..] == rest;
    DigitsOnly(c);
    NumberOne(last, c, 16);
  }

  /** The reader over a numeral. */
  lemma {:induction false} Over(g: string, i: nat, rest: string, tok: string, gs: seq<string>, k: int)
    requires Groups(gs) && Small(g) && i <= |g| && Small(g[..i])
    ensures Pton6(g[i..] + rest, tok, At(gs, k, g[..i])) == Pton6(rest, tok, At(gs, k, g))
    decreases |g| - i
  {
    hide Pton6, Number, At;
    if i < |g| {
      var more := g[i + 1..] + rest;
      assert g[i..] + rest == [g[i]] + more && g[i] in g && g[..i] + [g[i]] == g[..i + 1];
      NumberGrows(g, i + 1, 16);
      Digit6(g[i], more, tok, gs, k, g[..i]);
      Over(g, i + 1, rest, tok, gs, k);
    } else {
      assert g[..i] == g && g[i..] + rest == rest;
    }
  }

  lemma OverAll(g: string, rest: string, tok: string, gs: seq<string>, k: int)
    requires Groups(gs) && Small(g)
    ensures Small([]) && Pton6(g + rest, tok, At(gs, k, [])) == Pton6(rest, tok, At(gs, k, g))
  {
    assert g[0..] == g && g[..0] == [];
    Over(g, 0, rest, tok, gs, k);
  }

  lemma MoreGroups(gs: seq<string>, g: string)
    requires Groups(gs) && g != [] && Small(g)
    ensures Groups(gs + [g]) && GroupBytes(gs + [g]) == GroupBytes(gs) + [Number(g, 16) / 256, Number(g, 16) % 256]
  {
    assert (gs + [g])[..|gs|] == gs;
  }

  /** A colon behind a group, and a second colon. */
  lemma Colon6(rest: string, tok: string, gs: seq<string>, k: int, last: string)
    requires Groups(gs) && Small(last) && Small([])
    ensures Pton6(":" + rest, tok, At(gs, k, last)) ==
            if last == [] then
              if 0 <= k <= |gs| then None else Pton6(rest, rest, At(gs, |gs|, []))
            else if |gs| >= 8 then None
            else Pton6(rest, rest, Stored6(gs, k, last))
  {
    Pton6Colon(rest, tok, At(gs, k, last));
    if last != [] {
      MoreGroups(gs, last);
    }
  }

  function Stored6(gs: seq<string>, k: int, last: string): Reader
    requires Groups(gs) && last != [] && Small(last)
  {
    MoreGroups(gs, last);
    At(gs + [last], if 0 <= k <= |gs| then k else -1, [])
  }

  /** The reader over a body stands before what follows. */
  lemma {:induction false} OverBody(gs: seq<string>, k: int, rest: string)
    requires Groups(gs) && -1 <= k <= |gs| <= 8
    ensures Small([]) && Groups([])
    ensures Pton6(Body(gs, k) + rest, Body(gs, k) + rest, At([], -1, [])) == Pton6(rest, rest, At(gs, k, []))
  {
    hide Pton6, At, Small;
    EmptySmall();
    if gs == [] {
      if k == 0 {
        Colon6(rest, ":" + rest, [], -1, []);
      } else {
        assert Body(gs, k) + rest == rest;
        SameAt(k, -1);
      }
    } else {
      var n := |gs| - 1;
      var pre, g := gs[..n], gs[n];
      GroupsFront(gs);
      assert pre + [g] == gs;
      var dd, k' := if k == |gs| then ":" else "", if k == |gs| then -1 else k;
      var more := ":" + (dd + rest);
      assert Body(gs, k) + rest == Body(pre, k) + (g + more);
      BodyBefore(pre, k, k');
      OverBody(pre, k', g + more);
      OverAll(g, more, g + more, pre, k');
      Colon6(dd + rest, g + more, pre, k', g);
      StoredIs(pre, k', g, gs);
      if k == |gs| {
        Colon6(rest, dd + rest, gs, -1, []);
      } else {
        assert dd + rest == rest;
      }
    }
  }

  lemma StoredIs(pre: seq<string>, k: int, g: string, gs: seq<string>)
    requires Groups(pre) && g != [] && Small(g) && gs == pre + [g] && -1 <= k <= |pre|
    ensures Groups(gs) && Small([]) && Stored6(pre, k, g) == At(gs, k, [])
  {
    MoreGroups(pre, g);
  }

  lemma EmptySmall()
    ensures Small([]) && Number([], 16) == 0
  {
  }

  lemma SameAt(k: int, l: int)
    requires k != 0 && l != 0 && Small([])
    ensures At([], k, []) == At([], l, [])
  {
  }

  lemma {:induction false} BodyBefore(gs: seq<string>, k: int, l: int)
    requires (k == l || k > |gs| || k < 0) && (k == l || l > |gs| || l < 0)
    ensures Body(gs, k) == Body(gs, l)
  {
    if gs != [] {
      BodyBefore(gs[..|gs| - 1], k, l);
    }
  }

  /** A text: its groups with the place of the double colon, or -1, and what stands behind them: the last
      group or nothing, or a dotted quad. */
  datatype Parse = Parse(gs: seq<string>, k: int, tail: string, quad: bool)

  predicate Formed(p: Parse) {
    && Groups(p.gs) && -1 <= p.k <= |p.gs| <= 8
    && if p.quad then |p.gs| <= 6 && Pton4(p.tail, [], 0, false).Some? else Small(p.tail)
  }

  function Text(p: Parse): string {
    (if p.k == 0 then ":" else "") + (Body(p.gs, p.k) + p.tail)
  }

  function TailBytes(p: Parse): seq<Byte>
    requires Formed(p)
  {
    if p.quad then Pton4(p.tail, [], 0, false).value
    else if p.tail == [] then []
    else [Number(p.tail, 16) / 256, Number(p.tail, 16) % 256]
  }

  /** 16 bytes, or at most 16 with a double colon. */
  predicate Accepts(p: Parse) {
    Formed(p)
    && var n := 2 * |p.gs| + |TailBytes(p)|;
      if p.k == -1 then n == 16 else n <= 16
  }

  function Value6(p: Parse): seq<Byte>
    requires Accepts(p)
  {
    var all := GroupBytes(p.gs) + TailBytes(p);
    if p.k == -1 then all else Spread(all, 2 * p.k)
  }

  /** The end of the reader on what has been read. */
  lemma Ended(p: Parse, r: Reader)
    requires Formed(p) && r.bytes == GroupBytes(p.gs) + (if p.quad then TailBytes(p) else [])
    requires r.colon == (if p.k == -1 then -1 else 2 * p.k) && r.saw == (!p.quad && p.tail != [])
    requires r.saw ==> r.val == Number(p.tail, 16)
    ensures Finished(r) == if Accepts(p) then Some(Value6(p)) else None
  {
    hide Pton4, Number, GroupBytes;
    if p.quad {
      QuadSize(p.tail);
    } else {
      assert GroupBytes(p.gs) + [] == GroupBytes(p.gs);
    }
  }

  lemma QuadSize(s: string)
    requires Pton4(s, [], 0, false).Some?
    ensures |Pton4(s, [], 0, false).value| == 4
  {
    Read4Exact(s, Pton4(s, [], 0, false).value);
  }

  function AsHex(n: int): int {
    n / 100 * 256 + n / 10 % 10 * 16 + n % 10
  }

  lemma AsHexStep(m: nat, d: nat)
    requires m <= 25 && d < 10
    ensures AsHex(m * 10 + d) == AsHex(m) * 16 + d
  {
    var n := m * 10 + d;
    assert n / 10 == m && n % 10 == d && n / 100 == m / 10;
    assert m / 100 == 0 && m / 10 % 10 == m / 10;
  }

  lemma Digits16(o: string)
    requires Numeral(o, 10)
    ensures Numeral(o, 16)
  {
  }

  /** An octet without its last digit. */
  lemma FrontOctet(o: string)
    requires o != [] && Numeral(o, 10) && 0 <= Number(o, 10) <= 255
    ensures var pre, d := o[..|o| - 1], XDigit(o[|o| - 1]);
      && Numeral(pre, 10) && 0 <= d < 10 && 0 <= Number(pre, 10) <= 25
      && Number(o, 10) == Number(pre, 10) * 10 + d && Number(o, 16) == Number(pre, 16) * 16 + d
  {
    var pre, c := o[..|o| - 1], o[|o| - 1];
    assert c in o && pre + [c] == o;
    NumberGrows(o, |o| - 1, 10);
  }

  /** A decimal octet is a small hexadecimal numeral too. */
  lemma {:induction false} OctetSmall(o: string)
    requires Numeral(o, 10) && 0 <= Number(o, 10) <= 255
    ensures Number(o, 16) == AsHex(Number(o, 10))
    decreases |o|
  {
    if o != [] {
      hide AsHex, Number, Numeral;
      FrontOctet(o);
      OctetSmall(o[..|o| - 1]);
      AsHexStep(Number(o[..|o| - 1], 10), XDigit(o[|o| - 1]));
    }
  }

  lemma AsHexBound(n: nat)
    requires n <= 255
    ensures 0 <= AsHex(n) <= 0xFFFF
  {
  }

  /** The reader over a whole text. */
  lemma Through(p: Parse) returns (r: Reader)
    requires Formed(p)
    ensures Groups([]) && Small([])
    ensures Pton6(Body(p.gs, p.k) + p.tail, Body(p.gs, p.k) + p.tail, At([], -1, [])) == Some(r)
    ensures Finished(r) == if Accepts(p) then Some(Value6(p)) else None
  {
    hide Pton6, Pton4, Number, Finished, Accepts;
    OverBody(p.gs, p.k, p.tail);
    if p.quad {
      var b := Pton4(p.tail, [], 0, false).value;
      Read4Exact(p.tail, b);
      var os :| |os| == 4 && AllOctets(os) && Dots(os) == p.tail && Values(os) == b;
      var rest := "." + Dots(os[1..]);
      assert os[0] in os && Octet(os[0]) && p.tail == os[0] + rest;
      OctetSmall(os[0]);
      AsHexBound(Number(os[0], 10));
      Digits16(os[0]);
      OverAll(os[0], rest, p.tail, p.gs, p.k);
      Pton6Dot(rest, p.tail, At(p.gs, p.k, os[0]));
      r := At(p.gs, p.k, os[0]).(bytes := GroupBytes(p.gs) + b, saw := false);
    } else {
      OverAll(p.tail, "", p.tail, p.gs, p.k);
      assert p.tail + "" == p.tail && GroupBytes(p.gs) + [] == GroupBytes(p.gs);
      r := At(p.gs, p.k, p.tail);
      Pton6End(p.tail, r);
    }
    Ended(p, r);
  }

  lemma {:induction false} BodyStart(gs: seq<string>, k: int)
    requires gs != [] && Groups(gs)
    ensures gs[0] in gs && Body(gs, k) != [] && Body(gs, k)[0] == if k == 0 then ':' else gs[0][0]
  {
    var pre := gs[..|gs| - 1];
    GroupsFront(gs);
    assert gs[0] in gs;
    if |gs| > 1 {
      assert pre[0] == gs[0];
      BodyStart(pre, k);
    } else {
      assert Body(pre, k) == if k == 0 then ":" else "";
    }
  }

  lemma NoColon(g: string, base: nat)
    requires g != [] && Numeral(g, base)
    ensures g[0] != ':'
  {
    assert g[0] in g;
  }

  /** A text begins with a colon exactly if its double colon is in front. */
  lemma FirstColon(p: Parse)
    requires Formed(p)
    ensures var t := Body(p.gs, p.k) + p.tail; t != [] && t[0] == ':' <==> p.k == 0
  {
    hide Pton4;
    if p.gs != [] {
      BodyStart(p.gs, p.k);
      assert p.gs[0] in p.gs;
      NoColon(p.gs[0], 16);
    } else if p.quad {
      Read4Exact(p.tail, Pton4(p.tail, [], 0, false).value);
      var os :| |os| == 4 && AllOctets(os) && Dots(os) == p.tail;
      assert os[0] in os && Octet(os[0]);
      NoColon(os[0], 10);
    } else if p.tail != [] {
      NoColon(p.tail, 16);
    }
  }

  /** A text of this form is taken if it has the right number of bytes, and refused otherwise. */
  lemma Read6Takes(p: Parse)
    requires Formed(p)
    ensures Read6(Text(p)) == if Accepts(p) then Some(Value6(p)) else None
  {
    hide Pton6, Finished, Accepts, Formed, Body;
    var t := Body(p.gs, p.k) + p.tail;
    FirstColon(p);
    var r := Through(p);
    if p.k == 0 {
      assert Text(p) == ":" + t && Text(p)[1..] == t;
    } else {
      assert Text(p) == t;
    }
  }

  /** What is read has this form. */
  lemma {:induction false} Pton6Needs(s: string, gs: seq<string>, k: int, last: string) returns (p: Parse)
    requires Groups(gs) && -1 <= k <= |gs| <= 8 && Small(last)
    requires Pton6(s, last + s, At(gs, k, last)).Some?
    ensures Formed(p) && Body(p.gs, p.k) + p.tail == Body(gs, k) + (last + s)
    decreases |s|
  {
    hide Number, At, Pton4, Body;
    if s == [] {
      p := Parse(gs, k, last, false);
      assert last + s == last;
    } else {
      var rest := s[1..];
      assert s == [s[0]] + rest;
      if XDigit(s[0]) >= 0 {
        Digit6(s[0], rest, last + s, gs, k, last);
        assert last + [s[0]] + rest == last + s;
        p := Pton6Needs(rest, gs, k, last + [s[0]]);
      } else if s[0] == ':' {
        EmptySmall();
        assert s == ":" + rest && [] + rest == rest;
        Colon6(rest, last + s, gs, k, last);
        if last == [] {
          p := Pton6Needs(rest, gs, |gs|, []);
          BodyDouble(gs, k, rest);
        } else {
          StoredIs(gs, k, last, gs + [last]);
          p := Pton6Needs(rest, gs + [last], k, []);
          BodyMore(gs, k, last, rest);
        }
      } else {
        DotOnly(s, last + s, At(gs, k, last));
        AtSize(gs, k, last);
        p := Parse(gs, k, last + s, true);
      }
    }
  }

  lemma AtSize(gs: seq<string>, k: int, last: string)
    requires Groups(gs) && Small(last)
    ensures |At(gs, k, last).bytes| == 2 * |gs|
  {
  }

  lemma DotOnly(s: string, tok: string, r: Reader)
    requires s != [] && XDigit(s[0]) < 0 && s[0] != ':' && Pton6(s, tok, r).Some?
    ensures |r.bytes| <= 12 && Pton4(tok, [], 0, false).Some?
  {
    hide Pton4;
  }

  lemma Glue(b: string, g: string, rest: string)
    ensures b + (g + "::") + ([] + rest) == b + (g + ":") + ([] + (":" + rest))
    ensures ":" + ([] + rest) == [] + ([] + (":" + rest))
  {
  }

  lemma BodyDouble(gs: seq<string>, k: int, rest: string)
    requires k < 0 || k > |gs|
    ensures Body(gs, |gs|) + ([] + rest) == Body(gs, k) + ([] + (":" + rest))
  {
    if gs == [] {
      Glue("", "", rest);
    } else {
      var pre, g := gs[..|gs| - 1], gs[|gs| - 1];
      BodyBefore(pre, k, |gs|);
      assert Body(gs, |gs|) == Body(pre, k) + (g + "::") && Body(gs, k) == Body(pre, k) + (g + ":");
      hide Body;
      Glue(Body(pre, k), g, rest);
    }
  }

  lemma BodyMore(gs: seq<string>, k: int, g: string, rest: string)
    requires k <= |gs|
    ensures Body(gs + [g], k) + ([] + rest) == Body(gs, k) + (g + (":" + rest))
  {
    assert (gs + [g])[..|gs|] == gs;
  }

  /** inet_pton6 reads exactly these texts: groups of hexadecimal digits with colons between them, at most one
      double colon, perhaps one colon too many behind the last group, and perhaps a dotted quad at the end. */
  lemma Read6Exact(s: string, b: seq<Byte>)
    ensures Read6(s) == Some(b) <==> exists p :: Accepts(p) && Text(p) == s && Value6(p) == b
  {
    if Read6(s).Some? {
      var p := Read6Needs(s);
      Read6Takes(p);
    }
    forall p | Accepts(p) && Text(p) == s ensures Read6(s) == Some(Value6(p)) {
      Read6Takes(p);
    }
  }

  lemma Read6Needs(s: string) returns (p: Parse)
    requires Read6(s).Some?
    ensures Formed(p) && Text(p) == s
  {
    hide Pton6, Finished, Number;
    var t := if s != [] && s[0] == ':' then s[1..] else s;
    EmptySmall();
    assert At([], -1, []) == Reader([], -1, false, 0) && [] + t == t && Body([], -1) == [];
    p := Pton6Needs(t, [], -1, []);
    FirstColon(p);
  }

  /** One colon too many behind eight groups does not matter. */
  lemma TrailingColon(gs: seq<string>)
    requires Groups(gs) && |gs| == 8
    ensures Read6(Body(gs, -1)) == Some(GroupBytes(gs))
  {
    EmptySmall();
    var p := Parse(gs, -1, [], false);
    Read6Takes(p);
    assert Text(p) == Body(gs, -1) && GroupBytes(gs) + [] == GroupBytes(gs);
  }
}
