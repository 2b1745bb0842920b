/** The loops of help.c that write and read addresses, each proved to compute the functions of InetText. */
module InetCode {
  import opened Keys
  import opened Tunnels
  import opened InetText

  /** The first n octets, each with a dot behind it. */
  function Dotted(b: seq<Byte>, n: nat): string
    requires n <= 4 == |b|
  {
    if n == 0 then "" else Dotted(b, n - 1) + Dec(b[n - 1]) + "."
  }

  lemma {:induction false} DottedQuad(b: seq<Byte>, n: nat)
    requires n < 4 == |b|
    ensures Dotted(b, 4) == Dotted(b, n) + Quad(b, n) + "."
    decreases 4 - n
  {
    if n < 3 {
      DottedQuad(b, n + 1);
    }
  }

  /** The digits of one octet. */
  method PutOctet(text: string, octet: Byte) returns (next: string)
    ensures next == text + Dec(octet)
  {
    next := text;
    var u: int := octet;
    if u > 99 {
      next := next + [Digit(u / 100)];
      u := u % 100;
      next := next + [Digit(u / 10)];
      u := u % 10;
    } else if u > 9 {
      next := next + [Digit(u / 10)];
      u := u % 10;
    }
    next := next + [Digit(u)];
    assert octet > 99 ==> octet % 100 % 10 == octet % 10;
  }

  /** inet_ntop4. */
  method InetNtop4(src: seq<Byte>, size: int) returns (dst: Option<string>)
    requires |src| == 4
    ensures dst == if size < 16 then None else Some(Quad(src, 0))
  {
    hide Dec, Quad;
    if size < 16 {
      return None;
    }
    var n, next: string := 0, [];
    while n < 4
      invariant n <= 4 && next == Dotted(src, n)
    {
      next := PutOctet(next, src[n]);
      next := next + ".";
      n := n + 1;
    }
    DottedQuad(src, 0);
    assert Dotted(src, 0) == "" && next == Quad(src, 0) + ".";
    return Some(next[..|next| - 1]);
  }

  /** inet_pton4. */
  method InetPton4(src: string) returns (dst: Option<seq<Byte>>)
    ensures dst == Pton4(src, [], 0, false)
  {
    var tmp := new Byte[4](_ => 0);
    var saw, octets, tp: nat, k := false, 0, 0, 0;
    while k < |src|
      invariant k <= |src| && tp < 4 && octets == tp + if saw then 1 else 0
      invariant Pton4(src[k..], tmp[..tp], tmp[tp], saw) == Pton4(src, [], 0, false)
    {
      var ch := src[k];
      assert src[k..][1..] == src[k + 1..];
      k := k + 1;
      if '0' <= ch <= '9' {
        var n := tmp[tp] as int * 10 + XDigit(ch);
        if n > 255 {
          return None;
        }
        tmp[tp] := n;
        if !saw {
          octets := octets + 1;
          if octets > 4 {
            return None;
          }
          saw := true;
        }
      } else if ch == '.' && saw {
        if octets == 4 {
          return None;
        }
        tp := tp + 1;
        tmp[tp] := 0;
        saw := false;
        assert tmp[..tp] == tmp[..tp - 1] + [tmp[tp - 1]];
      } else {
        return None;
      }
    }
    assert src[k..] == [];
    if octets < 4 {
      return None;
    }
    assert tmp[..] == tmp[..3] + [tmp[3]];
    return Some(tmp[..]);
  }

  /** inet_pton6. */
  method InetPton6(src: string) returns (dst: Option<seq<Byte>>)
    ensures dst == Read6(src)
  {
    hide Pton6, Pton4, Finished;
    var tmp := new Byte[16](_ => 0);
    var s := src;
    if s != [] && s[0] == ':' {
      s := s[1..];
      if s == [] || s[0] != ':' {
        return None;
      }
    }
    var tp, colonp, curtok, saw, val, k := 0, -1, 0, false, 0, 0;
    var stop := false;
    assert s[0..] == s;
    while k < |s| && !stop
      invariant 0 <= k <= |s| && 0 <= curtok <= |s| && 0 <= tp <= 16 && 0 <= val <= 0xFFFF && -1 <= colonp <= tp
      invariant forall j :: tp <= j < 16 ==> tmp[j] == 0
      invariant Pton6(s, s, Reader([], -1, false, 0)) ==
                if stop then Some(Reader(tmp[..tp], colonp, saw, val))
                else Pton6(s[k..], s[curtok..], Reader(tmp[..tp], colonp, saw, val))
      decreases |s| - k, !stop
    {
      var ch := s[k];
      var d := XDigit(ch);
      ghost var r := Reader(tmp[..tp], colonp, saw, val);
      Pton6Step(s[k..], s[curtok..], r);
      assert s[k..][0] == ch && s[k..][1..] == s[k + 1..];
      k := k + 1;
      if d >= 0 {
        if val * 16 + d > 0xFFFF {
          return None;
        }
        val := val * 16 + d;
        saw := true;
      } else if ch == ':' {
        curtok := k;
        if !saw {
          if colonp != -1 {
            return None;
          }
          colonp := tp;
        } else {
          if tp + 2 > 16 {
            return None;
          }
          PutWord(tmp, tp, val);
          tp, saw, val := tp + 2, false, 0;
          assert Reader(tmp[..tp], colonp, saw, val) == Store(r);
        }
      } else if ch == '.' && tp + 4 <= 16 {
        var quad := InetPton4(s[curtok..]);
        if quad == None {
          return None;
        }
        Pton4Size(s[curtok..], [], 0, false);
        PutQuad(tmp, tp, quad.value);
        tp, saw, stop := tp + 4, false, true;
      } else {
        return None;
      }
    }
    assert k == |s| ==> s[k..] == [];
    Pton6None(s[curtok..], Reader(tmp[..tp], colonp, saw, val));
    dst := Finish(tmp, tp, colonp, saw, val);
  }

  lemma Pton6None(tok: string, r: Reader)
    ensures Pton6([], tok, r) == Some(r)
  {
  }

  lemma Pton6Step(s: string, tok: string, r: Reader)
    requires s != []
    ensures Pton6(s, tok, r) ==
      var d := XDigit(s[0]);
      if d >= 0 then
        if r.val * 16 + d > 0xFFFF then None else Pton6(s[1..], tok, r.(saw := true, val := r.val * 16 + d))
      else if s[0] == ':' then
        if !r.saw then
          if r.colon != -1 then None else Pton6(s[1..], s[1..], r.(colon := |r.bytes|))
        else if |r.bytes| + 2 > 16 then None
        else Pton6(s[1..], s[1..], Store(r))
      else if s[0] == '.' && |r.bytes| + 4 <= 16 then
        match Pton4(tok, [], 0, false)
        case None => None
        case Some(quad) => Some(r.(bytes := r.bytes + quad, saw := false))
      else None
  {
  }

  lemma {:induction false} Pton4Size(s: string, done: seq<Byte>, cur: Byte, saw: bool)
    requires |done| < 4
    ensures Pton4(s, done, cur, saw).Some? ==> |Pton4(s, done, cur, saw).value| == 4
    decreases s
  {
    if s != [] {
      if '0' <= s[0] <= '9' {
        if cur * 10 + XDigit(s[0]) <= 255 {
          Pton4Size(s[1..], done, cur * 10 + XDigit(s[0]), true);
        }
      } else if s[0] == '.' && saw && |done| < 3 {
        Pton4Size(s[1..], done + [cur], 0, false);
      }
    }
  }

  method PutWord(tmp: array<Byte>, tp: nat, val: UInt16)
    requires tp + 2 <= tmp.Length == 16
    modifies tmp
    ensures tmp[..tp + 2] == old(tmp[..tp]) + [val / 256, val % 256]
    ensures forall j :: tp + 2 <= j < 16 ==> tmp[j] == old(tmp[j])
  {
    tmp[tp] := val / 256;
    tmp[tp + 1] := val % 256;
  }

  method PutQuad(tmp: array<Byte>, tp: nat, quad: seq<Byte>)
    requires tp + 4 <= tmp.Length == 16 && |quad| == 4
    modifies tmp
    ensures tmp[..tp + 4] == old(tmp[..tp]) + quad
    ensures forall j :: tp + 4 <= j < 16 ==> tmp[j] == old(tmp[j])
  {
    tmp[tp], tmp[tp + 1], tmp[tp + 2], tmp[tp + 3] := quad[0], quad[1], quad[2], quad[3];
  }

  /** The end of inet_pton6, with the shift by hand. */
  method Finish(tmp: array<Byte>, tp: nat, colonp: int, saw: bool, val: UInt16) returns (dst: Option<seq<Byte>>)
    requires tp <= tmp.Length == 16 && -1 <= colonp <= tp && forall j :: tp <= j < 16 ==> tmp[j] == 0
    modifies tmp
    ensures dst == Finished(Reader(old(tmp[..tp]), colonp, saw, val))
  {
    var end := tp;
    if saw {
      if end + 2 > 16 {
        return None;
      }
      PutWord(tmp, end, val);
      end := end + 2;
    }
    ghost var bytes := tmp[..end];
    if colonp != -1 {
      Shift(tmp, end, colonp);
      return Some(tmp[..]);
    }
    if end != 16 {
      return None;
    }
    assert tmp[..] == bytes;
    return Some(tmp[..]);
  }

  method Shift(tmp: array<Byte>, end: nat, colonp: nat)
    requires colonp <= end <= tmp.Length == 16 && forall j :: end <= j < 16 ==> tmp[j] == 0
    modifies tmp
    ensures tmp[..] == Spread(old(tmp[..end]), colonp)
  {
    hide Spread;
    var n, i := end - colonp, 1;
    ghost var was, gap := tmp[..], 16 - end;
    while i <= n
      invariant 1 <= i <= n + 1
      invariant forall j :: 0 <= j < end - (i - 1) ==> tmp[j] == was[j]
      invariant forall j :: end - (i - 1) <= j < 16 - (i - 1) ==> tmp[j] == 0
      invariant forall j :: 16 - (i - 1) <= j < 16 ==> tmp[j] == if gap == 0 then 0 else was[j - gap]
    {
      tmp[16 - i] := tmp[colonp + n - i];
      tmp[colonp + n - i] := 0;
      i := i + 1;
    }
    forall j | 0 <= j < 16 ensures tmp[j] == Spread(was[..end], colonp)[j] {
      SpreadAt(was[..end], colonp, j);
    }
  }

  lemma SpreadAt(bytes: seq<Byte>, colon: nat, j: nat)
    requires colon <= |bytes| <= 16 && j < 16
    ensures var gap := 16 - |bytes|;
      Spread(bytes, colon)[j] == if j < colon then bytes[j] else if gap == 0 || j < colon + gap then 0
        else bytes[j - gap]
  {
  }

  /** What inet_ntop6 knows of the runs of zero words before n: the first longest one, or none. */
  ghost predicate BestBefore(b: seq<Byte>, base: int, len: nat, n: nat)
    requires |b| == 16
  {
    if base == -1 then forall i: nat, l: nat :: ZeroRun(b, i, l) && i + l <= n ==> l == 0
    else
      && 0 <= base && len >= 1 && base + len <= n && ZeroRun(b, base, len)
      && forall i: nat, l: nat :: ZeroRun(b, i, l) && i + l <= n ==> l < len || (l == len && base <= i)
  }

  /** The run of zero words that ends before n and began at cur, if any, and the best run before it. */
  ghost predicate Runs(b: seq<Byte>, base: int, len: nat, cur: int, curLen: nat, n: nat)
    requires |b| == 16
  {
    if cur == -1 then BestBefore(b, base, len, n) && (n > 0 ==> n <= 8 && Word(b, n - 1) != 0)
    else
      && 0 <= cur && curLen == n - cur && curLen >= 1 && ZeroRun(b, cur, curLen)
      && (cur > 0 ==> Word(b, cur - 1) != 0) && BestBefore(b, base, len, cur)
  }

  /** A run before n is before cur or in the last run. */
  lemma RunSplits(b: seq<Byte>, cur: nat, n: nat, i: nat, l: nat)
    requires ZeroRun(b, i, l) && i + l <= n <= 8 && cur <= n && (cur > 0 ==> Word(b, cur - 1) != 0)
    ensures i + l <= cur || cur <= i
  {
  }

  lemma BestOf(b: seq<Byte>, base: int, len: nat, cur: nat, n: nat)
    requires |b| == 16 && cur < n <= 8 && ZeroRun(b, cur, n - cur) && BestBefore(b, base, len, cur)
    requires cur > 0 ==> Word(b, cur - 1) != 0
    ensures if base == -1 || n - cur > len then BestBefore(b, cur, n - cur, n) else BestBefore(b, base, len, n)
  {
    forall i: nat, l: nat | ZeroRun(b, i, l) && i + l <= n ensures i + l <= cur || cur <= i {
      RunSplits(b, cur, n, i, l);
    }
  }

  /** A word that is not 0 ends all runs. */
  lemma BestPast(b: seq<Byte>, base: int, len: nat, n: nat)
    requires |b| == 16 && n < 8 && Word(b, n) != 0 && BestBefore(b, base, len, n)
    ensures BestBefore(b, base, len, n + 1)
  {
    forall i: nat, l: nat | ZeroRun(b, i, l) && i + l <= n + 1 && l > 0 ensures i + l <= n {
    }
  }

  /** The search for the run to abbreviate. */
  method FindBest(src: seq<Byte>) returns (words: seq<UInt16>, base: int, len: nat)
    requires |src| == 16
    ensures Best(src, base, len) && |words| == 8 && forall i :: 0 <= i < 8 ==> words[i] == Word(src, i)
  {
    hide BestBefore, ZeroRun;
    words, base, len := [], -1, 0;
    var cur, curLen, i := -1, 0, 0;
    NoRuns(src);
    while i < 8
      invariant i <= 8 && |words| == i && forall j :: 0 <= j < i ==> words[j] == Word(src, j)
      invariant Runs(src, base, len, cur, curLen, i)
    {
      var nextWord := Word(src, i);
      words := words + [nextWord];
      if nextWord == 0 {
        if cur == -1 {
          ZeroWord(src, i);
          cur, curLen := i, 1;
        } else {
          LongerRun(src, cur, curLen);
          curLen := curLen + 1;
        }
      } else {
        if cur != -1 {
          BestOf(src, base, len, cur, i);
          if base == -1 || curLen > len {
            base, len := cur, curLen;
          }
          cur := -1;
        }
        BestPast(src, base, len, i);
      }
      i := i + 1;
    }
    if cur != -1 {
      BestOf(src, base, len, cur, 8);
      if base == -1 || curLen > len {
        base, len := cur, curLen;
      }
    }
    BestWhole(src, base, len);
    if base != -1 && len < 2 {
      base := -1;
    }
  }

  lemma NoRuns(b: seq<Byte>)
    requires |b| == 16
    ensures BestBefore(b, -1, 0, 0)
  {
  }

  lemma ZeroWord(b: seq<Byte>, i: nat)
    requires |b| == 16 && i < 8 && Word(b, i) == 0
    ensures ZeroRun(b, i, 1)
  {
  }

  lemma LongerRun(b: seq<Byte>, i: nat, l: nat)
    requires ZeroRun(b, i, l) && i + l < 8 && Word(b, i + l) == 0
    ensures ZeroRun(b, i, l + 1)
  {
  }

  lemma BestWhole(b: seq<Byte>, base: int, len: nat)
    requires |b| == 16 && BestBefore(b, base, len, 8)
    ensures if base != -1 && len < 2 then Best(b, -1, len) else Best(b, base, len)
  {
    forall i: nat, l: nat | ZeroRun(b, i, l) ensures i + l <= 8 {
    }
  }

  lemma BestIsShaped(b: seq<Byte>, base: int, len: nat)
    requires |b| == 16 && Best(b, base, len)
    ensures Shaped(b, base, len)
  {
    if base != -1 {
      assert ZeroRun(b, base, len);
    }
  }

  lemma HexShort(w: UInt16)
    ensures |Hex(w)| <= 4
  {
    assert |Hex(w / 4096)| <= 1;
    assert |Hex(w / 256)| <= 2 by {
      assert w / 256 / 16 == w / 4096;
    }
    assert |Hex(w / 16)| <= 3 by {
      assert w / 16 / 16 == w / 256;
    }
  }

  lemma QuadShort(b: seq<Byte>)
    requires |b| == 4
    ensures |Quad(b, 0)| <= 15
  {
    assert |Quad(b, 2)| <= 7;
    assert |Quad(b, 1)| <= 11;
  }

  /** No address is longer than the 45 characters of a full one with an embedded quad. */
  lemma {:induction false} FormatShort(b: seq<Byte>, base: int, len: nat, i: nat)
    requires Shaped(b, base, len) && i <= 8
    ensures |Format(b, base, len, i)| <= if i == 0 then 45 else 46 - 5 * i
    decreases 8 - i
  {
    hide Hex, Quad, Format;
    if i == 8 {
      FormatEnd(b, base, len);
    } else {
      FormatStep(b, base, len, i);
      if i == base {
        FormatShort(b, base, len, i + len);
      } else {
        HexShort(Word(b, i));
        QuadShort(b[12..]);
        FormatShort(b, base, len, i + 1);
      }
    }
  }

  /** The loop of inet_ntop6 over the words: everything but a double colon's second colon at the end. */
  method WriteWords(src: seq<Byte>, words: seq<UInt16>, base: int, len: nat) returns (tp: string)
    requires Shaped(src, base, len) && |words| == 8 && forall i :: 0 <= i < 8 ==> words[i] == Word(src, i)
    ensures tp + Ending(base, len) == Format(src, base, len, 0)
  {
    hide Hex, Quad, ZeroRun, Format, Ending, Word;
    ghost var text := Format(src, base, len, 0);
    var i := 0;
    tp := [];
    while i < 8
      invariant i <= 8 && text == tp + Format(src, base, len, i)
      decreases 8 - i
    {
      if i == base {
        OverRun(text, tp, src, base, len, i);
        tp := tp + ":";
        i := i + len;
        continue;
      }
      if i == 6 && Embedded(src, base, len) {
        OverQuad(text, tp, src, base, len);
      } else {
        OverWord(text, tp, src, base, len, i);
      }
      if i != 0 {
        tp := tp + ":";
      }
      if i == 6 && base == 0 && (len == 6 || (len == 5 && words[5] == 0xFFFF)) {
        var quad := InetNtop4(src[12..], 46 - 7);
        tp := tp + quad.value;
        EndsInside(tp, base, len);
        return;
      }
      tp := tp + Hex(words[i]);
      i := i + 1;
    }
    FormatEnd(src, base, len);
  }

  lemma OverRun(text: string, tp: string, b: seq<Byte>, base: int, len: nat, i: nat)
    requires Shaped(b, base, len) && i < 8 && i == base && text == tp + Format(b, base, len, i)
    ensures text == tp + ":" + Format(b, base, len, i + len)
  {
    hide Hex, Quad, ZeroRun;
    GroupStep(b, base, len, i);
  }

  lemma OverQuad(text: string, tp: string, b: seq<Byte>, base: int, len: nat)
    requires Shaped(b, base, len) && Embedded(b, base, len) && text == tp + Format(b, base, len, 6)
    ensures text == tp + ":" + Quad(b[12..], 0)
  {
    hide Hex, Quad, ZeroRun;
    GroupStep(b, base, len, 6);
  }

  lemma OverWord(text: string, tp: string, b: seq<Byte>, base: int, len: nat, i: nat)
    requires Shaped(b, base, len) && i < 8 && i != base && !(i == 6 && Embedded(b, base, len))
    requires text == tp + Format(b, base, len, i)
    ensures text == (if i != 0 then tp + ":" else tp) + Hex(Word(b, i)) + Format(b, base, len, i + 1)
  {
    hide Hex, Quad, ZeroRun, Format, Word, Group;
    GroupStep(b, base, len, i);
    var rest := Group(b, base, len, i);
    if i != 0 {
      TextOn(text, tp, ":", rest);
      TextOn(text, tp + ":", Hex(Word(b, i)), Format(b, base, len, i + 1));
    } else {
      assert "" + rest == rest;
      TextOn(text, tp, Hex(Word(b, i)), Format(b, base, len, i + 1));
    }
  }

  /** The text from word i on behind its colon. */
  function Group(b: seq<Byte>, base: int, len: nat, i: nat): string
    requires Shaped(b, base, len) && i < 8
  {
    if i == 6 && Embedded(b, base, len) then Quad(b[12..], 0) else Hex(Word(b, i)) + Format(b, base, len, i + 1)
  }

  lemma GroupStep(b: seq<Byte>, base: int, len: nat, i: nat)
    requires Shaped(b, base, len) && i < 8
    ensures Format(b, base, len, i) ==
      if i == base then ":" + Format(b, base, len, i + len)
      else (if i != 0 then ":" else "") + Group(b, base, len, i)
    ensures Group(b, base, len, i) ==
      if i == 6 && Embedded(b, base, len) then Quad(b[12..], 0) else Hex(Word(b, i)) + Format(b, base, len, i + 1)
  {
    hide Hex, Quad, Format;
    FormatStep(b, base, len, i);
  }

  lemma TextOn(text: string, tp: string, next: string, rest: string)
    requires text == tp + (next + rest)
    ensures text == tp + next + rest
  {
  }

  function Ending(base: int, len: nat): string {
    if base != -1 && base + len == 8 then ":" else ""
  }

  lemma EndsInside(tp: string, base: int, len: nat)
    requires base == 0 && len <= 6
    ensures tp + Ending(base, len) == tp
  {
    assert Ending(base, len) == "";
  }

  /** inet_ntop6.  The text of an address fits any buffer of 46 bytes and reads back as the address. */
  method InetNtop6(src: seq<Byte>, size: int) returns (dst: Option<string>)
    requires |src| == 16
    ensures exists base, len :: Best(src, base, len) &&
              var text := Format(src, base, len, 0);
              dst == if |text| + 1 > size then None else Some(text)
    ensures dst.Some? ==> Read6(dst.value) == Some(src)
    ensures size >= 46 ==> dst.Some?
  {
    hide Best, ZeroRun, Format, Read6;
    var words, base, len := FindBest(src);
    BestIsShaped(src, base, len);
    WriteRead6(src, base, len);
    var tp := WriteWords(src, words, base, len);
    tp := tp + Ending(base, len);
    if |tp| + 1 > size {
      return None;
    }
    return Some(tp);
  }

  lemma FormatEnd(b: seq<Byte>, base: int, len: nat)
    requires Shaped(b, base, len)
    ensures Format(b, base, len, 8) == Ending(base, len)
  {
  }

  /** Writing and reading an IPv6 address. */
  lemma WriteRead6(b: seq<Byte>, base: int, len: nat)
    requires |b| == 16 && Best(b, base, len)
    ensures Read6(Format(b, base, len, 0)) == Some(b)
    ensures |Format(b, base, len, 0)| <= 45
  {
    BestIsShaped(b, base, len);
    FormatShort(b, base, len, 0);
    RoundTrip6(b, base, len);
  }
}
