/** Addresses as text: what inet_ntop4, inet_ntop6, inet_pton4 and inet_pton6 of help.c compute, and that
    reading undoes writing. */
module InetText {
  import opened Tunnels
  import opened Keys

  datatype Option<T> = None | Some(value: T)

  /** The value of a hexadecimal digit of either case, or -1. */
  function XDigit(c: char): int {
    if '0' <= c <= '9' then c as int - '0' as int
    else if 'a' <= c <= 'f' then c as int - 'a' as int + 10
    else if 'A' <= c <= 'F' then c as int - 'A' as int + 10
    else -1
  }

  function Digit(d: nat): char
    requires d < 16
  {
    if d < 10 then ('0' as int + d) as char else ('a' as int + d - 10) as char
  }

  lemma DigitValue(d: nat)
    requires d < 16
    ensures XDigit(Digit(d)) == d && (d < 10 ==> '0' <= Digit(d) <= '9') && Digit(d) != ':' && Digit(d) != '.'
  {
  }

  /** A byte in decimal. */
  function Dec(u: Byte): string {
    if u > 99 then [Digit(u / 100), Digit(u % 100 / 10), Digit(u % 10)]
    else if u > 9 then [Digit(u / 10), Digit(u % 10)]
    else [Digit(u)]
  }

  /** A word in hexadecimal, as %x writes it. */
  function Hex(w: UInt16): string {
    if w < 16 then [Digit(w)] else Hex(w / 16) + [Digit(w % 16)]
  }

  /** The dotted quad of the bytes from i on. */
  function Quad(b: seq<Byte>, i: nat): string
    requires i < 4 <= |b|
    decreases 4 - i
  {
    if i == 3 then Dec(b[3]) else Dec(b[i]) + "." + Quad(b, i + 1)
  }

  /** inet_pton4 from some point on: the octets that are finished, the one being read, and whether it has
      a digit. */
  function Pton4(s: string, done: seq<Byte>, cur: Byte, saw: bool): Option<seq<Byte>>
    requires |done| < 4
  {
    if s == [] then
      if |done| == 3 && saw then Some(done + [cur]) else None
    else if '0' <= s[0] <= '9' then
      var n := cur * 10 + XDigit(s[0]);
      if n > 255 then None else Pton4(s[1..], done, n, true)
    else if s[0] == '.' && saw then
      if |done| == 3 then None else Pton4(s[1..], done + [cur], 0, false)
    else None
  }

  lemma Pton4Digit(d: nat, rest: string, done: seq<Byte>, cur: Byte, saw: bool)
    requires |done| < 4 && d < 10 && cur * 10 + d <= 255
    ensures Pton4([Digit(d)] + rest, done, cur, saw) == Pton4(rest, done, cur * 10 + d, true)
  {
    DigitValue(d);
    assert ([Digit(d)] + rest)[1..] == rest;
  }

  lemma Pton4Dec(u: Byte, rest: string, done: seq<Byte>)
    requires |done| < 4
    ensures Pton4(Dec(u) + rest, done, 0, false) == Pton4(rest, done, u, true)
  {
    hide Pton4;
    if u > 99 {
      var a, b, c := u / 100, u % 100 / 10, u % 10;
      assert (a * 10 + b) * 10 + c == u && a < 10;
      assert Dec(u) + rest == [Digit(a)] + ([Digit(b)] + ([Digit(c)] + rest));
      Pton4Digit(a, [Digit(b)] + ([Digit(c)] + rest), done, 0, false);
      Pton4Digit(b, [Digit(c)] + rest, done, a, true);
      Pton4Digit(c, rest, done, a * 10 + b, true);
    } else if u > 9 {
      var a, b := u / 10, u % 10;
      assert Dec(u) + rest == [Digit(a)] + ([Digit(b)] + rest);
      Pton4Digit(a, [Digit(b)] + rest, done, 0, false);
      Pton4Digit(b, rest, done, a, true);
    } else {
      Pton4Digit(u, rest, done, 0, false);
    }
  }

  lemma {:induction false} Pton4Quad(b: seq<Byte>, i: nat)
    requires i < 4 == |b|
    ensures Pton4(Quad(b, i), b[..i], 0, false) == Some(b)
    decreases 4 - i
  {
    if i == 3 {
      Pton4Dec(b[3], "", b[..3]);
      assert Dec(b[3]) + "" == Dec(b[3]) && b[..3] + [b[3]] == b;
    } else {
      var rest := "." + Quad(b, i + 1);
      Pton4Dec(b[i], rest, b[..i]);
      assert Dec(b[i]) + "." + Quad(b, i + 1) == Dec(b[i]) + rest;
      assert rest[1..] == Quad(b, i + 1) && b[..i] + [b[i]] == b[..i + 1];
      Pton4Quad(b, i + 1);
    }
  }

  /** Reading a dotted quad gives back the bytes it was written from. */
  lemma RoundTrip4(b: seq<Byte>)
    requires |b| == 4
    ensures Pton4(Quad(b, 0), [], 0, false) == Some(b)
  {
    Pton4Quad(b, 0);
    assert b[..0] == [];
  }

  /** Where the reader of an IPv6 address stands: the bytes stored, the place of a double colon or -1,
      whether a digit of the current group has been read, and the group's value. */
  datatype Reader = Reader(bytes: seq<Byte>, colon: int, saw: bool, val: UInt16)

  function Store(r: Reader): Reader {
    r.(bytes := r.bytes + [r.val / 256, r.val % 256], saw := false, val := 0)
  }

  /** inet_pton6 from some point on; tok is the text from the start of the current group. */
  function Pton6(s: string, tok: string, r: Reader): Option<Reader>
  {
    if s == [] then Some(r)
    else
      var d := XDigit(s[0]);
      if d >= 0 then
        if r.val * 16 + d > 0xFFFF then None else Pton6(s[1..], tok, r.(saw := true, val := r.val * 16 + d))
      else if s[0] == ':' then
        if !r.saw then
          if r.colon != -1 then None else Pton6(s[1..], s[1..], r.(colon := |r.bytes|))
        else if |r.bytes| + 2 > 16 then None
        else Pton6(s[1..], s[1..], Store(r))
      else if s[0] == '.' && |r.bytes| + 4 <= 16 then
        match Pton4(tok, [], 0, false)
        case None => None
        case Some(quad) => Some(r.(bytes := r.bytes + quad, saw := false))
      else None
  }

  function Zeros(n: nat): (z: seq<Byte>)
    ensures |z| == n && forall i :: 0 <= i < n ==> z[i] == 0
  {
    seq(n, _ => 0)
  }

  /** The bytes after the double colon moved to the end.  With no room to fill, they are not moved but
      cleared all the same. */
  function Spread(bytes: seq<Byte>, colon: nat): (out: seq<Byte>)
    requires colon <= |bytes| <= 16
    ensures |out| == 16
  {
    if |bytes| == 16 then bytes[..colon] + Zeros(16 - colon)
    else bytes[..colon] + Zeros(16 - |bytes|) + bytes[colon..]
  }

  /** The end of inet_pton6: a group in progress is stored, and a double colon filled up with zeros. */
  function Finished(r: Reader): Option<seq<Byte>> {
    if r.saw && |r.bytes| + 2 > 16 then None
    else
      var t := if r.saw then Store(r) else r;
      if t.colon != -1 && 0 <= t.colon <= |t.bytes| <= 16 then
        Some(Spread(t.bytes, t.colon))
      else if |t.bytes| == 16 then Some(t.bytes)
      else None
  }

  /** inet_pton6: a leading colon must be doubled. */
  function Read6(s: string): Option<seq<Byte>> {
    if s != [] && s[0] == ':' && (|s| < 2 || s[1] != ':') then None
    else
      var t := if s != [] && s[0] == ':' then s[1..] else s;
      match Pton6(t, t, Reader([], -1, false, 0))
      case None => None
      case Some(r) => Finished(r)
  }

  function Word(b: seq<Byte>, i: nat): UInt16
    requires |b| == 16 && i < 8
  {
    256 * (b[2 * i] as int) + b[2 * i + 1] as int
  }

  /** A run of zero words. */
  ghost predicate ZeroRun(b: seq<Byte>, base: nat, len: nat) {
    |b| == 16 && base + len <= 8 && forall i :: base <= i < base + len ==> Word(b, i) == 0
  }

  /** The run that is written as a double colon: the first longest one of at least two words, or none. */
  ghost predicate Best(b: seq<Byte>, base: int, len: nat)
    requires |b| == 16
  {
    if base == -1 then forall i: nat, l: nat :: ZeroRun(b, i, l) ==> l < 2
    else
      && 0 <= base && len >= 2 && ZeroRun(b, base, len)
      && forall i: nat, l: nat :: ZeroRun(b, i, l) ==> l < len || (l == len && base <= i)
  }

  /** The last 32 bits are written as a dotted quad. */
  predicate Embedded(b: seq<Byte>, base: int, len: nat)
    requires |b| == 16
  {
    base == 0 && (len == 6 || (len == 5 && Word(b, 5) == 0xFFFF))
  }

  /** The text of the words from i on. */
  function Format(b: seq<Byte>, base: int, len: nat, i: nat): string
    requires |b| == 16 && (base == -1 || (0 <= base && len >= 2 && base + len <= 8))
    requires i <= 8
    decreases 8 - i
  {
    if i == 8 then (if base != -1 && base + len == 8 then ":" else "")
    else if i == base then ":" + Format(b, base, len, i + len)
    else
      (if i != 0 then ":" else "")
      + if i == 6 && Embedded(b, base, len) then Quad(b[12..], 0)
        else Hex(Word(b, i)) + Format(b, base, len, i + 1)
  }

  /** The bytes of the words from i to j - 1. */
  function Bytes(b: seq<Byte>, i: nat, j: nat): seq<Byte>
    requires i <= j <= 8 && |b| == 16
  {
    b[2 * i..2 * j]
  }

  lemma {:induction false} Pton6Hex(w: UInt16, rest: string, tok: string, r: Reader)
    requires !r.saw && r.val == 0
    ensures Pton6(Hex(w) + rest, tok, r) == Pton6(rest, tok, r.(saw := true, val := w))
    decreases w
  {
    if w < 16 {
      Pton6Digit(w, rest, tok, r);
    } else {
      var more := [Digit(w % 16)] + rest;
      assert Hex(w) + rest == Hex(w / 16) + more;
      Pton6Hex(w / 16, more, tok, r);
      Pton6Digit(w % 16, rest, tok, r.(saw := true, val := w / 16));
    }
  }

  lemma Pton6Digit(d: nat, rest: string, tok: string, r: Reader)
    requires d < 16 && r.val * 16 + d <= 0xFFFF
    ensures Pton6([Digit(d)] + rest, tok, r) == Pton6(rest, tok, r.(saw := true, val := r.val * 16 + d))
  {
    DigitValue(d);
    assert ([Digit(d)] + rest)[1..] == rest;
  }

  lemma Pton6Colon(rest: string, tok: string, r: Reader)
    ensures Pton6(":" + rest, tok, r) ==
            if !r.saw then if r.colon != -1 then None else Pton6(rest, rest, r.(colon := |r.bytes|))
            else if |r.bytes| + 2 > 16 then None
            else Pton6(rest, rest, Store(r))
  {
    assert (":" + rest)[1..] == rest && XDigit(':') == -1;
  }

  ghost predicate Shaped(b: seq<Byte>, base: int, len: nat) {
    |b| == 16 && (base == -1 || (0 <= base && len >= 2 && base + len <= 8 && ZeroRun(b, base, len)))
  }

  /** The words before i, without those of the run. */
  function Stored(b: seq<Byte>, base: int, len: nat, i: nat): seq<Byte>
    requires |b| == 16 && i <= 8 && (base == -1 || i <= base || (0 <= base && base + len <= i))
  {
    if base == -1 || i <= base then Bytes(b, 0, i) else Bytes(b, 0, base) + Bytes(b, base + len, i)
  }

  function ColonAt(base: int, len: nat, i: nat): int {
    if base == -1 || i <= base then -1 else 2 * base
  }

  /** After the words before i, the last of which is still being read. */
  ghost predicate AtWord(b: seq<Byte>, base: int, len: nat, i: nat, r: Reader)
    requires |b| == 16
  {
    && 0 < i <= 8 && (base == -1 || i <= base || (0 <= base && base + len < i))
    && r.saw && r.val == Word(b, i - 1) && r.bytes == Stored(b, base, len, i - 1)
       && r.colon == ColonAt(base, len, i - 1)
  }

  /** After the run, of which one colon has been read. */
  ghost predicate AtRun(b: seq<Byte>, base: int, r: Reader)
    requires |b| == 16
  {
    0 <= base < 8 && !r.saw && r.val == 0 && r.bytes == Bytes(b, 0, base) && r.colon == -1
  }

  lemma WordBytes(hi: Byte, lo: Byte)
    ensures var w := 256 * (hi as int) + lo as int; w / 256 == hi && w % 256 == lo
  {
  }

  lemma StoreStored(b: seq<Byte>, base: int, len: nat, i: nat, r: Reader)
    requires Shaped(b, base, len) && AtWord(b, base, len, i, r)
    ensures Store(r).bytes == Stored(b, base, len, i) && |r.bytes| <= 14
  {
    WordBytes(b[2 * (i - 1)], b[2 * (i - 1) + 1]);
    assert b[2 * (i - 1)..2 * i] == [b[2 * (i - 1)], b[2 * (i - 1) + 1]];
    if base == -1 || i <= base {
      assert Bytes(b, 0, i) == Bytes(b, 0, i - 1) + Bytes(b, i - 1, i);
    } else {
      assert Bytes(b, base + len, i) == Bytes(b, base + len, i - 1) + Bytes(b, i - 1, i);
    }
  }

  lemma RunIsZero(b: seq<Byte>, base: nat, len: nat)
    requires ZeroRun(b, base, len)
    ensures Bytes(b, base, base + len) == Zeros(2 * len)
  {
    var run := Bytes(b, base, base + len);
    forall i | 0 <= i < |run| ensures run[i] == 0 {
      assert Word(b, base + i / 2) == 0;
      assert i == 2 * (i / 2) || i == 2 * (i / 2) + 1;
    }
  }

  /** The run filled in again. */
  lemma SpreadStored(b: seq<Byte>, base: int, len: nat)
    requires Shaped(b, base, len)
    ensures base == -1 ==> Stored(b, base, len, 8) == b
    ensures base != -1 ==> Spread(Stored(b, base, len, 8), 2 * base) == b
  {
    if base != -1 {
      RunIsZero(b, base, len);
      assert b == Bytes(b, 0, base) + Bytes(b, base, base + len) + Bytes(b, base + len, 8);
    }
  }

  /** The dotted quad at the end: its first group is read as hexadecimal up to the dot, then from its
      start again. */
  lemma Pton6Quad(b: seq<Byte>, r: Reader)
    requires |b| == 4 && !r.saw && r.val == 0 && |r.bytes| <= 12
    ensures var e := Pton6(Quad(b, 0), Quad(b, 0), r);
      e.Some? && e.value.bytes == r.bytes + b && !e.value.saw && e.value.colon == r.colon
  {
    hide Pton4, Pton6, Dec;
    var rest := "." + Quad(b, 1);
    assert Quad(b, 0) == Dec(b[0]) + rest;
    var v := Pton6Dec(b[0], rest, Quad(b, 0), r);
    RoundTrip4(b);
    Pton6Dot(rest, Quad(b, 0), r.(saw := true, val := v));
  }

  lemma Pton6Dot(s: string, tok: string, r: Reader)
    requires s != [] && s[0] == '.' && |r.bytes| <= 12
    ensures Pton6(s, tok, r) ==
            match Pton4(tok, [], 0, false)
            case None => None
            case Some(quad) => Some(r.(bytes := r.bytes + quad, saw := false))
  {
    hide Pton4;
  }

  lemma Pton6Dec(u: Byte, rest: string, tok: string, r: Reader) returns (v: UInt16)
    requires !r.saw && r.val == 0
    ensures Pton6(Dec(u) + rest, tok, r) == Pton6(rest, tok, r.(saw := true, val := v))
  {
    hide Pton6;
    if u > 99 {
      var a, b, c := u / 100, u % 100 / 10, u % 10;
      assert Dec(u) + rest == [Digit(a)] + ([Digit(b)] + ([Digit(c)] + rest));
      Pton6Digit(a, [Digit(b)] + ([Digit(c)] + rest), tok, r);
      Pton6Digit(b, [Digit(c)] + rest, tok, r.(saw := true, val := a));
      Pton6Digit(c, rest, tok, r.(saw := true, val := a * 16 + b));
      v := (a * 16 + b) * 16 + c;
    } else if u > 9 {
      var a, b := u / 10, u % 10;
      assert Dec(u) + rest == [Digit(a)] + ([Digit(b)] + rest);
      Pton6Digit(a, [Digit(b)] + rest, tok, r);
      Pton6Digit(b, rest, tok, r.(saw := true, val := a));
      v := a * 16 + b;
    } else {
      Pton6Digit(u, rest, tok, r);
      v := u;
    }
  }

  ghost predicate Reads(e: Option<Reader>, b: seq<Byte>) {
    e.Some? && Finished(e.value) == Some(b)
  }

  lemma FormatIs(b: seq<Byte>, base: int, len: nat, i: nat)
    requires Shaped(b, base, len) && 0 < i <= 8
    ensures i == 8 ==> Format(b, base, len, i) == if base != -1 && base + len == 8 then ":" else ""
    ensures i < 8 ==> Format(b, base, len, i) == ":" + After(b, base, len, i)
  {
  }

  /** The text after the colon that stands before word i. */
  function After(b: seq<Byte>, base: int, len: nat, i: nat): string
    requires |b| == 16 && (base == -1 || (0 <= base && len >= 2 && base + len <= 8)) && i < 8
  {
    if i == base then Format(b, base, len, i + len)
    else if i == 6 && Embedded(b, base, len) then Quad(b[12..], 0)
    else Hex(Word(b, i)) + Format(b, base, len, i + 1)
  }

  lemma FinishWord(b: seq<Byte>, base: int, len: nat, r: Reader)
    requires Shaped(b, base, len) && AtWord(b, base, len, 8, r)
    ensures Finished(r) == Some(b)
  {
    StoreStored(b, base, len, 8, r);
    SpreadStored(b, base, len);
  }

  lemma FinishRun(b: seq<Byte>, base: int, len: nat, r: Reader)
    requires Shaped(b, base, len) && 0 <= base && base + len == 8
    requires !r.saw && r.bytes == Bytes(b, 0, base) && r.colon == 2 * base
    ensures Finished(r) == Some(b)
  {
    SpreadStored(b, base, len);
    assert Stored(b, base, len, 8) == r.bytes;
  }

  /** From a word on: the rest of the text gives back all 16 bytes. */
  lemma {:induction false} ReadsFromWord(b: seq<Byte>, base: int, len: nat, i: nat, tok: string, r: Reader)
    requires Shaped(b, base, len) && AtWord(b, base, len, i, r)
    ensures Reads(Pton6(Format(b, base, len, i), tok, r), b)
    decreases 8 - i
  {
    hide Pton6, Hex, Quad, Format, Finished, Bytes;
    FormatIs(b, base, len, i);
    if i == 8 {
      FinishWord(b, base, len, r);
      Pton6End(tok, r);
    } else {
      StoreStored(b, base, len, i, r);
      var rest := After(b, base, len, i);
      Pton6Colon(rest, tok, r);
      if i == base {
        ReadsFromRun(b, base, len, rest, Store(r));
      } else if i == 6 && Embedded(b, base, len) {
        QuadAtEnd(b, base, len, Store(r));
      } else {
        Pton6Hex(Word(b, i), Format(b, base, len, i + 1), rest, Store(r));
        ReadsFromWord(b, base, len, i + 1, rest, Store(r).(saw := true, val := Word(b, i)));
      }
    }
  }

  lemma Pton6End(tok: string, r: Reader)
    ensures Pton6("", tok, r) == Some(r)
  {
  }

  lemma QuadAtEnd(b: seq<Byte>, base: int, len: nat, r: Reader)
    requires Shaped(b, base, len) && Embedded(b, base, len)
    requires !r.saw && r.val == 0 && r.bytes == Stored(b, base, len, 6) && r.colon == 0
    ensures Reads(Pton6(Quad(b[12..], 0), Quad(b[12..], 0), r), b)
  {
    hide Pton6, Quad, Spread;
    Pton6Quad(b[12..], r);
    SpreadStored(b, base, len);
    assert Stored(b, base, len, 6) + b[12..] == Stored(b, base, len, 8);
  }

  lemma {:induction false} ReadsFromRun(b: seq<Byte>, base: int, len: nat, tok: string, r: Reader)
    requires Shaped(b, base, len) && AtRun(b, base, r)
    ensures Reads(Pton6(Format(b, base, len, base + len), tok, r), b)
    decreases 8 - (base + len)
  {
    hide Pton6, Hex, Quad, Format, Finished;
    var i := base + len;
    FormatIs(b, base, len, i);
    if i == 8 {
      Pton6Colon("", tok, r);
      FinishRun(b, base, len, r.(colon := |r.bytes|));
      Pton6End("", r.(colon := |r.bytes|));
      assert ":" + "" == ":";
    } else {
      var rest, r' := After(b, base, len, i), r.(colon := |r.bytes|);
      Pton6Colon(rest, tok, r);
      assert Stored(b, base, len, i) == r.bytes + [];
      if i == 6 && Embedded(b, base, len) {
        QuadAtEnd(b, base, len, r');
      } else {
        Pton6Hex(Word(b, i), Format(b, base, len, i + 1), rest, r');
        ReadsFromWord(b, base, len, i + 1, rest, r'.(saw := true, val := Word(b, i)));
      }
    }
  }

  lemma {:induction false} HexStart(w: UInt16)
    ensures Hex(w) != [] && Hex(w)[0] != ':'
    decreases w
  {
    if w < 16 {
      DigitValue(w);
    } else {
      HexStart(w / 16);
    }
  }

  lemma FormatStep(b: seq<Byte>, base: int, len: nat, i: nat)
    requires Shaped(b, base, len) && i < 8
    ensures Format(b, base, len, i) ==
      if i == base then ":" + Format(b, base, len, i + len)
      else
        (if i != 0 then ":" else "")
        + if i == 6 && Embedded(b, base, len) then Quad(b[12..], 0)
          else Hex(Word(b, i)) + Format(b, base, len, i + 1)
  {
  }

  /** Reading the text of an IPv6 address gives back its bytes, whichever run of zeros is abbreviated. */
  lemma RoundTrip6(b: seq<Byte>, base: int, len: nat)
    requires Shaped(b, base, len)
    ensures Read6(Format(b, base, len, 0)) == Some(b)
  {
    hide Pton6, Hex, Finished, Format;
    var start := Reader([], -1, false, 0);
    var s := Format(b, base, len, 0);
    FormatStep(b, base, len, 0);
    if base == 0 {
      var t := Format(b, base, len, len);
      FormatIs(b, base, len, len);
      assert s == ":" + t && t != [] && t[0] == ':' && s[1..] == t;
      ReadsFromRun(b, base, len, t, start);
    } else {
      HexStart(Word(b, 0));
      var rest := Format(b, base, len, 1);
      assert s == Hex(Word(b, 0)) + rest && s[0] != ':';
      Pton6Hex(Word(b, 0), rest, s, start);
      ReadsFromWord(b, base, len, 1, s, start.(saw := true, val := Word(b, 0)));
    }
  }

  /** A double colon in a full address is not ignored: with all 16 bytes stored, the last group perhaps
      only at the end of the text, it survives only if everything after it is 0. */
  lemma FullColon(r: Reader)
    requires |r.bytes| == (if r.saw then 14 else 16) && 0 <= r.colon <= 16
    ensures var t := if r.saw then Store(r) else r;
      && Finished(r) == Some(t.bytes[..r.colon] + Zeros(16 - r.colon))
      && (Finished(r) == Some(t.bytes) <==> forall j :: r.colon <= j < 16 ==> t.bytes[j] == 0)
  {
    var t := if r.saw then Store(r) else r;
    var out := Spread(t.bytes, t.colon);
    if forall j :: r.colon <= j < 16 ==> t.bytes[j] == 0 {
      assert out == t.bytes;
    } else {
      var j :| r.colon <= j < 16 && t.bytes[j] != 0;
      assert out[j] == 0;
    }
  }

  /** The text of all eight words from i on, with a double colon before word k or at the end. */
  function Doubled(b: seq<Byte>, k: nat, i: nat): string
    requires |b| == 16 && i <= 8
    decreases 8 - i
  {
    if i == 8 then (if k == 8 then "::" else "")
    else
      var rest := Hex(Word(b, i)) + Doubled(b, k, i + 1);
      if i == k then ":" + (":" + rest) else if i > 0 then ":" + rest else rest
  }

  /** All words before i are read, the last of them still as digits, and the double colon if it was there. */
  ghost predicate AtDoubled(b: seq<Byte>, k: nat, i: nat, r: Reader)
    requires |b| == 16
  {
    0 < i <= 8 && r == Reader(Bytes(b, 0, i - 1), if k < i then 2 * k else -1, true, Word(b, i - 1))
  }

  lemma StoreDoubled(b: seq<Byte>, k: nat, i: nat, r: Reader)
    requires |b| == 16 && AtDoubled(b, k, i, r)
    ensures Store(r).bytes == Bytes(b, 0, i) && |r.bytes| + 2 <= 16
  {
    WordBytes(b[2 * (i - 1)], b[2 * (i - 1) + 1]);
    assert b[2 * (i - 1)..2 * i] == [b[2 * (i - 1)], b[2 * (i - 1) + 1]];
    assert Bytes(b, 0, i) == Bytes(b, 0, i - 1) + Bytes(b, i - 1, i);
  }

  /** What comes after the first k words is cleared. */
  function Cleared(b: seq<Byte>, k: nat): seq<Byte>
    requires |b| == 16 && k <= 8
  {
    b[..2 * k] + Zeros(16 - 2 * k)
  }

  lemma DoubledEnd(b: seq<Byte>, k: nat, r: Reader)
    requires |b| == 16 && k < 8 && AtDoubled(b, k, 8, r)
    ensures Finished(r) == Some(Cleared(b, k))
  {
    StoreDoubled(b, k, 8, r);
    assert Bytes(b, 0, 8) == b;
    FullColon(r);
  }

  lemma DoubledLast(b: seq<Byte>, tok: string, r: Reader)
    requires |b| == 16 && AtDoubled(b, 8, 8, r)
    ensures Reads(Pton6("::", tok, r), Cleared(b, 8))
  {
    hide Pton6, Finished;
    assert "::" == ":" + ":" && ":" == ":" + "";
    StoreDoubled(b, 8, 8, r);
    Pton6Colon(":", tok, r);
    Pton6Colon("", ":", Store(r));
    Pton6End("", Store(r).(colon := 16));
    assert Bytes(b, 0, 8) == b;
    FullColon(Store(r).(colon := 16));
  }

  /** Word i and what follows it. */
  function DoubledFrom(b: seq<Byte>, k: nat, i: nat): string
    requires |b| == 16 && i < 8
  {
    Hex(Word(b, i)) + Doubled(b, k, i + 1)
  }

  lemma DoubledIs(b: seq<Byte>, k: nat, i: nat)
    requires |b| == 16 && i < 8
    ensures Doubled(b, k, i) ==
      if i == k then ":" + (":" + DoubledFrom(b, k, i)) else if i > 0 then ":" + DoubledFrom(b, k, i)
        else DoubledFrom(b, k, i)
  {
    hide Hex, Word;
  }

  /** The reader over word i. */
  lemma OverWord(b: seq<Byte>, k: nat, i: nat, tok: string, r: Reader)
    requires |b| == 16 && i < 8 && !r.saw && r.val == 0
    ensures Pton6(DoubledFrom(b, k, i), tok, r) == Pton6(Doubled(b, k, i + 1), tok, r.(saw := true, val := Word(b, i)))
  {
    hide Pton6, Hex, Doubled;
    Pton6Hex(Word(b, i), Doubled(b, k, i + 1), tok, r);
  }

  lemma {:induction false} ReadsDoubled(b: seq<Byte>, k: nat, i: nat, tok: string, r: Reader)
    requires |b| == 16 && k <= 8 && AtDoubled(b, k, i, r)
    ensures Reads(Pton6(Doubled(b, k, i), tok, r), Cleared(b, k))
    decreases 8 - i
  {
    hide Pton6, Hex, Finished, Doubled, DoubledFrom, Word, Cleared, Reads, Bytes;
    if i == 8 {
      DoubledAtEnd(b, k);
      if k == 8 {
        DoubledLast(b, tok, r);
      } else {
        DoubledEnd(b, k, r);
        FinishedReads(tok, r, Cleared(b, k));
      }
    } else {
      StoreDoubled(b, k, i, r);
      DoubledIs(b, k, i);
      BytesLength(b, i);
      var word := DoubledFrom(b, k, i);
      if i == k {
        Pton6Colon(":" + word, tok, r);
        Pton6Colon(word, ":" + word, Store(r));
        OverWord(b, k, i, word, Store(r).(colon := 2 * k));
      } else {
        Pton6Colon(word, tok, r);
        OverWord(b, k, i, word, Store(r));
      }
      ReadsDoubled(b, k, i + 1, word, Reader(Bytes(b, 0, i), if k < i + 1 then 2 * k else -1, true, Word(b, i)));
    }
  }

  lemma BytesLength(b: seq<Byte>, i: nat)
    requires |b| == 16 && i <= 8
    ensures |Bytes(b, 0, i)| == 2 * i
  {
  }

  lemma FinishedReads(tok: string, r: Reader, b: seq<Byte>)
    requires Finished(r) == Some(b)
    ensures Reads(Pton6("", tok, r), b)
  {
    hide Finished;
    Pton6End(tok, r);
  }

  lemma DoubledAtEnd(b: seq<Byte>, k: nat)
    requires |b| == 16
    ensures Doubled(b, k, 8) == if k == 8 then "::" else ""
  {
  }

  /** A text of all eight groups and a double colon is taken, wherever the double colon stands, but the
      groups behind it are read as 0. */
  lemma FullColonText(b: seq<Byte>, k: nat)
    requires |b| == 16 && k <= 8
    ensures Read6(Doubled(b, k, 0)) == Some(Cleared(b, k))
  {
    hide Pton6, Finished, Doubled, Word, Cleared, Bytes;
    var start, word := Reader([], -1, false, 0), DoubledFrom(b, k, 0);
    DoubledIs(b, k, 0);
    BytesLength(b, 0);
    if k == 0 {
      var t := ":" + word;
      assert (":" + t)[1..] == t;
      Pton6Colon(word, t, start);
      OverWord(b, k, 0, word, start.(colon := 0));
      ReadsDoubled(b, k, 1, word, Reader([], 0, true, Word(b, 0)));
    } else {
      assert word[0] != ':' && word != [] by {
        HexStart(Word(b, 0));
      }
      OverWord(b, k, 0, word, start);
      ReadsDoubled(b, k, 1, word, Reader([], -1, true, Word(b, 0)));
    }
  }

  /** One group of one digit. */
  lemma DoubledDigit(b: seq<Byte>, k: nat, i: nat, rest: string, text: string)
    requires |b| == 16 && i < 8 && Word(b, i) < 10 && Doubled(b, k, i + 1) == rest
    requires text == (if i == k then "::" else if i > 0 then ":" else "") + [Digit(Word(b, i))] + rest
    ensures Doubled(b, k, i) == text
  {
  }

  lemma CountEnd(b: seq<Byte>)
    requires |b| == 16 && forall i :: 0 <= i < 8 ==> Word(b, i) == i + 1
    ensures Doubled(b, 4, 4) == "::5:6:7:8"
  {
    hide Doubled, Word;
    DoubledAtEnd(b, 4);
    DoubledDigit(b, 4, 7, "", ":8");
    DoubledDigit(b, 4, 6, ":8", ":7:8");
    DoubledDigit(b, 4, 5, ":7:8", ":6:7:8");
    DoubledDigit(b, 4, 4, ":6:7:8", "::5:6:7:8");
  }

  lemma CountText(b: seq<Byte>)
    requires |b| == 16 && forall i :: 0 <= i < 8 ==> Word(b, i) == i + 1
    ensures Doubled(b, 4, 0) == "1:2:3:4::5:6:7:8"
  {
    hide Doubled, Word;
    CountEnd(b);
    DoubledDigit(b, 4, 3, "::5:6:7:8", ":4::5:6:7:8");
    DoubledDigit(b, 4, 2, ":4::5:6:7:8", ":3:4::5:6:7:8");
    DoubledDigit(b, 4, 1, ":3:4::5:6:7:8", ":2:3:4::5:6:7:8");
    DoubledDigit(b, 4, 0, ":2:3:4::5:6:7:8", "1:2:3:4::5:6:7:8");
  }

  /** For example, this reads as 1:2:3:4:0:0:0:0. */
  lemma FullColonExample()
    ensures Read6("1:2:3:4::5:6:7:8") == Some([0, 1, 0, 2, 0, 3, 0, 4, 0, 0, 0, 0, 0, 0, 0, 0])
  {
    hide Read6, Doubled;
    var b: seq<Byte> := [0, 1, 0, 2, 0, 3, 0, 4, 0, 5, 0, 6, 0, 7, 0, 8];
    FullColonText(b, 4);
    CountText(b);
    assert Cleared(b, 4) == [0, 1, 0, 2, 0, 3, 0, 4, 0, 0, 0, 0, 0, 0, 0, 0];
  }
}
