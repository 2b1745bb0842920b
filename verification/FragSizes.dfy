/** Balanced fragment sizes: the arithmetic that IPv4FragandIPinIP of packet.c does behind 48 bytes
    of IPv6 headers and pkt_fraghandle of defrag6.c and fragment.c behind 20 bytes of IPv4 header. */
module FragSizes {
  import opened Arith

  const MIN_MTU := 1280

  /** x & ~7. */
  function Floor8(x: nat): (y: nat)
    ensures y % 8 == 0 && y <= x < y + 8
  {
    x / 8 * 8
  }

  /** (x + 7) & ~7. */
  function Ceil8(x: nat): (y: nat)
    ensures y % 8 == 0 && x <= y < x + 8
  {
    Floor8(x + 7)
  }

  /** The number of fragments of at most f bytes. */
  function Pieces(len: nat, f: nat): nat
    requires f > 0
  {
    if Mod(len, f) == 0 then Div(len, f) else Div(len, f) + 1
  }

  /** n is len / f, rounded up. */
  ghost predicate CountFor(len: nat, f: nat, n: nat) {
    (n - 1) * f < len <= n * f
  }

  lemma PiecesBound(len: nat, f: nat)
    requires f > 0
    ensures var n := Pieces(len, f);
            (len > 0 ==> CountFor(len, f, n)) && (n == 0 <==> len == 0) && (n == 1 ==> len <= f)
  {
    hide Div, Mod;
    DivBounds(len, f);
    Distribute(Div(len, f), 1, f);
  }

  lemma PiecesIs(len: nat, f: nat)
    requires f > 0
    ensures Pieces(len, f) == if Mod(len, f) == 0 then Div(len, f) else Div(len, f) + 1
  {
  }

  /** A size for the fragments after the first and one for the first, for n fragments of at most f bytes. */
  ghost predicate Balanced(len: nat, f: nat, n: nat, first: nat, other: nat) {
    && first % 8 == 0 && other % 8 == 0
    && 0 < other <= first <= f
    && n > 0 && len <= first + Times(n - 1, other)
  }

  /** The medium size other lies within 8 of the mean len / n, and is much more than 8 * n. */
  lemma MediumSize(len: nat, f: nat, n: nat, other: nat)
    requires f >= 1224 && n >= 2 && CountFor(len, f, n) && len <= 65535
    requires other == Floor8(Div(len, n))
    ensures n <= 54 && 600 < other <= f
    ensures Times(n, other) <= len < Times(n, other) + 8 * n
  {
    FewPieces(len, f, n);
    hide Div;
    var q := Div(len, n);
    DivBounds(len, n);
    Distribute(q, 1, n);
    HalfSize(len, f, n, q);
    MulMono(other, q, n);
    MulMono(q + 1, other + 8, n);
    Distribute(other, 8, n);
    TimesIs(n, other);
    if q > f {
      MulMono(f + 1, q, n);
      Distribute(f, 1, n);
    }
  }

  lemma FewPieces(len: nat, f: nat, n: nat)
    requires f >= 1224 && n >= 2 && (n - 1) * f < len <= 65535
    ensures n <= 54
  {
    if n > 54 {
      MulMono(54, n - 1, f);
    }
  }

  /** No datagram makes more than 54 pieces. */
  lemma FewPiecesAlways(len: nat, f: nat)
    requires f >= 1224 && 0 < len <= 65535
    ensures 0 < Pieces(len, f) <= 54
  {
    hide Pieces;
    PiecesBound(len, f);
    if Pieces(len, f) >= 2 {
      FewPieces(len, f, Pieces(len, f));
    }
  }

  lemma HalfSize(len: nat, f: nat, n: nat, q: nat)
    requires f >= 1224 && 2 <= n <= 54 && (n - 1) * f < len < (q + 1) * n
    ensures q >= 611
  {
    if q < 611 {
      MulMono(q + 1, 611, n);
      MulMono(1224, f, n - 1);
    }
  }

  /** No subtraction goes below zero, and what is left for the first fragment fits, if necessary after
      the switch to the bigger size; fn, on and p stand for the products. */
  lemma FirstFits(len: nat, f: nat, n: nat, other: nat, fn: nat, on: nat, p: nat)
    requires f % 8 == 0 && other % 8 == 0 && 2 <= n <= 54 && 600 < other <= f
    requires on <= len < on + 8 * n && len <= fn && p + other == on && (other == f ==> on == fn)
    ensures p + 8 * (n - 1) <= len
    ensures Ceil8(len - p) > f ==> other + 8 <= f && Ceil8(len - (p + 8 * (n - 1))) <= other + 8
  {
  }

  /** The first size, as the remainder or else as big as the others. */
  function First(len: nat, f: nat, n: nat, other: nat): int {
    len - other * (n - 1)
  }

  lemma FirstSize(len: nat, f: nat, n: nat, other: nat)
    requires f >= 1224 && f % 8 == 0 && n >= 2 && CountFor(len, f, n) && len <= 65535
    requires other == Floor8(Div(len, n))
    ensures 0 < other <= f && First(len, f, n, other) >= 0 && First(len, f, n, other + 8) >= 0
    ensures Ceil8(First(len, f, n, other)) > f ==> other + 8 <= f && Ceil8(First(len, f, n, other + 8)) <= other + 8
  {
    hide Div, Floor8, First, CountFor, Times;
    MediumSize(len, f, n, other);
    FirstProducts(len, f, n, other);
    FirstFits(len, f, n, other, Times(n, f), Times(n, other), Times(n - 1, other));
  }

  /** The sizes of n fragments of at most f bytes, in one formula: all of the lower medium size, and the first
      one what is left, rounded up; or all 8 bytes bigger, if that would not fit. */
  function SizesOf(len: nat, f: nat, n: nat): (sizes: (int, int))
    requires n > 0
  {
    var m := Floor8(Div(len, n));
    var left := First(len, f, n, m);
    var first := (left + 7) / 8 * 8;
    if first <= f then (first, m) else (m + 8, m + 8)
  }

  /** Every size but the first and the last is the mean, give or take 8 bytes, and the first one is not much
      bigger. */
  lemma SizesAreMean(len: nat, f: nat, n: nat)
    requires f >= 1224 && f % 8 == 0 && n >= 2 && CountFor(len, f, n) && len <= 65535
    ensures var (first, other) := SizesOf(len, f, n);
      (other - 8) * n <= len < (other + 8) * n && other <= first < other + 8 * n + 8
  {
    hide Div, Floor8, First, CountFor, Times;
    var m := Floor8(Div(len, n));
    MediumSize(len, f, n, m);
    FirstProducts(len, f, n, m);
    FirstSize(len, f, n, m);
    TimesIs(n, m);
    Distribute(m, 8, n);
    Distribute(m, -8, n);
    Distribute(m, 16, n);
  }

  lemma TimesIs(n: nat, x: nat)
    ensures Times(n, x) == x * n
  {
  }

  lemma FirstProducts(len: nat, f: nat, n: nat, other: nat)
    requires n > 0 && CountFor(len, f, n)
    ensures First(len, f, n, other) == len - Times(n - 1, other)
    ensures First(len, f, n, other + 8) == len - (Times(n - 1, other) + 8 * (n - 1))
    ensures Times(n - 1, other) + other == Times(n, other) && len <= Times(n, f)
  {
    TimesIs(n - 1, other);
    TimesNext(n - 1, other);
    Distribute(other, 8, n - 1);
  }

  /** The sizes as both functions compute them. */
  method Balance(len: nat, mtu: nat, header: nat) returns (nfrag: nat, flen0: nat, fleno: nat)
    requires 0 < len <= 65535 && mtu >= MIN_MTU && (header == 48 || header == 20)
    ensures nfrag == Pieces(len, Floor8(mtu - header))
    ensures len > mtu - header ==> nfrag >= 2 && Balanced(len, Floor8(mtu - header), nfrag, flen0, fleno)
    ensures len > mtu - header ==> (flen0, fleno) == SizesOf(len, Floor8(mtu - header), nfrag)
  {
    hide First, Floor8, Balanced, Div, Mod, Pieces, CountFor;
    var fmtu := Floor8(mtu - header);
    PiecesBound(len, fmtu);
    PiecesIs(len, fmtu);
    nfrag := Div(len, fmtu);
    if Mod(len, fmtu) != 0 {
      nfrag := nfrag + 1;
    }
    fleno := Floor8(Div(len, nfrag));
    if nfrag > 1 {
      FirstSize(len, fmtu, nfrag, fleno);
      SizesAre(len, fmtu, nfrag, fleno);
    } else {
      SinglePiece(len, fmtu);
    }
    flen0 := First(len, fmtu, nfrag, fleno);
    flen0 := Ceil8(flen0);
    if flen0 > fmtu {
      fleno := fleno + 8;
      flen0 := First(len, fmtu, nfrag, fleno);
      flen0 := Ceil8(flen0);
    }
    if flen0 < fleno {
      flen0 := fleno;
    }
    if nfrag > 1 {
      IsBalanced(len, fmtu, nfrag, flen0, fleno);
    }
  }

  lemma SizesAre(len: nat, f: nat, n: nat, m: nat)
    requires f >= 1224 && f % 8 == 0 && n >= 2 && CountFor(len, f, n) && len <= 65535 && m == Floor8(Div(len, n))
    ensures First(len, f, n, m) >= m && First(len, f, n, m + 8) >= 0
    ensures SizesOf(len, f, n) ==
            if Ceil8(First(len, f, n, m)) <= f then (Ceil8(First(len, f, n, m)), m) else (m + 8, m + 8)
    ensures Ceil8(First(len, f, n, m)) > f ==> Ceil8(First(len, f, n, m + 8)) <= m + 8
  {
    hide Div, First, CountFor, Times;
    MediumSize(len, f, n, m);
    FirstProducts(len, f, n, m);
    FirstSize(len, f, n, m);
  }

  lemma IsBalanced(len: nat, f: nat, n: nat, first: nat, other: nat)
    requires n > 0 && first % 8 == 0 && other % 8 == 0 && 0 < other <= first <= f && First(len, f, n, other) <= first
    ensures Balanced(len, f, n, first, other)
  {
  }

  lemma SinglePiece(len: nat, f: nat)
    requires len <= f && f % 8 == 0
    ensures First(len, f, 1, Floor8(Div(len, 1))) == len && Ceil8(len) <= f
  {
  }
}
