/** Facts about products and quotients of variables, and about sizes of sets. */
module Arith {
  lemma MulMono(a: int, b: int, c: nat)
    requires a <= b
    ensures a * c <= b * c
  {
  }

  lemma Distribute(a: int, b: int, c: int)
    ensures (a + b) * c == a * c + b * c
  {
  }

  lemma DivMod(a: nat, d: nat)
    requires d > 0
    ensures a == a / d * d + a % d && a / d * d <= a < (a / d + 1) * d
  {
  }

  /** The quotient is the only q with q * d <= a < (q + 1) * d. */
  lemma DivUnique(a: nat, d: nat, q: nat)
    requires d > 0 && q * d <= a < q * d + d
    ensures a / d == q && a % d == a - q * d
  {
    var p := a / d;
    DivMod(a, d);
    if p < q {
      MulMono(p + 1, q, d);
    } else if q < p {
      MulMono(q + 1, p, d);
    }
  }

  /** Multiples of d are d apart. */
  lemma Multiples(a: nat, b: nat, d: nat)
    requires d > 0 && a % d == 0 && b % d == 0 && a < b
    ensures a + d <= b
  {
    DivMod(a, d);
    DivMod(b, d);
    if b / d <= a / d {
      MulMono(b / d, a / d, d);
    } else {
      MulMono(a / d + 1, b / d, d);
    }
  }

  lemma NextMultiple(a: nat, d: nat)
    requires d > 0 && a % d == 0
    ensures (a + d) % d == 0
  {
    DivMod(a, d);
    DivUnique(a + d, d, a / d + 1);
  }

  /** The quotient and the remainder of natural numbers, by what they are for. */
  function Div(a: nat, d: nat): (q: nat)
    requires d > 0
  {
    a / d
  }

  lemma DivBounds(a: nat, d: nat)
    requires d > 0
    ensures Div(a, d) * d <= a < Div(a, d) * d + d && a == Div(a, d) * d + Mod(a, d)
  {
  }

  function Mod(a: nat, d: nat): (r: nat)
    requires d > 0
    ensures r < d
  {
    a % d
  }

  function Times(k: nat, s: nat): nat {
    k * s
  }

  lemma TimesNext(k: nat, s: nat)
    ensures Times(0, s) == 0 && Times(k + 1, s) == Times(k, s) + s
  {
    Distribute(k, 1, s);
  }

  lemma TimesMono(k: nat, m: nat, s: nat)
    requires k <= m
    ensures Times(k, s) <= Times(m, s)
  {
    MulMono(k, m, s);
  }

  lemma Subset<T>(a: set<T>, b: set<T>)
    requires a <= b
    ensures |a| <= |b|
  {
    assert b == a + (b - a);
  }
}
